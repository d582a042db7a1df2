/**
 * The e-mail side of the server: the subject and body `send_email` chooses, and the
 * decision of the daily check to send a notification at all.
 */
module Notifier {
  import opened Wrappers
  import opened Text

  const TestBody: string := "\U{1F4E8} This is a test email from Supabase Notifier."
  const TestSubject: string := "Test Email - Supabase Notifier"

  datatype Email = Email(subject: string, body: string)

  /** The subject of the notification for `count` new entries. */
  function NotificationSubject(count: int): string {
    "Supabase Notification: " + IntToString(count) + " new entries"
  }

  /** The body of the notification for `count` new entries. */
  function NotificationBody(count: int): string {
    IntToString(count) + " new contact message(s) were submitted in the last 24 hours."
  }

  /** The message `send_email(count, test)` composes. */
  function EmailContent(count: int, test: bool): (m: Email)
    ensures test ==> m == Email(TestSubject, TestBody)
    ensures !test ==> m == Email(NotificationSubject(count), NotificationBody(count))
  {
    if test then Email(TestSubject, TestBody)
    else Email(NotificationSubject(count), NotificationBody(count))
  }

  /** The test message does not depend on the count. */
  lemma TestIgnoresCount(a: int, b: int)
    ensures EmailContent(a, true) == EmailContent(b, true)
  {
  }

  /** A notification names its count: the subject the count is printed into tells it back. */
  lemma NotificationSubjectInjective(a: int, b: int)
    requires NotificationSubject(a) == NotificationSubject(b)
    ensures a == b
  {
    var p := "Supabase Notification: ";
    var sa, sb := IntToString(a), IntToString(b);
    assert NotificationSubject(a)[|p|..] == sa + " new entries";
    assert NotificationSubject(b)[|p|..] == sb + " new entries";
    assert (sa + " new entries")[..|sa|] == sa;
    assert (sb + " new entries")[..|sb|] == sb;
    IntToStringInjective(a, b);
  }

  /** A notification body starts with the printed count, so it too tells the count back. */
  lemma NotificationBodyInjective(a: int, b: int)
    requires NotificationBody(a) == NotificationBody(b)
    ensures a == b
  {
    var t := " new contact message(s) were submitted in the last 24 hours.";
    var sa, sb := IntToString(a), IntToString(b);
    assert |sa| == |sb| by { assert |sa + t| == |sb + t|; }
    assert (sa + t)[..|sa|] == sa && (sb + t)[..|sb|] == sb;
    IntToStringInjective(a, b);
  }

  /** A notification is never mistaken for the test message. */
  lemma NotificationIsNotTest(count: int)
    ensures EmailContent(count, false).subject != TestSubject
  {
    var s := EmailContent(count, false).subject;
    assert s[0] == 'S' != TestSubject[0];
  }

  /** `check_new_entries` after counting `count` entries: it sends a notification only for a positive count. */
  function DailyCheck(count: nat): (r: Option<Email>)
    ensures r.Some? <==> count > 0
    ensures r.Some? ==> r.value == EmailContent(count, false)
  {
    if count > 0 then Some(EmailContent(count, false)) else None
  }

  /** The test-e-mail endpoint always sends the test message. */
  function TestEmailRequest(): (m: Email)
    ensures m == Email(TestSubject, TestBody)
  {
    EmailContent(0, true)
  }
}
