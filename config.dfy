/**
 * The server's configuration: the table built from the environment at start-up and
 * the check that refuses to start when a required setting is missing.
 */
module Config {
  import opened Wrappers
  import opened Text

  /** The environment variables the server reads; `None` where a variable is not set. */
  datatype Environment = Environment(
    supabaseUrl: Option<string>,
    supabaseKey: Option<string>,
    email: Option<string>,
    emailPassword: Option<string>,
    toEmail: Option<string>,
    smtpServer: Option<string>,
    smtpPort: Option<string>,
    dailyReportHour: Option<string>,
    pageSize: Option<string>)

  /** A configuration value: a string or `None` from `os.getenv`, or an integer from `int()`. */
  datatype Value = Text(text: Option<string>) | Number(number: int)

  datatype Entry = Entry(key: string, value: Value)

  /**
   * Start-up stops with a `ValueError`: `int()` refused a text (its message quotes
   * that text, not the variable), or a required setting is missing (the message
   * names the key).
   */
  datatype StartupError = NotAnInteger(text: string) | MissingVariable(variable: string)

  const DefaultSmtpServer: string := "smtp.gmail.com"
  const DefaultSmtpPort: int := 465
  const DefaultReportHour: int := 8
  const DefaultPageSize: int := 5

  /** `int(os.getenv(name, fallback))` for an integer `fallback`. */
  function IntSetting(v: Option<string>, fallback: int): (r: Result<int, StartupError>)
    ensures v.None? ==> r == Success(fallback)
    ensures v.Some? ==> (r.Success? <==> ParseInt(v.value).Some?)
    ensures v.Some? && r.Success? ==> r.value == ParseInt(v.value).value
    ensures r.Failure? ==> r.error == NotAnInteger(v.value)
  {
    if v.None? then Success(fallback)
    else match ParseInt(v.value)
      case Some(n) => Success(n)
      case None => Failure(NotAnInteger(v.value))
  }

  /** The keys of `CONFIG`, in the order the dictionary literal lists them. */
  const Keys: seq<string> := ["SUPABASE_URL", "SUPABASE_KEY", "EMAIL", "EMAIL_PASSWORD", "TO_EMAIL",
                              "TABLE_NAME", "SMTP_SERVER", "SMTP_PORT", "DAILY_REPORT_HOUR", "PAGE_SIZE"]

  /** The `CONFIG` table, in its declaration order, from integer settings that parsed. */
  function Entries(env: Environment, port: int, hour: int, pageSize: int): (es: seq<Entry>)
    ensures |es| == |Keys|
    ensures forall i :: 0 <= i < |Keys| ==> es[i].key == Keys[i]
  {
    [ Entry("SUPABASE_URL", Text(env.supabaseUrl)),
      Entry("SUPABASE_KEY", Text(env.supabaseKey)),
      Entry("EMAIL", Text(env.email)),
      Entry("EMAIL_PASSWORD", Text(env.emailPassword)),
      Entry("TO_EMAIL", Text(env.toEmail)),
      Entry("TABLE_NAME", Text(Some("contacts"))),
      Entry("SMTP_SERVER", Text(Some(GetOr(env.smtpServer, DefaultSmtpServer)))),
      Entry("SMTP_PORT", Number(port)),
      Entry("DAILY_REPORT_HOUR", Number(hour)),
      Entry("PAGE_SIZE", Number(pageSize)) ]
  }

  /** Building `CONFIG`: the three `int()` calls run in order and the first to fail stops start-up. */
  function LoadConfig(env: Environment): (r: Result<seq<Entry>, StartupError>)
    ensures r.Success? <==> IntSetting(env.smtpPort, DefaultSmtpPort).Success?
                            && IntSetting(env.dailyReportHour, DefaultReportHour).Success?
                            && IntSetting(env.pageSize, DefaultPageSize).Success?
  {
    match IntSetting(env.smtpPort, DefaultSmtpPort)
    case Failure(e) => Failure(e)
    case Success(port) =>
      match IntSetting(env.dailyReportHour, DefaultReportHour)
      case Failure(e) => Failure(e)
      case Success(hour) =>
        match IntSetting(env.pageSize, DefaultPageSize)
        case Failure(e) => Failure(e)
        case Success(pageSize) => Success(Entries(env, port, hour, pageSize))
  }

  /** Python's `not value` for a configuration value. */
  predicate Falsy(v: Value) {
    match v
    case Text(t) => t.None? || t.value == ""
    case Number(n) => n == 0
  }

  /** The settings that may be falsy. */
  predicate Exempt(key: string) {
    key == "SMTP_SERVER" || key == "SMTP_PORT" || key == "DAILY_REPORT_HOUR"
  }

  /** The check refuses this entry. */
  predicate Rejects(e: Entry) {
    Falsy(e.value) && !Exempt(e.key)
  }

  /** The loop at start-up: the key of the first refused entry, or `None` when all pass. */
  method ValidateConfig(entries: seq<Entry>) returns (missing: Option<string>)
    ensures missing.None? <==> forall i :: 0 <= i < |entries| ==> !Rejects(entries[i])
    ensures missing.Some? ==> exists i :: 0 <= i < |entries| && Rejects(entries[i]) && entries[i].key == missing.value
                                          && forall j :: 0 <= j < i ==> !Rejects(entries[j])
    ensures missing == FirstRejected(entries)
  {
    var i := 0;
    while i < |entries|
      invariant 0 <= i <= |entries|
      invariant forall j :: 0 <= j < i ==> !Rejects(entries[j])
      invariant FirstRejected(entries[i..]) == FirstRejected(entries)
    {
      assert entries[i..][1..] == entries[i + 1..];
      if Falsy(entries[i].value) && !Exempt(entries[i].key) {
        return Some(entries[i].key);
      }
      i := i + 1;
    }
    return None;
  }

  /** The key the start-up check reports for `entries`, as a function. */
  function FirstRejected(entries: seq<Entry>): (r: Option<string>)
    ensures r.None? <==> forall i :: 0 <= i < |entries| ==> !Rejects(entries[i])
  {
    if entries == [] then None
    else if Rejects(entries[0]) then Some(entries[0].key)
    else FirstRejected(entries[1..])
  }

  /** Start-up as a whole: `CONFIG` is built and checked. */
  method Startup(env: Environment) returns (r: Result<seq<Entry>, StartupError>)
    ensures LoadConfig(env).Failure? ==> r == LoadConfig(env)
    ensures LoadConfig(env).Success? ==>
              match FirstRejected(LoadConfig(env).value)
              case None => r == LoadConfig(env)
              case Some(key) => r == Failure(MissingVariable(key))
  {
    var loaded := LoadConfig(env);
    if loaded.Failure? {
      return loaded;
    }
    var missing := ValidateConfig(loaded.value);
    if missing.Some? {
      return Failure(MissingVariable(missing.value));
    }
    return loaded;
  }

  /** A required setting: one of the five variables without a fallback, or the page size. */
  predicate RequiredMissing(env: Environment, pageSize: int) {
    || env.supabaseUrl.None? || env.supabaseUrl.value == ""
    || env.supabaseKey.None? || env.supabaseKey.value == ""
    || env.email.None? || env.email.value == ""
    || env.emailPassword.None? || env.emailPassword.value == ""
    || env.toEmail.None? || env.toEmail.value == ""
    || pageSize == 0
  }

  /**
   * The check fails exactly when one of the five required variables is unset or
   * empty, or the page size is zero; the SMTP settings and the report hour never
   * make it fail, whatever their values.
   */
  lemma RejectedIffRequiredMissing(env: Environment, port: int, hour: int, pageSize: int)
    ensures (exists i :: 0 <= i < 10 && Rejects(Entries(env, port, hour, pageSize)[i]))
              <==> RequiredMissing(env, pageSize)
  {
    var es := Entries(env, port, hour, pageSize);
    assert !Rejects(es[5]) && !Rejects(es[6]) && !Rejects(es[7]) && !Rejects(es[8]);
    if RequiredMissing(env, pageSize) {
      if env.supabaseUrl.None? || env.supabaseUrl.value == "" { assert Rejects(es[0]); }
      else if env.supabaseKey.None? || env.supabaseKey.value == "" { assert Rejects(es[1]); }
      else if env.email.None? || env.email.value == "" { assert Rejects(es[2]); }
      else if env.emailPassword.None? || env.emailPassword.value == "" { assert Rejects(es[3]); }
      else if env.toEmail.None? || env.toEmail.value == "" { assert Rejects(es[4]); }
      else { assert Rejects(es[9]); }
    }
  }

  /** `PAGE_SIZE=0` stops start-up even when every other setting is present. */
  lemma PageSizeZeroIsRejected(env: Environment)
    requires env.pageSize == Some("0")
    requires !RequiredMissing(env, 1)
    requires LoadConfig(env).Success?
    ensures FirstRejected(LoadConfig(env).value) == Some("PAGE_SIZE")
  {
    assert IntToString(0) == "0";
    IntRoundTrip(0);
    var es := LoadConfig(env).value;
    assert es[9].value == Number(0);
    assert es == es[..9] + [es[9]];
    FirstRejectedAfter(es, 9);
  }

  lemma {:induction false} FirstRejectedAfter(es: seq<Entry>, k: nat)
    requires k < |es| && Rejects(es[k])
    requires forall j :: 0 <= j < k ==> !Rejects(es[j])
    ensures FirstRejected(es) == Some(es[k].key)
    decreases k
  {
    if k > 0 {
      FirstRejectedAfter(es[1..], k - 1);
    }
  }
}
