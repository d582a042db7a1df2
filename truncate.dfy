/**
 * `truncateMessage` of the client script: a message longer than the limit is cut to
 * its first `length` characters followed by `...`.
 */
module Truncate {
  import opened Wrappers
  import opened Text

  /** The default of the `length` parameter. */
  const DefaultLength: nat := 100

  const Ellipsis: string := "..."

  /** `truncateMessage(message, length)`; `None` stands for `null` or `undefined`. */
  function TruncateMessage(message: Option<string>, length: nat): (r: string)
    ensures !Truthy(message) ==> r == ""
    ensures |r| <= length + |Ellipsis|
    ensures Truthy(message) && |message.value| <= length ==> r == message.value
    ensures Truthy(message) && |message.value| > length ==>
              |r| == length + |Ellipsis| && r[..length] == message.value[..length] && r[length..] == Ellipsis
  {
    if !Truthy(message) then ""
    else if |message.value| > length then message.value[..length] + Ellipsis
    else message.value
  }

  /** What is shown of the message is always its beginning. */
  lemma TruncateKeepsPrefix(message: Option<string>, length: nat)
    requires Truthy(message)
    ensures var r := TruncateMessage(message, length);
            var shown := if |r| <= length then r else r[..length];
            shown == message.value[..|shown|]
  {
  }

  /** Truncating again changes nothing: a cut message is cut at the same place. */
  lemma TruncateIdempotent(message: Option<string>, length: nat)
    ensures TruncateMessage(Some(TruncateMessage(message, length)), length) == TruncateMessage(message, length)
  {
    var r := TruncateMessage(message, length);
    if Truthy(message) && |message.value| > length {
      assert r[..length] + Ellipsis == r;
    }
  }

  /** Two messages are shown alike exactly when they agree up to the limit and both fit or both overflow. */
  lemma TruncateDistinguishes(a: string, b: string, length: nat)
    requires a != "" && b != ""
    ensures TruncateMessage(Some(a), length) == TruncateMessage(Some(b), length) <==>
              (if |a| <= length && |b| <= length then a == b
               else |a| > length && |b| > length && a[..length] == b[..length])
  {
    var ra, rb := TruncateMessage(Some(a), length), TruncateMessage(Some(b), length);
    if |a| > length && |b| > length && ra == rb {
      assert a[..length] == ra[..length];
    }
  }
}
