/**
 * `escapeHtml` of the client script: five global replacements applied in a fixed
 * order, ampersand first. JavaScript `null` and `undefined` are `None`.
 */
module HtmlEscape {
  import opened Wrappers
  import opened Text

  /** `s.replace(/c/g, rep)`: every occurrence of `c`, left to right, becomes `rep`. */
  function ReplaceAll(s: string, c: char, rep: string): string {
    if s == [] then []
    else (if s[0] == c then rep else [s[0]]) + ReplaceAll(s[1..], c, rep)
  }

  /** The five characters `escapeHtml` rewrites. */
  predicate Reserved(c: char) {
    c == '&' || c == '<' || c == '>' || c == '"' || c == '\''
  }

  /** The text one character becomes in the escaped output. */
  function EscapeChar(c: char): (r: string)
    ensures Reserved(c) ==> |r| >= 4 && r[0] == '&' && r[|r| - 1] == ';'
    ensures Reserved(c) ==> forall k :: 1 <= k < |r| ==> r[k] != '&'
    ensures !Reserved(c) ==> r == [c]
  {
    if c == '&' then "&amp;"
    else if c == '<' then "&lt;"
    else if c == '>' then "&gt;"
    else if c == '"' then "&quot;"
    else if c == '\'' then "&#039;"
    else [c]
  }

  /** The character-by-character reading of the escaping: an independent reference for the chain. */
  function EscapeString(s: string): (r: string)
    ensures |r| >= |s|
  {
    if s == [] then [] else EscapeChar(s[0]) + EscapeString(s[1..])
  }

  /** The replacement chain exactly as the script writes it. */
  function ReplaceChain(s: string): string {
    ReplaceAll(ReplaceAll(ReplaceAll(ReplaceAll(ReplaceAll(
      s, '&', "&amp;"), '<', "&lt;"), '>', "&gt;"), '"', "&quot;"), '\'', "&#039;")
  }

  /**
   * `escapeHtml(unsafe)`: `''` for `null`/`undefined`; otherwise the chain, which
   * agrees with escaping each character on its own because `&` goes first and no
   * replacement text contains a character replaced after it.
   */
  function EscapeHtml(unsafe: Option<string>): (r: string)
    ensures unsafe.None? ==> r == ""
    ensures unsafe.Some? ==> r == EscapeString(unsafe.value)
  {
    match unsafe
    case None => ""
    case Some(s) => ChainIsCharwise(s); ReplaceChain(s)
  }

  lemma {:induction false} ReplaceAllAppend(a: string, b: string, c: char, rep: string)
    ensures ReplaceAll(a + b, c, rep) == ReplaceAll(a, c, rep) + ReplaceAll(b, c, rep)
    decreases |a|
  {
    if a != [] {
      assert (a + b)[0] == a[0] && (a + b)[1..] == a[1..] + b;
      ReplaceAllAppend(a[1..], b, c, rep);
    } else {
      assert a + b == b;
    }
  }

  lemma {:induction false} ReplaceAllAbsent(s: string, c: char, rep: string)
    requires c !in s
    ensures ReplaceAll(s, c, rep) == s
    decreases |s|
  {
    if s != [] {
      ReplaceAllAbsent(s[1..], c, rep);
    }
  }

  lemma ChainAppend(a: string, b: string)
    ensures ReplaceChain(a + b) == ReplaceChain(a) + ReplaceChain(b)
  {
    var a1, b1 := ReplaceAll(a, '&', "&amp;"), ReplaceAll(b, '&', "&amp;");
    ReplaceAllAppend(a, b, '&', "&amp;");
    var a2, b2 := ReplaceAll(a1, '<', "&lt;"), ReplaceAll(b1, '<', "&lt;");
    ReplaceAllAppend(a1, b1, '<', "&lt;");
    var a3, b3 := ReplaceAll(a2, '>', "&gt;"), ReplaceAll(b2, '>', "&gt;");
    ReplaceAllAppend(a2, b2, '>', "&gt;");
    var a4, b4 := ReplaceAll(a3, '"', "&quot;"), ReplaceAll(b3, '"', "&quot;");
    ReplaceAllAppend(a3, b3, '"', "&quot;");
    ReplaceAllAppend(a4, b4, '\'', "&#039;");
  }

  lemma ReplaceAllOne(x: char, c: char, rep: string)
    ensures ReplaceAll([x], c, rep) == if x == c then rep else [x]
  {
    assert [x][0] == x && [x][1..] == [];
  }

  /** One replacement step applied to the text already produced for `x`. */
  lemma ReplaceStep(prev: string, x: char, c: char, rep: string)
    requires prev == [x] || c !in prev
    ensures ReplaceAll(prev, c, rep) == if prev == [x] && x == c then rep else prev
  {
    if prev == [x] {
      ReplaceAllOne(x, c, rep);
    } else {
      ReplaceAllAbsent(prev, c, rep);
    }
  }

  lemma ChainChar(x: char)
    ensures ReplaceChain([x]) == EscapeChar(x)
  {
    ReplaceAllOne(x, '&', "&amp;");
    if x == '&' {
      ChainTail("&amp;");
    } else {
      ReplaceAllOne(x, '<', "&lt;");
      if x == '<' {
        ChainTail("&lt;");
      } else {
        ReplaceAllOne(x, '>', "&gt;");
        if x == '>' {
          ChainTail("&gt;");
        } else {
          ReplaceAllOne(x, '"', "&quot;");
          if x == '"' {
            ChainTail("&quot;");
          } else {
            ReplaceAllOne(x, '\'', "&#039;");
          }
        }
      }
    }
  }

  /** The later steps of the chain leave an entity alone. */
  lemma ChainTail(e: string)
    requires '<' !in e && '>' !in e && '"' !in e && '\'' !in e
    ensures ReplaceAll(e, '<', "&lt;") == e
    ensures ReplaceAll(e, '>', "&gt;") == e
    ensures ReplaceAll(e, '"', "&quot;") == e
    ensures ReplaceAll(e, '\'', "&#039;") == e
  {
    ReplaceAllAbsent(e, '<', "&lt;");
    ReplaceAllAbsent(e, '>', "&gt;");
    ReplaceAllAbsent(e, '"', "&quot;");
    ReplaceAllAbsent(e, '\'', "&#039;");
  }

  lemma {:induction false} ChainIsCharwise(s: string)
    ensures ReplaceChain(s) == EscapeString(s)
    decreases |s|
  {
    if s != [] {
      assert s == [s[0]] + s[1..];
      ChainAppend([s[0]], s[1..]);
      ChainChar(s[0]);
      ChainIsCharwise(s[1..]);
    }
  }

  lemma {:induction false} EscapeStringAppend(a: string, b: string)
    ensures EscapeString(a + b) == EscapeString(a) + EscapeString(b)
    decreases |a|
  {
    if a != [] {
      assert (a + b)[0] == a[0] && (a + b)[1..] == a[1..] + b;
      EscapeStringAppend(a[1..], b);
    } else {
      assert a + b == b;
    }
  }

  // ---------------------------------------------------------------------------
  // Decoding the five entities.

  /** The character whose entity `s` starts with, if any. */
  function DecodeAt(s: string): (r: Option<char>)
    ensures r.Some? ==> Reserved(r.value) && |EscapeChar(r.value)| <= |s| && s[0] == '&'
  {
    if |s| >= 4 && s[0] == '&' && s[2] == 't' && s[3] == ';' && (s[1] == 'l' || s[1] == 'g') then
      Some(if s[1] == 'l' then '<' else '>')
    else if |s| >= 5 && s[0] == '&' && s[1] == 'a' && s[2] == 'm' && s[3] == 'p' && s[4] == ';' then
      Some('&')
    else if |s| >= 6 && s[0] == '&' && s[1] == 'q' && s[2] == 'u' && s[3] == 'o' && s[4] == 't' && s[5] == ';' then
      Some('"')
    else if |s| >= 6 && s[0] == '&' && s[1] == '#' && s[2] == '0' && s[3] == '3' && s[4] == '9' && s[5] == ';' then
      Some('\'')
    else None
  }

  /** `DecodeAt` recognises exactly the entity at the start of `s`. */
  lemma DecodeAtEntity(s: string)
    requires DecodeAt(s).Some?
    ensures StartsWith(s, EscapeChar(DecodeAt(s).value))
  {
    var e := EscapeChar(DecodeAt(s).value);
    assert s[..|e|] == e;
  }

  /** Replace each of the five entities by its character, scanning left to right. */
  function Unescape(s: string): string
    decreases |s|
  {
    if s == [] then []
    else match DecodeAt(s)
      case Some(c) => [c] + Unescape(s[|EscapeChar(c)|..])
      case None => [s[0]] + Unescape(s[1..])
  }

  /** Only text starting with `&` can start an entity. */
  lemma DecodeAtPlain(s: string)
    requires s == [] || s[0] != '&'
    ensures DecodeAt(s) == None
  {
  }

  lemma EscapeStringCons(c: char, rest: string)
    ensures EscapeString([c] + rest) == EscapeChar(c) + EscapeString(rest)
  {
    assert ([c] + rest)[0] == c && ([c] + rest)[1..] == rest;
  }

  lemma DecodeEscapeChar(x: char, rest: string)
    ensures DecodeAt(EscapeChar(x) + rest) == if Reserved(x) then Some(x) else None
  {
    var s := EscapeChar(x) + rest;
    assert s[..|EscapeChar(x)|] == EscapeChar(x);
    if !Reserved(x) {
      assert s[0] == x;
    }
  }

  lemma UnescapeEscapeChar(x: char, rest: string)
    ensures Unescape(EscapeChar(x) + rest) == [x] + Unescape(rest)
  {
    var s := EscapeChar(x) + rest;
    DecodeEscapeChar(x, rest);
    assert s[|EscapeChar(x)|..] == rest;
    if !Reserved(x) {
      assert s[1..] == rest;
    }
  }

  /** Decoding `escapeHtml(t)` gives back `t`. */
  lemma {:induction false} EscapeRoundTrip(t: string)
    ensures Unescape(EscapeHtml(Some(t))) == t
    decreases |t|
  {
    if t != [] {
      UnescapeEscapeChar(t[0], EscapeString(t[1..]));
      EscapeRoundTrip(t[1..]);
    }
  }

  /** Escaping is injective: distinct texts never render alike. */
  lemma EscapeInjective(a: string, b: string)
    requires EscapeHtml(Some(a)) == EscapeHtml(Some(b))
    ensures a == b
  {
    EscapeRoundTrip(a);
    EscapeRoundTrip(b);
  }

  /** The output holds no `<`, `>`, `"` or `'`; only `&` survives of the five, inside entities. */
  lemma {:induction false} EscapeHasNoMarkup(t: Option<string>)
    ensures var r := EscapeHtml(t);
            '<' !in r && '>' !in r && '"' !in r && '\'' !in r
  {
    if t.Some? {
      EscapeStringNoMarkup(t.value);
    }
  }

  lemma {:induction false} EscapeStringNoMarkup(s: string)
    ensures var r := EscapeString(s);
            '<' !in r && '>' !in r && '"' !in r && '\'' !in r
    decreases |s|
  {
    if s != [] {
      var e, rest := EscapeChar(s[0]), EscapeString(s[1..]);
      EscapeStringNoMarkup(s[1..]);
      EscapeCharNoMarkup(s[0]);
      assert EscapeString(s) == e + rest;
    }
  }

  /** No single escaped character contains markup. */
  lemma EscapeCharNoMarkup(c: char)
    ensures var e := EscapeChar(c);
            '<' !in e && '>' !in e && '"' !in e && '\'' !in e
  {
  }

  /** Position `i` of `s` begins one of the five entities. */
  predicate EntityAt(s: string, i: int)
    requires 0 <= i <= |s|
  {
    DecodeAt(s[i..]).Some?
  }

  /** Every `&` in `r` begins one of the five entities. */
  predicate AmpersandsAreEntities(r: string) {
    forall i :: 0 <= i < |r| && r[i] == '&' ==> EntityAt(r, i)
  }

  /** Every `&` in `escapeHtml(t)` begins `&amp;`, `&lt;`, `&gt;`, `&quot;` or `&#039;`. */
  lemma EscapeAmpersandsBeginEntities(t: Option<string>)
    ensures AmpersandsAreEntities(EscapeHtml(t))
  {
    if t.Some? {
      AmpersandsInEscapeString(t.value);
    }
  }

  lemma {:induction false} AmpersandsInEscapeString(s: string)
    ensures AmpersandsAreEntities(EscapeString(s))
    decreases |s|
  {
    if s != [] {
      var e, rest := EscapeChar(s[0]), EscapeString(s[1..]);
      var r := e + rest;
      AmpersandsInEscapeString(s[1..]);
      forall i | 0 <= i < |r| && r[i] == '&'
        ensures EntityAt(r, i)
      {
        if i < |e| {
          assert e[i] == '&';
          assert Reserved(s[0]) && i == 0;
          DecodeEscapeChar(s[0], rest);
          assert r[i..] == r;
        } else {
          assert r[i..] == rest[i - |e|..];
          assert rest[i - |e|] == '&';
          assert EntityAt(rest, i - |e|);
        }
      }
    }
  }

  /**
   * The order matters: were `&` replaced last, the `&` of `&lt;` would be escaped
   * again, and decoding `"<"` would give `"&lt;"` back instead of `"<"`.
   */
  lemma AmpersandLastBreaksRoundTrip()
    ensures var late := ReplaceAll(ReplaceAll(ReplaceAll(ReplaceAll(ReplaceAll(
                          "<", '<', "&lt;"), '>', "&gt;"), '"', "&quot;"), '\'', "&#039;"), '&', "&amp;");
            late == "&amp;lt;" && Unescape(late) == "&lt;"
  {
    ReplaceAllOne('<', '<', "&lt;");
    ChainTail("&lt;");
    AmpersandLastOnEntity();
    UnescapeDoubleEscaped();
  }

  lemma AmpersandLastOnEntity()
    ensures ReplaceAll("&lt;", '&', "&amp;") == "&amp;lt;"
  {
    assert "&lt;" == "&" + "lt;";
    ReplaceAllAppend("&", "lt;", '&', "&amp;");
    ReplaceAllOne('&', '&', "&amp;");
    ReplaceAllAbsent("lt;", '&', "&amp;");
  }

  lemma {:induction false} UnescapePlain(a: string)
    requires '&' !in a
    ensures Unescape(a) == a
    decreases |a|
  {
    if a != [] {
      DecodeAtPlain(a);
      assert '&' !in a[1..] by { assert forall k :: 0 <= k < |a| - 1 ==> a[1..][k] == a[k + 1]; }
      UnescapePlain(a[1..]);
      assert a == [a[0]] + a[1..];
    }
  }

  lemma UnescapeDoubleEscaped()
    ensures Unescape("&amp;lt;") == "&lt;"
  {
    var t := "lt;";
    assert "&amp;lt;" == EscapeChar('&') + t;
    UnescapeEscapeChar('&', t);
    UnescapePlain(t);
    assert "&lt;" == ['&'] + t;
  }
}
