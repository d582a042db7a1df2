/**
 * `highlightMatch` of the client script: the text and the query are escaped, and
 * every case-insensitive occurrence of the escaped query in the escaped text is
 * wrapped in `<mark>…</mark>`. The regular expression built from the
 * metacharacter-escaped query matches the query literally, so it is modelled as
 * leftmost, non-overlapping substring matching under ASCII case folding.
 */
module Highlight {
  import opened Wrappers
  import opened Text
  import opened HtmlEscape

  /** A piece of the scanned text: a character outside any match, or a matched span. */
  datatype Piece = Plain(c: char) | Hit(span: string)

  /** The text a piece covers. */
  function Flatten(ps: seq<Piece>): string {
    if ps == [] then []
    else (match ps[0] case Plain(c) => [c] case Hit(m) => m) + Flatten(ps[1..])
  }

  /** The query occurs at position `i` of `e`, ignoring ASCII case. */
  predicate MatchAt(e: string, i: int, q: string)
    requires 0 <= i <= |e|
  {
    |q| <= |e| - i && FoldEq(e[i..i + |q|], q)
  }

  /** `e.replace(/(q)/gi, …)`'s matching: leftmost matches, resuming after each one. */
  function Scan(e: string, q: string): seq<Piece>
    requires |q| > 0
    decreases |e|
  {
    if e == [] then []
    else if MatchAt(e, 0, q) then [Hit(e[..|q|])] + Scan(e[|q|..], q)
    else [Plain(e[0])] + Scan(e[1..], q)
  }

  /** The replacement `"<mark>$1</mark>"` applied to each match. */
  function Emit(ps: seq<Piece>): string {
    if ps == [] then []
    else (match ps[0] case Plain(c) => [c] case Hit(m) => "<mark>" + m + "</mark>") + Emit(ps[1..])
  }

  lemma FlattenCons(p: Piece, ps: seq<Piece>)
    ensures p.Plain? ==> Flatten([p] + ps) == [p.c] + Flatten(ps)
    ensures p.Hit? ==> Flatten([p] + ps) == p.span + Flatten(ps)
  {
    assert ([p] + ps)[0] == p && ([p] + ps)[1..] == ps;
  }

  lemma EmitCons(p: Piece, ps: seq<Piece>)
    ensures p.Plain? ==> Emit([p] + ps) == [p.c] + Emit(ps)
    ensures p.Hit? ==> Emit([p] + ps) == "<mark>" + (p.span + ("</mark>" + Emit(ps)))
  {
    assert ([p] + ps)[0] == p && ([p] + ps)[1..] == ps;
    if p.Hit? {
      var a, b, c, d := "<mark>", p.span, "</mark>", Emit(ps);
      assert a + b + c + d == a + (b + (c + d));
    }
  }

  /** The pieces `highlightMatch` produces when both arguments are truthy. */
  function HighlightPieces(text: string, query: string): seq<Piece>
    requires query != ""
  {
    var eq := EscapeHtml(Some(query));
    assert |eq| >= |query|;
    Scan(EscapeHtml(Some(text)), eq)
  }

  /** `highlightMatch(text, query)`, as the script writes it. */
  function HighlightMatch(text: Option<string>, query: Option<string>): string {
    if !Truthy(query) || !Truthy(text) then
      (if Truthy(text) then EscapeHtml(text) else "")
    else Emit(HighlightPieces(text.value, query.value))
  }

  /** The length of the `<mark>` or `</mark>` tag `s` starts with, or 0. */
  function TagLength(s: string): (n: nat)
    ensures n == 0 || n == 6 || n == 7
    ensures n <= |s| && (n > 0 ==> s[0] == '<')
  {
    if |s| >= 6 && s[0] == '<' && s[1] == 'm' && s[2] == 'a' && s[3] == 'r' && s[4] == 'k' && s[5] == '>' then 6
    else if |s| >= 7 && s[0] == '<' && s[1] == '/' && s[2] == 'm' && s[3] == 'a' && s[4] == 'r' && s[5] == 'k' && s[6] == '>' then 7
    else 0
  }

  lemma TagLengthPlain(s: string)
    requires s == [] || s[0] != '<'
    ensures TagLength(s) == 0
  {
  }

  /** Removes every `<mark>` and `</mark>` tag. */
  function StripMarks(s: string): string
    decreases |s|
  {
    if s == [] then []
    else if TagLength(s) > 0 then StripMarks(s[TagLength(s)..])
    else [s[0]] + StripMarks(s[1..])
  }

  // ---------------------------------------------------------------------------
  // Properties of the pieces.

  /** The scan covers the text exactly: nothing is lost, duplicated or reordered. */
  lemma {:induction false} ScanCovers(e: string, q: string)
    requires |q| > 0
    ensures Flatten(Scan(e, q)) == e
    decreases |e|
  {
    if e != [] {
      ScanStep(e, q);
      if MatchAt(e, 0, q) {
        var m, t := e[..|q|], e[|q|..];
        ScanCovers(t, q);
        FlattenCons(Hit(m), Scan(t, q));
        assert e == m + t;
      } else {
        var t := e[1..];
        ScanCovers(t, q);
        FlattenCons(Plain(e[0]), Scan(t, q));
        assert e == [e[0]] + t;
      }
    }
  }

  /** Every matched span equals the query up to ASCII case. */
  lemma {:induction false} ScanHitsMatch(e: string, q: string)
    requires |q| > 0
    ensures forall k :: 0 <= k < |Scan(e, q)| && Scan(e, q)[k].Hit? ==> FoldEq(Scan(e, q)[k].span, q)
    decreases |e|
  {
    if e != [] {
      var ps := Scan(e, q);
      if MatchAt(e, 0, q) {
        ScanHitsMatch(e[|q|..], q);
        assert ps[1..] == Scan(e[|q|..], q);
      } else {
        ScanHitsMatch(e[1..], q);
        assert ps[1..] == Scan(e[1..], q);
      }
      assert forall k :: 1 <= k < |ps| ==> ps[k] == ps[1..][k - 1];
    }
  }

  predicate HasHit(ps: seq<Piece>) {
    exists k :: 0 <= k < |ps| && ps[k].Hit?
  }

  /** Some span is marked exactly when the query occurs somewhere in the text. */
  lemma {:induction false} ScanFindsOccurrence(e: string, q: string)
    requires |q| > 0
    ensures HasHit(Scan(e, q)) <==> Occurs(e, q)
    decreases |e|
  {
    var ps := Scan(e, q);
    if e == [] {
      assert !Occurs(e, q) by {
        assert forall i :: 0 <= i <= |e| ==> !MatchAt(e, i, q);
      }
    } else if MatchAt(e, 0, q) {
      assert ps[0].Hit?;
    } else {
      var t := e[1..];
      ScanFindsOccurrence(t, q);
      ScanStep(e, q);
      HasHitAfterPlain(Plain(e[0]), Scan(t, q));
      OccursAfterMismatch(e, q);
    }
  }

  /** The query occurs somewhere in `e`. */
  predicate Occurs(e: string, q: string) {
    exists i :: 0 <= i <= |e| && MatchAt(e, i, q)
  }

  lemma HasHitAfterPlain(p: Piece, ps: seq<Piece>)
    requires p.Plain?
    ensures HasHit([p] + ps) <==> HasHit(ps)
  {
    var all := [p] + ps;
    if HasHit(all) {
      var k :| 0 <= k < |all| && all[k].Hit?;
      assert k > 0 && ps[k - 1] == all[k];
    }
    if HasHit(ps) {
      var k :| 0 <= k < |ps| && ps[k].Hit?;
      assert all[k + 1] == ps[k];
    }
  }

  lemma OccursAfterMismatch(e: string, q: string)
    requires e != [] && !MatchAt(e, 0, q)
    ensures Occurs(e, q) <==> Occurs(e[1..], q)
  {
    var t := e[1..];
    if Occurs(e, q) {
      var i :| 0 <= i <= |e| && MatchAt(e, i, q);
      assert i >= 1;
      assert e[i..i + |q|] == t[i - 1..i - 1 + |q|];
      assert MatchAt(t, i - 1, q);
    }
    if Occurs(t, q) {
      var j :| 0 <= j <= |t| && MatchAt(t, j, q);
      assert e[j + 1..j + 1 + |q|] == t[j..j + |q|];
      assert MatchAt(e, j + 1, q);
    }
  }

  /**
   * The `g` flag: no occurrence is skipped. At the position where an unmarked
   * character starts, the query does not occur, so every leftmost occurrence
   * that does not overlap an earlier match is marked.
   */
  lemma {:induction false} ScanMissesNothing(e: string, q: string, k: int)
    requires |q| > 0 && 0 <= k < |Scan(e, q)| && Scan(e, q)[k].Plain?
    ensures |Flatten(Scan(e, q)[..k])| < |e|
    ensures !MatchAt(e, |Flatten(Scan(e, q)[..k])|, q)
    decreases |e|
  {
    ScanStep(e, q);
    var ps := Scan(e, q);
    if MatchAt(e, 0, q) {
      var t := e[|q|..];
      assert ps == [Hit(e[..|q|])] + Scan(t, q);
      assert ps[0].Hit?;
      ScanMissesNothing(t, q, k - 1);
      var j := |Flatten(Scan(t, q)[..k - 1])|;
      PrefixFlatten(Hit(e[..|q|]), Scan(t, q), k);
      assert |Flatten(ps[..k])| == |q| + j;
      MatchShift(e, |q|, j, q);
      assert !MatchAt(t, j, q);
    } else if k > 0 {
      var t := e[1..];
      assert ps == [Plain(e[0])] + Scan(t, q);
      ScanMissesNothing(t, q, k - 1);
      var j := |Flatten(Scan(t, q)[..k - 1])|;
      PrefixFlatten(Plain(e[0]), Scan(t, q), k);
      assert |Flatten(ps[..k])| == 1 + j;
      MatchShift(e, 1, j, q);
      assert !MatchAt(t, j, q);
    } else {
      assert ps[..k] == [];
    }
  }

  /** The text of the first `k` pieces after `p`: `p`'s text, then that of `k - 1` more. */
  lemma PrefixFlatten(p: Piece, rest: seq<Piece>, k: int)
    requires 1 <= k <= |rest| + 1
    ensures |Flatten(([p] + rest)[..k])| == (if p.Plain? then 1 else |p.span|) + |Flatten(rest[..k - 1])|
  {
    assert ([p] + rest)[..k] == [p] + rest[..k - 1];
    FlattenCons(p, rest[..k - 1]);
  }

  /** An occurrence `d + j` characters into `e` is one `j` characters into `e[d..]`. */
  lemma MatchShift(e: string, d: int, j: int, q: string)
    requires 0 <= d <= |e| && 0 <= j <= |e| - d
    ensures MatchAt(e, d + j, q) <==> MatchAt(e[d..], j, q)
  {
    if |q| <= |e| - d - j {
      assert e[d + j..d + j + |q|] == e[d..][j..j + |q|];
    }
  }

  // ---------------------------------------------------------------------------
  // Removing the marks.

  lemma TagLengthOpen(rest: string)
    ensures TagLength("<mark>" + rest) == 6 && ("<mark>" + rest)[6..] == rest
  {
    var s := "<mark>" + rest;
    assert s[..6] == "<mark>";
  }

  lemma TagLengthClose(rest: string)
    ensures TagLength("</mark>" + rest) == 7 && ("</mark>" + rest)[7..] == rest
  {
    var s := "</mark>" + rest;
    assert s[..7] == "</mark>";
  }

  lemma StripMarksOpen(rest: string)
    ensures StripMarks("<mark>" + rest) == StripMarks(rest)
  {
    TagLengthOpen(rest);
  }

  lemma StripMarksClose(rest: string)
    ensures StripMarks("</mark>" + rest) == StripMarks(rest)
  {
    TagLengthClose(rest);
  }

  /** Text without `<` passes through `StripMarks` untouched. */
  lemma {:induction false} StripMarksPlain(a: string, rest: string)
    requires '<' !in a
    ensures StripMarks(a + rest) == a + StripMarks(rest)
    decreases |a|
  {
    if a != [] {
      var s := a + rest;
      assert s[0] == a[0] && s[0] != '<';
      assert s[1..] == a[1..] + rest;
      TagLengthPlain(s);
      StripMarksPlain(a[1..], rest);
    } else {
      assert a + rest == rest;
    }
  }

  /** Without `<` in the text they cover, the marks are all `StripMarks` removes. */
  lemma {:induction false} StripEmit(ps: seq<Piece>)
    requires '<' !in Flatten(ps)
    ensures StripMarks(Emit(ps)) == Flatten(ps)
    decreases |ps|
  {
    if ps != [] {
      var p, tl := ps[0], ps[1..];
      assert ps == [p] + tl;
      FlattenCons(p, tl);
      EmitCons(p, tl);
      var rest := Emit(tl);
      var m := if p.Plain? then [p.c] else p.span;
      assert Flatten(ps) == m + Flatten(tl);
      assert '<' !in m && '<' !in Flatten(tl) by {
        assert forall x :: x in m ==> x in Flatten(ps);
        assert forall x :: x in Flatten(tl) ==> x in Flatten(ps);
      }
      StripEmit(tl);
      if p.Hit? {
        calc {
          StripMarks(Emit(ps));
          { assert Emit(ps) == "<mark>" + (m + ("</mark>" + rest)); }
          StripMarks("<mark>" + (m + ("</mark>" + rest)));
          { StripMarksOpen(m + ("</mark>" + rest)); }
          StripMarks(m + ("</mark>" + rest));
          { StripMarksPlain(m, "</mark>" + rest); }
          m + StripMarks("</mark>" + rest);
          { StripMarksClose(rest); }
          m + Flatten(tl);
        }
      } else {
        StripMarksPlain(m, rest);
      }
    }
  }

  lemma StripEmitScan(e: string, q: string)
    requires |q| > 0 && '<' !in e
    ensures StripMarks(Emit(Scan(e, q))) == e
  {
    ScanCovers(e, q);
    StripEmit(Scan(e, q));
  }

  /** Deleting every `<mark>` and `</mark>` from the result gives `escapeHtml(text)` back. */
  lemma StripHighlight(text: Option<string>, query: Option<string>)
    ensures StripMarks(HighlightMatch(text, query)) == EscapeHtml(text)
  {
    var e := EscapeHtml(text);
    EscapeHasNoMarkup(text);
    if Truthy(query) && Truthy(text) {
      var eq := EscapeHtml(query);
      assert |eq| >= |query.value|;
      StripEmitScan(e, eq);
    } else if Truthy(text) {
      StripMarksPlain(e, "");
      assert e + "" == e;
    } else {
      assert e == "";
    }
  }

  /** With a falsy query the result is `escapeHtml(text)`; with a falsy text it is `''`. */
  lemma HighlightFalsyArguments(text: Option<string>, query: Option<string>)
    ensures !Truthy(query) ==> HighlightMatch(text, query) == EscapeHtml(text)
    ensures !Truthy(text) ==> HighlightMatch(text, query) == ""
  {
    if text.Some? && text.value == "" {
      assert EscapeHtml(text) == EscapeString("") == "";
    }
  }

  /**
   * When both are truthy, each marked span is the escaped query up to case, the
   * unmarked and marked text together are the escaped text, and a span is marked
   * exactly when the escaped query occurs in the escaped text.
   */
  lemma HighlightSpans(text: string, query: string)
    requires text != "" && query != ""
    ensures var ps := HighlightPieces(text, query);
            var e, eq := EscapeHtml(Some(text)), EscapeHtml(Some(query));
            && HighlightMatch(Some(text), Some(query)) == Emit(ps)
            && Flatten(ps) == e
            && (forall k :: 0 <= k < |ps| && ps[k].Hit? ==> FoldEq(ps[k].span, eq))
            && (HasHit(ps) <==> Occurs(e, eq))
            && (forall k :: 0 <= k < |ps| && ps[k].Plain? ==>
                  |Flatten(ps[..k])| < |e| && !MatchAt(e, |Flatten(ps[..k])|, eq))
  {
    var e, eq := EscapeHtml(Some(text)), EscapeHtml(Some(query));
    assert |eq| >= |query|;
    ScanCovers(e, eq);
    ScanHitsMatch(e, eq);
    ScanFindsOccurrence(e, eq);
    forall k | 0 <= k < |Scan(e, eq)| && Scan(e, eq)[k].Plain?
      ensures |Flatten(Scan(e, eq)[..k])| < |e| && !MatchAt(e, |Flatten(Scan(e, eq)[..k])|, eq)
    {
      ScanMissesNothing(e, eq, k);
    }
  }

  // ---------------------------------------------------------------------------
  // What the browser displays.

  /**
   * The text content a browser shows for markup made of text, the five entities and
   * `<mark>` tags: tags are dropped, and an entity is decoded only where it is
   * contiguous and complete, `;` included, in the markup.
   */
  function Render(s: string): string
    decreases |s|
  {
    if s == [] then []
    else var (shown, used) := RenderToken(s); shown + Render(s[used..])
  }

  /** The first token of non-empty markup: what it shows and how many characters it takes. */
  function RenderToken(s: string): (t: (string, nat))
    requires s != []
    ensures 1 <= t.1 <= |s|
  {
    if TagLength(s) > 0 then ("", TagLength(s))
    else match DecodeAt(s)
      case Some(c) => ([c], |EscapeChar(c)|)
      case None => ([s[0]], 1)
  }

  /**
   * The highlighter as written can cut an entity in two: searching `lt` in a text
   * `x<y` marks the `lt` of `&lt;`, and the page then shows `x&lt;y` instead of `x<y`.
   */
  lemma HighlightSplitsEntity(x: char, y: char)
    requires !Reserved(x) && !Reserved(y)
    ensures HighlightMatch(Some([x, '<', y]), Some("lt")) == [x] + "&<mark>lt</mark>;" + [y]
    ensures Render(HighlightMatch(Some([x, '<', y]), Some("lt"))) == [x] + "&lt;" + [y]
    ensures Render(HighlightMatch(Some([x, '<', y]), Some("lt"))) != [x, '<', y]
  {
    EscapeTextExample(x, y);
    EscapeQueryExample();
    ScanSmallExample(x, y);
    EmitSmallExample(x, y);
    RenderSmallExample(x, y);
    assert ([x] + "&lt;" + [y])[1] == '&';
  }

  lemma EscapeTextExample(x: char, y: char)
    requires !Reserved(x) && !Reserved(y)
    ensures EscapeString([x, '<', y]) == [x, '&', 'l', 't', ';', y]
  {
    EscapeStringCons(y, []);
    EscapeStringCons('<', [y]);
    EscapeStringCons(x, ['<', y]);
    assert [x, '<', y] == [x] + (['<'] + ([y] + []));
    assert [x] + ("&lt;" + ([y] + [])) == [x, '&', 'l', 't', ';', y];
  }

  lemma EscapeQueryExample()
    ensures EscapeString("lt") == "lt"
  {
    EscapeStringCons('t', "");
    EscapeStringCons('l', "t");
    assert "lt" == ['l'] + "t" && "t" == ['t'] + "";
  }

  lemma ScanSmallExample(x: char, y: char)
    ensures Scan([x, '&', 'l', 't', ';', y], "lt") == [Plain(x), Plain('&'), Hit("lt"), Plain(';'), Plain(y)]
  {
    var e := [x, '&', 'l', 't', ';', y];
    ScanPlainStep(e, "lt");
    assert e[1..] == ['&', 'l', 't', ';', y];
    ScanAmpersandExample(y);
    var ps := [Plain('&'), Hit("lt"), Plain(';'), Plain(y)];
    assert [Plain(x)] + ps == [Plain(x), Plain('&'), Hit("lt"), Plain(';'), Plain(y)];
  }

  /** A text whose second character is not `t` does not match `lt` at its start. */
  lemma ScanPlainStep(e: string, q: string)
    requires q == "lt" && |e| >= 2 && Lower(e[1]) != 't'
    ensures Scan(e, q) == [Plain(e[0])] + Scan(e[1..], q)
  {
    assert !MatchAt(e, 0, q) by { assert Lower(e[1]) != Lower(q[1]); }
    ScanStep(e, q);
  }

  lemma ScanAmpersandExample(y: char)
    ensures Scan(['&', 'l', 't', ';', y], "lt") == [Plain('&'), Hit("lt"), Plain(';'), Plain(y)]
  {
    var e := ['&', 'l', 't', ';', y];
    ScanPlainStep(e, "lt");
    assert e[1..] == ['l', 't', ';', y];
    ScanMatchExample(y);
  }

  lemma ScanMatchExample(y: char)
    ensures Scan(['l', 't', ';', y], "lt") == [Hit("lt"), Plain(';'), Plain(y)]
  {
    var e, q := ['l', 't', ';', y], "lt";
    assert e[..2] == q;
    assert MatchAt(e, 0, q);
    ScanStep(e, q);
    assert e[2..] == [';', y];
    ScanTailExample(y);
  }

  lemma ScanTailExample(y: char)
    ensures Scan([';', y], "lt") == [Plain(';'), Plain(y)]
  {
    var e, q := [';', y], "lt";
    assert !MatchAt(e, 0, q) by { assert Lower(e[0]) != Lower(q[0]); }
    ScanStep(e, q);
    assert e[1..] == [y];
    assert !MatchAt([y], 0, q);
    ScanStep([y], q);
    assert [y][1..] == [];
  }

  lemma EmitSmallExample(x: char, y: char)
    ensures Emit([Plain(x), Plain('&'), Hit("lt"), Plain(';'), Plain(y)]) == [x] + "&<mark>lt</mark>;" + [y]
  {
    var p4 := [Plain(y)];
    EmitCons(Plain(y), []);
    assert p4 == [Plain(y)] + [];
    var p3 := [Plain(';')] + p4;
    EmitCons(Plain(';'), p4);
    var p2 := [Hit("lt")] + p3;
    EmitCons(Hit("lt"), p3);
    var p1 := [Plain('&')] + p2;
    EmitCons(Plain('&'), p2);
    var p0 := [Plain(x)] + p1;
    EmitCons(Plain(x), p1);
    assert p0 == [Plain(x), Plain('&'), Hit("lt"), Plain(';'), Plain(y)];
    OutputShape(x, y);
  }

  /** The marked output, associated the way `Emit` and `Render` take it apart. */
  lemma OutputShape(x: char, y: char)
    ensures [x] + "&<mark>lt</mark>;" + [y] == [x] + ("&" + ("<mark>" + ("lt" + ("</mark>" + (";" + ([y] + []))))))
  {
  }

  lemma RenderStep(c: char, rest: string)
    requires c != '<' && c != '&'
    ensures Render([c] + rest) == [c] + Render(rest)
  {
    var s := [c] + rest;
    assert s[0] == c && s[1..] == rest;
    TagLengthPlain(s);
    DecodeAtPlain(s);
  }

  lemma RenderSmallExample(x: char, y: char)
    requires !Reserved(x) && !Reserved(y)
    ensures Render([x] + "&<mark>lt</mark>;" + [y]) == [x] + "&lt;" + [y]
  {
    OutputShape(x, y);
    var w := "&" + ("<mark>" + ("lt" + ("</mark>" + (";" + ([y] + [])))));
    RenderStep(x, w);
    RenderMarkedEntity(y);
    ShownShape(x, y);
  }

  lemma ShownShape(x: char, y: char)
    ensures [x] + ("&" + ("lt" + (";" + [y]))) == [x] + "&lt;" + [y]
  {
  }

  lemma RenderMarkedEntity(y: char)
    requires !Reserved(y)
    ensures Render("&" + ("<mark>" + ("lt" + ("</mark>" + (";" + ([y] + [])))))) == "&" + ("lt" + (";" + [y]))
  {
    var v := "lt" + ("</mark>" + (";" + ([y] + [])));
    assert ("<mark>" + v)[0] == '<';
    RenderAmpersandBeforeTag("<mark>" + v);
    RenderOpen(v);
    RenderMarkedTail(y);
  }

  lemma RenderMarkedTail(y: char)
    requires !Reserved(y)
    ensures Render("lt" + ("</mark>" + (";" + ([y] + [])))) == "lt" + (";" + [y])
  {
    var tail := ";" + ([y] + []);
    RenderSemicolonTail(y);
    RenderClose(tail);
    var t := "</mark>" + tail;
    SplitLt(t);
    RenderStep('l', ['t'] + t);
    RenderStep('t', t);
  }

  lemma SplitLt(t: string)
    ensures "lt" + t == ['l'] + (['t'] + t)
  {
  }

  lemma RenderSemicolonTail(y: char)
    requires !Reserved(y)
    ensures Render(";" + ([y] + [])) == ";" + [y]
  {
    assert [y] + [] == [y];
    RenderStep(';', [y]);
    RenderStep(y, []);
    assert ";" + [y] == [';'] + [y];
  }

  /** An `&` directly followed by a tag is not an entity and is shown as it is. */
  lemma RenderAmpersandBeforeTag(rest: string)
    requires rest != [] && rest[0] == '<'
    ensures Render("&" + rest) == "&" + Render(rest)
  {
    var s := "&" + rest;
    assert s[0] == '&' && s[1] == '<' && s[1..] == rest;
    TagLengthPlain(s);
    assert DecodeAt(s) == None;
  }

  // ---------------------------------------------------------------------------
  // The corrected highlighter.

  /** Each piece escaped on its own, matches wrapped in `<mark>`. */
  function EmitEscaped(ps: seq<Piece>): string {
    if ps == [] then []
    else (match ps[0]
          case Plain(c) => EscapeChar(c)
          case Hit(m) => "<mark>" + EscapeString(m) + "</mark>") + EmitEscaped(ps[1..])
  }

  /**
   * Highlighting as intended: the query is matched against the text the user sees
   * and each piece is escaped afterwards, so a match never falls inside an entity.
   */
  function HighlightMatchFixed(text: Option<string>, query: Option<string>): string {
    if !Truthy(query) || !Truthy(text) then
      (if Truthy(text) then EscapeHtml(text) else "")
    else EmitEscaped(Scan(text.value, query.value))
  }

  /** The entity (or the character) one character escapes to is shown as that character. */
  lemma RenderEscapeChar(c: char, rest: string)
    ensures Render(EscapeChar(c) + rest) == [c] + Render(rest)
  {
    var e := EscapeChar(c);
    var s := e + rest;
    assert s[0] == e[0] && s[0] != '<';
    TagLengthPlain(s);
    DecodeEscapeChar(c, rest);
    if Reserved(c) {
      assert s[|e|..] == rest;
    } else {
      assert s[1..] == rest;
    }
  }

  lemma {:induction false} RenderEscaped(a: string, rest: string)
    ensures Render(EscapeString(a) + rest) == a + Render(rest)
    decreases |a|
  {
    if a != [] {
      var t := EscapeString(a[1..]) + rest;
      assert EscapeString(a) + rest == EscapeChar(a[0]) + t;
      RenderEscapeChar(a[0], t);
      RenderEscaped(a[1..], rest);
      assert a == [a[0]] + a[1..];
    } else {
      assert EscapeString(a) + rest == rest;
    }
  }

  lemma RenderOpen(rest: string)
    ensures Render("<mark>" + rest) == Render(rest)
  {
    TagLengthOpen(rest);
  }

  lemma RenderClose(rest: string)
    ensures Render("</mark>" + rest) == Render(rest)
  {
    TagLengthClose(rest);
  }

  /** How the scan of a non-empty text starts. */
  lemma ScanStep(t: string, q: string)
    requires |q| > 0 && t != []
    ensures MatchAt(t, 0, q) ==> Scan(t, q) == [Hit(t[..|q|])] + Scan(t[|q|..], q)
    ensures !MatchAt(t, 0, q) ==> Scan(t, q) == [Plain(t[0])] + Scan(t[1..], q)
  {
  }

  lemma EmitEscapedCons(p: Piece, ps: seq<Piece>)
    ensures p.Plain? ==> EmitEscaped([p] + ps) == EscapeChar(p.c) + EmitEscaped(ps)
    ensures p.Hit? ==> EmitEscaped([p] + ps) == "<mark>" + (EscapeString(p.span) + ("</mark>" + EmitEscaped(ps)))
  {
    assert ([p] + ps)[0] == p && ([p] + ps)[1..] == ps;
    if p.Hit? {
      var a, b, c, d := "<mark>", EscapeString(p.span), "</mark>", EmitEscaped(ps);
      assert a + b + c + d == a + (b + (c + d));
    }
  }

  /** Escaped pieces are shown as the text they cover. */
  lemma {:induction false} RenderEmitEscaped(ps: seq<Piece>)
    ensures Render(EmitEscaped(ps)) == Flatten(ps)
    decreases |ps|
  {
    if ps != [] {
      var p, tl := ps[0], ps[1..];
      assert ps == [p] + tl;
      var rest := EmitEscaped(tl);
      RenderEmitEscaped(tl);
      EmitEscapedCons(p, tl);
      FlattenCons(p, tl);
      if p.Hit? {
        var em := EscapeString(p.span);
        calc {
          Render(EmitEscaped(ps));
          Render("<mark>" + (em + ("</mark>" + rest)));
          { RenderOpen(em + ("</mark>" + rest)); }
          Render(em + ("</mark>" + rest));
          { RenderEscaped(p.span, "</mark>" + rest); }
          p.span + Render("</mark>" + rest);
          { RenderClose(rest); }
          p.span + Render(rest);
        }
      } else {
        RenderEscapeChar(p.c, rest);
      }
    }
  }

  /** Removing the marks from escaped pieces leaves the escaped text they cover. */
  lemma {:induction false} StripEmitEscaped(ps: seq<Piece>)
    ensures StripMarks(EmitEscaped(ps)) == EscapeString(Flatten(ps))
    decreases |ps|
  {
    if ps != [] {
      var p, tl := ps[0], ps[1..];
      assert ps == [p] + tl;
      var rest := EmitEscaped(tl);
      StripEmitEscaped(tl);
      EmitEscapedCons(p, tl);
      FlattenCons(p, tl);
      if p.Hit? {
        var em := EscapeString(p.span);
        EscapeStringNoMarkup(p.span);
        calc {
          StripMarks(EmitEscaped(ps));
          StripMarks("<mark>" + (em + ("</mark>" + rest)));
          { StripMarksOpen(em + ("</mark>" + rest)); }
          StripMarks(em + ("</mark>" + rest));
          { StripMarksPlain(em, "</mark>" + rest); }
          em + StripMarks("</mark>" + rest);
          { StripMarksClose(rest); }
          em + EscapeString(Flatten(tl));
          { EscapeStringAppend(p.span, Flatten(tl)); }
          EscapeString(Flatten(ps));
        }
      } else {
        EscapeStringCons(p.c, Flatten(tl));
        assert '<' !in EscapeChar(p.c);
        StripMarksPlain(EscapeChar(p.c), rest);
      }
    }
  }

  /**
   * The corrected highlighter shows exactly the text, keeps `escapeHtml(text)` once
   * the marks are removed, and marks only spans equal to the query up to case.
   */
  lemma HighlightFixedShowsText(text: Option<string>, query: Option<string>)
    ensures Render(HighlightMatchFixed(text, query)) == (if Truthy(text) then text.value else "")
    ensures StripMarks(HighlightMatchFixed(text, query)) == EscapeHtml(text)
    ensures Truthy(text) && Truthy(query) ==>
              forall k :: 0 <= k < |Scan(text.value, query.value)| && Scan(text.value, query.value)[k].Hit?
                ==> FoldEq(Scan(text.value, query.value)[k].span, query.value)
  {
    if Truthy(text) && Truthy(query) {
      var ps := Scan(text.value, query.value);
      ScanCovers(text.value, query.value);
      RenderEmitEscaped(ps);
      StripEmitEscaped(ps);
      ScanHitsMatch(text.value, query.value);
    } else if Truthy(text) {
      RenderEscaped(text.value, "");
      EscapeHasNoMarkup(text);
      StripMarksPlain(EscapeHtml(text), "");
      assert EscapeHtml(text) + "" == EscapeHtml(text);
      assert EscapeString(text.value) + "" == EscapeString(text.value);
    } else {
      assert EscapeHtml(text) == "" by {
        if text.Some? { assert text.value == ""; }
      }
    }
  }
}
