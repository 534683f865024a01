/**
 * How the style pass nests regions. In `§lA§mB§nC` the first replacement
 * turns `§lA` and `§nC` into spans and writes `§m` back as group 3 of the
 * first match; the second replacement then opens the `m` span, which runs to
 * the end of the text and so encloses the `n` span.
 */
module MotdExample {
  import opened Wrappers
  import opened FormatRegex
  import opened MotdFormat

  /** The search for a match passes over text without a section sign. */
  lemma {:induction false} SkipPlain(p: Pattern, s: string, i: nat, j: nat)
    requires i <= j <= |s|
    requires forall k :: i <= k < j ==> s[k] != Section
    ensures NextMatch(p, s, i) == NextMatch(p, s, j)
    decreases j - i
  {
    if i < j {
      assert MatchAt(p, s, i) == None;
      SkipPlain(p, s, i + 1, j);
    }
  }

  /** Group 2 over text without a section sign or a line feed runs to the end, where `$` ends the match. */
  lemma {:induction false} ScanPlain(p: Pattern, s: string, q: nat)
    requires q <= |s|
    requires forall k :: q <= k < |s| ==> s[k] != Section && s[k] != '\n'
    ensures ScanEnd(p, s, q) == Some(|s|)
    decreases |s| - q
  {
    if q < |s| {
      assert !MarkerAt(s, q, p.Ends());
      ScanPlain(p, s, q + 1);
    }
  }

  /** The only match in plain text, one marker and plain text is the marker with everything after it. */
  lemma OneMarkerMatch(p: Pattern, x: string, c: char, y: string)
    requires Plain(x) && Plain(y) && c in p.Codes()
    ensures var s := x + [Section, c] + y;
      NextMatch(p, s, 0) == Some(Match(|x|, c, |s|, |s|)) && NextMatch(p, s, |s|) == None
  {
    var s := x + [Section, c] + y;
    forall k | 0 <= k < |x|
      ensures s[k] != Section
    {
      assert s[k] == x[k];
    }
    SkipPlain(p, s, 0, |x|);
    forall k | |x| + 2 <= k < |s|
      ensures s[k] != Section && s[k] != '\n'
    {
      assert s[k] == y[k - |x| - 2];
    }
    ScanPlain(p, s, |x| + 2);
    assert MarkerAt(s, |x|, p.Codes());
  }

  /** Replacing in plain text, one marker and plain text wraps everything after the marker in one span. */
  lemma ReplaceOneMarker(p: Pattern, x: string, c: char, y: string)
    requires Plain(x) && Plain(y) && c in p.Codes() && c in Table(p)
    ensures HasMatch(p, x + [Section, c] + y)
    ensures Replace(p, x + [Section, c] + y) == Html(x + (OpenTag(p, c) + y + CloseTag))
  {
    var s := x + [Section, c] + y;
    OneMarkerMatch(p, x, c, y);
    var m := Match(|x|, c, |s|, |s|);
    assert s[0..|x|] == x && s[|x| + 2..|s|] == y && s[|s|..] == [];
    assert Evaluate(p, s, m) == OpenTag(p, c) + y + CloseTag + [];
    assert ReplaceFrom(p, s, 0) == Html(s[0..|x|] + Evaluate(p, s, m) + []);
  }

  /** Text without a section sign is left alone by a pass. */
  lemma PlainPassUnchanged(p: Pattern, s: string)
    requires Plain(s)
    ensures RunPass(p, s) == Html(s)
  {
    forall j
      ensures !MarkerAt(s, j, p.Codes())
    {
      if 0 <= j < |s| {
        assert s[j] != Section;
      }
    }
    MatchHasMarker(p, s);
  }

  /** `§lA§mB§nC`. */
  const Nested: string := [Section, 'l', 'A', Section, 'm', 'B', Section, 'n', 'C']

  /** The first match of the style pass is `§lA` with group 3 `§m`. */
  lemma NestedFirstMatch()
    ensures NextMatch(StylePattern, Nested, 0) == Some(Match(0, 'l', 3, 5))
  {
    assert MarkerAt(Nested, 0, StylePattern.Codes());
    assert !MarkerAt(Nested, 2, StylePattern.Ends()) && !EndAt(Nested, 2);
    assert MarkerAt(Nested, 3, StylePattern.Ends());
  }

  /** The search from the end of the first match finds `§nC`, which `$` ends. */
  lemma NestedSecondMatch()
    ensures NextMatch(StylePattern, Nested, 5) == Some(Match(6, 'n', 9, 9))
    ensures NextMatch(StylePattern, Nested, 9) == None
  {
    assert MatchAt(StylePattern, Nested, 5) == None;
    assert MarkerAt(Nested, 6, StylePattern.Codes());
    ScanPlain(StylePattern, Nested, 8);
  }

  /** One step of `Replace`: the text before the match, its replacement, and the rest replaced. */
  lemma ReplaceStep(p: Pattern, s: string, i: nat, m: Match, rest: string)
    requires i <= |s| && NextMatch(p, s, i) == Some(m) && m.code in Table(p)
    requires m.end <= |s| && ReplaceFrom(p, s, m.end) == Html(rest)
    ensures m.start + 2 <= m.textEnd <= m.end && i <= m.start
    ensures ReplaceFrom(p, s, i) == Html(s[i..m.start] + Evaluate(p, s, m) + rest)
  {
  }

  /** The replacements of the two matches in `§lA§mB§nC`. */
  lemma NestedEvaluations()
    ensures Evaluate(StylePattern, Nested, Match(0, 'l', 3, 5)) == OpenTag(StylePattern, 'l') + "A" + CloseTag + [Section, 'm']
    ensures Evaluate(StylePattern, Nested, Match(6, 'n', 9, 9)) == OpenTag(StylePattern, 'n') + "C" + CloseTag + []
  {
    assert Nested[2..3] == "A" && Nested[3..5] == [Section, 'm'];
    assert Nested[8..9] == "C" && Nested[9..9] == [];
  }

  /** Regrouping the pieces of the first replacement around `§m`. */
  lemma RegroupFirst(ol: string, on: string, close: string)
    ensures [] + (ol + "A" + close + [Section, 'm']) + ("B" + (on + "C" + close + []) + []) ==
      (ol + "A" + close) + [Section, 'm'] + ("B" + on + "C" + close)
  {
  }

  /** The first replacement of the style pass leaves `§m` between two plain pieces. */
  lemma NestedFirstReplace()
    ensures Replace(StylePattern, Nested) == Html(
      (OpenTag(StylePattern, 'l') + "A" + CloseTag) + [Section, 'm'] +
      ("B" + OpenTag(StylePattern, 'n') + "C" + CloseTag))
  {
    var m1, m2 := Match(0, 'l', 3, 5), Match(6, 'n', 9, 9);
    NestedFirstMatch();
    NestedSecondMatch();
    NestedEvaluations();
    assert ReplaceFrom(StylePattern, Nested, 9) == Html([]);
    ReplaceStep(StylePattern, Nested, 5, m2, []);
    assert Nested[5..6] == "B" && Nested[0..0] == [];
    var rest := "B" + (OpenTag(StylePattern, 'n') + "C" + CloseTag + []) + [];
    ReplaceStep(StylePattern, Nested, 0, m1, rest);
    RegroupFirst(OpenTag(StylePattern, 'l'), OpenTag(StylePattern, 'n'), CloseTag);
  }

  /** Regrouping the result of the second replacement as the spans appear. */
  lemma RegroupSecond(ol: string, om: string, on: string, close: string)
    ensures (ol + "A" + close) + (om + ("B" + on + "C" + close) + close) ==
      ol + "A" + close + om + "B" + on + "C" + close + close
  {
  }

  /** The style pass on `§lA§mB§nC` takes two replacements. */
  lemma NestedStylePass()
    ensures RunPass(StylePattern, Nested) == Html(
      (OpenTag(StylePattern, 'l') + "A" + CloseTag) +
      (OpenTag(StylePattern, 'm') + ("B" + OpenTag(StylePattern, 'n') + "C" + CloseTag) + CloseTag))
    ensures Plain(RunPass(StylePattern, Nested).text)
  {
    CloseTagShape();
    var x, y := OpenTag(StylePattern, 'l') + "A" + CloseTag, "B" + OpenTag(StylePattern, 'n') + "C" + CloseTag;
    assert Plain("A") && Plain("B") && Plain("C");
    PlainPieces(OpenTag(StylePattern, 'l'), "A");
    PlainPieces(OpenTag(StylePattern, 'l') + "A", CloseTag);
    PlainPieces("B", OpenTag(StylePattern, 'n'));
    PlainPieces("B" + OpenTag(StylePattern, 'n'), "C");
    PlainPieces("B" + OpenTag(StylePattern, 'n') + "C", CloseTag);
    NestedFirstMatch();
    NestedFirstReplace();
    ReplaceOneMarker(StylePattern, x, 'm', y);
    var om := OpenTag(StylePattern, 'm');
    PlainPieces(om, y);
    PlainPieces(om + y, CloseTag);
    PlainPieces(x, om + y + CloseTag);
    PlainPassUnchanged(StylePattern, x + (om + y + CloseTag));
  }

  /**
   * `§lA§mB§nC` becomes a bold A, then a strike-through span that holds B and
   * the underlined C: the `m` region runs to the end of the text.
   */
  lemma NestedExample()
    ensures FormatMotd(Nested) == Html(
      OpenTag(StylePattern, 'l') + "A" + CloseTag +
      OpenTag(StylePattern, 'm') + "B" +
      OpenTag(StylePattern, 'n') + "C" + CloseTag + CloseTag)
  {
    NestedStylePass();
    var html := RunPass(StylePattern, Nested).text;
    PlainPassUnchanged(ColourPattern, html);
    RegroupSecond(OpenTag(StylePattern, 'l'), OpenTag(StylePattern, 'm'), OpenTag(StylePattern, 'n'), CloseTag);
  }
}
