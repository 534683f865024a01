/**
 * The MOTD-to-HTML rewriting: the two code tables, `Regex.Replace` with the
 * evaluator that wraps group 2 in a `<span>` and writes group 3 back, and the
 * loop that replaces until the pattern no longer matches, first for style and
 * then for colour codes. A code the table lacks raises KeyNotFoundException,
 * which here is the outcome `KeyNotFound`.
 */
module MotdFormat {
  import opened Wrappers
  import opened FormatRegex

  /** HTML colours of the colour codes. */
  const MinecraftColors: map<char, string> := map[
    '0' := "#000000", '1' := "#0000AA", '2' := "#00AA00", '3' := "#00AAAA",
    '4' := "#AA0000", '5' := "#AA00AA", '6' := "#FFAA00", '7' := "#AAAAAA",
    '8' := "#555555", '9' := "#5555FF", 'a' := "#55FF55", 'b' := "#55FFFF",
    'c' := "#FF5555", 'd' := "#FF55FF", 'e' := "#FFFF55", 'f' := "#FFFFFF"]

  /**
   * HTML styles of the style codes. Each value is the source's string written
   * as two literals, so that proving it free of section signs and line feeds
   * checks two short strings rather than one long one.
   */
  const MinecraftStyles: map<char, string> := map[
    'k' := "none;font-weight:normal;" + "font-style:normal",
    'm' := "line-through;font-weight:" + "normal;font-style:normal",
    'l' := "none;font-weight:900;" + "font-style:normal",
    'n' := "underline;font-weight:" + "normal;font-style:normal;",
    'o' := "none;font-weight:normal;" + "font-style:italic;",
    'r' := "none;font-weight:normal;" + "font-style:normal;color:#FFFFFF;"]

  /** The HTML text, or the code whose table lookup failed. */
  datatype Rendered = Html(text: string) | KeyNotFound(code: char)

  /** The number of section signs: every replacement removes one. */
  function Sections(s: string): nat
  {
    if s == [] then 0 else (if s[0] == Section then 1 else 0) + Sections(s[1..])
  }

  lemma {:induction false} SectionsAppend(a: string, b: string)
    ensures Sections(a + b) == Sections(a) + Sections(b)
  {
    if a != [] {
      assert (a + b)[1..] == a[1..] + b;
      SectionsAppend(a[1..], b);
    } else {
      assert a + b == b;
    }
  }

  /** Text that holds neither a section sign nor a line feed. */
  predicate Plain(t: string)
  {
    forall k :: 0 <= k < |t| ==> t[k] != Section && t[k] != '\n'
  }

  lemma ColoursArePlain()
    ensures forall c :: c in MinecraftColors ==> Plain(MinecraftColors[c])
  {
  }

  lemma StylesArePlain()
    ensures forall c :: c in MinecraftStyles ==> Plain(MinecraftStyles[c])
  {
    PlainPieces("none;font-weight:normal;", "font-style:normal");
    PlainPieces("line-through;font-weight:", "normal;font-style:normal");
    PlainPieces("none;font-weight:900;", "font-style:normal");
    PlainPieces("underline;font-weight:", "normal;font-style:normal;");
    PlainPieces("none;font-weight:normal;", "font-style:italic;");
    PlainPieces("none;font-weight:normal;", "font-style:normal;color:#FFFFFF;");
  }

  lemma PlainPieces(a: string, b: string)
    requires Plain(a) && Plain(b)
    ensures Plain(a + b)
  {
  }

  /** The table a pattern's evaluator looks codes up in; no entry holds a section sign or a line feed. */
  function Table(p: Pattern): (t: map<char, string>)
  {
    if p.StylePattern? then MinecraftStyles else MinecraftColors
  }

  /**
   * The keys of a table are the lower-case codes of its pattern's group 1 and,
   * for styles, the reset code: an upper-case code is never found, and the
   * colour table has exactly the sixteen codes 0-9 and a-f.
   */
  lemma TableKeys(p: Pattern)
    ensures Table(p).Keys == p.Codes() - UpperCodes + (if p.StylePattern? then {'r'} else {})
  {
    if p.StylePattern? {
      StyleKeys();
    } else {
      ColourKeys();
    }
  }

  lemma StyleKeys()
    ensures MinecraftStyles.Keys == {'k', 'l', 'm', 'n', 'o', 'r'}
  {
  }

  lemma ColourKeys()
    ensures MinecraftColors.Keys == ColourCodes - UpperCodes
  {
  }

  /** The CSS property a pattern's evaluator writes. */
  function Property(p: Pattern): string
  {
    if p.StylePattern? then "text-decoration:" else "color:"
  }

  function OpenTag(p: Pattern, code: char): (t: string)
    requires code in Table(p)
    ensures |t| > 0 && t[0] == '<' && t[|t| - 1] == '>' && Plain(t)
  {
    TableValuePlain(p, code);
    PropertyPlain(p);
    SpanShape(Property(p), Table(p)[code]);
    "<span style=\"" + Property(p) + Table(p)[code] + "\">"
  }

  lemma TableValuePlain(p: Pattern, code: char)
    requires code in Table(p)
    ensures Plain(Table(p)[code])
  {
    ColoursArePlain();
    StylesArePlain();
  }

  lemma PropertyPlain(p: Pattern)
    ensures Plain(Property(p))
  {
  }

  lemma SpanShape(property: string, value: string)
    requires Plain(property) && Plain(value)
    ensures var t := "<span style=\"" + property + value + "\">";
      |t| > 0 && t[0] == '<' && t[|t| - 1] == '>' && Plain(t)
  {
    var head := "<span style=\"" + property + value;
    assert Plain("<span style=\"") && Plain("\">");
    assert head[0] == '<';
  }

  const CloseTag: string := "</span>"

  /** The evaluator: group 2 inside a span, then group 3 as it was. */
  function Evaluate(p: Pattern, s: string, m: Match): string
    requires m.start + 2 <= m.textEnd <= m.end <= |s| && m.code in Table(p)
  {
    OpenTag(p, m.code) + s[m.start + 2..m.textEnd] + CloseTag + s[m.textEnd..m.end]
  }

  /**
   * `Regex.Replace(s, evaluator)` over the part of `s` from `i`: every match,
   * leftmost first and each search starting where the last match ended, is
   * replaced; the text between matches is kept. A replacement drops the
   * section sign that opened the match and adds none.
   */
  function ReplaceFrom(p: Pattern, s: string, i: nat): (r: Rendered)
    requires i <= |s|
    decreases |s| - i
    ensures r.Html? ==> Sections(r.text) <= Sections(s[i..])
    ensures r.Html? && NextMatch(p, s, i).Some? ==> Sections(r.text) < Sections(s[i..])
  {
    match NextMatch(p, s, i)
    case None => Html(s[i..])
    case Some(m) =>
      if m.code !in Table(p) then KeyNotFound(m.code)
      else match ReplaceFrom(p, s, m.end)
        case KeyNotFound(c) => KeyNotFound(c)
        case Html(rest) =>
          SectionsOfSlices(s, i, m.start, m.end);
          SectionsOfSlices(s, i, m.end, |s|);
          assert s[i..] == s[i..|s|] && s[m.end..] == s[m.end..|s|];
          EvaluateDropsSection(p, s, m);
          SectionsAppend(s[i..m.start], Evaluate(p, s, m));
          SectionsAppend(s[i..m.start] + Evaluate(p, s, m), rest);
          Html(s[i..m.start] + Evaluate(p, s, m) + rest)
  }

  lemma SectionsOfSlices(s: string, a: nat, b: nat, c: nat)
    requires a <= b <= c <= |s|
    ensures Sections(s[a..c]) == Sections(s[a..b]) + Sections(s[b..c])
  {
    assert s[a..c] == s[a..b] + s[b..c];
    SectionsAppend(s[a..b], s[b..c]);
  }

  lemma {:induction false} NoSectionsInPlain(t: string)
    requires Plain(t)
    ensures Sections(t) == 0
  {
    if t != [] {
      NoSectionsInPlain(t[1..]);
    }
  }

  /** A replacement holds one section sign fewer than the text it replaces. */
  lemma EvaluateDropsSection(p: Pattern, s: string, m: Match)
    requires IsMatch(p, s, m) && m.code in Table(p)
    ensures Sections(Evaluate(p, s, m)) < Sections(s[m.start..m.end])
  {
    SectionsOfSlices(s, m.start, m.start + 2, m.end);
    SectionsOfSlices(s, m.start + 2, m.textEnd, m.end);
    assert s[m.start..m.start + 2][0] == Section;
    EvaluateSections(p, s, m);
  }

  lemma EvaluateSections(p: Pattern, s: string, m: Match)
    requires IsMatch(p, s, m) && m.code in Table(p)
    ensures Sections(Evaluate(p, s, m)) == Sections(s[m.start + 2..m.textEnd]) + Sections(s[m.textEnd..m.end])
  {
    ReplacementSections(OpenTag(p, m.code), s[m.start + 2..m.textEnd], s[m.textEnd..m.end]);
  }

  lemma ReplacementSections(open: string, text: string, ends: string)
    requires Plain(open)
    ensures Sections(open + text + CloseTag + ends) == Sections(text) + Sections(ends)
  {
    NoSectionsInPlain(open);
    CloseTagHasNoSections();
    SectionsAroundTags(open, text, CloseTag, ends);
  }

  lemma CloseTagHasNoSections()
    ensures Sections(CloseTag) == 0
  {
    CloseTagShape();
    NoSectionsInPlain(CloseTag);
  }

  lemma CloseTagShape()
    ensures Plain(CloseTag) && |CloseTag| > 0 && CloseTag[0] == '<' && CloseTag[|CloseTag| - 1] == '>'
  {
  }

  lemma SectionsAroundTags(open: string, text: string, close: string, ends: string)
    requires Sections(open) == 0 && Sections(close) == 0
    ensures Sections(open + text + close + ends) == Sections(text) + Sections(ends)
  {
    SectionsAppend(open, text);
    SectionsAppend(open + text, close);
    SectionsAppend(open + text + close, ends);
  }

  function Replace(p: Pattern, s: string): Rendered
  {
    ReplaceFrom(p, s, 0)
  }

  /** `while (regex.IsMatch(s)) s = regex.Replace(s, evaluator);` ends where the pattern no longer matches. */
  function RunPass(p: Pattern, s: string): (r: Rendered)
    decreases Sections(s)
    ensures r.Html? ==> !HasMatch(p, r.text)
  {
    if !HasMatch(p, s) then Html(s)
    else
      assert s[0..] == s;
      match Replace(p, s)
      case KeyNotFound(c) => KeyNotFound(c)
      case Html(t) => RunPass(p, t)
  }

  /** The style pass and then the colour pass; the HTML is where the colour pattern no longer matches. */
  function FormatMotd(motd: string): (r: Rendered)
    ensures r.Html? ==> RunPass(StylePattern, motd).Html? && !HasMatch(ColourPattern, r.text)
  {
    match RunPass(StylePattern, motd)
    case KeyNotFound(c) => KeyNotFound(c)
    case Html(t) => RunPass(ColourPattern, t)
  }

  /** The key of every lookup is a code of group 1, so the style entry for `r` is never read. */
  lemma ResetEntryUnreachable()
    ensures 'r' in Table(StylePattern) && 'r' !in StylePattern.Codes()
  {
  }

  // Sections in pieces of a text

  lemma NoMarkerInPlain(t: string, codes: set<char>)
    requires Plain(t)
    ensures !HasMarker(t, codes)
  {
    forall j ensures !MarkerAt(t, j, codes) {
      if 0 <= j < |t| {
        assert t[j] != Section;
      }
    }
  }

  /** A slice of a text that has no marker from `a` on has none either. */
  lemma NoMarkerInSlice(s: string, lo: nat, a: nat, b: nat, codes: set<char>)
    requires lo <= a <= b <= |s|
    requires forall j :: lo <= j ==> !MarkerAt(s, j, codes)
    ensures !HasMarker(s[a..b], codes)
  {
    forall k ensures !MarkerAt(s[a..b], k, codes) {
      assert MarkerAt(s[a..b], k, codes) ==> MarkerAt(s, a + k, codes);
    }
  }

  /** Two texts without markers make none when joined, unless a section sign meets a code. */
  lemma NoMarkerConcat(x: string, y: string, codes: set<char>)
    requires !HasMarker(x, codes) && !HasMarker(y, codes)
    requires x == [] || y == [] || x[|x| - 1] != Section || y[0] !in codes
    ensures !HasMarker(x + y, codes)
  {
    forall j ensures !MarkerAt(x + y, j, codes) {
      if j + 1 < |x| {
        assert MarkerAt(x + y, j, codes) ==> MarkerAt(x, j, codes);
      } else if j >= |x| {
        assert MarkerAt(x + y, j, codes) ==> MarkerAt(y, j - |x|, codes);
      }
    }
  }

  /** Text between two tags, and the group 3 after them, make no marker the pieces lack. */
  lemma NoMarkerAroundTags(open: string, text: string, close: string, ends: string, codes: set<char>)
    requires Plain(open) && Plain(close) && '<' !in codes
    requires |open| > 0 && open[|open| - 1] == '>' && |close| > 0 && close[0] == '<' && close[|close| - 1] == '>'
    requires !HasMarker(text, codes) && !HasMarker(ends, codes)
    ensures !HasMarker(open + text + close + ends, codes)
  {
    NoMarkerInPlain(open, codes);
    NoMarkerInPlain(close, codes);
    NoMarkerConcat(open, text, codes);
    var x := open + text;
    assert x[|x| - 1] == '>' || x[|x| - 1] == text[|text| - 1];
    NoMarkerConcat(x, close, codes);
    assert (x + close)[|x + close| - 1] == '>';
    NoMarkerConcat(x + close, ends, codes);
  }

  lemma MarkerLeft(x: string, y: string, j: int, codes: set<char>)
    requires MarkerAt(x, j, codes)
    ensures MarkerAt(x + y, j, codes)
  {
  }

  lemma MarkerRight(x: string, y: string, j: int, codes: set<char>)
    requires MarkerAt(y, j, codes)
    ensures MarkerAt(x + y, |x| + j, codes)
  {
  }

  lemma MarkerInSlice(s: string, a: nat, b: nat, j: int, codes: set<char>)
    requires a <= j && j + 2 <= b <= |s| && MarkerAt(s, j, codes)
    ensures MarkerAt(s[a..b], j - a, codes)
  {
  }

  /** The section sign of a pattern is never one of its codes or end codes. */
  lemma SectionIsNoCode(p: Pattern)
    ensures Section !in p.Codes() && Section !in p.Ends() && '<' !in p.Codes()
  {
  }

  /** Group 3 is empty or a section sign and an end code: it never ends with a section sign. */
  lemma GroupThreeEnd(p: Pattern, s: string, m: Match)
    requires IsMatch(p, s, m)
    ensures m.end == m.textEnd || (m.end == m.textEnd + 2 && s[m.end - 1] != Section)
  {
    SectionIsNoCode(p);
  }

  /** The replacement built from the slices a..t and t..e has no marker that `s` lacks from `lo` on. */
  lemma NoMarkerInReplacement(open: string, s: string, lo: nat, a: nat, t: nat, e: nat, codes: set<char>)
    requires Plain(open) && |open| > 0 && open[|open| - 1] == '>' && '<' !in codes
    requires lo <= a <= t <= e <= |s|
    requires forall j :: lo <= j ==> !MarkerAt(s, j, codes)
    ensures !HasMarker(open + s[a..t] + CloseTag + s[t..e], codes)
  {
    NoMarkerInSlice(s, lo, a, t, codes);
    NoMarkerInSlice(s, lo, t, e, codes);
    CloseTagShape();
    NoMarkerAroundTags(open, s[a..t], CloseTag, s[t..e], codes);
  }

  lemma TagEdges(open: string, s: string, a: nat, t: nat, e: nat)
    requires |open| > 0 && open[0] == '<'
    requires a <= t <= e <= |s| && (e == t || (e == t + 2 && s[e - 1] != Section))
    ensures var r := open + s[a..t] + CloseTag + s[t..e]; r[0] == '<' && r[|r| - 1] != Section
  {
    CloseTagShape();
    var ends := s[t..e];
    assert ends == [] || ends[|ends| - 1] == s[e - 1];
  }

  /** Replacing adds no marker of codes that exclude `<`. */
  lemma {:induction false} ReplaceKeepsNoMarker(p: Pattern, s: string, i: nat, codes: set<char>)
    requires i <= |s| && '<' !in codes
    requires forall j :: i <= j ==> !MarkerAt(s, j, codes)
    ensures ReplaceFrom(p, s, i).Html? ==> !HasMarker(ReplaceFrom(p, s, i).text, codes)
    decreases |s| - i
  {
    match NextMatch(p, s, i)
    case None =>
      NoMarkerInSlice(s, i, i, |s|, codes);
      assert s[i..] == s[i..|s|];
    case Some(m) =>
      if m.code in Table(p) && ReplaceFrom(p, s, m.end).Html? {
        ReplaceKeepsNoMarker(p, s, m.end, codes);
        GroupThreeEnd(p, s, m);
        StepKeepsNoMarker(p, s, i, m, ReplaceFrom(p, s, m.end).text, codes);
      }
  }

  /** One replacement step, with a rest that has no marker, makes no marker. */
  lemma StepKeepsNoMarker(p: Pattern, s: string, i: nat, m: Match, rest: string, codes: set<char>)
    requires i <= m.start && m.start + 2 <= m.textEnd <= m.end <= |s| && m.code in Table(p) && '<' !in codes
    requires m.end == m.textEnd || (m.end == m.textEnd + 2 && s[m.end - 1] != Section)
    requires forall j :: i <= j ==> !MarkerAt(s, j, codes)
    requires !HasMarker(rest, codes)
    ensures !HasMarker(s[i..m.start] + Evaluate(p, s, m) + rest, codes)
  {
    SpliceNoMarker(OpenTag(p, m.code), s, i, m.start, m.start + 2, m.textEnd, m.end, rest, codes);
  }

  /** Text without markers, a replacement built from such text, and a rest without markers, make none together. */
  lemma SpliceNoMarker(open: string, s: string, i: nat, st: nat, a: nat, t: nat, e: nat, rest: string, codes: set<char>)
    requires Plain(open) && |open| > 0 && open[0] == '<' && open[|open| - 1] == '>' && '<' !in codes
    requires i <= st <= a <= t <= e <= |s| && (e == t || (e == t + 2 && s[e - 1] != Section))
    requires forall j :: i <= j ==> !MarkerAt(s, j, codes)
    requires !HasMarker(rest, codes)
    ensures !HasMarker(s[i..st] + (open + s[a..t] + CloseTag + s[t..e]) + rest, codes)
  {
    NoMarkerInSlice(s, i, i, st, codes);
    NoMarkerInReplacement(open, s, i, a, t, e, codes);
    TagEdges(open, s, a, t, e);
    var ev := open + s[a..t] + CloseTag + s[t..e];
    NoMarkerConcat(s[i..st], ev, codes);
    assert (s[i..st] + ev)[|s[i..st] + ev| - 1] == ev[|ev| - 1];
    NoMarkerConcat(s[i..st] + ev, rest, codes);
  }

  /** A replacement holds no line feed that its group 2 and group 3 lack. */
  lemma EvaluateNoNewline(p: Pattern, s: string, m: Match)
    requires IsMatch(p, s, m) && m.code in Table(p)
    ensures '\n' in Evaluate(p, s, m) ==> '\n' in s[m.start + 2..m.textEnd] || '\n' in s[m.textEnd..m.end]
  {
    CloseTagShape();
    NoNewlineAroundTags(OpenTag(p, m.code), s[m.start + 2..m.textEnd], CloseTag, s[m.textEnd..m.end]);
  }

  lemma NoNewlineAroundTags(open: string, text: string, close: string, ends: string)
    requires Plain(open) && Plain(close)
    ensures '\n' in open + text + close + ends ==> '\n' in text || '\n' in ends
  {
    assert '\n' !in open && '\n' !in close;
  }

  /** Replacing adds no line feed. */
  lemma {:induction false} ReplaceKeepsNoNewline(p: Pattern, s: string, i: nat)
    requires i <= |s|
    requires forall k :: i <= k < |s| ==> s[k] != '\n'
    ensures ReplaceFrom(p, s, i).Html? ==> '\n' !in ReplaceFrom(p, s, i).text
    decreases |s| - i
  {
    match NextMatch(p, s, i)
    case None =>
      assert '\n' !in s[i..];
    case Some(m) =>
      if m.code in Table(p) && ReplaceFrom(p, s, m.end).Html? {
        ReplaceKeepsNoNewline(p, s, m.end);
        assert '\n' !in s[i..m.start];
        assert '\n' !in s[m.start + 2..m.textEnd];
        assert '\n' !in s[m.textEnd..m.end];
        EvaluateNoNewline(p, s, m);
      }
  }

  /**
   * A marker of codes other than the match's own code, inside a match, is in
   * group 2 or is group 3.
   */
  lemma MarkerPlaceInMatch(p: Pattern, s: string, m: Match, j: nat, codes: set<char>)
    requires IsMatch(p, s, m) && m.code !in codes
    requires m.start <= j < m.end && MarkerAt(s, j, codes)
    requires Section !in codes && '\n' !in codes
    ensures (m.start + 2 <= j && j + 1 < m.textEnd) || (j == m.textEnd && m.end == m.textEnd + 2)
  {
    SectionIsNoCode(p);
    GroupThreeEnd(p, s, m);
    assert s[j] == Section && s[j + 1] in codes;
    assert j != m.start + 1;
    assert m.textEnd == |s| || s[m.textEnd] == Section || s[m.textEnd] == '\n';
    assert j + 1 != m.textEnd;
  }

  /**
   * A marker of codes that the pattern does not open, or opens but cannot look
   * up, is inside group 2 or group 3 when a match covers it, so the
   * replacement keeps it.
   */
  lemma MarkerInMatch(p: Pattern, s: string, m: Match, j: nat, codes: set<char>)
    requires IsMatch(p, s, m) && m.code in Table(p)
    requires m.start <= j < m.end && MarkerAt(s, j, codes)
    requires Section !in codes && '\n' !in codes
    requires m.code !in codes
    ensures HasMarker(Evaluate(p, s, m), codes)
  {
    MarkerPlaceInMatch(p, s, m, j, codes);
    MarkerInPieces(OpenTag(p, m.code), s, m.start + 2, m.textEnd, m.end, j, codes);
  }

  /** A marker inside group 2, or forming group 3, is in the replacement built from them. */
  lemma MarkerInPieces(open: string, s: string, a: nat, t: nat, e: nat, j: nat, codes: set<char>)
    requires a <= t <= e <= |s| && MarkerAt(s, j, codes)
    requires (a <= j && j + 1 < t) || (j == t && e == t + 2)
    ensures HasMarker(open + s[a..t] + CloseTag + s[t..e], codes)
  {
    if j + 1 < t {
      MarkerInSlice(s, a, t, j, codes);
      MarkerInText(open, s[a..t], CloseTag, s[t..e], j - a, codes);
    } else {
      MarkerInSlice(s, t, e, j, codes);
      MarkerRight(open + s[a..t] + CloseTag, s[t..e], 0, codes);
    }
  }

  lemma MarkerInText(open: string, text: string, close: string, ends: string, k: int, codes: set<char>)
    requires MarkerAt(text, k, codes)
    ensures MarkerAt(open + text + close + ends, |open| + k, codes)
  {
    MarkerRight(open, text, k, codes);
    MarkerLeft(open + text, close, |open| + k, codes);
    MarkerLeft(open + text + close, ends, |open| + k, codes);
  }

  /** A marker of codes the pattern does not open, or cannot look up, survives replacing. */
  lemma {:induction false} ReplaceKeepsMarker(p: Pattern, s: string, i: nat, j: nat, codes: set<char>)
    requires i <= j && MarkerAt(s, j, codes)
    requires Section !in codes && '\n' !in codes
    requires forall c :: c in codes && c in p.Codes() ==> c !in Table(p)
    ensures ReplaceFrom(p, s, i).Html? ==> HasMarker(ReplaceFrom(p, s, i).text, codes)
    decreases |s| - i
  {
    match NextMatch(p, s, i)
    case None =>
      MarkerInSlice(s, i, |s|, j, codes);
      assert s[i..] == s[i..|s|];
    case Some(m) =>
      if m.code in Table(p) && ReplaceFrom(p, s, m.end).Html? {
        var rest := ReplaceFrom(p, s, m.end).text;
        if j >= m.end {
          ReplaceKeepsMarker(p, s, m.end, j, codes);
          HasMarkerConcat(s[i..m.start] + Evaluate(p, s, m), rest, codes);
        } else {
          assert m.code in p.Codes();
          StepKeepsMarker(p, s, i, m, rest, j, codes);
        }
      }
  }

  /** A marker before the end of a match survives in the text before it or in its replacement. */
  lemma StepKeepsMarker(p: Pattern, s: string, i: nat, m: Match, rest: string, j: nat, codes: set<char>)
    requires IsMatch(p, s, m) && i <= m.start && m.code in Table(p) && m.code !in codes
    requires i <= j < m.end && MarkerAt(s, j, codes)
    requires Section !in codes && '\n' !in codes
    ensures HasMarker(s[i..m.start] + Evaluate(p, s, m) + rest, codes)
  {
    var a, ev := s[i..m.start], Evaluate(p, s, m);
    if j < m.start {
      MarkerBeforeMatch(p, s, i, m, j, codes);
    } else {
      MarkerInMatch(p, s, m, j, codes);
    }
    HasMarkerConcat(a, ev, codes);
    HasMarkerConcat(a + ev, rest, codes);
  }

  lemma MarkerBeforeMatch(p: Pattern, s: string, i: nat, m: Match, j: nat, codes: set<char>)
    requires IsMatch(p, s, m) && i <= j < m.start && MarkerAt(s, j, codes) && Section !in codes
    ensures HasMarker(s[i..m.start], codes)
  {
    assert s[m.start] == Section;
    MarkerInSlice(s, i, m.start, j, codes);
  }

  lemma HasMarkerConcat(x: string, y: string, codes: set<char>)
    requires HasMarker(x, codes) || HasMarker(y, codes)
    ensures HasMarker(x + y, codes)
  {
    if HasMarker(x, codes) {
      var k :| MarkerAt(x, k, codes);
      MarkerLeft(x, y, k, codes);
    } else {
      var k :| MarkerAt(y, k, codes);
      MarkerRight(x, y, k, codes);
    }
  }

  /** A failed lookup is for a code of group 1 that the table lacks, found after a section sign. */
  lemma {:induction false} ReplaceError(p: Pattern, s: string, i: nat, c: char)
    requires i <= |s| && ReplaceFrom(p, s, i) == KeyNotFound(c)
    ensures c in p.Codes() && c !in Table(p)
    ensures exists j :: i <= j && MarkerAt(s, j, {c})
    decreases |s| - i
  {
    var m := NextMatch(p, s, i).value;
    if m.code !in Table(p) {
      assert MarkerAt(s, m.start, {c});
    } else {
      ReplaceError(p, s, m.end, c);
    }
  }

  /** Every marker after replacing was already there before. */
  lemma ReplaceMarkerOrigin(p: Pattern, s: string, codes: set<char>)
    requires '<' !in codes && Replace(p, s).Html? && HasMarker(Replace(p, s).text, codes)
    ensures HasMarker(s, codes)
  {
    if forall j :: 0 <= j ==> !MarkerAt(s, j, codes) {
      ReplaceKeepsNoMarker(p, s, 0, codes);
    }
  }

  // Counting markers

  /** The number of markers of `codes`: positions holding a section sign followed by one of them. */
  function MarkerCount(s: string, codes: set<char>): nat
  {
    if |s| < 2 then 0
    else (if s[0] == Section && s[1] in codes then 1 else 0) + MarkerCount(s[1..], codes)
  }

  /** A text has a marker exactly when it has a positive number of them. */
  lemma {:induction false} MarkerCountPositive(s: string, codes: set<char>)
    ensures MarkerCount(s, codes) > 0 <==> HasMarker(s, codes)
  {
    if |s| >= 2 {
      MarkerCountPositive(s[1..], codes);
      if MarkerAt(s, 0, codes) {
        assert HasMarker(s, codes);
      }
      if HasMarker(s[1..], codes) {
        var j :| MarkerAt(s[1..], j, codes);
        assert MarkerAt(s, j + 1, codes);
      }
      if HasMarker(s, codes) {
        var j :| MarkerAt(s, j, codes);
        if j > 0 {
          assert MarkerAt(s[1..], j - 1, codes);
        }
      }
    } else {
      forall j ensures !MarkerAt(s, j, codes) {
      }
    }
  }

  /** Two texts joined where no section sign meets a code hold the markers of both and no more. */
  lemma {:induction false} MarkerCountAppend(x: string, y: string, codes: set<char>)
    requires x == [] || y == [] || x[|x| - 1] != Section || y[0] !in codes
    ensures MarkerCount(x + y, codes) == MarkerCount(x, codes) + MarkerCount(y, codes)
  {
    if x == [] {
      assert x + y == y;
    } else if |x| == 1 {
      if y == [] {
        assert x + y == x;
      } else {
        assert (x + y)[1..] == y;
      }
    } else {
      assert (x + y)[1..] == x[1..] + y;
      MarkerCountAppend(x[1..], y, codes);
    }
  }

  lemma {:induction false} NoMarkerCountInPlain(t: string, codes: set<char>)
    requires Plain(t)
    ensures MarkerCount(t, codes) == 0
  {
    if |t| >= 2 {
      assert Plain(t[1..]);
      NoMarkerCountInPlain(t[1..], codes);
    }
  }

  lemma SliceMarkerCount(s: string, a: nat, b: nat, c: nat, codes: set<char>)
    requires a <= b <= c <= |s|
    requires b == a || b == c || s[b - 1] != Section || s[b] !in codes
    ensures MarkerCount(s[a..c], codes) == MarkerCount(s[a..b], codes) + MarkerCount(s[b..c], codes)
  {
    assert s[a..c] == s[a..b] + s[b..c];
    MarkerCountAppend(s[a..b], s[b..c], codes);
  }

  /** A replacement holds the markers of its group 2 and group 3, for codes other than `<`. */
  lemma ReplacementMarkerCount(open: string, text: string, ends: string, codes: set<char>)
    requires Plain(open) && |open| > 0 && open[|open| - 1] == '>' && '<' !in codes
    ensures MarkerCount(open + text + CloseTag + ends, codes) == MarkerCount(text, codes) + MarkerCount(ends, codes)
  {
    CloseTagShape();
    NoMarkerCountInPlain(open, codes);
    NoMarkerCountInPlain(CloseTag, codes);
    MarkerCountAppend(open, text, codes);
    var x := open + text;
    MarkerCountAppend(x, CloseTag, codes);
    assert (x + CloseTag)[|x + CloseTag| - 1] == '>';
    MarkerCountAppend(x + CloseTag, ends, codes);
  }

  /** A match whose own code is not one of `codes` holds the markers of its group 2 and group 3. */
  lemma MatchMarkerCount(s: string, st: nat, t: nat, e: nat, codes: set<char>)
    requires st + 2 <= t <= e <= |s|
    requires s[st + 1] != Section && s[st + 1] !in codes
    requires t == e || s[t] !in codes
    ensures MarkerCount(s[st..e], codes) == MarkerCount(s[st + 2..t], codes) + MarkerCount(s[t..e], codes)
  {
    SliceMarkerCount(s, st, st + 2, e, codes);
    SliceMarkerCount(s, st + 2, t, e, codes);
    assert s[st..st + 2][1..] == [s[st + 1]];
  }

  /** Where a match meets the text around it, no section sign meets a code of `codes`. */
  lemma MatchEdges(p: Pattern, s: string, m: Match, codes: set<char>)
    requires IsMatch(p, s, m) && Section !in codes && '\n' !in codes
    ensures s[m.start] == Section && s[m.start + 1] == m.code && m.code in p.Codes()
    ensures s[m.start + 1] != Section
    ensures m.textEnd == m.end || s[m.textEnd] !in codes
    ensures m.end == |s| || s[m.end - 1] != Section || s[m.end] !in codes
    ensures m.end == m.textEnd || (m.end == m.textEnd + 2 && s[m.end - 1] != Section)
  {
    SectionIsNoCode(p);
    GroupThreeEnd(p, s, m);
  }

  /** One replacement step keeps the number of markers of codes the step does not replace. */
  lemma StepKeepsMarkerCount(p: Pattern, s: string, i: nat, m: Match, rest: string, codes: set<char>)
    requires i <= m.start && m.start + 2 <= m.textEnd <= m.end <= |s| && m.code in Table(p)
    requires s[m.start] == Section && s[m.start + 1] != Section && s[m.start + 1] !in codes
    requires m.textEnd == m.end || s[m.textEnd] !in codes
    requires m.end == |s| || s[m.end - 1] != Section || s[m.end] !in codes
    requires m.end == m.textEnd || (m.end == m.textEnd + 2 && s[m.end - 1] != Section)
    requires Section !in codes && '<' !in codes
    requires MarkerCount(rest, codes) == MarkerCount(s[m.end..], codes)
    ensures MarkerCount(s[i..m.start] + Evaluate(p, s, m) + rest, codes) == MarkerCount(s[i..], codes)
  {
    SpliceMarkerCount(OpenTag(p, m.code), s, i, m.start, m.textEnd, m.end, rest, codes);
    EvaluateSplice(p, s, i, m, rest);
  }

  lemma EvaluateSplice(p: Pattern, s: string, i: nat, m: Match, rest: string)
    requires i <= m.start && m.start + 2 <= m.textEnd <= m.end <= |s| && m.code in Table(p)
    ensures s[i..m.start] + Evaluate(p, s, m) + rest ==
      s[i..m.start] + (OpenTag(p, m.code) + s[m.start + 2..m.textEnd] + CloseTag + s[m.textEnd..m.end]) + rest
  {
    var ev := OpenTag(p, m.code) + s[m.start + 2..m.textEnd] + CloseTag + s[m.textEnd..m.end];
    assert Evaluate(p, s, m) == ev;
  }

  /** Splicing a replacement for `s[st..e]` keeps the markers of `s[i..]` when `rest` has those of `s[e..]`. */
  lemma SpliceMarkerCount(open: string, s: string, i: nat, st: nat, t: nat, e: nat, rest: string, codes: set<char>)
    requires Plain(open) && |open| > 0 && open[0] == '<' && open[|open| - 1] == '>'
    requires i <= st && st + 2 <= t <= e <= |s|
    requires s[st] == Section && s[st + 1] != Section && s[st + 1] !in codes
    requires t == e || s[t] !in codes
    requires e == |s| || s[e - 1] != Section || s[e] !in codes
    requires e == t || (e == t + 2 && s[e - 1] != Section)
    requires Section !in codes && '<' !in codes
    requires MarkerCount(rest, codes) == MarkerCount(s[e..], codes)
    ensures MarkerCount(s[i..st] + (open + s[st + 2..t] + CloseTag + s[t..e]) + rest, codes) == MarkerCount(s[i..], codes)
  {
    var ends := s[t..e];
    assert ends == [] || ends[|ends| - 1] == s[e - 1];
    SourceMarkerCount(s, i, st, t, e, codes);
    ResultMarkerCount(open, s[i..st], s[st + 2..t], ends, rest, codes);
  }

  /** The markers of a text from `i` are those before a match, in its group 2, in its group 3 and after it. */
  lemma SourceMarkerCount(s: string, i: nat, st: nat, t: nat, e: nat, codes: set<char>)
    requires i <= st && st + 2 <= t <= e <= |s| && Section !in codes
    requires s[st] == Section && s[st + 1] != Section && s[st + 1] !in codes
    requires t == e || s[t] !in codes
    requires e == |s| || s[e - 1] != Section || s[e] !in codes
    ensures MarkerCount(s[i..], codes) ==
      MarkerCount(s[i..st], codes) + MarkerCount(s[st + 2..t], codes) + MarkerCount(s[t..e], codes) + MarkerCount(s[e..], codes)
  {
    assert s[i..] == s[i..|s|] && s[e..] == s[e..|s|];
    SliceMarkerCount(s, i, st, |s|, codes);
    SliceMarkerCount(s, st, e, |s|, codes);
    MatchMarkerCount(s, st, t, e, codes);
  }

  /** The markers of a text with a replacement spliced in are those of its pieces. */
  lemma ResultMarkerCount(open: string, x: string, text: string, ends: string, rest: string, codes: set<char>)
    requires Plain(open) && |open| > 0 && open[0] == '<' && open[|open| - 1] == '>' && '<' !in codes
    requires ends == [] || ends[|ends| - 1] != Section
    ensures MarkerCount(x + (open + text + CloseTag + ends) + rest, codes) ==
      MarkerCount(x, codes) + MarkerCount(text, codes) + MarkerCount(ends, codes) + MarkerCount(rest, codes)
  {
    CloseTagShape();
    ReplacementMarkerCount(open, text, ends, codes);
    var ev := open + text + CloseTag + ends;
    assert ev[0] == '<';
    assert ev[|ev| - 1] != Section;
    MarkerCountAppend(x, ev, codes);
    assert (x + ev)[|x + ev| - 1] == ev[|ev| - 1];
    MarkerCountAppend(x + ev, rest, codes);
  }

  /**
   * Replacing keeps every marker of codes that the pattern does not open, or
   * opens but cannot look up: their number does not change. Codes other than
   * `<` only, since a tag placed after a section sign makes a `§<`.
   */
  lemma {:induction false} ReplaceKeepsMarkerCount(p: Pattern, s: string, i: nat, codes: set<char>)
    requires i <= |s| && Section !in codes && '\n' !in codes && '<' !in codes
    requires forall c :: c in codes && c in p.Codes() ==> c !in Table(p)
    ensures ReplaceFrom(p, s, i).Html? ==> MarkerCount(ReplaceFrom(p, s, i).text, codes) == MarkerCount(s[i..], codes)
    decreases |s| - i
  {
    match NextMatch(p, s, i)
    case None =>
    case Some(m) =>
      if m.code in Table(p) && ReplaceFrom(p, s, m.end).Html? {
        ReplaceKeepsMarkerCount(p, s, m.end, codes);
        MatchEdges(p, s, m, codes);
        assert m.code in p.Codes();
        StepKeepsMarkerCount(p, s, i, m, ReplaceFrom(p, s, m.end).text, codes);
      }
  }

  // The loop of one pass

  lemma {:induction false} RunPassKeepsNoNewline(p: Pattern, s: string)
    requires '\n' !in s
    ensures RunPass(p, s).Html? ==> '\n' !in RunPass(p, s).text
    decreases Sections(s)
  {
    if HasMatch(p, s) {
      assert s[0..] == s;
      if Replace(p, s).Html? {
        ReplaceKeepsNoNewline(p, s, 0);
        RunPassKeepsNoNewline(p, Replace(p, s).text);
      }
    }
  }

  lemma {:induction false} RunPassKeepsNoMarker(p: Pattern, s: string, codes: set<char>)
    requires '<' !in codes && !HasMarker(s, codes)
    ensures RunPass(p, s).Html? ==> !HasMarker(RunPass(p, s).text, codes)
    decreases Sections(s)
  {
    if HasMatch(p, s) {
      assert s[0..] == s;
      if Replace(p, s).Html? {
        ReplaceKeepsNoMarker(p, s, 0, codes);
        RunPassKeepsNoMarker(p, Replace(p, s).text, codes);
      }
    }
  }

  lemma {:induction false} RunPassKeepsMarker(p: Pattern, s: string, codes: set<char>)
    requires HasMarker(s, codes) && Section !in codes && '\n' !in codes
    requires forall c :: c in codes && c in p.Codes() ==> c !in Table(p)
    ensures RunPass(p, s).Html? ==> HasMarker(RunPass(p, s).text, codes)
    decreases Sections(s)
  {
    if HasMatch(p, s) {
      assert s[0..] == s;
      if Replace(p, s).Html? {
        var j :| MarkerAt(s, j, codes);
        ReplaceKeepsMarker(p, s, 0, j, codes);
        RunPassKeepsMarker(p, Replace(p, s).text, codes);
      }
    }
  }

  lemma {:induction false} RunPassError(p: Pattern, s: string, c: char)
    requires RunPass(p, s) == KeyNotFound(c)
    ensures c in p.Codes() && c !in Table(p) && HasMarker(s, {c})
    decreases Sections(s)
  {
    assert HasMatch(p, s);
    assert s[0..] == s;
    SectionIsNoCode(p);
    match Replace(p, s)
    case KeyNotFound(_) =>
      ReplaceError(p, s, 0, c);
    case Html(t) =>
      RunPassError(p, t, c);
      ReplaceMarkerOrigin(p, s, {c});
  }

  /** A pass keeps the number of markers of codes it does not open or cannot look up, other than `<`. */
  lemma {:induction false} RunPassKeepsMarkerCount(p: Pattern, s: string, codes: set<char>)
    requires Section !in codes && '\n' !in codes && '<' !in codes
    requires forall c :: c in codes && c in p.Codes() ==> c !in Table(p)
    ensures RunPass(p, s).Html? ==> MarkerCount(RunPass(p, s).text, codes) == MarkerCount(s, codes)
    decreases Sections(s)
  {
    if HasMatch(p, s) {
      assert s[0..] == s;
      if Replace(p, s).Html? {
        ReplaceKeepsMarkerCount(p, s, 0, codes);
        RunPassKeepsMarkerCount(p, Replace(p, s).text, codes);
      }
    }
  }

  // The whole formatter

  /** The pattern matches only where a marker of its codes is. */
  lemma MatchHasMarker(p: Pattern, s: string)
    ensures HasMatch(p, s) ==> HasMarker(s, p.Codes())
  {
    if HasMatch(p, s) {
      var m := NextMatch(p, s, 0).value;
      assert MarkerAt(s, m.start, p.Codes());
    }
  }

  lemma NoSectionNoMarker(s: string, codes: set<char>)
    requires Section !in s
    ensures !HasMarker(s, codes)
  {
    forall j ensures !MarkerAt(s, j, codes) {
      if 0 <= j < |s| {
        assert s[j] in s;
      }
    }
  }

  /** A MOTD without a section sign comes back unchanged. */
  lemma NoSectionUnchanged(motd: string)
    requires Section !in motd
    ensures FormatMotd(motd) == Html(motd)
  {
    NoSectionNoMarker(motd, StyleCodes);
    NoSectionNoMarker(motd, ColourCodes);
    MatchHasMarker(StylePattern, motd);
    MatchHasMarker(ColourPattern, motd);
  }

  /**
   * After both passes no style and no colour marker is left, and no line feed
   * appears, when the MOTD has none.
   */
  lemma FormattedHasNoCodes(motd: string)
    requires '\n' !in motd && FormatMotd(motd).Html?
    ensures !HasMarker(FormatMotd(motd).text, StyleCodes)
    ensures !HasMarker(FormatMotd(motd).text, ColourCodes)
    ensures '\n' !in FormatMotd(motd).text
  {
    var styled := RunPass(StylePattern, motd).text;
    RunPassKeepsNoNewline(StylePattern, motd);
    MatchIffMarker(StylePattern, styled);
    RunPassKeepsNoNewline(ColourPattern, styled);
    RunPassKeepsNoMarker(ColourPattern, styled, StyleCodes);
    MatchIffMarker(ColourPattern, FormatMotd(motd).text);
  }

  /** `§r`, and a section sign before any code outside both patterns, pass both passes. */
  lemma UnknownMarkersSurvive(motd: string, codes: set<char>)
    requires codes !! StyleCodes + ColourCodes && Section !in codes && '\n' !in codes
    requires HasMarker(motd, codes) && FormatMotd(motd).Html?
    ensures HasMarker(FormatMotd(motd).text, codes)
  {
    FormatKeepsMarker(motd, codes);
  }

  lemma FormatKeepsMarker(motd: string, codes: set<char>)
    requires Section !in codes && '\n' !in codes
    requires forall c :: c in codes && c in StyleCodes ==> c !in MinecraftStyles
    requires forall c :: c in codes && c in ColourCodes ==> c !in MinecraftColors
    requires HasMarker(motd, codes) && FormatMotd(motd).Html?
    ensures HasMarker(FormatMotd(motd).text, codes)
  {
    RunPassKeepsMarker(StylePattern, motd, codes);
    RunPassKeepsMarker(ColourPattern, RunPass(StylePattern, motd).text, codes);
  }

  /** Formatting keeps the number of markers of codes neither table can look up, other than `<`. */
  lemma FormatKeepsMarkerCount(motd: string, codes: set<char>)
    requires Section !in codes && '\n' !in codes && '<' !in codes
    requires forall c :: c in codes && c in StyleCodes ==> c !in MinecraftStyles
    requires forall c :: c in codes && c in ColourCodes ==> c !in MinecraftColors
    ensures FormatMotd(motd).Html? ==> MarkerCount(FormatMotd(motd).text, codes) == MarkerCount(motd, codes)
  {
    RunPassKeepsMarkerCount(StylePattern, motd, codes);
    if RunPass(StylePattern, motd).Html? {
      RunPassKeepsMarkerCount(ColourPattern, RunPass(StylePattern, motd).text, codes);
    }
  }

  /**
   * Every `§r`, and every section sign before a character outside both
   * patterns other than `<`, stays in the HTML: their number does not change.
   */
  lemma UnknownMarkersKept(motd: string, codes: set<char>)
    requires codes !! StyleCodes + ColourCodes && Section !in codes && '\n' !in codes && '<' !in codes
    ensures FormatMotd(motd).Html? ==> MarkerCount(FormatMotd(motd).text, codes) == MarkerCount(motd, codes)
  {
    FormatKeepsMarkerCount(motd, codes);
  }

  /** A failed lookup is always for an upper-case code that the MOTD holds after a section sign. */
  lemma KeyNotFoundIsUppercase(motd: string, c: char)
    requires FormatMotd(motd) == KeyNotFound(c)
    ensures c in UpperCodes && HasMarker(motd, {c})
  {
    match RunPass(StylePattern, motd)
    case KeyNotFound(_) =>
      RunPassError(StylePattern, motd, c);
      TableKeys(StylePattern);
    case Html(styled) =>
      RunPassError(ColourPattern, styled, c);
      TableKeys(ColourPattern);
      SectionIsNoCode(ColourPattern);
      if !HasMarker(motd, {c}) {
        RunPassKeepsNoMarker(StylePattern, motd, {c});
      }
  }

  /** Neither table has an entry for an upper-case code. */
  lemma UpperNotInTables()
    ensures forall c :: c in UpperCodes && c in StyleCodes ==> c !in MinecraftStyles
    ensures forall c :: c in UpperCodes && c in ColourCodes ==> c !in MinecraftColors
  {
    TableKeys(StylePattern);
    TableKeys(ColourPattern);
  }

  lemma NoUppercaseLeft(motd: string)
    requires '\n' !in motd && FormatMotd(motd).Html?
    ensures !HasMarker(FormatMotd(motd).text, UpperCodes)
  {
    var t := FormatMotd(motd).text;
    FormattedHasNoCodes(motd);
    forall j ensures !MarkerAt(t, j, UpperCodes) {
      assert !MarkerAt(t, j, StyleCodes) && !MarkerAt(t, j, ColourCodes);
    }
  }

  /** Without line feeds, formatting fails exactly when the MOTD holds an upper-case code. */
  lemma UppercaseFails(motd: string)
    requires '\n' !in motd
    ensures FormatMotd(motd).KeyNotFound? <==> HasMarker(motd, UpperCodes)
  {
    FailureHasUppercase(motd);
    UppercaseMakesFailure(motd);
  }

  lemma FailureHasUppercase(motd: string)
    ensures FormatMotd(motd).KeyNotFound? ==> HasMarker(motd, UpperCodes)
  {
    if FormatMotd(motd).KeyNotFound? {
      var c := FormatMotd(motd).code;
      KeyNotFoundIsUppercase(motd, c);
      var j :| MarkerAt(motd, j, {c});
      assert MarkerAt(motd, j, UpperCodes);
    }
  }

  lemma UppercaseMakesFailure(motd: string)
    requires '\n' !in motd
    ensures HasMarker(motd, UpperCodes) ==> FormatMotd(motd).KeyNotFound?
  {
    if FormatMotd(motd).Html? {
      NoUppercaseLeft(motd);
      if HasMarker(motd, UpperCodes) {
        UppercaseSurvives(motd);
      }
    }
  }

  lemma UppercaseSurvives(motd: string)
    requires FormatMotd(motd).Html? && HasMarker(motd, UpperCodes)
    ensures HasMarker(FormatMotd(motd).text, UpperCodes)
  {
    UpperNotInTables();
    FormatKeepsMarker(motd, UpperCodes);
  }
}
