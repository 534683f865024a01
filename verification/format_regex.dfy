/**
 * The two fixed regular expressions of the MOTD formatter, as the .NET engine
 * runs them without options:
 *
 *   style:  §([k-oK-O])(.*?)(§[0-9a-fA-Fk-oK-OrR]|$)
 *   colour: §([0-9a-fA-F])(.*?)(§[0-9a-fA-FrR]|$)
 *
 * A match starts at a section sign followed by a code of group 1. The lazy
 * group 2 takes the fewest characters, none of them a line feed, after which
 * group 3 matches: first the alternative "section sign and end code", then `$`,
 * which holds at the end of the text and just before a final line feed. The
 * engine reports the leftmost match.
 */
module FormatRegex {
  import opened Wrappers

  /** The section sign that introduces every formatting code. */
  const Section: char := '§'

  /** `[k-oK-O]`: the codes that open a style region. */
  const StyleCodes: set<char> := set c: char | 'k' <= c <= 'o' || 'K' <= c <= 'O'

  /** `[0-9a-fA-F]`: the codes that open a colour region. */
  const ColourCodes: set<char> := set c: char | '0' <= c <= '9' || 'a' <= c <= 'f' || 'A' <= c <= 'F'

  /** `[rR]`: the reset codes, which end regions and open none. */
  const ResetCodes: set<char> := {'r', 'R'}

  /** The upper-case codes, which the patterns accept and the code tables lack. */
  const UpperCodes: set<char> := set c: char | 'A' <= c <= 'F' || 'K' <= c <= 'O'

  datatype Pattern = StylePattern | ColourPattern
  {
    /** The class of group 1. */
    function Codes(): set<char>
    {
      if StylePattern? then StyleCodes else ColourCodes
    }

    /** The class after the section sign in group 3. */
    function Ends(): set<char>
    {
      if StylePattern? then ColourCodes + StyleCodes + ResetCodes else ColourCodes + ResetCodes
    }
  }

  /** A section sign at `i` followed by one of `codes`. */
  predicate MarkerAt(s: string, i: int, codes: set<char>)
  {
    0 <= i && i + 1 < |s| && s[i] == Section && s[i + 1] in codes
  }

  ghost predicate HasMarker(s: string, codes: set<char>)
  {
    exists j :: MarkerAt(s, j, codes)
  }

  /** Where `$` holds: at the end, or before a line feed that ends the text. */
  predicate EndAt(s: string, q: int)
  {
    q == |s| || (0 <= q == |s| - 1 && s[q] == '\n')
  }

  /**
   * A match: the section sign at `start`, the code of group 1, group 2 from
   * `start + 2` to `textEnd`, and group 3 from `textEnd` to `end`.
   */
  datatype Match = Match(start: nat, code: char, textEnd: nat, end: nat)

  /** What the pattern accepts at `m.start`, with the lazy group 2. */
  ghost predicate IsMatch(p: Pattern, s: string, m: Match)
  {
    && m.start + 2 <= m.textEnd <= m.end <= |s|
    && MarkerAt(s, m.start, p.Codes())
    && m.code == s[m.start + 1]
    && (forall k :: m.start + 2 <= k < m.textEnd ==> s[k] != '\n' && !MarkerAt(s, k, p.Ends()))
    && if MarkerAt(s, m.textEnd, p.Ends()) then m.end == m.textEnd + 2
       else EndAt(s, m.textEnd) && m.end == m.textEnd
  }

  /** The lazy scan for group 3 from `q`: the first place where it holds, unless a line feed comes first. */
  function ScanEnd(p: Pattern, s: string, q: nat): (r: Option<nat>)
    requires q <= |s|
    decreases |s| - q
    ensures r.Some? ==> q <= r.value <= |s| && (MarkerAt(s, r.value, p.Ends()) || EndAt(s, r.value))
    ensures r.Some? ==> forall k :: q <= k < r.value ==> s[k] != '\n' && !MarkerAt(s, k, p.Ends())
    ensures r.None? ==>
      exists k :: q <= k < |s| && s[k] == '\n' && !EndAt(s, k) &&
        forall j :: q <= j < k ==> s[j] != '\n' && !MarkerAt(s, j, p.Ends())
  {
    if MarkerAt(s, q, p.Ends()) || EndAt(s, q) then Some(q)
    else if s[q] == '\n' then None
    else ScanEnd(p, s, q + 1)
  }

  /** The attempt to match at position `i`. */
  function MatchAt(p: Pattern, s: string, i: nat): (r: Option<Match>)
    ensures r.Some? ==> r.value.start == i && IsMatch(p, s, r.value)
    ensures forall m: Match :: m.start == i && IsMatch(p, s, m) ==> r == Some(m)
  {
    if !MarkerAt(s, i, p.Codes()) then None
    else match ScanEnd(p, s, i + 2)
      case None => None
      case Some(t) => Some(Match(i, s[i + 1], t, if MarkerAt(s, t, p.Ends()) then t + 2 else t))
  }

  /** The leftmost match that starts at or after `i`. */
  function NextMatch(p: Pattern, s: string, i: nat): (r: Option<Match>)
    requires i <= |s|
    decreases |s| - i
    ensures r.Some? ==> i <= r.value.start && IsMatch(p, s, r.value)
    ensures r.Some? ==> forall m: Match :: i <= m.start < r.value.start ==> !IsMatch(p, s, m)
    ensures r.None? ==> forall m: Match :: i <= m.start ==> !IsMatch(p, s, m)
  {
    if i == |s| then None
    else match MatchAt(p, s, i)
      case Some(m) => Some(m)
      case None => NextMatch(p, s, i + 1)
  }

  /** `Regex.IsMatch`: some match exists. */
  predicate HasMatch(p: Pattern, s: string)
    ensures HasMatch(p, s) <==> exists m: Match :: IsMatch(p, s, m)
  {
    NextMatch(p, s, 0).Some?
  }

  /** In a text without line feeds the pattern matches exactly when a section sign is followed by a code of group 1. */
  lemma MatchIffMarker(p: Pattern, s: string)
    requires '\n' !in s
    ensures HasMatch(p, s) <==> HasMarker(s, p.Codes())
  {
    if HasMatch(p, s) {
      assert MarkerAt(s, NextMatch(p, s, 0).value.start, p.Codes());
    }
    if j :| MarkerAt(s, j, p.Codes()) {
      var r := MatchAt(p, s, j);
      assert r.Some?;
    }
  }
}
