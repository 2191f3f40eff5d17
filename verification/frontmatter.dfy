/**
 * The front-matter split of `scripts/preview_email.rb`: the file text is
 * matched against the Ruby regular expression
 *
 *     \A(---\s*\n.*?\n?)^((---|\.\.\.)\s*$\n?)      (flag m)
 *
 * Group 1 is the header, group 2 the terminator block, and the body is
 * everything after them.  Under flag m `.` also matches a newline; `^` and
 * `$` are always line anchors; `\s` contains the newline.
 *
 * The first half of the module states what a match IS (MatchAt) and which
 * match Ruby's backtracking returns (Earliest).  The second half computes
 * the split by scanning (Split) and proves the two agree.
 */
module FrontMatter {
  import opened Options
  import opened Chars

  // ---------------------------------------------------------------------
  // The pattern, stated declaratively
  // ---------------------------------------------------------------------

  /** Ruby's `^`: start of the string, or just after a newline that is not the last character. */
  predicate LineStart(s: string, e: int)
    requires 0 <= e <= |s|
  {
    e == 0 || (e < |s| && s[e - 1] == '\n')
  }

  /** Ruby's `$`: end of the string, or just before a newline. */
  predicate LineEnd(s: string, g: int)
    requires 0 <= g <= |s|
  {
    g == |s| || s[g] == '\n'
  }

  /** `(---|\.\.\.)` matches at e. */
  predicate Marker(s: string, e: int)
    requires 0 <= e
  {
    e + 3 <= |s| && (s[e..e + 3] == "---" || s[e..e + 3] == "...")
  }

  /** `\A---\s*\n`, with the newline taken at index a. */
  predicate Opening(s: string, a: int) {
    3 <= a < |s| && s[..3] == "---" && AllSpace(s, 3, a) && s[a] == '\n'
  }

  /**
   * `^((---|\.\.\.)\s*$\n?)` at e1, with `$` matched at g and the group
   * ending at e2.
   */
  predicate ClosingAt(s: string, e1: int, g: int, e2: int) {
    && 0 <= e1 && e1 + 3 <= g <= |s|
    && LineStart(s, e1) && Marker(s, e1)
    && AllSpace(s, e1 + 3, g) && LineEnd(s, g)
    && (e2 == g || (g < |s| && s[g] == '\n' && e2 == g + 1))
  }

  /**
   * One way the whole pattern matches s: group 1 is s[..e1] and group 2 is
   * s[e1..e2].  The lazy `.*?\n?` between the opening newline at a and the
   * closing line matches whatever s[a+1..e1] holds, so it needs no witness.
   */
  predicate MatchAt(s: string, a: int, g: int, e1: int, e2: int) {
    Opening(s, a) && a < e1 && ClosingAt(s, e1, g, e2)
  }

  ghost predicate Matches(s: string) {
    exists a, g, e1, e2 :: MatchAt(s, a, g, e1, e2)
  }

  /**
   * The match Ruby returns.  The lazy `.*?` makes the earliest closing line
   * win; on that line the greedy `\s*` and `\n?` make group 2 as long as
   * possible.  (The greedy `\s*` of the opening line does not change the
   * captures: see OpeningChoiceIrrelevant.)
   */
  ghost predicate Earliest(s: string, e1: int, e2: int) {
    && (exists a, g :: MatchAt(s, a, g, e1, e2))
    && (forall a, g, f1, f2 :: MatchAt(s, a, g, f1, f2) ==> e1 < f1 || (e1 == f1 && f2 <= e2))
  }

  // ---------------------------------------------------------------------
  // The split, computed
  // ---------------------------------------------------------------------

  datatype SplitResult =
    | Ok(header: string, terminator: string, body: string)
    | NoFrontmatter

  /** End of the longest run of whitespace starting at i. */
  function SpaceRunEnd(s: string, i: nat): (w: nat)
    requires i <= |s|
    ensures i <= w <= |s| && AllSpace(s, i, w)
    ensures w == |s| || !IsSpace(s[w])
    decreases |s| - i
  {
    if i < |s| && IsSpace(s[i]) then SpaceRunEnd(s, i + 1) else i
  }

  /** The index of the last newline in s[lo..hi], if there is one. */
  function LastNewline(s: string, lo: nat, hi: nat): (r: Option<nat>)
    requires lo <= hi <= |s|
    ensures r.Some? ==> lo <= r.value < hi && s[r.value] == '\n'
    ensures r.Some? ==> forall k :: r.value < k < hi ==> s[k] != '\n'
    ensures r.None? ==> forall k :: lo <= k < hi ==> s[k] != '\n'
    decreases hi - lo
  {
    if lo == hi then None
    else if s[hi - 1] == '\n' then Some(hi - 1)
    else LastNewline(s, lo, hi - 1)
  }

  /** A whitespace run cannot stop before a whitespace position that follows it. */
  lemma RunCoversSpaces(s: string, i: nat, j: int)
    requires i <= j < |s| && AllSpace(s, i, j) && IsSpace(s[j])
    ensures j < SpaceRunEnd(s, i)
  {
    assert forall k :: i <= k <= j ==> IsSpace(s[k]);
  }

  /**
   * Where a closing block starting at line start e ends, if one does:
   * the greedy reading of `(---|\.\.\.)\s*$\n?`.
   */
  function ClosingEnd(s: string, e: nat): (r: Option<nat>)
    requires e <= |s|
    ensures r.Some? ==> e + 3 <= r.value <= |s|
    ensures r.Some? ==> exists g :: ClosingAt(s, e, g, r.value)
    ensures forall g, e2 :: ClosingAt(s, e, g, e2) ==> r.Some? && e2 <= r.value
  {
    if !(LineStart(s, e) && Marker(s, e)) then None
    else
      var w := SpaceRunEnd(s, e + 3);
      if w == |s| then
        assert ClosingAt(s, e, w, w);
        ClosingEndMaximal(s, e, w, None);
        Some(w)
      else
        var last := LastNewline(s, e + 3, w);
        ClosingEndMaximal(s, e, w, last);
        match last
        case None => None
        case Some(g) =>
          assert ClosingAt(s, e, g, g + 1);
          Some(g + 1)
  }

  /** Helper for ClosingEnd: every closing block at e ends no later than the greedy one. */
  lemma ClosingEndMaximal(s: string, e: nat, w: nat, last: Option<nat>)
    requires e + 3 <= |s| && w == SpaceRunEnd(s, e + 3)
    requires w < |s| ==> last == LastNewline(s, e + 3, w)
    ensures forall g, e2 :: ClosingAt(s, e, g, e2) ==>
      if w == |s| then e2 <= w else last.Some? && e2 <= last.value + 1
  {
    forall g, e2 | ClosingAt(s, e, g, e2)
      ensures if w == |s| then e2 <= w else last.Some? && e2 <= last.value + 1
    {
      if g < |s| {
        assert s[g] == '\n';
        RunCoversSpaces(s, e + 3, g);
      }
    }
  }

  /** The first closing line at or after from, with where its block ends. */
  function FirstClosing(s: string, from: nat): (r: Option<(nat, nat)>)
    requires from <= |s|
    ensures r.Some? ==> from <= r.value.0 <= |s| && ClosingEnd(s, r.value.0) == Some(r.value.1)
    ensures r.Some? ==> forall e :: from <= e < r.value.0 ==> ClosingEnd(s, e).None?
    ensures r.None? ==> forall e :: from <= e <= |s| ==> ClosingEnd(s, e).None?
    decreases |s| - from
  {
    match ClosingEnd(s, from)
    case Some(e2) => Some((from, e2))
    case None => if from == |s| then None else FirstClosing(s, from + 1)
  }

  /**
   * The split performed at lines 65-67: header `$1`, terminator `$2`, body
   * `content[($1.size + $2.size)..-1]`, or no front matter (lines 68-70).
   */
  function Split(s: string): (r: SplitResult)
    ensures r.Ok? ==> r.header + r.terminator + r.body == s
    ensures r.Ok? ==> |r.header| >= 4 && |r.terminator| >= 3
  {
    if |s| < 3 || s[..3] != "---" then NoFrontmatter
    else
      match LastNewline(s, 3, SpaceRunEnd(s, 3))
      case None => NoFrontmatter
      case Some(a) =>
        match FirstClosing(s, a + 1)
        case None => NoFrontmatter
        case Some((e1, e2)) =>
          CutThree(s, e1, e2);
          Ok(s[..e1], s[e1..e2], s[e2..])
  }

  /** Cutting s at two points and joining the pieces gives s back. */
  lemma CutThree(s: string, e1: nat, e2: nat)
    requires e1 <= e2 <= |s|
    ensures s[..e1] + s[e1..e2] + s[e2..] == s
  {
    assert s[..e1] + s[e1..e2] == s[..e2];
  }

  // ---------------------------------------------------------------------
  // Properties
  // ---------------------------------------------------------------------

  /**
   * Which newline the opening `\s*\n` stops at does not matter: any match
   * found with one opening newline is a match with any other.
   */
  lemma OpeningChoiceIrrelevant(s: string, a: int, a': int, g: int, e1: int, e2: int)
    requires MatchAt(s, a, g, e1, e2) && Opening(s, a')
    ensures MatchAt(s, a', g, e1, e2)
  {
    if e1 <= a' {
      assert s[e1..e1 + 3][0] == s[e1];
      assert IsSpace(s[e1]);
    }
  }

  /** Every opening newline lies inside the whitespace run after the first `---`. */
  lemma OpeningInRun(s: string, a: int)
    requires Opening(s, a)
    ensures a < SpaceRunEnd(s, 3)
  {
    RunCoversSpaces(s, 3, a);
  }

  /** A match's closing line is one ClosingEnd recognises, and no longer than its greedy block. */
  lemma MatchHasClosingEnd(s: string, a: int, g: int, e1: int, e2: int)
    requires MatchAt(s, a, g, e1, e2)
    ensures 0 <= e1 <= |s| && ClosingEnd(s, e1).Some? && e2 <= ClosingEnd(s, e1).value
  {
  }

  /** Without an opening newline in the first whitespace run, nothing matches. */
  lemma NoOpeningNoMatch(s: string)
    requires |s| < 3 || s[..3] != "---" || LastNewline(s, 3, SpaceRunEnd(s, 3)).None?
    ensures !Matches(s)
  {
    forall a, g, e1, e2 | MatchAt(s, a, g, e1, e2) ensures false {
      OpeningInRun(s, a);
    }
  }

  /** Without a closing line after the opening newline, nothing matches. */
  lemma NoClosingNoMatch(s: string, a: nat)
    requires Opening(s, a) && FirstClosing(s, a + 1).None?
    ensures !Matches(s)
  {
    forall a', g, e1, e2 | MatchAt(s, a', g, e1, e2) ensures false {
      OpeningChoiceIrrelevant(s, a', a, g, e1, e2);
      MatchHasClosingEnd(s, a, g, e1, e2);
    }
  }

  /** The first closing line after an opening newline gives the match Ruby picks. */
  lemma FirstClosingIsEarliest(s: string, a: nat, e1: nat, e2: nat)
    requires Opening(s, a) && FirstClosing(s, a + 1) == Some((e1, e2))
    ensures Earliest(s, e1, e2)
  {
    var g :| ClosingAt(s, e1, g, e2);
    assert MatchAt(s, a, g, e1, e2);
    forall a', g', f1, f2 | MatchAt(s, a', g', f1, f2)
      ensures e1 < f1 || (e1 == f1 && f2 <= e2)
    {
      OpeningChoiceIrrelevant(s, a', a, g', f1, f2);
      MatchHasClosingEnd(s, a, g', f1, f2);
    }
  }

  /**
   * Split agrees with the pattern: it fails exactly when the pattern has no
   * match, and otherwise returns the match Ruby picks.
   */
  lemma SplitIsEarliestMatch(s: string)
    ensures Split(s).NoFrontmatter? <==> !Matches(s)
    ensures Split(s).Ok? ==> Earliest(s, |Split(s).header|, |Split(s).header| + |Split(s).terminator|)
  {
    if |s| < 3 || s[..3] != "---" || LastNewline(s, 3, SpaceRunEnd(s, 3)).None? {
      NoOpeningNoMatch(s);
    } else {
      var a := LastNewline(s, 3, SpaceRunEnd(s, 3)).value;
      assert Opening(s, a);
      if FirstClosing(s, a + 1).None? {
        NoClosingNoMatch(s, a);
      } else {
        var c := FirstClosing(s, a + 1).value;
        FirstClosingIsEarliest(s, a, c.0, c.1);
        SplitAt(s, a, c.0, c.1);
        var r := Split(s);
        assert |r.header| == c.0 && |r.header| + |r.terminator| == c.1;
      }
    }
  }

  /** The opening newline, the `$` position and the cut points behind a successful split. */
  lemma SplitWitness(s: string) returns (a: int, g: int, e1: nat, e2: nat)
    requires Split(s).Ok?
    ensures e1 <= e2 <= |s|
    ensures Split(s) == Ok(s[..e1], s[e1..e2], s[e2..])
    ensures MatchAt(s, a, g, e1, e2) && ClosingEnd(s, e1) == Some(e2)
  {
    a := LastNewline(s, 3, SpaceRunEnd(s, 3)).value;
    var c := FirstClosing(s, a + 1).value;
    e1, e2 := c.0, c.1;
    g :| ClosingAt(s, e1, g, e2);
  }

  /** The header is the opening `---` line and the lines up to the closing line. */
  lemma HeaderShape(s: string, h: string, t: string, b: string)
    requires Split(s) == Ok(h, t, b)
    ensures h[..3] == "---" && h[|h| - 1] == '\n'
  {
    var a, g, e1, e2 := SplitWitness(s);
    MatchBounds(s, a, g, e1, e2);
    PrefixOf(s, h, e1);
  }

  /** The plain facts a match gives about its cut points. */
  lemma MatchBounds(s: string, a: int, g: int, e1: int, e2: int)
    requires MatchAt(s, a, g, e1, e2)
    ensures 4 <= e1 && e1 + 3 <= e2 <= |s|
    ensures s[..3] == "---" && s[e1 - 1] == '\n'
  {
  }

  /** A prefix of s of length e1 shares its first three and its last character with s. */
  lemma PrefixOf(s: string, h: string, e1: nat)
    requires 3 <= e1 <= |s| && h == s[..e1]
    ensures |h| == e1 && h[|h| - 1] == s[e1 - 1] && h[..3] == s[..3]
  {
  }

  /** `(---|\.\.\.)\s*`: a marker followed only by whitespace. */
  predicate MarkerLine(t: string) {
    |t| >= 3 && (t[..3] == "---" || t[..3] == "...") && AllSpace(t, 3, |t|)
  }

  /**
   * The greedy closing block s[e1..e2] is a marker line and ends at a line
   * boundary.
   */
  lemma GreedyClosingShape(s: string, e1: nat, g: int, e2: int)
    requires ClosingAt(s, e1, g, e2) && ClosingEnd(s, e1) == Some(e2)
    ensures e1 + 3 <= e2 <= |s|
    ensures MarkerLine(s[e1..e2])
    ensures var t := s[e1..e2]; s[e2..] == [] || t[|t| - 1] == '\n'
  {
    assert g < |s| ==> ClosingAt(s, e1, g, g + 1);
    var t := s[e1..e2];
    assert e2 < |s| ==> t[|t| - 1] == s[e2 - 1];
    assert t[..3] == s[e1..e1 + 3];
    forall k | 3 <= k < |t| ensures IsSpace(t[k]) {
      assert t[k] == s[e1 + k];
    }
  }

  /**
   * The terminator is `---` or `...` followed only by whitespace, and it
   * ends at a line boundary: either the body is empty or the terminator's
   * last character is a newline.
   */
  lemma TerminatorShape(s: string, h: string, t: string, b: string)
    requires Split(s) == Ok(h, t, b)
    ensures MarkerLine(t)
    ensures b == [] || t[|t| - 1] == '\n'
  {
    var a, g, e1, e2 := SplitWitness(s);
    GreedyClosingShape(s, e1, g, e2);
  }

  /** After the greedy closing block s[e1..e2] no whitespace-only line remains. */
  lemma GreedyClosingSwallowsBlankLines(s: string, e1: nat, g: int, e2: int)
    requires ClosingAt(s, e1, g, e2) && ClosingEnd(s, e1) == Some(e2)
    ensures e2 <= |s|
    ensures var b := s[e2..];
      && (forall k :: 0 <= k < |b| && AllSpace(b, 0, k + 1) ==> b[k] != '\n')
      && (b != [] ==> !AllSpace(b, 0, |b|))
  {
    GreedyClosingShape(s, e1, g, e2);
    assert AllSpace(s, e1 + 3, e2) by {
      assert forall k :: e1 + 3 <= k < e2 ==> s[k] == s[e1..e2][k - e1];
    }
    var b := s[e2..];
    forall k | 0 <= k < |b| && AllSpace(b, 0, k + 1) ensures b[k] != '\n' {
      assert forall j :: e2 <= j <= e2 + k ==> s[j] == b[j - e2];
      assert b[k] == '\n' ==> ClosingAt(s, e1, e2 + k, e2 + k + 1);
    }
    assert forall j :: e2 <= j < |s| ==> s[j] == b[j - e2];
    assert b != [] && AllSpace(b, 0, |b|) ==> ClosingAt(s, e1, |s|, |s|);
  }

  /**
   * The greedy `\s*` of the closing line swallows the blank lines after it:
   * the body never starts with a whitespace-only line, and a non-empty body
   * holds some non-whitespace character.
   */
  lemma BodyHasNoLeadingBlankLine(s: string, h: string, t: string, b: string)
    requires Split(s) == Ok(h, t, b)
    ensures KeepsBody(b)
  {
    var a, g, e1, e2 := SplitWitness(s);
    GreedyClosingSwallowsBlankLines(s, e1, g, e2);
  }

  // ---------------------------------------------------------------------
  // The other direction: composing a document and splitting it again
  // ---------------------------------------------------------------------

  /** A document as it is written: `---` line, header lines, `---` line, body. */
  function Compose(header: string, body: string): string {
    "---\n" + header + "---\n" + body
  }

  /**
   * Header text that Compose can wrap: empty or ending in a newline, and no
   * line of it beginning with `---` or `...`.
   */
  predicate WellFormedHeader(h: string) {
    && (h == [] || h[|h| - 1] == '\n')
    && forall e :: 0 <= e <= |h| && LineStart(h, e) ==> !Marker(h, e)
  }

  /**
   * A body that the closing line's greedy `\s*` leaves alone: no newline in
   * its leading whitespace, and not whitespace only.  (`"\nBody"` is not
   * kept: its blank line joins the terminator.)
   */
  predicate KeepsBody(b: string) {
    && (forall k :: 0 <= k < |b| && AllSpace(b, 0, k + 1) ==> b[k] != '\n')
    && (b != [] ==> !AllSpace(b, 0, |b|))
  }

  /** FirstClosing returns the first line start at which ClosingEnd succeeds. */
  lemma FirstClosingUnique(s: string, from: nat, e1: nat, e2: nat)
    requires from <= e1 <= |s| && ClosingEnd(s, e1) == Some(e2)
    requires forall e :: from <= e < e1 ==> ClosingEnd(s, e).None?
    ensures FirstClosing(s, from) == Some((e1, e2))
  {
  }

  /** Inside a composed document, no header line closes the front matter. */
  lemma ComposeNoEarlyClosing(h: string, b: string, e: nat)
    requires WellFormedHeader(h) && 4 <= e < 4 + |h|
    ensures ClosingEnd(Compose(h, b), e).None?
  {
    var s := Compose(h, b);
    var e1 := 4 + |h|;
    assert s[e1 - 1] == '\n';
    if e + 3 <= e1 {
      assert s[e..e + 3] == h[e - 4..e - 1];
      assert LineStart(s, e) && Marker(s, e) ==> LineStart(h, e - 4) && Marker(h, e - 4);
    } else {
      MarkerHasNoNewline(s, e, e1 - 1);
    }
  }

  /** A `---` or `...` marker holds no newline. */
  lemma MarkerHasNoNewline(s: string, e: nat, k: nat)
    ensures Marker(s, e) && e <= k < e + 3 ==> s[k] != '\n'
  {
    if Marker(s, e) && e <= k < e + 3 {
      assert s[k] == s[e..e + 3][k - e];
    }
  }

  /** In a composed document the closing `---` line ends right before the body. */
  lemma ComposeClosing(h: string, b: string)
    requires WellFormedHeader(h) && KeepsBody(b)
    ensures ClosingEnd(Compose(h, b), 4 + |h|) == Some(8 + |h|)
  {
    var s := Compose(h, b);
    var e1 := 4 + |h|;
    assert s[e1 - 1] == '\n';
    assert s[e1..e1 + 3] == "---";
    assert s[e1 + 3] == '\n';
    assert LineStart(s, e1) && Marker(s, e1);
    var w := SpaceRunEnd(s, e1 + 3);
    RunCoversSpaces(s, e1 + 3, e1 + 3);
    assert forall j :: e1 + 4 <= j < |s| ==> s[j] == b[j - (e1 + 4)];
    assert AllSpace(b, 0, w - (e1 + 4)) by {
      forall k | 0 <= k < w - (e1 + 4) ensures IsSpace(b[k]) {
        assert s[e1 + 4 + k] == b[k];
      }
    }
    forall k | e1 + 4 <= k < w ensures s[k] != '\n' {
      assert AllSpace(b, 0, k - (e1 + 4) + 1);
    }
  }

  /**
   * Round trip: splitting a composed document gives back the opening line
   * with the header, the closing line, and the body.
   */
  lemma SplitCompose(h: string, b: string)
    requires WellFormedHeader(h) && KeepsBody(b)
    ensures Split(Compose(h, b)) == Ok("---\n" + h, "---\n", b)
  {
    var s := Compose(h, b);
    var e1 := 4 + |h|;
    assert s[..3] == "---" && s[3] == '\n';
    assert s[e1] == '-';
    var w := SpaceRunEnd(s, 3);
    RunCoversSpaces(s, 3, 3);
    assert !IsSpace(s[e1]);
    var a := LastNewline(s, 3, w).value;
    forall e | a + 1 <= e < e1 ensures ClosingEnd(s, e).None? {
      ComposeNoEarlyClosing(h, b, e);
    }
    ComposeClosing(h, b);
    FirstClosingUnique(s, a + 1, e1, e1 + 4);
    SplitAt(s, a, e1, e1 + 4);
    ComposeSlices(h, b);
  }

  /**
   * For a well-formed header, the composed document splits back into its
   * parts exactly when the body is one the greedy terminator leaves alone.
   */
  lemma SplitComposeExactly(h: string, b: string)
    requires WellFormedHeader(h)
    ensures Split(Compose(h, b)) == Ok("---\n" + h, "---\n", b) <==> KeepsBody(b)
  {
    if KeepsBody(b) {
      SplitCompose(h, b);
    } else if Split(Compose(h, b)) == Ok("---\n" + h, "---\n", b) {
      BodyHasNoLeadingBlankLine(Compose(h, b), "---\n" + h, "---\n", b);
    }
  }

  /** Split cuts where the opening newline and the first closing line say. */
  lemma SplitAt(s: string, a: nat, e1: nat, e2: nat)
    requires |s| >= 3 && s[..3] == "---"
    requires LastNewline(s, 3, SpaceRunEnd(s, 3)) == Some(a)
    requires a + 1 <= |s| && FirstClosing(s, a + 1) == Some((e1, e2))
    ensures e2 <= |s| && Split(s) == Ok(s[..e1], s[e1..e2], s[e2..])
  {
  }

  /** The three pieces of a composed document. */
  lemma ComposeSlices(h: string, b: string)
    ensures var s, e1 := Compose(h, b), 4 + |h|;
      s[..e1] == "---\n" + h && s[e1..e1 + 4] == "---\n" && s[e1 + 4..] == b
  {
    var s, e1 := Compose(h, b), 4 + |h|;
    assert s[..e1] == "---\n" + h;
    assert s[e1..e1 + 4] == "---\n";
    assert s[e1 + 4..] == b;
  }
}
