/** The club roster page (backend/src/scrapers/clubRoster.ts). The HTML
    library's work (finding the roster table, splitting rows into `td` cells,
    extracting text and the first anchor) is done before this model starts: a
    row arrives as its cells, each with its text and its first anchor. */
module ClubRosterPage {
  import opened Wrappers
  import opened Text
  import opened Errors
  import opened Parse
  import opened Seqs

  datatype Anchor = Anchor(href: Option<string>, text: string)

  /** A `td` cell: its whole text and the first `a` element inside it. */
  datatype HtmlCell = HtmlCell(text: string, anchor: Option<Anchor>)

  /** A `tr` of the roster table, as its `td` cells (header rows have none). */
  datatype HtmlRow = HtmlRow(cells: seq<HtmlCell>)

  datatype Rating = Rating(mean: Option<int>, stdev: Option<int>)

  datatype ClubRosterEntry = ClubRosterEntry(
    playerId: int,
    rank: Option<int>,
    displayName: string,
    ratingMean: Option<int>,
    ratingStDev: Option<int>,
    lastPlayedDate: Option<Date>)

  const ZeroWidthSpace: char := '\U{200B}'
  const PlusMinus: char := '±'

  /** What `/[\s​]+/` matches one character of. */
  predicate IsGap(c: char) {
    IsSpace(c) || c == ZeroWidthSpace
  }

  /** The character classes whose runs the patterns read. */
  datatype CharClass = Spaces | Digits | Gaps

  predicate In(cls: CharClass, c: char) {
    match cls
    case Spaces => IsSpace(c)
    case Digits => IsDigit(c)
    case Gaps => IsGap(c)
  }

  /** Length of the run of characters of class `cls` that starts at `i`. */
  function Run(cls: CharClass, t: string, i: nat): (n: nat)
    requires i <= |t|
    ensures i + n <= |t|
    ensures forall k :: i <= k < i + n ==> In(cls, t[k])
    ensures i + n < |t| ==> !In(cls, t[i + n])
    decreases |t| - i
  {
    if i == |t| || !In(cls, t[i]) then 0 else 1 + Run(cls, t, i + 1)
  }

  /** `replace(/[\s​]+/g, ' ')`: every maximal run of white space and
      zero-width spaces becomes one ordinary space. */
  function Collapse(s: string): (t: string)
    ensures forall k :: 0 <= k < |t| ==> t[k] == ' ' || !IsGap(t[k])
    ensures forall k :: 0 <= k < |t| - 1 ==> !(t[k] == ' ' && t[k + 1] == ' ')
    ensures |s| > 0 && !IsGap(s[0]) ==> |t| > 0 && t[0] == s[0]
    ensures HasDigit(t) <==> HasDigit(s)
    decreases |s|
  {
    if |s| == 0 then ""
    else if IsGap(s[0]) then
      var n := Run(Gaps, s, 0);
      var rest := Collapse(s[n..]);
      GapsHaveNoDigit(s, n);
      HasDigitAppend(" ", rest);
      " " + rest
    else
      var rest := Collapse(s[1..]);
      HasDigitAppend([s[0]], rest);
      HasDigitAppend([s[0]], s[1..]);
      assert [s[0]] + s[1..] == s;
      assert HasDigit([s[0]]) <==> IsDigit(s[0]) by {
        assert [s[0]][0] == s[0];
      }
      [s[0]] + rest
  }

  /** Dropping a leading run of gaps keeps the digits. */
  lemma GapsHaveNoDigit(s: string, n: nat)
    requires n <= |s| && forall k :: 0 <= k < n ==> IsGap(s[k])
    ensures HasDigit(s) <==> HasDigit(s[n..])
  {
    assert s == s[..n] + s[n..];
    HasDigitAppend(s[..n], s[n..]);
    assert !HasDigit(s[..n]) by {
      forall k | 0 <= k < n
        ensures !IsDigit(s[..n][k])
      {
        assert IsGap(s[k]);
      }
    }
  }

  /** The rating text after `replace(/[\s​]+/g, ' ').trim()`: no
      zero-width space is left, every remaining gap is one ordinary space, and
      it neither starts nor ends with one. */
  function Normalize(s: string): (t: string)
    ensures forall k :: 0 <= k < |t| ==> t[k] != ZeroWidthSpace
    ensures forall k :: 0 <= k < |t| ==> IsSpace(t[k]) ==> t[k] == ' '
    ensures forall k :: 0 <= k < |t| - 1 ==> !(t[k] == ' ' && t[k + 1] == ' ')
    ensures |t| > 0 ==> t[0] != ' ' && t[|t| - 1] != ' '
    ensures HasDigit(t) <==> HasDigit(s)
  {
    var c := Collapse(s);
    TrimCollapsed(c);
    TrimKeepsDigits(c);
    Trim(c)
  }

  /** Trimming collapsed text keeps it collapsed and removes the spaces at
      its ends. */
  lemma TrimCollapsed(c: string)
    requires forall k :: 0 <= k < |c| ==> c[k] == ' ' || !IsGap(c[k])
    requires forall k :: 0 <= k < |c| - 1 ==> !(c[k] == ' ' && c[k + 1] == ' ')
    ensures var t := Trim(c);
      && (forall k :: 0 <= k < |t| ==> t[k] == ' ' || !IsGap(t[k]))
      && (forall k :: 0 <= k < |t| - 1 ==> !(t[k] == ' ' && t[k + 1] == ' '))
      && (|t| > 0 ==> t[0] != ' ' && t[|t| - 1] != ' ')
  {
    var t := Trim(c);
    var a := LeadingSpaces(c);
    assert forall k :: 0 <= k < |t| ==> t[k] == c[a + k];
  }

  /** `\s*±\s*(\d+)` tried at `j`: the second digit group when it matches. */
  function PairTail(t: string, j: nat): (r: Option<string>)
    requires j <= |t|
    ensures r.Some? ==> |r.value| > 0 && AllDigits(r.value)
  {
    var k := j + Run(Spaces, t, j);
    if k < |t| && t[k] == PlusMinus then
      var l := k + 1 + Run(Spaces, t, k + 1);
      if l < |t| && IsDigit(t[l]) then Some(t[l..l + Run(Digits, t, l)]) else None
    else None
  }

  /** `(\d+)\s*±\s*(\d+)` tried at `i`: the two digit groups when it
      matches there. The first group is the whole digit run, since a shorter
      one would leave a digit where a space or '±' must follow. */
  function PairAt(t: string, i: nat): (r: Option<(string, string)>)
    requires i < |t| && IsDigit(t[i])
    ensures r.Some? ==> |r.value.0| > 0 && AllDigits(r.value.0) && |r.value.1| > 0 && AllDigits(r.value.1)
    ensures r.Some? ==> r.value.0 == t[i..i + Run(Digits, t, i)]
  {
    var j := i + Run(Digits, t, i);
    match PairTail(t, j)
    case Some(b) => Some((t[i..j], b))
    case None => None
  }

  /** A run of `p` that starts at `i` and stops at `i + n` has length `n`. */
  lemma {:induction false} RunExactly(cls: CharClass, t: string, i: nat, n: nat)
    requires i + n <= |t|
    requires forall k :: i <= k < i + n ==> In(cls, t[k])
    requires i + n == |t| || !In(cls, t[i + n])
    ensures Run(cls, t, i) == n
    decreases n
  {
    if n > 0 {
      RunExactly(cls, t, i + 1, n - 1);
    }
  }

  /** A run entered part-way through ends where the whole run ends. */
  lemma {:induction false} RunSuffix(cls: CharClass, t: string, i: nat, k: nat)
    requires i <= |t| && i <= k <= i + Run(cls, t, i)
    ensures k + Run(cls, t, k) == i + Run(cls, t, i)
    decreases k - i
  {
    if k > i {
      RunSuffix(cls, t, i + 1, k);
    }
  }

  /** No match of `(\d+)\s*±\s*(\d+)` starts in `[i, j)`. */
  ghost predicate NoPairIn(t: string, i: nat, j: nat) {
    forall k: nat :: i <= k < j && k < |t| && IsDigit(t[k]) ==> PairAt(t, k).None?
  }

  /** The leftmost match at or after `i` starts at `k`. */
  ghost predicate FirstPairAt(t: string, i: nat, k: nat) {
    i <= k < |t| && IsDigit(t[k]) && PairAt(t, k).Some? && NoPairIn(t, i, k)
  }

  /** Whether the pattern matches at `i` is decided where the digit run
      from `i` ends. */
  lemma PairAtEnd(t: string, i: nat, j: nat)
    requires i < |t| && IsDigit(t[i]) && j == i + Run(Digits, t, i)
    ensures PairAt(t, i).Some? <==> PairTail(t, j).Some?
  {
  }

  /** A start inside a digit run matches exactly when the run's own start
      does: both first groups end where the run ends. */
  lemma PairAtInRun(t: string, i: nat, k: nat)
    requires i < |t| && IsDigit(t[i]) && i <= k < i + Run(Digits, t, i)
    ensures IsDigit(t[k]) && (PairAt(t, k).Some? <==> PairAt(t, i).Some?)
  {
    RunSuffix(Digits, t, i, k);
    var j := i + Run(Digits, t, i);
    PairAtEnd(t, i, j);
    PairAtEnd(t, k, j);
  }

  /** A digit run whose start does not match holds no match. */
  lemma SkipFailedRun(t: string, i: nat)
    requires i < |t| && IsDigit(t[i]) && PairAt(t, i).None?
    ensures NoPairIn(t, i, i + Run(Digits, t, i))
  {
    forall k: nat | i <= k < i + Run(Digits, t, i) && k < |t| && IsDigit(t[k])
      ensures PairAt(t, k).None?
    {
      PairAtInRun(t, i, k);
    }
  }

  /** When nothing in `[i, m)` matches, the search from `m` answers for the
      search from `i`. */
  lemma FirstPairSkip(t: string, i: nat, m: nat, r: Option<(string, string)>)
    requires i <= m <= |t| && NoPairIn(t, i, m)
    requires r.None? <==> NoPairIn(t, m, |t|)
    requires r.Some? ==> exists k: nat :: FirstPairAt(t, m, k) && PairAt(t, k) == r
    ensures r.None? <==> NoPairIn(t, i, |t|)
    ensures r.Some? ==> exists k: nat :: FirstPairAt(t, i, k) && PairAt(t, k) == r
  {
    if r.Some? {
      var k: nat :| FirstPairAt(t, m, k) && PairAt(t, k) == r;
      assert FirstPairAt(t, i, k);
    }
  }

  /** A match at `i` is the leftmost from `i`, and the text holds a digit
      and a '±' at or after `i`. */
  lemma PairFound(t: string, i: nat)
    requires i < |t| && IsDigit(t[i]) && PairAt(t, i).Some?
    ensures FirstPairAt(t, i, i)
    ensures exists k :: i <= k < |t| && t[k] == PlusMinus
    ensures HasDigit(t)
  {
    PairAtEnd(t, i, i + Run(Digits, t, i));
    PairTailSign(t, i + Run(Digits, t, i));
  }

  /** A match of `\s*±\s*(\d+)` at `j` contains a '±'. */
  lemma PairTailSign(t: string, j: nat)
    requires j <= |t| && PairTail(t, j).Some?
    ensures exists k :: j <= k < |t| && t[k] == PlusMinus
  {
    var k := j + Run(Spaces, t, j);
    assert t[k] == PlusMinus;
  }

  /** The leftmost match of `(\d+)\s*±\s*(\d+)` at or after `i`. A match can
      only start where a digit run starts, and every start inside a run ends
      where that run ends, so a failing run is skipped whole. */
  function FirstPair(t: string, i: nat): (r: Option<(string, string)>)
    requires i <= |t|
    ensures r.None? <==> NoPairIn(t, i, |t|)
    ensures r.Some? ==> exists k: nat :: FirstPairAt(t, i, k) && PairAt(t, k) == r
    ensures r.Some? ==> |r.value.0| > 0 && AllDigits(r.value.0) && |r.value.1| > 0 && AllDigits(r.value.1)
    ensures r.Some? ==> exists k :: i <= k < |t| && t[k] == PlusMinus
    ensures r.Some? ==> HasDigit(t)
    decreases |t| - i
  {
    if i == |t| then None
    else if IsDigit(t[i]) then
      var n := Run(Digits, t, i);
      match PairAt(t, i)
      case Some(p) =>
        PairFound(t, i);
        Some(p)
      case None =>
        SkipFailedRun(t, i);
        var r := FirstPair(t, i + n);
        FirstPairSkip(t, i, i + n, r);
        r
    else
      var r := FirstPair(t, i + 1);
      FirstPairSkip(t, i, i + 1, r);
      r
  }

  /** The first digit at or after `i` is at `k`. */
  ghost predicate FirstDigitAt(t: string, i: nat, k: nat) {
    i <= k < |t| && IsDigit(t[k]) && forall k' :: i <= k' < k ==> !IsDigit(t[k'])
  }

  /** The leftmost match of `(\d+)` at or after `i`: the whole digit run that
      starts at the first digit. */
  function FirstDigits(t: string, i: nat): (r: Option<string>)
    requires i <= |t|
    ensures r.Some? ==> |r.value| > 0 && AllDigits(r.value)
    ensures r.None? <==> forall k :: i <= k < |t| ==> !IsDigit(t[k])
    ensures r.Some? ==> exists k: nat :: FirstDigitAt(t, i, k) && r.value == t[k..k + Run(Digits, t, k)]
    decreases |t| - i
  {
    if i == |t| then None
    else if IsDigit(t[i]) then
      assert FirstDigitAt(t, i, i);
      Some(t[i..i + Run(Digits, t, i)])
    else
      var r := FirstDigits(t, i + 1);
      FirstDigitsStep(t, i, r);
      r
  }

  /** A search that skips a non-digit at `i` finds what the search from
      `i + 1` finds. */
  lemma FirstDigitsStep(t: string, i: nat, r: Option<string>)
    requires i < |t| && !IsDigit(t[i])
    requires r.Some? ==> exists k: nat :: FirstDigitAt(t, i + 1, k) && r.value == t[k..k + Run(Digits, t, k)]
    ensures r.Some? ==> exists k: nat :: FirstDigitAt(t, i, k) && r.value == t[k..k + Run(Digits, t, k)]
  {
    if r.Some? {
      var k: nat :| FirstDigitAt(t, i + 1, k) && r.value == t[k..k + Run(Digits, t, k)];
      assert FirstDigitAt(t, i, k);
    }
  }

  /** `parseRating(value)`: a `mean±stdev` cell, a bare number, or nothing. */
  function ParseRating(value: Option<string>): (r: Rating)
    ensures value.None? || value.value == "" ==> r == Rating(None, None)
    ensures r.stdev.Some? ==> r.mean.Some?
    ensures r.mean.Some? <==> value.Some? && HasDigit(value.value)
    ensures r.stdev.Some? ==> exists k :: 0 <= k < |value.value| && value.value[k] == PlusMinus
    // a non-empty cell: the first `mean±stdev` match of the normalized text
    // gives both numbers; failing that, its first digit run gives the mean
    ensures value.Some? && value.value != "" ==> (r.stdev.Some? <==> FirstPair(Normalize(value.value), 0).Some?)
    ensures value.Some? && value.value != "" && FirstPair(Normalize(value.value), 0).Some? ==>
      r == Rating(Some(DigitsValue(FirstPair(Normalize(value.value), 0).value.0)),
                  Some(DigitsValue(FirstPair(Normalize(value.value), 0).value.1)))
    ensures value.Some? && value.value != "" && FirstPair(Normalize(value.value), 0).None? && HasDigit(value.value) ==>
      r == Rating(Some(DigitsValue(FirstDigits(Normalize(value.value), 0).value)), None)
  {
    match value
    case None => Rating(None, None)
    case Some(text) =>
      if text == "" then Rating(None, None)
      else
        var t := Normalize(text);
        match FirstPair(t, 0)
        case Some(p) =>
          var k :| 0 <= k < |t| && t[k] == PlusMinus;
          PlusMinusSurvives(text, k);
          ToIntOfDigits(p.0, 0);
          ToIntOfDigits(p.1, 0);
          Rating(Some(ToInt(Some(p.0), 0)), Some(ToInt(Some(p.1), 0)))
        case None =>
          match FirstDigits(t, 0)
          case Some(d) =>
            assert HasDigit(t) by { assert IsDigit(d[0]); }
            ToIntOfDigits(d, 0);
            Rating(Some(ToInt(Some(d), 0)), None)
          case None => Rating(None, None)
  }

  predicate AllGaps(g: string) {
    forall k :: 0 <= k < |g| ==> IsGap(g[k])
  }

  predicate NoGaps(x: string) {
    forall k :: 0 <= k < |x| ==> !IsGap(x[k])
  }

  /** Text without gaps passes through `Collapse` unchanged. */
  lemma {:induction false} CollapsePlain(x: string, rest: string)
    requires NoGaps(x)
    ensures Collapse(x + rest) == x + Collapse(rest)
    decreases |x|
  {
    if |x| > 0 {
      var s := x + rest;
      assert s[0] == x[0];
      assert s[1..] == x[1..] + rest;
      CollapsePlain(x[1..], rest);
      assert x == [x[0]] + x[1..];
    } else {
      assert x + rest == rest;
    }
  }

  /** The gap run at `i` of `g + rest` ends where `g` does. */
  lemma {:induction false} GapRunOf(g: string, rest: string, i: nat)
    requires i <= |g| && AllGaps(g)
    requires |rest| == 0 || !IsGap(rest[0])
    ensures Run(Gaps, g + rest, i) == |g| - i
    decreases |g| - i
  {
    if i < |g| {
      GapRunOf(g, rest, i + 1);
      assert (g + rest)[i] == g[i];
    } else if |rest| > 0 {
      assert (g + rest)[i] == rest[0];
    }
  }

  /** A maximal run of gaps becomes one space; no run leaves nothing. */
  lemma CollapseGaps(g: string, rest: string)
    requires AllGaps(g)
    requires |rest| == 0 || !IsGap(rest[0])
    ensures Collapse(g + rest) == (if |g| == 0 then "" else " ") + Collapse(rest)
  {
    if |g| == 0 {
      assert g + rest == rest;
    } else {
      GapRunOf(g, rest, 0);
      assert (g + rest)[0] == g[0];
      assert (g + rest)[|g|..] == rest;
    }
  }

  lemma DigitsHaveNoGaps(d: string)
    requires AllDigits(d)
    ensures NoGaps(d)
  {
    forall k | 0 <= k < |d|
      ensures !IsGap(d[k])
    {
      assert IsDigit(d[k]);
    }
  }

  /** A first number, white space, '±', white space, a second number. */
  function PairText(a: string, h1: string, h2: string, b: string): string {
    a + (h1 + ([PlusMinus] + (h2 + b)))
  }

  /** What `Collapse` makes of a gap run: one space, or nothing. */
  function GapImage(g: string): string {
    if |g| > 0 then " " else ""
  }

  /** Gaps before a number collapse to at most one space. */
  lemma CollapseGapsDigits(g: string, b: string)
    requires AllGaps(g) && |b| > 0 && AllDigits(b)
    ensures Collapse(g + b) == (if |g| > 0 then " " else "") + b
  {
    DigitsHaveNoGaps(b);
    CollapseGaps(g, b);
    CollapsePlain(b, "");
    assert b + "" == b;
  }

  /** Gaps on either side of the sign collapse to at most one space each. */
  lemma CollapseSign(g1: string, g2: string, b: string)
    requires AllGaps(g1) && AllGaps(g2) && |b| > 0 && AllDigits(b)
    ensures Collapse(g1 + ([PlusMinus] + (g2 + b))) == GapImage(g1) + ([PlusMinus] + (GapImage(g2) + b))
  {
    CollapseGapsDigits(g2, b);
    CollapsePlain([PlusMinus], g2 + b);
    CollapseGaps(g1, [PlusMinus] + (g2 + b));
  }

  /** Pair text starts with its first number and ends with its second. */
  lemma PairTextEnds(a: string, h1: string, h2: string, b: string)
    requires |a| > 0 && |b| > 0
    ensures var c := PairText(a, h1, h2, b);
      c[0] == a[0] && c[|c| - 1] == b[|b| - 1]
  {
  }

  /** Gaps around the sign collapse to at most one space each, and the
      digits at both ends leave nothing to trim. */
  lemma NormalizePair(a: string, g1: string, g2: string, b: string)
    requires |a| > 0 && AllDigits(a) && |b| > 0 && AllDigits(b)
    requires AllGaps(g1) && AllGaps(g2)
    ensures Normalize(a + g1 + [PlusMinus] + g2 + b) == PairText(a, GapImage(g1), GapImage(g2), b)
  {
    var r := g1 + ([PlusMinus] + (g2 + b));
    var c := PairText(a, GapImage(g1), GapImage(g2), b);
    calc {
      Collapse(a + g1 + [PlusMinus] + g2 + b);
    == { assert a + g1 + [PlusMinus] + g2 + b == a + r; }
      Collapse(a + r);
    == { DigitsHaveNoGaps(a); CollapsePlain(a, r); }
      a + Collapse(r);
    == { CollapseSign(g1, g2, b); }
      c;
    }
    PairTextEnds(a, GapImage(g1), GapImage(g2), b);
    assert !IsSpace(a[0]) && !IsSpace(b[|b| - 1]);
    TrimOfTrimmed(c);
  }

  /** A run of `p` read inside a suffix is the run read in the whole text. */
  lemma {:induction false} RunShift(cls: CharClass, x: string, y: string, i: nat)
    requires i <= |y|
    ensures Run(cls, x + y, |x| + i) == Run(cls, y, i)
    decreases |y| - i
  {
    if i < |y| {
      assert (x + y)[|x| + i] == y[i];
      RunShift(cls, x, y, i + 1);
    }
  }

  /** `RunShift` at a position named outright. */
  lemma RunShiftAt(cls: CharClass, x: string, y: string, i: nat, j: nat)
    requires i <= |y| && j == |x| + i
    ensures Run(cls, x + y, j) == Run(cls, y, i)
  {
    RunShift(cls, x, y, i);
  }

  /** A whole digit string is one run. */
  lemma DigitsRun(b: string)
    requires |b| > 0 && AllDigits(b)
    ensures Run(Digits, b, 0) == |b|
  {
    RunExactly(Digits, b, 0, |b|);
  }

  /** White space up to a character that is not white space is one run. */
  lemma SpacesRun(h: string, y: string)
    requires AllSpace(h) && |y| > 0 && !IsSpace(y[0])
    ensures Run(Spaces, h + y, 0) == |h|
  {
    assert forall k :: 0 <= k < |h| ==> (h + y)[k] == h[k];
    assert (h + y)[|h|] == y[0];
    RunExactly(Spaces, h + y, 0, |h|);
  }

  lemma PairTextSpacesBefore(a: string, h1: string, h2: string, b: string)
    requires AllSpace(h1)
    ensures Run(Spaces, PairText(a, h1, h2, b), |a|) == |h1|
  {
    var w := [PlusMinus] + (h2 + b);
    RunShiftAt(Spaces, a, h1 + w, 0, |a|);
    SpacesRun(h1, w);
  }

  lemma PairTextSign(a: string, h1: string, h2: string, b: string)
    ensures var c := PairText(a, h1, h2, b);
      |a| + |h1| < |c| && c[|a| + |h1|] == PlusMinus
  {
  }

  lemma PairTextSpacesAfter(a: string, h1: string, h2: string, b: string)
    requires AllSpace(h2) && |b| > 0 && AllDigits(b)
    ensures Run(Spaces, PairText(a, h1, h2, b), |a| + |h1| + 1) == |h2|
  {
    var v := h2 + b;
    var w := [PlusMinus] + v;
    RunShiftAt(Spaces, a, h1 + w, |h1| + 1, |a| + |h1| + 1);
    RunShiftAt(Spaces, h1, w, 1, |h1| + 1);
    RunShiftAt(Spaces, [PlusMinus], v, 0, 1);
    SpacesRun(h2, b);
  }

  lemma PairTextSuffix(a: string, h1: string, h2: string, b: string)
    requires |b| > 0
    ensures var c := PairText(a, h1, h2, b);
      var l := |a| + |h1| + 1 + |h2|;
      l + |b| == |c| && c[l..l + |b|] == b && c[l] == b[0]
  {
    var c := PairText(a, h1, h2, b);
    var l := |a| + |h1| + 1 + |h2|;
    assert forall m :: 0 <= m < |b| ==> c[l + m] == b[m];
  }

  lemma PairTextDigits(a: string, h1: string, h2: string, b: string)
    requires |b| > 0 && AllDigits(b)
    ensures Run(Digits, PairText(a, h1, h2, b), |a| + |h1| + 1 + |h2|) == |b|
  {
    var v := h2 + b;
    var w := [PlusMinus] + v;
    RunShiftAt(Digits, a, h1 + w, |h1| + 1 + |h2|, |a| + |h1| + 1 + |h2|);
    RunShiftAt(Digits, h1, w, 1 + |h2|, |h1| + 1 + |h2|);
    RunShiftAt(Digits, [PlusMinus], v, |h2|, 1 + |h2|);
    RunShiftAt(Digits, h2, b, 0, |h2|);
    DigitsRun(b);
  }

  /** After the first number of pair text, `\s*±\s*(\d+)` takes the whole
      second number. */
  lemma PairTextTail(a: string, h1: string, h2: string, b: string)
    requires AllSpace(h1) && AllSpace(h2) && |b| > 0 && AllDigits(b)
    ensures PairTail(PairText(a, h1, h2, b), |a|) == Some(b)
  {
    var c := PairText(a, h1, h2, b);
    PairTextSpacesBefore(a, h1, h2, b);
    PairTextSign(a, h1, h2, b);
    PairTextSpacesAfter(a, h1, h2, b);
    PairTextDigits(a, h1, h2, b);
    PairTextSuffix(a, h1, h2, b);
    PairTailMatches(c, |a|, |a| + |h1|, |a| + |h1| + 1 + |h2|, b);
  }

  /** `\s*±\s*(\d+)` matches at `j` when the sign and the digits are where
      the white-space runs end. */
  lemma PairTailMatches(t: string, j: nat, k: nat, l: nat, b: string)
    requires j <= |t| && k == j + Run(Spaces, t, j) && k < |t| && t[k] == PlusMinus
    requires l == k + 1 + Run(Spaces, t, k + 1) && l < |t| && IsDigit(t[l])
    requires l + |b| <= |t| && Run(Digits, t, l) == |b| && t[l..l + |b|] == b
    ensures PairTail(t, j) == Some(b)
  {
  }

  /** The first number of pair text is one whole digit run. */
  lemma PairTextFirst(a: string, h1: string, h2: string, b: string)
    requires |a| > 0 && AllDigits(a) && (|h1| > 0 ==> !IsDigit(h1[0]))
    ensures var c := PairText(a, h1, h2, b);
      IsDigit(c[0]) && Run(Digits, c, 0) == |a| && c[0..|a|] == a
  {
    var c := PairText(a, h1, h2, b);
    var u := h1 + ([PlusMinus] + (h2 + b));
    assert forall m :: 0 <= m < |a| ==> c[m] == a[m];
    assert c[|a|] == u[0];
    RunExactly(Digits, c, 0, |a|);
  }

  /** The pattern matches pair text at its start, capturing both numbers
      whole. */
  lemma PairAtPairText(a: string, h1: string, h2: string, b: string)
    requires |a| > 0 && AllDigits(a) && |b| > 0 && AllDigits(b)
    requires AllSpace(h1) && AllSpace(h2)
    ensures var c := PairText(a, h1, h2, b);
      IsDigit(c[0]) && PairAt(c, 0) == Some((a, b))
  {
    assert |h1| > 0 ==> IsSpace(h1[0]) && !IsDigit(h1[0]);
    PairTextFirst(a, h1, h2, b);
    PairTextTail(a, h1, h2, b);
  }

  /** A `mean±stdev` cell reads as its two numbers, whatever white space or
      zero-width spaces surround the sign. */
  lemma ParseRatingOfPair(a: string, g1: string, g2: string, b: string)
    requires |a| > 0 && AllDigits(a) && |b| > 0 && AllDigits(b)
    requires AllGaps(g1) && AllGaps(g2)
    ensures ParseRating(Some(a + g1 + [PlusMinus] + g2 + b)) == Rating(Some(DigitsValue(a)), Some(DigitsValue(b)))
  {
    NormalizePair(a, g1, g2, b);
    PairAtPairText(a, GapImage(g1), GapImage(g2), b);
    ToIntOfDigits(a, 0);
    ToIntOfDigits(b, 0);
  }

  /** A digit string is already normalised. */
  lemma NormalizeDigits(d: string)
    requires |d| > 0 && AllDigits(d)
    ensures Normalize(d) == d
  {
    DigitsHaveNoGaps(d);
    CollapsePlain(d, "");
    assert d + "" == d;
    TrimOfTrimmed(d);
  }

  /** A digit string holds no pair, and its first digit run is all of it. */
  lemma DigitsMatches(d: string)
    requires |d| > 0 && AllDigits(d)
    ensures FirstPair(d, 0).None? && FirstDigits(d, 0) == Some(d)
  {
    DigitsRun(d);
    PairAtEnd(d, 0, |d|);
    assert PairTail(d, |d|).None?;
    assert FirstPair(d, |d|).None?;
    assert d[0..|d|] == d;
  }

  /** A bare number reads as the mean, with no deviation. */
  lemma ParseRatingOfDigits(d: string)
    requires |d| > 0 && AllDigits(d)
    ensures ParseRating(Some(d)) == Rating(Some(DigitsValue(d)), None)
  {
    NormalizeDigits(d);
    DigitsMatches(d);
    ToIntOfDigits(d, 0);
  }


  /** A '±' in the normalised text was already in the raw text. */
  lemma PlusMinusSurvives(s: string, k: int)
    requires 0 <= k < |Normalize(s)| && Normalize(s)[k] == PlusMinus
    ensures exists j :: 0 <= j < |s| && s[j] == PlusMinus
  {
    var c := Collapse(s);
    var a := LeadingSpaces(c);
    assert c[a + k] == PlusMinus;
    CollapseKeepsChar(s, a + k);
  }

  /** Every non-gap character of the collapsed text comes from the input. */
  lemma {:induction false} CollapseKeepsChar(s: string, k: int)
    requires 0 <= k < |Collapse(s)| && !IsGap(Collapse(s)[k])
    ensures exists j :: 0 <= j < |s| && s[j] == Collapse(s)[k]
    decreases |s|
  {
    if IsGap(s[0]) {
      var n := Run(Gaps, s, 0);
      CollapseKeepsChar(s[n..], k - 1);
      var j :| 0 <= j < |s[n..]| && s[n..][j] == Collapse(s[n..])[k - 1];
      assert s[n + j] == s[n..][j];
    } else if k > 0 {
      CollapseKeepsChar(s[1..], k - 1);
      var j :| 0 <= j < |s[1..]| && s[1..][j] == Collapse(s[1..])[k - 1];
      assert s[j + 1] == s[1..][j];
    }
  }

  /** The cell at `k`, or an empty one: `$(cells[k]).text()` is "" when the
      row is shorter. */
  function CellAt(row: HtmlRow, k: nat): HtmlCell {
    if k < |row.cells| then row.cells[k] else HtmlCell("", None)
  }

  const PlayerIdKey: string := "playerid="

  /** `PlayerID=` (any letter case) followed by a digit starts at `i`. */
  predicate ParamAt(href: string, i: int) {
    0 <= i && i + 9 < |href| &&
    (forall k :: 0 <= k < 9 ==> LowerAscii(href[i + k]) == PlayerIdKey[k]) &&
    IsDigit(href[i + 9])
  }

  /** `j` is the leftmost position at or after `i` where the pattern matches. */
  ghost predicate FirstParamAt(href: string, i: int, j: int) {
    i <= j && ParamAt(href, j) && forall j' :: i <= j' < j ==> !ParamAt(href, j')
  }

  /** The digit run the pattern captures when it matches at `j`. */
  function CapturedId(href: string, j: int): string
    requires ParamAt(href, j)
  {
    href[j + 9..j + 9 + Run(Digits, href, j + 9)]
  }

  /** The digits captured by `/PlayerID=(\d+)/i`, searching from `i`. */
  function PlayerIdParam(href: string, i: nat): (r: Option<string>)
    requires i <= |href|
    ensures r.Some? ==> |r.value| > 0 && AllDigits(r.value)
    ensures r.None? <==> forall j :: i <= j < |href| ==> !ParamAt(href, j)
    ensures r.Some? ==> exists j :: FirstParamAt(href, i, j) && r.value == CapturedId(href, j)
    decreases |href| - i
  {
    if i + 9 >= |href| then
      assert forall j :: i <= j < |href| ==> !ParamAt(href, j);
      None
    else if ParamAt(href, i) then
      assert FirstParamAt(href, i, i);
      Some(CapturedId(href, i))
    else
      var r := PlayerIdParam(href, i + 1);
      FirstParamStep(href, i, r);
      r
  }

  /** A search that skips a non-matching position `i` finds what the
      search from `i + 1` finds. */
  lemma FirstParamStep(href: string, i: nat, r: Option<string>)
    requires i + 1 <= |href| && !ParamAt(href, i)
    requires r.Some? ==> exists j :: FirstParamAt(href, i + 1, j) && r.value == CapturedId(href, j)
    ensures r.Some? ==> exists j :: FirstParamAt(href, i, j) && r.value == CapturedId(href, j)
  {
    if r.Some? {
      var j :| FirstParamAt(href, i + 1, j) && r.value == CapturedId(href, j);
      assert FirstParamAt(href, i, j);
    }
  }

  /** The `href` of the name cell's first link, or "" without one. */
  function NameHref(row: HtmlRow): string {
    var a := CellAt(row, 2).anchor;
    if a.Some? then a.value.href.GetOr("") else ""
  }

  /** The digits `/PlayerID=(\d+)/i` captures from the name link. */
  function IdDigits(row: HtmlRow): Option<string> {
    PlayerIdParam(NameHref(row), 0)
  }

  /** The trimmed link text, or the trimmed cell text when that is empty. */
  function NameOf(row: HtmlRow): string {
    var a := CellAt(row, 2).anchor;
    var linkText := if a.Some? then Trim(a.value.text) else "";
    if linkText != "" then linkText else Trim(CellAt(row, 2).text)
  }

  /** One table row as `fetchClubRoster` reads it; `None` when the row is
      skipped (no `td` cells, no usable player id, or no name). */
  function EntryOf(row: HtmlRow, parseDate: DateParser): (r: Option<ClubRosterEntry>)
    ensures r.Some? <==> |row.cells| > 0 && IdDigits(row).Some? && DigitsValue(IdDigits(row).value) != 0 && NameOf(row) != ""
    ensures r.Some? ==> CellAt(row, 2).anchor.Some?
    ensures r.Some? ==> r.value.playerId == DigitsValue(IdDigits(row).value)
    ensures r.Some? ==> r.value.displayName == NameOf(row)
    ensures r.Some? ==> var rankText := Trim(CellAt(row, 0).text);
      r.value.rank == if rankText == "" then None else Some(ToInt(Some(rankText), 0))
    ensures r.Some? ==> Rating(r.value.ratingMean, r.value.ratingStDev) == ParseRating(Some(Trim(CellAt(row, 1).text)))
    ensures r.Some? ==> r.value.lastPlayedDate == ToDateOptional(Some(Trim(CellAt(row, 4).text)), parseDate)
  {
    if |row.cells| == 0 then None
    else
      var rankText := Trim(CellAt(row, 0).text);
      var ratingText := Trim(CellAt(row, 1).text);
      var lastPlayedText := Trim(CellAt(row, 4).text);
      var digits := IdDigits(row);
      var playerId := if digits.Some? then ToInt(Some(digits.value), 0) else 0;
      assert digits.Some? ==> playerId == DigitsValue(digits.value) by {
        if digits.Some? {
          ToIntOfDigits(digits.value, 0);
        }
      }
      var displayName := NameOf(row);
      if playerId == 0 || displayName == "" then None
      else
        assert PlayerIdParam("", 0).None?;
        var rating := ParseRating(Some(ratingText));
        Some(ClubRosterEntry(
          playerId,
          if rankText != "" then Some(ToInt(Some(rankText), 0)) else None,
          displayName,
          rating.mean,
          rating.stdev,
          ToDateOptional(Some(lastPlayedText), parseDate)))
  }

  const ProfilePage: string := "PlayerProfile.php?PlayerID="

  /** No `PlayerID=` match starts inside the profile page's own name. */
  lemma ProfilePageHasNoParam(d: string)
    ensures forall j :: 0 <= j < 18 ==> !ParamAt(ProfilePage + d, j)
  {
    var href := ProfilePage + d;
    forall j | 0 <= j < 18
      ensures !ParamAt(href, j)
    {
      if j == 0 {
        assert LowerAscii(href[6]) != PlayerIdKey[6];
      } else if j < 5 {
        assert LowerAscii(href[j]) != PlayerIdKey[0];
      } else if j < 9 {
        assert LowerAscii(href[13]) != PlayerIdKey[13 - j];
      } else {
        assert LowerAscii(href[17]) != PlayerIdKey[17 - j];
      }
    }
  }

  /** A profile link carries the player id it was written with. */
  lemma ProfileLinkId(id: nat)
    ensures PlayerIdParam(ProfilePage + NatToString(id), 0) == Some(NatToString(id))
  {
    var d := NatToString(id);
    var href := ProfilePage + d;
    ProfilePageHasNoParam(d);
    assert href[27] == d[0];
    assert forall k :: 18 <= k < 27 ==> href[k] == ProfilePage[k];
    assert ParamAt(href, 18);
    RunShiftAt(Digits, ProfilePage, d, 0, 27);
    DigitsRun(d);
    assert href[27..27 + |d|] == d;
    assert CapturedId(href, 18) == d;
    var r := PlayerIdParam(href, 0);
    var j :| FirstParamAt(href, 0, j) && r.value == CapturedId(href, j);
    assert j == 18;
  }

  /** A roster row laid out as the page writes it: the rank, `mean±stdev`
      with any gaps around the sign, the name linked to the player's
      profile, a column the scraper does not read, and the last-played
      date. */
  function RosterRow(id: nat, rank: Option<nat>, name: string, mean: nat, g1: string, g2: string, stdev: nat, lastPlayed: string): HtmlRow {
    HtmlRow([
      HtmlCell(if rank.Some? then NatToString(rank.value) else "", None),
      HtmlCell(NatToString(mean) + g1 + [PlusMinus] + g2 + NatToString(stdev), None),
      HtmlCell(name, Some(Anchor(Some(ProfilePage + NatToString(id)), name))),
      HtmlCell("", None),
      HtmlCell(lastPlayed, None)])
  }

  /** A written rank reads back as itself. */
  lemma RankText(rank: Option<nat>)
    ensures RankReads(Trim(if rank.Some? then NatToString(rank.value) else ""), rank)
  {
    var t := if rank.Some? then NatToString(rank.value) else "";
    if rank.Some? {
      assert IsDigit(t[0]) && IsDigit(t[|t| - 1]);
      TrimOfTrimmed(t);
      ToIntOfDigits(t, 0);
      NatToStringRoundTrip(rank.value);
    } else {
      TrimOfTrimmed(t);
    }
  }

  /** A written rating reads back as its two numbers. */
  lemma RatingText(mean: nat, g1: string, g2: string, stdev: nat)
    requires AllGaps(g1) && AllGaps(g2)
    ensures var t := NatToString(mean) + g1 + [PlusMinus] + g2 + NatToString(stdev);
      ParseRating(Some(Trim(t))) == Rating(Some(mean), Some(stdev))
  {
    var a := NatToString(mean);
    var b := NatToString(stdev);
    var t := a + g1 + [PlusMinus] + g2 + b;
    assert t[0] == a[0] && t[|t| - 1] == b[|b| - 1];
    assert IsDigit(a[0]) && IsDigit(b[|b| - 1]);
    TrimOfTrimmed(t);
    ParseRatingOfPair(a, g1, g2, b);
    NatToStringRoundTrip(mean);
    NatToStringRoundTrip(stdev);
  }

  /** A row written from an entry reads back as that entry: `EntryOf`
      recovers the id from the profile link, the rank, the name, both
      rating numbers and the date text. */
  lemma EntryOfRosterRow(id: nat, rank: Option<nat>, name: string, mean: nat, g1: string, g2: string, stdev: nat, lastPlayed: string, parseDate: DateParser)
    requires id > 0 && !AllSpace(name)
    requires AllGaps(g1) && AllGaps(g2)
    ensures EntryOf(RosterRow(id, rank, name, mean, g1, g2, stdev, lastPlayed), parseDate) ==
      Some(ClubRosterEntry(id, if rank.Some? then Some(rank.value) else None, Trim(name),
        Some(mean), Some(stdev), ToDateOptional(Some(Trim(lastPlayed)), parseDate)))
  {
    var row := RosterRow(id, rank, name, mean, g1, g2, stdev, lastPlayed);
    RosterRowId(id, row);
    RosterRowRank(rank, row);
    RosterRowRating(mean, g1, g2, stdev, row);
    EntryOfFields(row, parseDate, id, rank, Trim(name), Rating(Some(mean), Some(stdev)));
  }

  /** The profile link in the name column carries the player id. */
  lemma RosterRowId(id: nat, row: HtmlRow)
    requires CellAt(row, 2).anchor.Some? && CellAt(row, 2).anchor.value.href == Some(ProfilePage + NatToString(id))
    ensures IdDigits(row).Some? && DigitsValue(IdDigits(row).value) == id
  {
    ProfileLinkId(id);
    NatToStringRoundTrip(id);
  }

  /** The rank column reads back as the rank written into it. */
  lemma RosterRowRank(rank: Option<nat>, row: HtmlRow)
    requires CellAt(row, 0).text == if rank.Some? then NatToString(rank.value) else ""
    ensures RankReads(Trim(CellAt(row, 0).text), rank)
  {
    RankText(rank);
  }

  /** The rating column reads back as the two numbers written into it. */
  lemma RosterRowRating(mean: nat, g1: string, g2: string, stdev: nat, row: HtmlRow)
    requires AllGaps(g1) && AllGaps(g2)
    requires CellAt(row, 1).text == NatToString(mean) + g1 + [PlusMinus] + g2 + NatToString(stdev)
    ensures ParseRating(Some(Trim(CellAt(row, 1).text))) == Rating(Some(mean), Some(stdev))
  {
    RatingText(mean, g1, g2, stdev);
  }

  /** `text`, trimmed, is the rank column's reading of `rank`. */
  predicate RankReads(text: string, rank: Option<nat>) {
    (text == "" <==> rank.None?) && (rank.Some? ==> ToInt(Some(text), 0) == rank.value)
  }

  /** `EntryOf` assembled from what each column reads as. */
  lemma EntryOfFields(row: HtmlRow, parseDate: DateParser, id: nat, rank: Option<nat>, name: string, rating: Rating)
    requires |row.cells| > 0
    requires IdDigits(row).Some? && DigitsValue(IdDigits(row).value) == id && id != 0
    requires NameOf(row) == name && name != ""
    requires RankReads(Trim(CellAt(row, 0).text), rank)
    requires ParseRating(Some(Trim(CellAt(row, 1).text))) == rating
    ensures EntryOf(row, parseDate) ==
      Some(ClubRosterEntry(id, if rank.Some? then Some(rank.value) else None, name,
        rating.mean, rating.stdev, ToDateOptional(Some(Trim(CellAt(row, 4).text)), parseDate)))
  {
  }

  /** The entries of the rows that are not skipped, in table order. */
  function Entries(rows: seq<HtmlRow>, parseDate: DateParser): (r: seq<ClubRosterEntry>)
    ensures |r| <= |rows|
    ensures forall i :: 0 <= i < |rows| && EntryOf(rows[i], parseDate).Some? ==> EntryOf(rows[i], parseDate).value in r
    ensures forall j :: 0 <= j < |r| ==> exists i :: 0 <= i < |rows| && EntryOf(rows[i], parseDate) == Some(r[j])
    ensures forall j :: 0 <= j < |r| ==> r[j].playerId != 0 && r[j].displayName != ""
  {
    var r := FilterMap(EntryStep(parseDate), rows);
    EntriesNamed(rows, parseDate);
    r
  }

  function EntryStep(parseDate: DateParser): HtmlRow -> Option<ClubRosterEntry> {
    (row: HtmlRow) => EntryOf(row, parseDate)
  }

  /** Every kept entry has an id and a name, as its row's entry does. */
  lemma EntriesNamed(rows: seq<HtmlRow>, parseDate: DateParser)
    ensures var r := FilterMap(EntryStep(parseDate), rows);
      forall j :: 0 <= j < |r| ==> r[j].playerId != 0 && r[j].displayName != ""
  {
    var r := FilterMap(EntryStep(parseDate), rows);
    forall j | 0 <= j < |r|
      ensures r[j].playerId != 0 && r[j].displayName != ""
    {
      var i :| 0 <= i < |rows| && EntryStep(parseDate)(rows[i]) == Some(r[j]);
      assert EntryOf(rows[i], parseDate) == Some(r[j]);
    }
  }

  /** Rows are read in order, one entry per kept row: a row appended to the
      table appends its own entry, if any, and nothing else. */
  lemma EntriesAppend(rows: seq<HtmlRow>, row: HtmlRow, parseDate: DateParser)
    ensures Entries(rows + [row], parseDate) ==
      Entries(rows, parseDate) + (if EntryOf(row, parseDate).Some? then [EntryOf(row, parseDate).value] else [])
  {
    FilterMapAppend(EntryStep(parseDate), rows, [row]);
    FilterMapSingle(EntryStep(parseDate), row);
  }

  /** `fetchClubRoster` after the page has been fetched: `table` is the first
      table whose header mentions rank, rating and name, if any. */
  function ExtractRoster(table: Option<seq<HtmlRow>>, parseDate: DateParser): (r: Result<seq<ClubRosterEntry>, SyncError>)
    ensures table.None? <==> r == Failure(RosterTableNotFound)
    ensures r.Success? ==> r.value == Entries(table.value, parseDate)
  {
    match table
    case None => Failure(RosterTableNotFound)
    case Some(rows) => Success(Entries(rows, parseDate))
  }
}
