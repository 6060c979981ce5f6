/** Keyset pagination with a one-row look-ahead, as both paginated read
    endpoints do it (backend/src/services/players.service.ts `getHistory`,
    backend/src/routes/clubs.controller.ts `getLeaderboard`): ask the
    database for `limit + 1` rows after the cursor, report the first `limit`,
    and use the last reported row as the next cursor. */
module Paging {
  import opened Wrappers
  import opened Seqs

  function Min(a: int, b: int): int {
    if a <= b then a else b
  }

  function Max(a: int, b: int): int {
    if a >= b then a else b
  }

  /** The database's `take: n`: the first `n` rows of the ordered result; a
      negative `n` reads backwards from the end and yields the last `-n`. */
  function Take<T>(xs: seq<T>, n: int): (r: seq<T>)
    ensures n >= 0 ==> r <= xs && |r| == Min(n, |xs|)
    ensures n < 0 ==> |r| <= -n
  {
    if n >= 0 then xs[..Min(n, |xs|)] else xs[Max(0, |xs| + n)..]
  }

  /** JavaScript's `xs.slice(0, end)`: a negative `end` counts from the end. */
  function SliceTo<T>(xs: seq<T>, end: int): (r: seq<T>)
    ensures r <= xs
    ensures end >= 0 ==> |r| == Min(end, |xs|)
    ensures end < 0 ==> |r| == Max(0, |xs| + end)
  {
    if end >= 0 then xs[..Min(end, |xs|)] else xs[..Max(0, |xs| + end)]
  }

  datatype Page<T> = Page(items: seq<T>, hasMore: bool, last: Option<T>)

  /** How a page request throws: `MissingLastItem` is reading the cursor
      fields of `items[items.length - 1]` when `items` is empty (a property
      read on `undefined`); `NonIntegerLimit` is the database rejecting a
      fractional `take`. */
  datatype PageError = MissingLastItem | NonIntegerLimit

  /** One page from the `limit + 1` rows fetched: more rows exist exactly when
      more than `limit` came back; then the page keeps the first `limit` and
      remembers the last of those for the next cursor. */
  function PageOf<T>(fetched: seq<T>, limit: int): (r: Result<Page<T>, PageError>)
    ensures r.Failure? <==> |fetched| > limit && |SliceTo(fetched, limit)| == 0
    ensures limit >= 1 ==> r.Success?
    ensures r.Success? ==> (r.value.hasMore <==> |fetched| > limit)
    ensures r.Success? ==> r.value.items <= fetched
    ensures r.Success? && !r.value.hasMore ==> r.value.items == fetched
    ensures r.Success? && r.value.hasMore && limit >= 0 ==> |r.value.items| == limit
    ensures r.Success? ==> (r.value.last.Some? <==> r.value.hasMore)
    ensures r.Success? && r.value.hasMore ==> |r.value.items| > 0 && r.value.last == Some(r.value.items[|r.value.items| - 1])
  {
    var hasMore := |fetched| > limit;
    var items := if hasMore then SliceTo(fetched, limit) else fetched;
    if hasMore && |items| == 0 then Failure(MissingLastItem)
    else Success(Page(items, hasMore, if hasMore then Some(items[|items| - 1]) else None))
  }

  /** A sort key `(tier, major, minor)`, compared lexicographically. The
      tier places rows whose major sort column is null after all others, as
      an ascending database order does; it is 0 where the column has no
      nulls. */
  type SortKey = (int, int, int)

  /** The lexicographic order on sort keys. */
  predicate LexLess(a: SortKey, b: SortKey) {
    a.0 < b.0 || (a.0 == b.0 && (a.1 < b.1 || (a.1 == b.1 && a.2 < b.2)))
  }

  lemma LexLessTransitive(a: SortKey, b: SortKey, c: SortKey)
    requires LexLess(a, b) && LexLess(b, c)
    ensures LexLess(a, c)
  {
  }

  /** Keys increase strictly along `xs`: the database order of the query. */
  ghost predicate StrictlyAscending<T>(xs: seq<T>, key: T -> SortKey) {
    forall i, j :: 0 <= i < j < |xs| ==> LexLess(key(xs[i]), key(xs[j]))
  }

  /** The rows strictly after cursor `c`, in order. */
  function After<T>(xs: seq<T>, key: T -> SortKey, c: SortKey): (r: seq<T>)
    ensures |r| <= |xs|
    ensures forall i :: 0 <= i < |r| ==> LexLess(c, key(r[i]))
  {
    if |xs| == 0 then []
    else if LexLess(c, key(xs[0])) then [xs[0]] + After(xs[1..], key, c)
    else After(xs[1..], key, c)
  }

  /** The rows a query with an optional cursor matches. */
  function Remaining<T>(xs: seq<T>, key: T -> SortKey, c: Option<SortKey>): seq<T> {
    if c.None? then xs else After(xs, key, c.value)
  }

  /** Every row after a cursor is a row of the listing. */
  lemma {:induction false} AfterWithin<T>(xs: seq<T>, key: T -> SortKey, c: SortKey)
    ensures forall i :: 0 <= i < |After(xs, key, c)| ==> After(xs, key, c)[i] in xs
  {
    if |xs| > 0 {
      AfterWithin(xs[1..], key, c);
      var rest := After(xs[1..], key, c);
      forall i | 0 <= i < |rest|
        ensures rest[i] in xs
      {
        var k :| 0 <= k < |xs[1..]| && xs[1..][k] == rest[i];
        assert xs[k + 1] == rest[i];
      }
    }
  }

  lemma {:induction false} AfterAppend<T>(xs: seq<T>, ys: seq<T>, key: T -> SortKey, c: SortKey)
    ensures After(xs + ys, key, c) == After(xs, key, c) + After(ys, key, c)
  {
    if |xs| == 0 {
      assert xs + ys == ys;
    } else {
      assert (xs + ys)[1..] == xs[1..] + ys;
      AfterAppend(xs[1..], ys, key, c);
    }
  }

  lemma {:induction false} AfterAll<T>(xs: seq<T>, key: T -> SortKey, c: SortKey)
    requires forall i :: 0 <= i < |xs| ==> LexLess(c, key(xs[i]))
    ensures After(xs, key, c) == xs
  {
    if |xs| > 0 {
      AfterAll(xs[1..], key, c);
    }
  }

  lemma {:induction false} AfterNone<T>(xs: seq<T>, key: T -> SortKey, c: SortKey)
    requires forall i :: 0 <= i < |xs| ==> !LexLess(c, key(xs[i]))
    ensures After(xs, key, c) == []
  {
    if |xs| > 0 {
      AfterNone(xs[1..], key, c);
    }
  }

  /** What follows the row at position `i` of an ascending listing is
      exactly the rest of the listing. */
  lemma AfterRow<T>(xs: seq<T>, key: T -> SortKey, i: int)
    requires StrictlyAscending(xs, key) && 0 <= i < |xs|
    ensures After(xs, key, key(xs[i])) == xs[i + 1..]
  {
    var front := xs[..i + 1];
    var back := xs[i + 1..];
    assert xs == front + back;
    AfterAppend(front, back, key, key(xs[i]));
    UpToRowNotAfter(xs, key, i);
    PastRowAfter(xs, key, i);
  }

  lemma UpToRowNotAfter<T>(xs: seq<T>, key: T -> SortKey, i: int)
    requires StrictlyAscending(xs, key) && 0 <= i < |xs|
    ensures After(xs[..i + 1], key, key(xs[i])) == []
  {
    var c := key(xs[i]);
    var front := xs[..i + 1];
    forall j | 0 <= j < |front|
      ensures !LexLess(c, key(front[j]))
    {
      if j < i {
        assert LexLess(key(xs[j]), c);
      }
    }
    AfterNone(front, key, c);
  }

  lemma PastRowAfter<T>(xs: seq<T>, key: T -> SortKey, i: int)
    requires StrictlyAscending(xs, key) && 0 <= i < |xs|
    ensures After(xs[i + 1..], key, key(xs[i])) == xs[i + 1..]
  {
    var c := key(xs[i]);
    var back := xs[i + 1..];
    forall j | 0 <= j < |back|
      ensures LexLess(c, key(back[j]))
    {
      assert back[j] == xs[i + 1 + j];
    }
    AfterAll(back, key, c);
  }

  /** A full page that is a prefix of the matching rows splits them into
      the page and the rest. */
  lemma PageSplits<T>(matching: seq<T>, items: seq<T>, limit: int)
    requires items <= matching && |items| == limit
    ensures matching == items + matching[limit..]
  {
    assert items == matching[..limit];
  }

  /** The last row of a full page is the matching row at that position. */
  lemma LastOfFullPage<T>(matching: seq<T>, items: seq<T>, limit: int)
    requires items <= matching && |items| == limit >= 1
    ensures items[limit - 1] == matching[limit - 1]
  {
  }

  /** The page built from a look-ahead query of `limit + 1` rows over the
      matching rows `xs`: more exist exactly when `xs` is longer than the
      limit, and then the page is the first `limit` rows and its last one. */
  lemma LookAheadPage<T>(xs: seq<T>, limit: int)
    requires limit >= 1
    ensures PageOf(Take(xs, limit + 1), limit).Success?
    ensures var p := PageOf(Take(xs, limit + 1), limit).value;
      (p.hasMore <==> |xs| > limit) &&
      (p.hasMore ==> p.items == xs[..limit] && p.last == Some(xs[limit - 1])) &&
      (!p.hasMore ==> p.items == xs)
  {
    var fetched := Take(xs, limit + 1);
    if |xs| > limit {
      assert fetched == xs[..limit + 1];
      assert SliceTo(fetched, limit) == xs[..limit];
    } else {
      assert fetched == xs;
    }
  }

  /** Every row after a later cursor is also after an earlier one, so
      filtering twice is filtering once by the later cursor. */
  lemma {:induction false} AfterNested<T>(xs: seq<T>, key: T -> SortKey, c: SortKey, d: SortKey)
    requires LexLess(c, d)
    ensures After(After(xs, key, c), key, d) == After(xs, key, d)
  {
    if |xs| > 0 {
      AfterNested(xs[1..], key, c, d);
      if LexLess(d, key(xs[0])) {
        LexLessTransitive(c, d, key(xs[0]));
      }
    }
  }

  lemma {:induction false} AfterAscending<T>(xs: seq<T>, key: T -> SortKey, c: SortKey)
    requires StrictlyAscending(xs, key)
    ensures StrictlyAscending(After(xs, key, c), key)
    ensures forall i :: 0 <= i < |After(xs, key, c)| ==> After(xs, key, c)[i] in xs
  {
    AfterWithin(xs, key, c);
    if |xs| > 0 {
      AfterAscending(xs[1..], key, c);
      AfterWithin(xs[1..], key, c);
    }
  }

  /** No row is skipped and none repeats: when a page of `limit` rows says
      there are more, the rows matching the next cursor are exactly the rows
      matching this one, minus the page. */
  lemma NextPageContinues<T>(xs: seq<T>, key: T -> SortKey, c: Option<SortKey>, limit: int)
    requires StrictlyAscending(xs, key) && limit >= 1
    requires |Remaining(xs, key, c)| > limit
    ensures var rest := Remaining(xs, key, c);
      Remaining(xs, key, Some(key(rest[limit - 1]))) == rest[limit..]
  {
    var rest := Remaining(xs, key, c);
    var d := key(rest[limit - 1]);
    if c.Some? {
      AfterAscending(xs, key, c.value);
      AfterRow(rest, key, limit - 1);
      AfterNested(xs, key, c.value, d);
    } else {
      AfterRow(xs, key, limit - 1);
    }
  }

  /** Filtering a listing keeps it ascending. */
  lemma {:induction false} FilterAscending<T>(keep: T -> bool, xs: seq<T>, key: T -> SortKey)
    requires StrictlyAscending(xs, key)
    ensures StrictlyAscending(Filter(keep, xs), key)
  {
    if |xs| > 0 {
      FilterAscending(keep, xs[1..], key);
      var rest := Filter(keep, xs[1..]);
      forall j | 0 <= j < |rest|
        ensures LexLess(key(xs[0]), key(rest[j]))
      {
        var k :| 0 <= k < |xs[1..]| && xs[1..][k] == rest[j];
        assert xs[1..][k] == xs[k + 1];
      }
    }
  }
}
