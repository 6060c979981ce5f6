/** The club leaderboard endpoint (backend/src/routes/clubs.controller.ts):
    the limit clamp, the optional rank cursor, and keyset pagination over the
    club's ClubMember rows by `(rank, playerId)`. */
module Clubs {
  import opened Wrappers
  import opened Text
  import opened Parse
  import opened Seqs
  import opened Store
  import opened Paging
  import opened Aggregates

  const DefaultLimit: int := 50
  const MaxLimit: int := 200

  /** The integer a `Number` denotes, if it is one. */
  function IntegerValue(n: Numeric): (r: Option<int>)
    ensures r.Some? ==> n.Num? && n.mantissa == r.value * Pow10(n.scale)
    ensures n.Num? && n.mantissa % Pow10(n.scale) == 0 ==> r.Some?
  {
    match n
    case NaN => None
    case Num(m, k) => if m % Pow10(k) == 0 then Some(m / Pow10(k)) else None
  }

  /** `Math.min(Number(limit) || 50, 200)` as written: not-a-number and zero
      fall back to 50, anything from 200 up is 200, and everything else,
      negative values included, passes through; a fractional value that
      passes through is a `take` the database rejects. */
  function SafeLimitAsWritten(n: Numeric): (r: Result<int, PageError>)
    ensures n.NaN? || n.mantissa == 0 ==> r == Success(DefaultLimit)
    ensures r.Success? ==> r.value <= MaxLimit
    ensures n.Num? && n.mantissa != 0 && IntegerValue(n).Some? ==> r == Success(Min(IntegerValue(n).value, MaxLimit))
    ensures r.Failure? ==> r.error == NonIntegerLimit && IntegerValue(n).None?
  {
    match n
    case NaN => Success(DefaultLimit)
    case Num(m, k) =>
      if m == 0 then Success(DefaultLimit)
      else if m >= MaxLimit * Pow10(k) then Success(MaxLimit)
      else if m % Pow10(k) == 0 then Success(m / Pow10(k))
      else Failure(NonIntegerLimit)
  }

  /** A negative limit passes the clamp: "-1" gives -1. */
  lemma MinusOnePassesAsWritten()
    ensures SafeLimitAsWritten(NumberValue("-1")) == Success(-1)
  {
    var t := "-1";
    TrimOfTrimmed(t);
    assert t[1..] == "1";
    UnsignedDigits("1");
    assert NumberValue(t) == Num(-1, 0);
  }

  /** With any negative limit the look-ahead query asks for at most
      `-limit - 1` rows, more rows always seem to exist, no row is kept, and
      reading the next cursor from the (missing) last item throws. */
  lemma NegativeLimitFailsAsWritten<T>(matching: seq<T>, limit: int)
    requires limit < 0
    ensures PageOf(Take(matching, limit + 1), limit) == Failure(MissingLastItem)
  {
    var fetched := Take(matching, limit + 1);
    assert |fetched| <= -(limit + 1);
  }

  /** The clamp the endpoint evidently means: 50 for a missing, zero or
      non-numeric limit, otherwise the limit kept within `[1, 200]`. */
  function SafeLimit(n: Numeric): (r: Result<int, PageError>)
    ensures r.Success? ==> 1 <= r.value <= MaxLimit
    ensures n.NaN? || n.mantissa == 0 ==> r == Success(DefaultLimit)
    ensures r.Failure? ==> r.error == NonIntegerLimit && IntegerValue(n).None?
  {
    match n
    case NaN => Success(DefaultLimit)
    case Num(m, k) =>
      if m == 0 then Success(DefaultLimit)
      else if m >= MaxLimit * Pow10(k) then Success(MaxLimit)
      else if m <= Pow10(k) then Success(1)
      else if m % Pow10(k) == 0 then Success(m / Pow10(k))
      else Failure(NonIntegerLimit)
  }

  /** The corrected clamp only changes limits below one: wherever the
      written clamp yields a positive limit, both agree. */
  lemma SafeLimitAgrees(n: Numeric)
    requires SafeLimitAsWritten(n).Success? && SafeLimitAsWritten(n).value >= 1
    ensures SafeLimit(n) == SafeLimitAsWritten(n)
  {
    match n
    case NaN =>
    case Num(m, k) =>
      if m != 0 && m < MaxLimit * Pow10(k) && m <= Pow10(k) {
        WholeQuotientIsOne(m, Pow10(k));
      }
  }

  /** A multiple `m` of `p` with `p <= m <= p` is `p` itself. */
  lemma WholeQuotientIsOne(m: int, p: int)
    requires p >= 1 && m % p == 0 && m / p >= 1 && m <= p
    ensures m / p == 1
  {
    var q := m / p;
    assert m == p * q;
    if q >= 2 {
      MulMonotone(p, 2, q);
    }
  }

  /** A ClubMember row of the club with its player id. */
  datatype LeaderRow = LeaderRow(playerId: int, member: ClubMember)

  /** `decodeRankCursor(cursor)`: no cursor for an absent or empty string;
      otherwise whatever the base64url/JSON decoding yields, nothing when it
      throws. */
  function DecodeRankCursor<C>(cursor: Option<string>, decode: string -> Option<C>): (r: Option<C>)
    ensures cursor.None? || cursor == Some("") ==> r.None?
    ensures cursor.Some? && cursor.value != "" ==> r == decode(cursor.value)
  {
    match cursor
    case None => None
    case Some(text) => if text == "" then None else decode(text)
  }

  /** A cursor the endpoint handed out reads back as itself, given decoding
      inverts encoding and encodings are never empty. */
  lemma DecodeEncodedCursor<C>(c: C, encode: C -> string, decode: string -> Option<C>)
    requires decode(encode(c)) == Some(c) && encode(c) != ""
    ensures DecodeRankCursor(Some(encode(c)), decode) == Some(c)
  {
  }

  /** The query's `orderBy: [{ rank: 'asc' }, { playerId: 'asc' }]`: ranked
      members by rank then id, and after them, as an ascending database
      order puts nulls last, the unranked members by id. */
  function LeaderKey(r: LeaderRow): SortKey {
    RankIdKey(r.member.rank, r.playerId)
  }

  function RankIdKey(rank: Option<int>, playerId: int): SortKey {
    if rank.Some? then (0, rank.value, playerId) else (1, 0, playerId)
  }

  // ------------------------------------------------- cursor filter as written

  datatype RankCursor = RankCursor(rank: int, playerId: int)

  /** The cursor the endpoint emits for a row: a missing rank is written as 0. */
  function CursorOfAsWritten(r: LeaderRow): RankCursor {
    RankCursor(if r.member.rank.Some? then r.member.rank.value else 0, r.playerId)
  }

  /** The query's cursor condition as written: `rank > c.rank`, or
      `rank = c.rank` and a larger player id. A null rank satisfies neither
      comparison in SQL. */
  predicate AfterCursorAsWritten(r: LeaderRow, c: RankCursor) {
    r.member.rank.Some? &&
    (r.member.rank.value > c.rank || (r.member.rank.value == c.rank && r.playerId > c.playerId))
  }

  function MatchesAsWritten(rows: seq<LeaderRow>, c: Option<RankCursor>): (r: seq<LeaderRow>)
    ensures c.Some? ==> forall i :: 0 <= i < |r| ==> r[i].member.rank.Some?
  {
    if c.None? then rows else Filter(AfterCursorTestAsWritten(c.value), rows)
  }

  function AfterCursorTestAsWritten(c: RankCursor): LeaderRow -> bool {
    (r: LeaderRow) => AfterCursorAsWritten(r, c)
  }

  /** Two unranked members and a limit of 1: the first page serves member 1
      and hands out cursor `(0, 1)`; under the written condition that cursor
      matches nothing, so member 2 is never served. */
  lemma NullRankSkippedAsWritten()
    ensures var unranked := ClubMember(None, "A", None, None, None);
      var rows := [LeaderRow(1, unranked), LeaderRow(2, unranked)];
      var first := PageOf(Take(MatchesAsWritten(rows, None), 2), 1);
      first.Success? && first.value.items == [rows[0]] && first.value.hasMore &&
      CursorOfAsWritten(first.value.last.value) == RankCursor(0, 1) &&
      MatchesAsWritten(rows, Some(RankCursor(0, 1))) == []
  {
    var unranked := ClubMember(None, "A", None, None, None);
    var rows := [LeaderRow(1, unranked), LeaderRow(2, unranked)];
    assert rows[1..][1..] == [];
  }

  /** A ranked member followed, in the database's order, by an unranked one,
      with a limit of 1: the cursor `(1, 1)` of the first page matches
      nothing, so the unranked member is never served either. */
  lemma UnrankedAfterRankedSkippedAsWritten()
    ensures var rows := [LeaderRow(1, ClubMember(Some(1), "A", None, None, None)), LeaderRow(2, ClubMember(None, "B", None, None, None))];
      StrictlyAscending(rows, LeaderKey) &&
      CursorOfAsWritten(rows[0]) == RankCursor(1, 1) &&
      MatchesAsWritten(rows, Some(RankCursor(1, 1))) == []
  {
    var rows := [LeaderRow(1, ClubMember(Some(1), "A", None, None, None)), LeaderRow(2, ClubMember(None, "B", None, None, None))];
    assert rows[1..][1..] == [];
  }

  // ------------------------------------------------------ corrected pagination

  /** The cursor as the endpoint evidently means it: the last row's rank,
      null when the row has none, and its player id. */
  datatype LeaderCursor = LeaderCursor(rank: Option<int>, playerId: int)

  function CursorOf(r: LeaderRow): (c: LeaderCursor)
    ensures CursorKey(c) == LeaderKey(r)
  {
    LeaderCursor(r.member.rank, r.playerId)
  }

  function CursorKey(c: LeaderCursor): SortKey {
    RankIdKey(c.rank, c.playerId)
  }

  /** The corrected cursor condition in the query's terms: after a ranked
      cursor come a higher rank, the same rank with a larger id, and every
      unranked member; after an unranked cursor only unranked members with
      a larger id. */
  predicate AfterCursor(r: LeaderRow, c: LeaderCursor) {
    match c.rank
    case Some(k) =>
      r.member.rank.None? || r.member.rank.value > k || (r.member.rank.value == k && r.playerId > c.playerId)
    case None =>
      r.member.rank.None? && r.playerId > c.playerId
  }

  /** The corrected condition is "after the cursor" in the query's order,
      so the generic keyset reasoning applies. */
  lemma AfterCursorIsAfter(r: LeaderRow, c: LeaderCursor)
    ensures AfterCursor(r, c) <==> LexLess(CursorKey(c), LeaderKey(r))
  {
  }

  /** The corrected condition agrees with the written one whenever both the
      row and the cursor carry a rank. */
  lemma AfterCursorAgrees(r: LeaderRow, c: LeaderCursor)
    requires r.member.rank.Some? && c.rank.Some?
    ensures AfterCursor(r, c) <==> AfterCursorAsWritten(r, RankCursor(c.rank.value, c.playerId))
  {
  }

  /** The rows after a cursor, in the query's order. */
  function LeaderboardMatches(rows: seq<LeaderRow>, c: Option<LeaderCursor>): seq<LeaderRow> {
    Remaining(rows, LeaderKey, if c.None? then None else Some(CursorKey(c.value)))
  }

  /** With the corrected cursor both unranked members are served, and so is
      the unranked member after a ranked one. */
  lemma NullRankServed()
    ensures var unranked := ClubMember(None, "A", None, None, None);
      var rows := [LeaderRow(1, unranked), LeaderRow(2, unranked)];
      CursorOf(rows[0]) == LeaderCursor(None, 1) &&
      LeaderboardMatches(rows, Some(CursorOf(rows[0]))) == [rows[1]]
    ensures var rows := [LeaderRow(1, ClubMember(Some(1), "A", None, None, None)), LeaderRow(2, ClubMember(None, "B", None, None, None))];
      LeaderboardMatches(rows, Some(CursorOf(rows[0]))) == [rows[1]]
  {
    var unranked := ClubMember(None, "A", None, None, None);
    var rows := [LeaderRow(1, unranked), LeaderRow(2, unranked)];
    assert rows[1..][1..] == [];
    var rows2 := [LeaderRow(1, ClubMember(Some(1), "A", None, None, None)), LeaderRow(2, ClubMember(None, "B", None, None, None))];
    assert rows2[1..][1..] == [];
  }

  datatype LeaderboardPage = LeaderboardPage(items: seq<LeaderRow>, nextCursor: Option<LeaderCursor>, hasMore: bool)

  /** `getLeaderboard(clubId, limit, cursor)` over the club's ClubMember rows
      `rows` in the query's order: at most the clamped limit of the rows after
      the cursor, whether more exist, and the last row's cursor when they do.
      The only failure left is a fractional limit. */
  function GetLeaderboard(rows: seq<LeaderRow>, limit: Option<string>, cursor: Option<string>, decode: string -> Option<LeaderCursor>): (r: Result<LeaderboardPage, PageError>)
    ensures r.Failure? <==> SafeLimit(NumberValue(limit.GetOr("50"))).Failure?
    ensures r.Success? ==> |r.value.items| <= SafeLimit(NumberValue(limit.GetOr("50"))).value <= MaxLimit
    ensures r.Success? ==> var matching := LeaderboardMatches(rows, DecodeRankCursor(cursor, decode));
      (r.value.hasMore <==> |matching| > SafeLimit(NumberValue(limit.GetOr("50"))).value) && r.value.items <= matching
    ensures r.Success? && r.value.hasMore ==> |r.value.items| == SafeLimit(NumberValue(limit.GetOr("50"))).value
    ensures r.Success? ==> (r.value.nextCursor.Some? <==> r.value.hasMore)
    ensures r.Success? && r.value.hasMore ==>
      |r.value.items| > 0 && r.value.nextCursor == Some(CursorOf(r.value.items[|r.value.items| - 1]))
  {
    var safeLimit :- SafeLimit(NumberValue(limit.GetOr("50")));
    var matching := LeaderboardMatches(rows, DecodeRankCursor(cursor, decode));
    LookAheadPage(matching, safeLimit);
    var page := PageOf(Take(matching, safeLimit + 1), safeLimit).value;
    Success(LeaderboardPage(page.items, if page.hasMore then Some(CursorOf(page.last.value)) else None, page.hasMore))
  }

  /** Paging through the leaderboard in the query's order skips nothing and
      repeats nothing, unranked members included: the next cursor matches
      exactly the rows this one matched, minus the page. */
  lemma LeaderboardPagesChain(rows: seq<LeaderRow>, limit: Option<string>, cursor: Option<LeaderCursor>, decode: string -> Option<LeaderCursor>, text: string)
    requires StrictlyAscending(rows, LeaderKey)
    requires text != "" && decode(text) == cursor
    requires GetLeaderboard(rows, limit, Some(text), decode).Success?
    requires GetLeaderboard(rows, limit, Some(text), decode).value.hasMore
    ensures var page := GetLeaderboard(rows, limit, Some(text), decode).value;
      LeaderboardMatches(rows, cursor) == page.items + LeaderboardMatches(rows, page.nextCursor)
  {
    var n := SafeLimit(NumberValue(limit.GetOr("50"))).value;
    var matching := LeaderboardMatches(rows, cursor);
    assert DecodeRankCursor(Some(text), decode) == cursor;
    var page := GetLeaderboard(rows, limit, Some(text), decode).value;
    LastOfFullPage(matching, page.items, n);
    NextCursorServesRest(rows, cursor, n, page.nextCursor);
    PageSplits(matching, page.items, n);
  }

  lemma NextCursorServesRest(rows: seq<LeaderRow>, cursor: Option<LeaderCursor>, n: int, next: Option<LeaderCursor>)
    requires StrictlyAscending(rows, LeaderKey) && n >= 1
    requires |LeaderboardMatches(rows, cursor)| > n
    requires next == Some(CursorOf(LeaderboardMatches(rows, cursor)[n - 1]))
    ensures LeaderboardMatches(rows, next) == LeaderboardMatches(rows, cursor)[n..]
  {
    var matching := LeaderboardMatches(rows, cursor);
    assert CursorKey(next.value) == LeaderKey(matching[n - 1]);
    NextPageContinues(rows, LeaderKey, if cursor.None? then None else Some(CursorKey(cursor.value)), n);
  }
}
