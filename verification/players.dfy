/** The player read model (backend/src/services/players.service.ts): the
    confidence bucket of a rating deviation, the overview aggregates over the
    player's PlayerHistory and EventMatch rows, and the paginated history. */
module Players {
  import opened Wrappers
  import opened Parse
  import opened Seqs
  import opened Store
  import opened Aggregates
  import opened Range
  import opened Paging
  import Insights

  datatype Confidence = Unknown | High | Medium | Low

  /** `confidenceBucket(stdev)`: no deviation is unknown; up to 60 is high,
      up to 130 medium, anything wider low. */
  function ConfidenceBucket(stdev: Option<int>): (c: Confidence)
    ensures c == Unknown <==> stdev.None?
    ensures c == High <==> stdev.Some? && stdev.value <= 60
    ensures c == Medium <==> stdev.Some? && 60 < stdev.value <= 130
    ensures c == Low <==> stdev.Some? && 130 < stdev.value
  {
    match stdev
    case None => Unknown
    case Some(d) => if d <= 60 then High else if d <= 130 then Medium else Low
  }

  /** How much a bucket trusts the rating; unknown trusts nothing. */
  function Trust(c: Confidence): nat {
    match c
    case Unknown => 0
    case Low => 1
    case Medium => 2
    case High => 3
  }

  /** A wider deviation never yields a more confident bucket. */
  lemma ConfidenceMonotone(narrow: int, wide: int)
    requires narrow <= wide
    ensures Trust(ConfidenceBucket(Some(wide))) <= Trust(ConfidenceBucket(Some(narrow)))
    ensures ConfidenceBucket(Some(wide)) != Unknown
  {
  }

  const MomentumEvents: nat := 5
  const RecentEventCount: nat := 7

  /** A PlayerHistory row of the player together with its event id. */
  datatype HistoryRow = HistoryRow(eventId: int, row: History)

  /** `rows` lists exactly the player's stored PlayerHistory rows, each once. */
  ghost predicate Lists(s: Store, playerId: int, rows: seq<HistoryRow>) {
    (forall i :: 0 <= i < |rows| ==>
      (playerId, rows[i].eventId) in s.history && s.history[(playerId, rows[i].eventId)] == rows[i].row) &&
    (forall e :: (playerId, e) in s.history ==> exists i :: 0 <= i < |rows| && rows[i].eventId == e) &&
    DistinctEvents(rows)
  }

  ghost predicate DistinctEvents(rows: seq<HistoryRow>) {
    forall i, j :: 0 <= i < j < |rows| ==> rows[i].eventId != rows[j].eventId
  }

  /** The `orderBy: { eventDate: 'desc' }` order. */
  ghost predicate NewestFirst(rows: seq<HistoryRow>) {
    forall i, j :: 0 <= i < j < |rows| ==> rows[i].row.eventDate >= rows[j].row.eventDate
  }

  /** The rows of the selected window (`eventDate >= start`), in listing order. */
  function InWindow(rows: seq<HistoryRow>, start: Option<Date>): (r: seq<HistoryRow>)
    ensures forall i :: 0 <= i < |r| ==> InRange(r[i].row.eventDate, start)
  {
    Filter(InWindowTest(start), rows)
  }

  function InWindowTest(start: Option<Date>): HistoryRow -> bool {
    (h: HistoryRow) => InRange(h.row.eventDate, start)
  }

  /** The window keeps exactly the listed rows dated in range. */
  lemma InWindowExactly(rows: seq<HistoryRow>, start: Option<Date>, h: HistoryRow)
    ensures h in InWindow(rows, start) <==> h in rows && InRange(h.row.eventDate, start)
  {
    var window := InWindow(rows, start);
    if h in window {
      var i :| 0 <= i < |window| && window[i] == h;
      assert InWindowTest(start)(window[i]);
    }
    if h in rows && InRange(h.row.eventDate, start) {
      var i :| 0 <= i < |rows| && rows[i] == h;
      assert InWindowTest(start)(rows[i]);
    }
  }

  // ---------------------------------------------------------------- streak

  /** A row counts towards a winning streak when the rating did not drop. */
  function DirectionOf(h: HistoryRow): Insights.Outcome {
    if h.row.pointChange >= 0 then Insights.W else Insights.L
  }

  /** How many rows from the front share direction `d`. */
  function RunLength(rows: seq<HistoryRow>, d: Insights.Outcome): (n: nat)
    ensures n <= |rows|
    ensures forall i :: 0 <= i < n ==> DirectionOf(rows[i]) == d
    ensures n < |rows| ==> DirectionOf(rows[n]) != d
  {
    if |rows| == 0 || DirectionOf(rows[0]) != d then 0
    else
      var n := RunLength(rows[1..], d);
      assert forall i :: 1 <= i < n + 1 ==> rows[i] == rows[1..][i - 1];
      1 + n
  }

  datatype Streak = Streak(direction: Insights.Outcome, count: nat)

  /** The current streak over newest-first rows: the direction of the newest
      row and how many rows in a row share it; none without rows. */
  function CurrentStreak(rows: seq<HistoryRow>): (r: Option<Streak>)
    ensures r.None? <==> |rows| == 0
    ensures r.Some? ==> r.value.direction == DirectionOf(rows[0])
    ensures r.Some? ==> 1 <= r.value.count <= |rows|
    ensures r.Some? ==> forall i :: 0 <= i < r.value.count ==> DirectionOf(rows[i]) == r.value.direction
    ensures r.Some? && r.value.count < |rows| ==> DirectionOf(rows[r.value.count]) != r.value.direction
  {
    if |rows| == 0 then None
    else
      var d := DirectionOf(rows[0]);
      var n := RunLength(rows, d);
      if n > 0 then Some(Streak(d, n)) else None
  }

  /** An older row in the same direction as the whole streak lengthens it by
      one; an older row in the other direction changes nothing. */
  lemma StreakExtends(rows: seq<HistoryRow>, older: HistoryRow)
    requires CurrentStreak(rows).Some? && CurrentStreak(rows).value.count == |rows|
    ensures DirectionOf(older) == CurrentStreak(rows).value.direction ==>
      CurrentStreak(rows + [older]).value.count == |rows| + 1
    ensures DirectionOf(older) != CurrentStreak(rows).value.direction ==>
      CurrentStreak(rows + [older]) == CurrentStreak(rows)
  {
    var d := CurrentStreak(rows).value.direction;
    var longer := rows + [older];
    assert longer[0] == rows[0] && longer[|rows|] == older;
    assert forall i :: 0 <= i < |rows| ==> DirectionOf(longer[i]) == d by {
      assert forall i :: 0 <= i < |rows| ==> longer[i] == rows[i];
    }
  }

  // ------------------------------------------------------ momentum, trend

  function PointChanges(rows: seq<HistoryRow>): (pcs: seq<int>)
    ensures |pcs| == |rows|
    ensures forall i :: 0 <= i < |rows| ==> pcs[i] == rows[i].row.pointChange
  {
    seq(|rows|, i requires 0 <= i < |rows| => rows[i].row.pointChange)
  }

  /** The summed rating change over the newest `MomentumEvents` rows. */
  function Momentum(rows: seq<HistoryRow>): int {
    Sum(PointChanges(rows[..Min(MomentumEvents, |rows|)]))
  }

  /** With at most five rows, momentum is the whole change. */
  lemma MomentumOfFew(rows: seq<HistoryRow>)
    requires |rows| <= MomentumEvents
    ensures Momentum(rows) == Sum(PointChanges(rows))
  {
    assert rows[..|rows|] == rows;
  }

  /** Older rows beyond the newest five do not move the momentum. */
  lemma MomentumIgnoresOlder(rows: seq<HistoryRow>, older: seq<HistoryRow>)
    requires |rows| >= MomentumEvents
    ensures Momentum(rows + older) == Momentum(rows)
  {
    assert (rows + older)[..MomentumEvents] == rows[..MomentumEvents];
  }

  /** Momentum is bounded by the number of rows it sums (at most five)
      times the largest single change. */
  lemma MomentumBounds(rows: seq<HistoryRow>, bound: int)
    requires forall i :: 0 <= i < |rows| ==> -bound <= rows[i].row.pointChange <= bound
    ensures -(Min(MomentumEvents, |rows|) * bound) <= Momentum(rows) <= Min(MomentumEvents, |rows|) * bound
  {
    var front := rows[..Min(MomentumEvents, |rows|)];
    assert forall i :: 0 <= i < |front| ==> front[i] == rows[i];
    SumBounds(PointChanges(front), -bound, bound);
  }

  datatype TrendPoint = TrendPoint(date: Date, mean: int, stdev: int)

  function PointOf(h: HistoryRow): TrendPoint {
    TrendPoint(h.row.eventDate, h.row.finalMean, h.row.finalStDev)
  }

  /** The chart points: the window rows reversed, oldest first. */
  function Trend(rows: seq<HistoryRow>): (t: seq<TrendPoint>)
    ensures |t| == |rows|
    ensures forall i :: 0 <= i < |rows| ==> t[i] == PointOf(rows[|rows| - 1 - i])
  {
    seq(|rows|, i requires 0 <= i < |rows| => PointOf(rows[|rows| - 1 - i]))
  }

  /** Newest-first rows give a chart in ascending date order. */
  lemma TrendAscending(rows: seq<HistoryRow>)
    requires NewestFirst(rows)
    ensures forall i, j :: 0 <= i < j < |Trend(rows)| ==> Trend(rows)[i].date <= Trend(rows)[j].date
  {
  }

  /** The deviation change across the window: newest minus oldest final
      deviation, needing at least two rows. */
  function StdevChange(rows: seq<HistoryRow>): (r: Option<int>)
    ensures r.None? <==> |rows| < 2
  {
    if |rows| >= 2 then Some(rows[0].row.finalStDev - rows[|rows| - 1].row.finalStDev) else None
  }

  /** The deviation change is read off the chart as its last point minus its
      first. */
  lemma StdevChangeAlongTrend(rows: seq<HistoryRow>)
    requires |rows| >= 2
    ensures StdevChange(rows) == Some(Trend(rows)[|rows| - 1].stdev - Trend(rows)[0].stdev)
  {
  }

  datatype RecentEvent = RecentEvent(
    eventId: int,
    eventDate: Date,
    eventName: string,
    pointChange: int,
    finalMean: int,
    finalStDev: int)

  function RecentOf(h: HistoryRow): RecentEvent {
    RecentEvent(h.eventId, h.row.eventDate, h.row.eventName, h.row.pointChange, h.row.finalMean, h.row.finalStDev)
  }

  /** The first `RecentEventCount` window rows. */
  function RecentEvents(rows: seq<HistoryRow>): (r: seq<RecentEvent>)
    ensures |r| == Min(RecentEventCount, |rows|)
    ensures forall i :: 0 <= i < |r| ==> r[i] == RecentOf(rows[i])
  {
    var n := Min(RecentEventCount, |rows|);
    seq(n, i requires 0 <= i < n => RecentOf(rows[i]))
  }

  /** Over newest-first rows the recent events are the newest ones: none of
      the rows left out is newer than any reported. */
  lemma RecentAreNewest(rows: seq<HistoryRow>)
    requires NewestFirst(rows)
    ensures forall i, j :: 0 <= i < |RecentEvents(rows)| <= j < |rows| ==>
      rows[j].row.eventDate <= RecentEvents(rows)[i].eventDate
  {
  }

  // ------------------------------------------------------------ match stats

  /** An EventMatch row of the player tagged with its event. */
  datatype PlayerMatch = PlayerMatch(eventId: int, row: EventMatch)

  function Tagged(eventId: int, ms: seq<EventMatch>): (r: seq<PlayerMatch>)
    ensures |r| == |ms|
    ensures forall k :: 0 <= k < |ms| ==> r[k] == PlayerMatch(eventId, ms[k])
  {
    seq(|ms|, k requires 0 <= k < |ms| => PlayerMatch(eventId, ms[k]))
  }

  /** The player's EventMatch rows for the window's events (the database
      returns them without an order; they are taken event by event, in
      window order, each event's rows in stored order). */
  function WindowMatches(s: Store, playerId: int, rows: seq<HistoryRow>): (r: seq<PlayerMatch>)
    ensures forall k :: 0 <= k < |r| ==> r[k].row in MatchesOf(s, r[k].eventId, playerId)
    ensures forall k :: 0 <= k < |r| ==> exists i :: 0 <= i < |rows| && rows[i].eventId == r[k].eventId
    ensures |rows| == 0 ==> r == []
    ensures forall i, k :: 0 <= i < |rows| && 0 <= k < |MatchesOf(s, rows[i].eventId, playerId)| ==>
      PlayerMatch(rows[i].eventId, MatchesOf(s, rows[i].eventId, playerId)[k]) in r
  {
    if |rows| == 0 then []
    else
      var n := |rows| - 1;
      var front := WindowMatches(s, playerId, rows[..n]);
      var last := Tagged(rows[n].eventId, MatchesOf(s, rows[n].eventId, playerId));
      assert forall i :: 0 <= i < n ==> rows[..n][i] == rows[i];
      assert forall k :: 0 <= k < |last| ==> last[k] in front + last by {
        forall k | 0 <= k < |last|
          ensures last[k] in front + last
        {
          assert (front + last)[|front| + k] == last[k];
        }
      }
      front + last
  }

  /** The window's matches are built event by event: one more window row
      appends exactly that event's stored matches, in stored order. */
  lemma WindowMatchesAppend(s: Store, playerId: int, rows: seq<HistoryRow>, h: HistoryRow)
    ensures WindowMatches(s, playerId, rows + [h]) ==
      WindowMatches(s, playerId, rows) + Tagged(h.eventId, MatchesOf(s, h.eventId, playerId))
  {
    assert (rows + [h])[..|rows|] == rows;
  }

  /** JavaScript's `new Map(rows.map(r => [r.eventId, r.initialMean]))`
      read at `eventId`: the last row for the event wins. */
  function RatingFor(rows: seq<HistoryRow>, eventId: int): (r: Option<int>)
    ensures r.None? <==> forall i :: 0 <= i < |rows| ==> rows[i].eventId != eventId
    ensures r.Some? ==> exists i :: (0 <= i < |rows| && rows[i].eventId == eventId && rows[i].row.initialMean == r.value &&
      forall j :: i < j < |rows| ==> rows[j].eventId != eventId)
  {
    if |rows| == 0 then None
    else
      var n := |rows| - 1;
      if rows[n].eventId == eventId then Some(rows[n].row.initialMean)
      else
        var r := RatingFor(rows[..n], eventId);
        assert forall i :: 0 <= i < n ==> rows[..n][i] == rows[i];
        r
  }

  predicate WonBy(m: PlayerMatch, playerId: int) {
    m.row.winnerId == playerId
  }

  predicate LostBy(m: PlayerMatch, playerId: int) {
    m.row.loserId == playerId
  }

  /** A win against an opponent rated above the player's own rating going
      into that event. */
  predicate IsUpset(m: PlayerMatch, rows: seq<HistoryRow>, playerId: int) {
    WonBy(m, playerId) && RatingFor(rows, m.eventId).Some? && m.row.winnerOppMean > RatingFor(rows, m.eventId).value
  }

  function UpsetTest(rows: seq<HistoryRow>, playerId: int): PlayerMatch -> bool {
    (m: PlayerMatch) => IsUpset(m, rows, playerId)
  }

  function LossTest(playerId: int): PlayerMatch -> bool {
    (m: PlayerMatch) => LostBy(m, playerId)
  }

  function WinTest(playerId: int): PlayerMatch -> bool {
    (m: PlayerMatch) => WonBy(m, playerId)
  }

  function WinnerOppMean(m: PlayerMatch): int {
    m.row.winnerOppMean
  }

  function LoserOppMean(m: PlayerMatch): int {
    m.row.loserOppMean
  }

  function Upsets(matches: seq<PlayerMatch>, rows: seq<HistoryRow>, playerId: int): seq<PlayerMatch> {
    Filter(UpsetTest(rows, playerId), matches)
  }

  /** With one history row per event, the upsets are exactly the wins over
      an opponent rated above the player's initial rating for that event. */
  lemma UpsetsExactly(matches: seq<PlayerMatch>, rows: seq<HistoryRow>, playerId: int, m: PlayerMatch)
    requires DistinctEvents(rows)
    ensures m in Upsets(matches, rows, playerId) <==>
      m in matches && m.row.winnerId == playerId &&
      exists i :: 0 <= i < |rows| && rows[i].eventId == m.eventId && m.row.winnerOppMean > rows[i].row.initialMean
  {
    var rating := RatingFor(rows, m.eventId);
    if m in matches && m.row.winnerId == playerId {
      if i :| 0 <= i < |rows| && rows[i].eventId == m.eventId && m.row.winnerOppMean > rows[i].row.initialMean {
        var k :| 0 <= k < |rows| && rows[k].eventId == m.eventId && rows[k].row.initialMean == rating.value &&
          forall j :: k < j < |rows| ==> rows[j].eventId != m.eventId;
        assert k == i;
      }
    }
  }

  datatype MatchRef = MatchRef(opponentName: Option<string>, opponentRating: int, eventId: int)
  datatype WinRate = WinRate(wins: nat, losses: nat, total: nat)

  /** The best upset: the upset with the highest opponent rating, the first
      such on a tie (a `reduce` that replaces only on a strictly higher one). */
  function BestUpset(matches: seq<PlayerMatch>, rows: seq<HistoryRow>, playerId: int): (r: Option<MatchRef>)
    ensures r.None? <==> forall k :: 0 <= k < |matches| ==> !IsUpset(matches[k], rows, playerId)
    ensures r.Some? ==> exists k :: (IsFirstMax(matches, UpsetTest(rows, playerId), WinnerOppMean, k) &&
      r.value == MatchRef(matches[k].row.opponentName, matches[k].row.winnerOppMean, matches[k].eventId))
  {
    var best := FirstMaxBy(matches, UpsetTest(rows, playerId), WinnerOppMean);
    if best.None? then None
    else
      var m := matches[best.value];
      Some(MatchRef(m.row.opponentName, m.row.winnerOppMean, m.eventId))
  }

  /** The toughest loss: the loss to the lowest-rated opponent, the first
      such on a tie. */
  function ToughestLoss(matches: seq<PlayerMatch>, playerId: int): (r: Option<MatchRef>)
    ensures r.None? <==> forall k :: 0 <= k < |matches| ==> !LostBy(matches[k], playerId)
    ensures r.Some? ==> exists k :: (IsFirstMin(matches, LossTest(playerId), LoserOppMean, k) &&
      r.value == MatchRef(matches[k].row.opponentName, matches[k].row.loserOppMean, matches[k].eventId))
  {
    var worst := FirstMinBy(matches, LossTest(playerId), LoserOppMean);
    if worst.None? then None
    else
      var m := matches[worst.value];
      Some(MatchRef(m.row.opponentName, m.row.loserOppMean, m.eventId))
  }

  /** The win/loss tally; none without matches. */
  function WinRateOf(matches: seq<PlayerMatch>, playerId: int): (r: Option<WinRate>)
    ensures r.None? <==> |matches| == 0
    ensures r.Some? ==> r.value.total == |matches| && r.value.wins <= |matches| && r.value.losses <= |matches|
  {
    if |matches| == 0 then None
    else
      Some(WinRate(
        |Filter(WinTest(playerId), matches)|,
        |Filter(LossTest(playerId), matches)|,
        |matches|))
  }

  /** When every match has the player on exactly one side, wins and losses
      add up to the total. */
  lemma WinRateAddsUp(matches: seq<PlayerMatch>, playerId: int)
    requires |matches| > 0
    requires forall k :: 0 <= k < |matches| ==> (WonBy(matches[k], playerId) <==> !LostBy(matches[k], playerId))
    ensures WinRateOf(matches, playerId).value.wins + WinRateOf(matches, playerId).value.losses == |matches|
  {
    FilterPartitionOn(WinTest(playerId), LossTest(playerId), matches);
  }

  /** `FilterPartition` for tests that are complementary on the elements. */
  lemma {:induction false} FilterPartitionOn<T>(keep: T -> bool, drop: T -> bool, xs: seq<T>)
    requires forall x :: x in xs ==> drop(x) == !keep(x)
    ensures |Filter(keep, xs)| + |Filter(drop, xs)| == |xs|
  {
    if |xs| > 0 {
      FilterPartitionOn(keep, drop, xs[1..]);
    }
  }

  // --------------------------------------------------------------- overview

  datatype Current = Current(
    mean: int,
    stdev: int,
    lastChange: int,
    lastEventId: int,
    lastEventName: string,
    lastEventDate: Date,
    confidence: Confidence)

  datatype OverviewInsights = OverviewInsights(
    momentumLast5: int,
    stdevChange: Option<int>,
    eventsPlayed: nat,
    winRate: Option<WinRate>,
    upsetCount: nat,
    bestUpset: Option<MatchRef>,
    toughestLoss: Option<MatchRef>,
    currentStreak: Option<Streak>)

  datatype Overview = Overview(
    playerId: int,
    displayName: string,
    current: Option<Current>,
    lastPlayedDate: Option<Date>,
    insights: OverviewInsights,
    trend: seq<TrendPoint>,
    recentEvents: seq<RecentEvent>,
    syncStatus: SyncStatus,
    lastSyncedAt: Option<Date>,
    syncError: Option<string>)

  function InsightsOf(s: Store, playerId: int, window: seq<HistoryRow>): (r: OverviewInsights)
    ensures r.eventsPlayed == |window|
    ensures r.currentStreak == CurrentStreak(window)
    ensures r.upsetCount == |Upsets(WindowMatches(s, playerId, window), window, playerId)|
    ensures r.momentumLast5 == Momentum(window) && r.stdevChange == StdevChange(window)
    ensures r.winRate == WinRateOf(WindowMatches(s, playerId, window), playerId)
    ensures r.bestUpset == BestUpset(WindowMatches(s, playerId, window), window, playerId)
    ensures r.toughestLoss == ToughestLoss(WindowMatches(s, playerId, window), playerId)
  {
    var matches := WindowMatches(s, playerId, window);
    OverviewInsights(
      Momentum(window),
      StdevChange(window),
      |window|,
      WinRateOf(matches, playerId),
      |Upsets(matches, window, playerId)|,
      BestUpset(matches, window, playerId),
      ToughestLoss(matches, playerId),
      CurrentStreak(window))
  }

  /** `getOverview(playerId, range)` over the player's history `rows` as the
      database lists them newest first: nothing for an unknown player; the
      current rating from the newest row; the aggregates over the rows in the
      window starting at `start`. */
  function GetOverview(s: Store, playerId: int, rows: seq<HistoryRow>, start: Option<Date>): (r: Option<Overview>)
    ensures r.None? <==> playerId !in s.players
    ensures r.Some? ==> r.value.displayName == s.players[playerId].displayName
    ensures r.Some? ==> (r.value.current.None? <==> |rows| == 0) && (r.value.lastPlayedDate.None? <==> |rows| == 0)
    ensures r.Some? && |rows| > 0 ==>
      r.value.current.value.mean == rows[0].row.finalMean &&
      r.value.current.value.confidence == ConfidenceBucket(Some(rows[0].row.finalStDev)) &&
      r.value.lastPlayedDate == Some(rows[0].row.eventDate)
    ensures r.Some? ==> r.value.insights == InsightsOf(s, playerId, InWindow(rows, start))
    ensures r.Some? ==> r.value.trend == Trend(InWindow(rows, start)) && r.value.recentEvents == RecentEvents(InWindow(rows, start))
  {
    if playerId !in s.players then None
    else
      var player := s.players[playerId];
      var window := InWindow(rows, start);
      var current :=
        if |rows| == 0 then None
        else
          var h := rows[0];
          Some(Current(h.row.finalMean, h.row.finalStDev, h.row.pointChange, h.eventId, h.row.eventName,
            h.row.eventDate, ConfidenceBucket(Some(h.row.finalStDev))));
      Some(Overview(
        playerId,
        player.displayName,
        current,
        if |rows| == 0 then None else Some(rows[0].row.eventDate),
        InsightsOf(s, playerId, window),
        Trend(window),
        RecentEvents(window),
        player.syncStatus,
        player.lastSyncedAt,
        player.syncError))
  }

  /** Over a listing of the player's rows, the events counted are exactly the
      player's stored rows dated inside the window. */
  lemma EventsPlayedCountsWindow(s: Store, playerId: int, rows: seq<HistoryRow>, start: Option<Date>, e: int)
    requires Lists(s, playerId, rows) && playerId in s.players
    ensures (exists i :: 0 <= i < |InWindow(rows, start)| && InWindow(rows, start)[i].eventId == e) <==>
      (playerId, e) in s.history && InRange(s.history[(playerId, e)].eventDate, start)
  {
    var window := InWindow(rows, start);
    if (playerId, e) in s.history && InRange(s.history[(playerId, e)].eventDate, start) {
      var i :| 0 <= i < |rows| && rows[i].eventId == e;
      assert rows[i] in window;
      var k :| 0 <= k < |window| && window[k] == rows[i];
    }
  }

  // ---------------------------------------------------------------- history

  datatype HistoryCursor = HistoryCursor(eventDate: Date, eventId: int)

  /** The cursor condition of the query: an earlier date, or the same date
      and a smaller event id. */
  predicate BeforeCursor(h: HistoryRow, c: HistoryCursor) {
    h.row.eventDate < c.eventDate || (h.row.eventDate == c.eventDate && h.eventId < c.eventId)
  }

  /** `orderBy: [{ eventDate: 'desc' }, { eventId: 'desc' }]` as an
      ascending key; neither column is ever null. */
  function HistoryKey(h: HistoryRow): SortKey {
    (0, -h.row.eventDate, -h.eventId)
  }

  function CursorKey(c: HistoryCursor): SortKey {
    (0, -c.eventDate, -c.eventId)
  }

  function CursorOf(h: HistoryRow): (c: HistoryCursor)
    ensures CursorKey(c) == HistoryKey(h)
  {
    HistoryCursor(h.row.eventDate, h.eventId)
  }

  /** The query's cursor condition is "after the cursor" in the listing
      order, so the generic keyset reasoning applies. */
  lemma BeforeCursorIsAfter(h: HistoryRow, c: HistoryCursor)
    ensures BeforeCursor(h, c) <==> LexLess(CursorKey(c), HistoryKey(h))
  {
  }

  function OptionalKey(c: Option<HistoryCursor>): Option<SortKey> {
    if c.None? then None else Some(CursorKey(c.value))
  }

  /** The rows the history query matches, in its order. */
  function HistoryMatches(rows: seq<HistoryRow>, start: Option<Date>, cursor: Option<HistoryCursor>): seq<HistoryRow> {
    Remaining(InWindow(rows, start), HistoryKey, OptionalKey(cursor))
  }

  datatype HistoryPage = HistoryPage(items: seq<HistoryRow>, nextCursor: Option<HistoryCursor>, hasMore: bool)

  /** Every row the history query matches lies in the window and, with a
      cursor, strictly before it. */
  lemma HistoryMatchesQuery(rows: seq<HistoryRow>, start: Option<Date>, cursor: Option<HistoryCursor>)
    ensures forall h :: h in HistoryMatches(rows, start, cursor) ==> InRange(h.row.eventDate, start)
    ensures cursor.Some? ==> forall h :: h in HistoryMatches(rows, start, cursor) ==> BeforeCursor(h, cursor.value)
  {
    if cursor.Some? {
      var window := InWindow(rows, start);
      var c := CursorKey(cursor.value);
      var matching := After(window, HistoryKey, c);
      AfterWithin(window, HistoryKey, c);
      forall h | h in matching
        ensures InRange(h.row.eventDate, start) && BeforeCursor(h, cursor.value)
      {
        var i :| 0 <= i < |matching| && matching[i] == h;
        BeforeCursorIsAfter(h, cursor.value);
      }
    }
  }

  /** `getHistory(playerId, range, limit, cursor)`: at most `limit` of the
      matching rows, from the front, whether more exist, and the cursor of
      the last row returned when they do. */
  function GetHistory(rows: seq<HistoryRow>, start: Option<Date>, limit: int, cursor: Option<HistoryCursor>): (r: Result<HistoryPage, PageError>)
    ensures limit >= 1 ==> r.Success?
    ensures r.Success? ==> (r.value.hasMore <==> |HistoryMatches(rows, start, cursor)| > limit)
    ensures r.Success? ==> r.value.items <= HistoryMatches(rows, start, cursor)
    ensures r.Success? && limit >= 0 ==> |r.value.items| <= limit
    ensures r.Success? && r.value.hasMore && limit >= 0 ==> |r.value.items| == limit
    ensures r.Success? ==> (r.value.nextCursor.Some? <==> r.value.hasMore)
    ensures r.Success? && r.value.hasMore ==>
      |r.value.items| > 0 && r.value.nextCursor == Some(CursorOf(r.value.items[|r.value.items| - 1]))
  {
    var matching := HistoryMatches(rows, start, cursor);
    var fetched := Take(matching, limit + 1);
    var page :- PageOf(fetched, limit);
    assert limit >= 0 ==> fetched <= matching;
    Success(HistoryPage(page.items, if page.hasMore then Some(CursorOf(page.last.value)) else None, page.hasMore))
  }

  /** Paging through the history skips nothing and repeats nothing: after a
      page that says there are more, the next cursor matches exactly the rows
      this cursor matched, minus the page. */
  lemma HistoryPagesChain(rows: seq<HistoryRow>, start: Option<Date>, limit: int, cursor: Option<HistoryCursor>)
    requires StrictlyAscending(rows, HistoryKey) && limit >= 1
    requires GetHistory(rows, start, limit, cursor).value.hasMore
    ensures var page := GetHistory(rows, start, limit, cursor).value;
      HistoryMatches(rows, start, cursor) == page.items + HistoryMatches(rows, start, page.nextCursor)
  {
    var matching := HistoryMatches(rows, start, cursor);
    var page := GetHistory(rows, start, limit, cursor).value;
    LastOfFullPage(matching, page.items, limit);
    NextHistoryCursorServesRest(rows, start, cursor, limit, page.nextCursor);
    PageSplits(matching, page.items, limit);
  }

  /** The cursor of the n-th matching row selects exactly the matches after it. */
  lemma NextHistoryCursorServesRest(rows: seq<HistoryRow>, start: Option<Date>, cursor: Option<HistoryCursor>, n: int, next: Option<HistoryCursor>)
    requires StrictlyAscending(rows, HistoryKey) && n >= 1
    requires |HistoryMatches(rows, start, cursor)| > n
    requires next == Some(CursorOf(HistoryMatches(rows, start, cursor)[n - 1]))
    ensures HistoryMatches(rows, start, next) == HistoryMatches(rows, start, cursor)[n..]
  {
    var matching := HistoryMatches(rows, start, cursor);
    assert OptionalKey(next) == Some(HistoryKey(matching[n - 1]));
    FilterAscending(InWindowTest(start), rows, HistoryKey);
    NextPageContinues(InWindow(rows, start), HistoryKey, OptionalKey(cursor), n);
  }
}
