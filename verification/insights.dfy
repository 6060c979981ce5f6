/** The per-event details of one player (backend/src/services/insights.service.ts):
    the stored match rows seen from the player's side, and the aggregates
    shown above them. */
module Insights {
  import opened Wrappers
  import opened Parse
  import opened Seqs
  import opened Store
  import opened Aggregates
  import opened EventDetailFeed
  import EventSync

  datatype Outcome = W | L

  /** One match as the player sees it. */
  datatype MatchResult = MatchResult(
    result: Outcome,
    opponentId: int,
    opponentName: Option<string>,
    opponentMean: int,
    opponentStDev: int,
    delta: int,
    score: string)

  /** A stored match from `playerId`'s side: a win exactly when the player is
      the winner, and then every opponent figure is taken from the winner's
      columns (the opponent the winner faced); otherwise from the loser's. */
  function Project(row: EventMatch, playerId: int): (m: MatchResult)
    ensures m.result == W <==> row.winnerId == playerId
    ensures m.opponentName == row.opponentName && m.score == row.score
    ensures m.result == W ==> m.opponentId == row.loserId && m.delta == row.winnerDelta
    ensures m.result == W ==> m.opponentMean == row.winnerOppMean && m.opponentStDev == row.winnerOppStDev
    ensures m.result == L ==> m.opponentId == row.winnerId && m.delta == row.loserDelta
    ensures m.result == L ==> m.opponentMean == row.loserOppMean && m.opponentStDev == row.loserOppStDev
  {
    var isWin := row.winnerId == playerId;
    MatchResult(
      if isWin then W else L,
      if isWin then row.loserId else row.winnerId,
      row.opponentName,
      if isWin then row.winnerOppMean else row.loserOppMean,
      if isWin then row.winnerOppStDev else row.loserOppStDev,
      if isWin then row.winnerDelta else row.loserDelta,
      row.score)
  }

  /** The same match seen by its two players: one win and one loss, each
      naming the other as opponent, with the winner's and the loser's own
      rating change. */
  lemma ProjectBothSides(row: EventMatch)
    requires row.winnerId != row.loserId
    ensures Project(row, row.winnerId).result == W && Project(row, row.loserId).result == L
    ensures Project(row, row.winnerId).opponentId == row.loserId
    ensures Project(row, row.loserId).opponentId == row.winnerId
    ensures Project(row, row.winnerId).delta == row.winnerDelta
    ensures Project(row, row.loserId).delta == row.loserDelta
  {
  }

  function Projection(rows: seq<EventMatch>, playerId: int): (ms: seq<MatchResult>)
    ensures |ms| == |rows|
    ensures forall i :: 0 <= i < |rows| ==> ms[i] == Project(rows[i], playerId)
  {
    seq(|rows|, i requires 0 <= i < |rows| => Project(rows[i], playerId))
  }

  predicate IsWin(m: MatchResult) {
    m.result == W
  }

  predicate IsLoss(m: MatchResult) {
    m.result == L
  }

  function OpponentMean(m: MatchResult): int {
    m.opponentMean
  }

  function OpponentMeans(ms: seq<MatchResult>): (means: seq<int>)
    ensures |means| == |ms|
    ensures forall i :: 0 <= i < |ms| ==> means[i] == ms[i].opponentMean
  {
    seq(|ms|, i requires 0 <= i < |ms| => ms[i].opponentMean)
  }

  datatype EventInsights = EventInsights(
    wins: nat,
    losses: int,
    avgOpponentMean: Option<int>,
    bestWin: Option<MatchResult>,
    toughestLoss: Option<MatchResult>)

  /** The win with the highest opponent rating, the first such on a tie:
      the head of the wins sorted (stably) by descending opponent rating. */
  function BestWin(ms: seq<MatchResult>): (r: Option<MatchResult>)
    ensures r.None? <==> forall i :: 0 <= i < |ms| ==> ms[i].result != W
    ensures r.Some? ==> exists i :: IsFirstMax(ms, IsWin, OpponentMean, i) && ms[i] == r.value
  {
    var best := FirstMaxBy(ms, IsWin, OpponentMean);
    if best.Some? then Some(ms[best.value]) else None
  }

  /** The loss with the lowest opponent rating, the first such on a tie. */
  function ToughestLoss(ms: seq<MatchResult>): (r: Option<MatchResult>)
    ensures r.None? <==> forall i :: 0 <= i < |ms| ==> ms[i].result != L
    ensures r.Some? ==> exists i :: IsFirstMin(ms, IsLoss, OpponentMean, i) && ms[i] == r.value
  {
    var worst := FirstMinBy(ms, IsLoss, OpponentMean);
    if worst.Some? then Some(ms[worst.value]) else None
  }

  /** `Math.round` of the mean opponent rating; nothing without matches. */
  function AverageOpponent(ms: seq<MatchResult>): (r: Option<int>)
    ensures r.None? <==> |ms| == 0
    ensures r.Some? ==> |ms| * (2 * r.value - 1) <= 2 * Sum(OpponentMeans(ms)) < |ms| * (2 * r.value + 1)
  {
    if |ms| > 0 then Some(RoundDiv(Sum(OpponentMeans(ms)), |ms|)) else None
  }

  /** The aggregates over the reported matches; `losses` is the count minus
      the wins, which is the number of losses. */
  function Summarize(ms: seq<MatchResult>): (r: EventInsights)
    ensures r.wins + r.losses == |ms|
    ensures r.losses == |Filter(IsLoss, ms)|
    ensures r.avgOpponentMean == AverageOpponent(ms)
    ensures r.bestWin == BestWin(ms) && r.toughestLoss == ToughestLoss(ms)
  {
    var wins := |Filter(IsWin, ms)|;
    FilterPartition(IsWin, IsLoss, ms);
    EventInsights(wins, |ms| - wins, AverageOpponent(ms), BestWin(ms), ToughestLoss(ms))
  }

  /** The rounded average opponent rating lies between the lowest and the
      highest opponent rating. */
  lemma AverageWithinOpponents(ms: seq<MatchResult>, lo: int, hi: int)
    requires forall i :: 0 <= i < |ms| ==> lo <= ms[i].opponentMean <= hi
    ensures AverageOpponent(ms).Some? ==> lo <= AverageOpponent(ms).value <= hi
  {
    if |ms| > 0 {
      RoundedAverageBounds(OpponentMeans(ms), lo, hi);
    }
  }

  datatype SummaryView = SummaryView(
    initialMean: int,
    initialStDev: int,
    finalMean: int,
    finalStDev: int,
    totalChange: int)

  datatype EventDetails = EventDetails(
    eventId: int,
    name: string,
    date: Date,
    playerId: int,
    summary: Option<SummaryView>,
    insights: EventInsights,
    matches: seq<MatchResult>)

  /** `getEventDetailsForPlayer(eventId, playerId)`: nothing when the Event
      row is missing; otherwise the event, the player's summary when one is
      stored, and the player's stored matches in `rowIndex` order. */
  function EventDetailsForPlayer(s: Store, eventId: int, playerId: int): (r: Option<EventDetails>)
    ensures r.None? <==> eventId !in s.events
    ensures r.Some? ==> r.value.name == s.events[eventId].name && r.value.date == s.events[eventId].date
    ensures r.Some? ==> (r.value.summary.None? <==> (eventId, playerId) !in s.summaries)
    ensures r.Some? && r.value.summary.Some? ==>
      var row := s.summaries[(eventId, playerId)];
      r.value.summary.value == SummaryView(row.initialMean, row.initialStDev, row.finalMean, row.finalStDev, row.pointChange)
    ensures r.Some? ==> |r.value.matches| == |MatchesOf(s, eventId, playerId)|
    ensures r.Some? ==> forall i :: 0 <= i < |r.value.matches| ==> r.value.matches[i] == Project(MatchesOf(s, eventId, playerId)[i], playerId)
    ensures r.Some? ==> r.value.insights == Summarize(r.value.matches)
  {
    if eventId !in s.events then None
    else
      var event := s.events[eventId];
      var summary :=
        if (eventId, playerId) in s.summaries then
          var row := s.summaries[(eventId, playerId)];
          Some(SummaryView(row.initialMean, row.initialStDev, row.finalMean, row.finalStDev, row.pointChange))
        else None;
      var ms := Projection(MatchesOf(s, eventId, playerId), playerId);
      Some(EventDetails(eventId, event.name, event.date, playerId, summary, Summarize(ms), ms))
  }

  /** The store keeps each player's matches at the position of their
      `rowIndex`, so reading them back in stored order is reading them in
      ascending `rowIndex` order. */
  lemma StoredInRowIndexOrder(s: Store, eventId: int, playerId: int)
    requires Valid(s)
    ensures forall i, j :: 0 <= i < j < |MatchesOf(s, eventId, playerId)| ==>
      MatchesOf(s, eventId, playerId)[i].rowIndex < MatchesOf(s, eventId, playerId)[j].rowIndex
  {
    if (eventId, playerId) in s.matches {
      assert Indexed(s.matches[(eventId, playerId)]);
    }
  }

  /** After the event sync has written the player's matches, the details
      report one result per detail row that involves the player, in the feed's
      order, each a win exactly when that row names the player as winner. */
  lemma ReportsWrittenMatches(s: Store, eventId: int, playerId: int, names: map<int, string>, detail: seq<EventDetailRow>)
    requires eventId in s.events
    requires |EventSync.PlayerMatches(detail, playerId)| > 0
    ensures var d := EventDetailsForPlayer(EventSync.WriteMatches(s, eventId, playerId, names, detail), eventId, playerId);
      var rows := EventSync.PlayerMatches(detail, playerId);
      d.Some? && |d.value.matches| == |rows| &&
      forall i :: 0 <= i < |rows| ==>
        (d.value.matches[i].result == W <==> rows[i].winnerId == playerId) && d.value.matches[i].score == rows[i].score
  {
    var t := EventSync.WriteMatches(s, eventId, playerId, names, detail);
    var rows := EventSync.PlayerMatches(detail, playerId);
    var stored := MatchesOf(t, eventId, playerId);
    assert t.events == s.events && EventSync.Details(stored) == rows;
    ReportsStoredMatches(t, eventId, playerId);
    StoredAsDetailed(stored, rows);
    ReportsAsDetailed(EventDetailsForPlayer(t, eventId, playerId).value.matches, stored, rows, playerId);
  }

  /** Results reported one for one from stored matches that keep their
      detail rows' winners and scores report those rows. */
  lemma ReportsAsDetailed(results: seq<MatchResult>, stored: seq<EventMatch>, rows: seq<EventDetailRow>, playerId: int)
    requires |results| == |stored| == |rows|
    requires forall i :: 0 <= i < |stored| ==>
      (results[i].result == W <==> stored[i].winnerId == playerId) && results[i].score == stored[i].score
    requires forall i :: 0 <= i < |rows| ==> stored[i].winnerId == rows[i].winnerId && stored[i].score == rows[i].score
    ensures forall i :: 0 <= i < |rows| ==>
      (results[i].result == W <==> rows[i].winnerId == playerId) && results[i].score == rows[i].score
  {
  }

  /** Stored matches whose detail rows are `rows` keep their winners and scores. */
  lemma StoredAsDetailed(stored: seq<EventMatch>, rows: seq<EventDetailRow>)
    requires EventSync.Details(stored) == rows
    ensures |stored| == |rows|
    ensures forall i :: 0 <= i < |rows| ==> stored[i].winnerId == rows[i].winnerId && stored[i].score == rows[i].score
  {
    forall i | 0 <= i < |rows|
      ensures stored[i].winnerId == rows[i].winnerId && stored[i].score == rows[i].score
    {
      assert EventSync.Details(stored)[i] == EventSync.DetailOf(stored[i]);
    }
  }

  /** The details report the stored matches one for one. */
  lemma ReportsStoredMatches(t: Store, eventId: int, playerId: int)
    requires eventId in t.events
    ensures var d := EventDetailsForPlayer(t, eventId, playerId);
      var stored := MatchesOf(t, eventId, playerId);
      d.Some? && |d.value.matches| == |stored| &&
      forall i :: 0 <= i < |stored| ==>
        (d.value.matches[i].result == W <==> stored[i].winnerId == playerId) && d.value.matches[i].score == stored[i].score
  {
    var d := EventDetailsForPlayer(t, eventId, playerId).value;
    var stored := MatchesOf(t, eventId, playerId);
    forall i | 0 <= i < |stored|
      ensures (d.matches[i].result == W <==> stored[i].winnerId == playerId) && d.matches[i].score == stored[i].score
    {
      assert d.matches[i] == Project(stored[i], playerId);
    }
  }
}
