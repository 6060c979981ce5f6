/** The match list of one event (backend/src/scrapers/eventDetail.ts): each
    CSV record becomes an `EventDetailRow`; rows naming neither a winner nor a
    loser are dropped. */
module EventDetailFeed {
  import opened Text
  import opened Csv
  import opened Seqs

  datatype EventDetailRow = EventDetailRow(
    winnerId: int,
    loserId: int,
    score: string,
    winnerDelta: int,
    winnerOppMean: int,
    winnerOppStDev: int,
    loserDelta: int,
    loserOppMean: int,
    loserOppStDev: int,
    matchesPairPlayed: int)

  /** One record as the scraper maps it, before filtering. */
  function RowOf(rec: Record): (row: EventDetailRow)
    ensures "Score" !in rec ==> row.score == ""
    ensures "Score" in rec ==> row.score == Trim(rec["Score"])
    ensures "WinnerID" !in rec ==> row.winnerId == 0
    ensures "LoserID" !in rec ==> row.loserId == 0
  {
    EventDetailRow(
      IntCell(rec, "WinnerID"),
      IntCell(rec, "LoserID"),
      TextCell(rec, "Score"),
      IntCell(rec, "WinnerDelta"),
      IntCell(rec, "WinnerOpponentMean"),
      IntCell(rec, "WinnerOpponentStDev"),
      IntCell(rec, "LoserDelta"),
      IntCell(rec, "LoserOpponentMean"),
      IntCell(rec, "LoserOpponentStDev"),
      IntCell(rec, "MatchesPairPlayed"))
  }

  /** A row survives when at least one side has a non-zero id. */
  predicate HasPlayer(row: EventDetailRow) {
    row.winnerId != 0 || row.loserId != 0
  }

  function MapRows(records: seq<Record>): (rows: seq<EventDetailRow>)
    ensures |rows| == |records|
    ensures forall i :: 0 <= i < |records| ==> rows[i] == RowOf(records[i])
  {
    seq(|records|, i requires 0 <= i < |records| => RowOf(records[i]))
  }

  /** The rows `fetchEventDetail` returns for the tokenised export. */
  function Extract(records: seq<Record>): (rows: seq<EventDetailRow>)
    ensures |rows| <= |records|
    ensures IsSubsequence(rows, MapRows(records))
    ensures forall i :: 0 <= i < |rows| ==> HasPlayer(rows[i])
    ensures forall i :: 0 <= i < |records| && HasPlayer(RowOf(records[i])) ==> RowOf(records[i]) in rows
    ensures forall x :: multiset(rows)[x] == if HasPlayer(x) then multiset(MapRows(records))[x] else 0
  {
    FilterIsSubsequence(HasPlayer, MapRows(records));
    FilterCounts(HasPlayer, MapRows(records));
    ExtractCovers(records);
    Filter(HasPlayer, MapRows(records))
  }

  /** Every mapped record that passes the filter is kept. */
  lemma ExtractCovers(records: seq<Record>)
    ensures forall i :: 0 <= i < |records| && HasPlayer(RowOf(records[i])) ==> RowOf(records[i]) in Filter(HasPlayer, MapRows(records))
  {
    var mapped := MapRows(records);
    forall i | 0 <= i < |records| && HasPlayer(RowOf(records[i]))
      ensures RowOf(records[i]) in Filter(HasPlayer, mapped)
    {
      assert mapped[i] == RowOf(records[i]);
    }
  }
}
