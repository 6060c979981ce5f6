/** The per-player summary of one event (backend/src/scrapers/eventSummary.ts):
    each CSV record becomes an `EventSummaryRow`; rows without a player id are
    dropped. */
module EventSummaryFeed {
  import opened Wrappers
  import opened Text
  import opened Csv
  import opened Seqs

  datatype EventSummaryRow = EventSummaryRow(
    playerId: int,
    playerName: string,
    playerCountry: Option<string>,
    initialMean: int,
    initialStDev: int,
    pointChange: int,
    finalMean: int,
    finalStDev: int)

  /** One record as the scraper maps it, before filtering. */
  function RowOf(rec: Record): (row: EventSummaryRow)
    ensures "PlayerName" !in rec ==> row.playerName == ""
    ensures "PlayerName" in rec ==> row.playerName == Trim(rec["PlayerName"])
    ensures row.playerCountry.None? <==> "PlayerCountry" !in rec || rec["PlayerCountry"] == ""
    ensures row.playerCountry.Some? ==> row.playerCountry.value == Trim(rec["PlayerCountry"])
    ensures "PlayerID" !in rec ==> row.playerId == 0
  {
    EventSummaryRow(
      IntCell(rec, "PlayerID"),
      TextCell(rec, "PlayerName"),
      if "PlayerCountry" in rec && rec["PlayerCountry"] != "" then Some(Trim(rec["PlayerCountry"])) else None,
      IntCell(rec, "InitialMean"),
      IntCell(rec, "InitialStDev"),
      IntCell(rec, "PointChange"),
      IntCell(rec, "FinalMean"),
      IntCell(rec, "FinalStDev"))
  }

  predicate HasPlayer(row: EventSummaryRow) {
    row.playerId != 0
  }

  function MapRows(records: seq<Record>): (rows: seq<EventSummaryRow>)
    ensures |rows| == |records|
    ensures forall i :: 0 <= i < |records| ==> rows[i] == RowOf(records[i])
  {
    seq(|records|, i requires 0 <= i < |records| => RowOf(records[i]))
  }

  /** The rows `fetchEventSummary` returns for the tokenised export. */
  function Extract(records: seq<Record>): (rows: seq<EventSummaryRow>)
    ensures |rows| <= |records|
    ensures IsSubsequence(rows, MapRows(records))
    ensures forall i :: 0 <= i < |rows| ==> rows[i].playerId != 0
  {
    FilterIsSubsequence(HasPlayer, MapRows(records));
    Filter(HasPlayer, MapRows(records))
  }

  /** Every row with a player id is kept as often as it occurs, and no
      other row is. */
  lemma ExtractCounts(records: seq<Record>)
    ensures forall x :: multiset(Extract(records))[x] == if HasPlayer(x) then multiset(MapRows(records))[x] else 0
  {
    FilterCounts(HasPlayer, MapRows(records));
  }

  /** Every mapped record that passes the filter is kept. */
  lemma ExtractCovers(records: seq<Record>)
    ensures forall i :: 0 <= i < |records| && RowOf(records[i]).playerId != 0 ==> RowOf(records[i]) in Extract(records)
  {
    var mapped := MapRows(records);
    forall i | 0 <= i < |records| && RowOf(records[i]).playerId != 0
      ensures RowOf(records[i]) in Filter(HasPlayer, mapped)
    {
      assert mapped[i] == RowOf(records[i]);
    }
  }
}
