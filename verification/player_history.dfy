/** A player's rating history (backend/src/scrapers/playerHistory.ts): each
    CSV record becomes a `PlayerHistoryRow`. Event dates are converted with
    the strict `toDate` BEFORE rows without an event id are dropped, so one
    unreadable date anywhere fails the whole extraction. */
module PlayerHistoryFeed {
  import opened Wrappers
  import opened Text
  import opened Errors
  import opened Parse
  import opened Csv
  import opened Seqs

  datatype PlayerHistoryRow = PlayerHistoryRow(
    eventId: int,
    eventDate: Date,
    eventName: string,
    initialMean: int,
    initialStDev: int,
    pointChange: int,
    finalMean: int,
    finalStDev: int)

  /** One record as the scraper maps it; fails when its date does. */
  function RowOf(rec: Record, parseDate: DateParser): (r: Result<PlayerHistoryRow, SyncError>)
    ensures r.Success? <==> ToDate(Cell(rec, "EventDate"), parseDate).Success?
    ensures r.Success? ==> r.value.eventDate == ToDate(Cell(rec, "EventDate"), parseDate).value
    ensures r.Success? && "EventName" !in rec ==> r.value.eventName == ""
    ensures r.Success? && "EventName" in rec ==> r.value.eventName == Trim(rec["EventName"])
  {
    match ToDate(Cell(rec, "EventDate"), parseDate)
    case Failure(e) => Failure(e)
    case Success(date) =>
      Success(PlayerHistoryRow(
        IntCell(rec, "EventID"),
        date,
        TextCell(rec, "EventName"),
        IntCell(rec, "InitialMean"),
        IntCell(rec, "InitialStDev"),
        IntCell(rec, "PointChange"),
        IntCell(rec, "FinalMean"),
        IntCell(rec, "FinalStDev")))
  }

  /** `records.map(...)`: the first record whose date fails aborts the map. */
  function MapRows(records: seq<Record>, parseDate: DateParser): (r: Result<seq<PlayerHistoryRow>, SyncError>)
  {
    MapOrFail((rec: Record) => RowOf(rec, parseDate), records)
  }

  predicate HasEvent(row: PlayerHistoryRow) {
    row.eventId != 0
  }

  /** A mapped record that the filter keeps. */
  predicate Kept(r: Result<PlayerHistoryRow, SyncError>) {
    r.Success? && HasEvent(r.value)
  }

  /** Record `i` is the first whose date cannot be read. */
  ghost predicate FirstBadDate(records: seq<Record>, parseDate: DateParser, i: int) {
    0 <= i < |records| && RowOf(records[i], parseDate).Failure? &&
    forall j :: 0 <= j < i ==> RowOf(records[j], parseDate).Success?
  }

  /** The rows `fetchPlayerHistory` returns for the tokenised export. */
  function Extract(records: seq<Record>, parseDate: DateParser): (r: Result<seq<PlayerHistoryRow>, SyncError>)
    ensures r.Failure? <==> exists i :: 0 <= i < |records| && RowOf(records[i], parseDate).Failure?
    ensures r.Failure? ==> exists i :: FirstBadDate(records, parseDate, i) && RowOf(records[i], parseDate).error == r.error
    ensures r.Success? ==> |r.value| <= |records|
    ensures r.Success? ==> IsSubsequence(r.value, MapRows(records, parseDate).value)
    ensures r.Success? ==> forall i :: 0 <= i < |r.value| ==> r.value[i].eventId != 0
  {
    match MapRows(records, parseDate)
    case Failure(e) => Failure(e)
    case Success(rows) =>
      FilterIsSubsequence(HasEvent, rows);
      Success(Filter(HasEvent, rows))
  }

  /** Every record that maps to a row with an event id has its row in the
      output. */
  lemma ExtractCovers(records: seq<Record>, parseDate: DateParser)
    requires Extract(records, parseDate).Success?
    ensures forall i :: 0 <= i < |records| && Kept(RowOf(records[i], parseDate)) ==>
                        RowOf(records[i], parseDate).value in Extract(records, parseDate).value
  {
    var mapped := MapRows(records, parseDate).value;
    forall i | 0 <= i < |records| && Kept(RowOf(records[i], parseDate))
      ensures RowOf(records[i], parseDate).value in Filter(HasEvent, mapped)
    {
      assert mapped[i] == RowOf(records[i], parseDate).value;
      FilterCount(HasEvent, mapped, mapped[i]);
    }
  }

  /** Every row with an event id is kept as often as it occurs, and no
      other row is. */
  lemma ExtractCounts(records: seq<Record>, parseDate: DateParser)
    requires Extract(records, parseDate).Success?
    ensures forall x :: multiset(Extract(records, parseDate).value)[x] ==
                        (if HasEvent(x) then multiset(MapRows(records, parseDate).value)[x] else 0)
  {
    FilterCounts(HasEvent, MapRows(records, parseDate).value);
  }

  /** A record with an unreadable date fails the extraction even when its
      event id is 0, so that it would have been dropped anyway. */
  lemma DroppedRecordStillFails(records: seq<Record>, parseDate: DateParser, i: int)
    requires 0 <= i < |records|
    requires IntCell(records[i], "EventID") == 0
    requires ToDate(Cell(records[i], "EventDate"), parseDate).Failure?
    ensures Extract(records, parseDate).Failure?
  {
  }
}
