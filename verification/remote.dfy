/** What the synchronisation engine gets from outside: the remote pages and
    CSV exports (already tokenised by the HTML and CSV libraries, or a fetch
    failure), and the host's clock and date facilities. The `fetch*`
    scrapers are the tokenised input followed by the model's own extraction. */
module Remote {
  import opened Wrappers
  import opened Errors
  import opened Parse
  import opened Csv
  import opened EventDetailFeed
  import opened EventSummaryFeed
  import opened PlayerHistoryFeed
  import opened ClubRosterPage

  /** The remote site. Each field answers one URL; a `Failure` is an HTTP
      error, a timeout or a CSV tokenising error. `rosterTable` is the
      first table of the club page whose header mentions rank, rating and
      name (`None` when there is none), as a sequence of `tr` rows. */
  datatype Remote = Remote(
    historyCsv: int -> Result<seq<Record>, SyncError>,
    summaryCsv: int -> Result<seq<Record>, SyncError>,
    detailCsv: int -> Result<seq<Record>, SyncError>,
    rosterTable: (int, string) -> Result<Option<seq<HtmlRow>>, SyncError>)

  /** The host: the instant `new Date()` reads (one instant for the whole
      run), the instant `monthsBack` months before it (`setMonth`
      arithmetic), and `new Date(text)`. */
  datatype Host = Host(
    now: Date,
    monthsBefore: int -> Date,
    parseDate: DateParser)

  function FetchEventSummary(remote: Remote, eventId: int): (r: Result<seq<EventSummaryRow>, SyncError>)
    ensures r.Failure? <==> remote.summaryCsv(eventId).Failure?
    ensures r.Success? ==> r.value == EventSummaryFeed.Extract(remote.summaryCsv(eventId).value)
  {
    var records :- remote.summaryCsv(eventId);
    Success(EventSummaryFeed.Extract(records))
  }

  function FetchEventDetail(remote: Remote, eventId: int): (r: Result<seq<EventDetailRow>, SyncError>)
    ensures r.Failure? <==> remote.detailCsv(eventId).Failure?
    ensures r.Success? ==> r.value == EventDetailFeed.Extract(remote.detailCsv(eventId).value)
  {
    var records :- remote.detailCsv(eventId);
    Success(EventDetailFeed.Extract(records))
  }

  function FetchPlayerHistory(remote: Remote, parseDate: DateParser, playerId: int): (r: Result<seq<PlayerHistoryRow>, SyncError>)
    ensures remote.historyCsv(playerId).Failure? ==> r.Failure?
    ensures remote.historyCsv(playerId).Success? ==> r == PlayerHistoryFeed.Extract(remote.historyCsv(playerId).value, parseDate)
  {
    var records :- remote.historyCsv(playerId);
    PlayerHistoryFeed.Extract(records, parseDate)
  }

  function FetchClubRoster(remote: Remote, parseDate: DateParser, clubId: int, clubName: string): (r: Result<seq<ClubRosterEntry>, SyncError>)
    ensures remote.rosterTable(clubId, clubName).Failure? ==> r.Failure?
    ensures remote.rosterTable(clubId, clubName).Success? ==> r == ExtractRoster(remote.rosterTable(clubId, clubName).value, parseDate)
  {
    var table :- remote.rosterTable(clubId, clubName);
    ExtractRoster(table, parseDate)
  }
}
