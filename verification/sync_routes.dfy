/** The HTTP surface of the synchronisation engine
    (backend/src/routes/sync.controller.ts): the three sync routes with their
    extended-range guard, and the status probe. */
module SyncRoutes {
  import opened Wrappers
  import opened Text
  import opened Errors
  import opened Parse
  import opened Store
  import opened Remote
  import opened EventSync
  import opened PlayerSync
  import opened ClubSync
  import Clubs

  /** The JSON body of the player and event sync routes; an absent field is `None`. */
  datatype SyncBody = SyncBody(monthsBack: Option<int>, confirmExtendedRange: Option<bool>)

  /** The JSON body of the club sync route. */
  datatype ClubSyncBody = ClubSyncBody(
    monthsBack: Option<int>,
    confirmExtendedRange: Option<bool>,
    clubName: Option<string>,
    syncPlayers: Option<bool>)

  const MaxUnconfirmedMonths: int := 12

  /** The guard both sync routes run first: the window defaults to twelve
      months, and a longer one is refused unless the body confirms it. */
  function CheckRange(monthsBack: Option<int>, confirm: Option<bool>): (r: Result<int, SyncError>)
    ensures r.Failure? <==> monthsBack.GetOr(12) > MaxUnconfirmedMonths && confirm != Some(true)
    ensures r.Failure? ==> r.error == ExtendedRangeUnconfirmed
    ensures r.Success? ==> r.value == monthsBack.GetOr(12)
  {
    var months := monthsBack.GetOr(DefaultMonthsBack);
    if months > MaxUnconfirmedMonths && confirm != Some(true) then Failure(ExtendedRangeUnconfirmed)
    else Success(months)
  }

  /** `POST player/:playerId`: the guard, then a player sync with the
      chosen window and the default event cascade. */
  function SyncPlayerRoute(s: Store, remote: Remote, host: Host, playerId: int, body: SyncBody): (r: Result<Store, SyncError>)
    ensures CheckRange(body.monthsBack, body.confirmExtendedRange).Failure? ==> r == Failure(ExtendedRangeUnconfirmed)
    ensures CheckRange(body.monthsBack, body.confirmExtendedRange).Success? ==>
      r == SyncPlayer(s, remote, host, playerId, PlayerOptions(None, Some(body.monthsBack.GetOr(12))))
  {
    var months :- CheckRange(body.monthsBack, body.confirmExtendedRange);
    SyncPlayer(s, remote, host, playerId, PlayerOptions(None, Some(months)))
  }

  /** `POST club/:clubId`: the guard, then a live-mode club sync that
      cascades into the players only when the body asks for it. */
  function SyncClubRoute(s: Store, remote: Remote, host: Host, clubId: int, body: ClubSyncBody, order: seq<int>): (r: Result<Store, SyncError>)
    ensures CheckRange(body.monthsBack, body.confirmExtendedRange).Failure? ==> r == Failure(ExtendedRangeUnconfirmed)
    ensures CheckRange(body.monthsBack, body.confirmExtendedRange).Success? ==>
      r == SyncClub(s, remote, host, clubId,
        ClubOptions(body.clubName, Some(body.syncPlayers.GetOr(false)), Some(body.monthsBack.GetOr(12)), Some(false)), order)
  {
    var months :- CheckRange(body.monthsBack, body.confirmExtendedRange);
    SyncClub(s, remote, host, clubId, ClubOptions(body.clubName, Some(body.syncPlayers.GetOr(false)), Some(months), Some(false)), order)
  }

  /** `POST event/:eventId/player/:playerId`: an event sync with no listing
      metadata. */
  function SyncEventRoute(s: Store, remote: Remote, host: Host, eventId: int, playerId: int): (r: Result<Store, SyncError>)
    ensures Valid(s) && r.Success? ==> Valid(r.value)
    ensures AlreadyStored(s, eventId, playerId) ==> r == Success(s)
    ensures !AlreadyStored(s, eventId, playerId) ==>
      (r.Failure? <==> remote.summaryCsv(eventId).Failure? || remote.detailCsv(eventId).Failure?)
  {
    SyncEventForPlayer(s, remote, host.now, eventId, playerId, EventMeta(None, None))
  }

  /** A refused range is refused before any fetch or write: the answer is the
      same whatever the store and the remote site hold. */
  lemma RefusalTouchesNothing(s1: Store, s2: Store, remote1: Remote, remote2: Remote, host: Host, id: int, body: SyncBody, clubBody: ClubSyncBody, order: seq<int>)
    requires body.monthsBack.GetOr(12) > 12 && body.confirmExtendedRange != Some(true)
    requires clubBody.monthsBack.GetOr(12) > 12 && clubBody.confirmExtendedRange != Some(true)
    ensures SyncPlayerRoute(s1, remote1, host, id, body) == SyncPlayerRoute(s2, remote2, host, id, body) == Failure(ExtendedRangeUnconfirmed)
    ensures SyncClubRoute(s1, remote1, host, id, clubBody, order) == SyncClubRoute(s2, remote2, host, id, clubBody, order)
  {
  }

  /** By default the club route does not cascade into the players: with a
      live roster it writes the Club and ClubMember rows and Player names
      only, never a history or an event. */
  lemma ClubRouteDefaultsToRosterOnly(s: Store, remote: Remote, host: Host, clubId: int, body: ClubSyncBody, order: seq<int>)
    requires body.syncPlayers.None? && body.monthsBack.None?
    requires SyncClubRoute(s, remote, host, clubId, body, order).Success?
    ensures var t := SyncClubRoute(s, remote, host, clubId, body, order).value;
      t.history == s.history && t.events == s.events && t.summaries == s.summaries && t.matches == s.matches
  {
    var opts := ClubOptions(body.clubName, Some(false), Some(12), Some(false));
    var roster := LoadRoster(s, remote, host, clubId, opts, order).value;
    var s1 := UpsertRoster(MarkClub(s, clubId, ClubName(opts), host.now), clubId, roster);
    assert ApplyRoster(s, remote, host, clubId, opts, roster) == FinishClub(s1, clubId, host.now);
  }

  // ----------------------------------------------------------------- status

  /** The reply of the status probe; `Stored` carries a Player or Club row's
      status fields. */
  datatype StatusReply =
    | StatusError(message: string)
    | Missing
    | Stored(status: SyncStatus, lastSyncedAt: Option<Date>, error: Option<string>)
    | EventOk

  /** A status query the database refuses: an id that is not an integer. */
  datatype StatusFailure = NonIntegerId

  const RequiredMessage: string := "entityType and entityId required."
  const UnknownTypeMessage: string := "Unknown entityType."

  /** Whether any EventSummary or EventMatch row belongs to the event. */
  predicate EventKnown(s: Store, eventId: int) {
    (exists k :: k in s.summaries && k.0 == eventId) ||
    (exists k :: k in s.matches && k.0 == eventId && |s.matches[k]| > 0)
  }

  /** `GET status?entityType&entityId`: an error reply for a missing or empty
      parameter or an unknown type; otherwise the stored row's status fields,
      `missing` when there is no row, and for events `ok` exactly when some
      summary or match row is stored. */
  function SyncStatusOf(s: Store, entityType: Option<string>, entityId: Option<string>): (r: Result<StatusReply, StatusFailure>)
    ensures entityType.GetOr("") == "" || entityId.GetOr("") == "" ==> r == Success(StatusError(RequiredMessage))
    ensures entityType.GetOr("") != "" && entityId.GetOr("") != "" && entityType.value !in {"player", "club", "event"} ==>
      r == Success(StatusError(UnknownTypeMessage))
    ensures r.Failure? <==>
      entityType.GetOr("") in {"player", "club", "event"} && entityId.GetOr("") != "" && Clubs.IntegerValue(NumberValue(entityId.value)).None?
    ensures entityType == Some("player") && r.Success? && entityId.GetOr("") != "" ==>
      var id := Clubs.IntegerValue(NumberValue(entityId.value)).value;
      r.value == if id in s.players then Stored(s.players[id].syncStatus, s.players[id].lastSyncedAt, s.players[id].syncError) else Missing
    ensures entityType == Some("club") && r.Success? && entityId.GetOr("") != "" ==>
      var id := Clubs.IntegerValue(NumberValue(entityId.value)).value;
      r.value == if id in s.clubs then Stored(s.clubs[id].syncStatus, s.clubs[id].lastSyncedAt, s.clubs[id].syncError) else Missing
    ensures entityType == Some("event") && r.Success? && entityId.GetOr("") != "" ==>
      (r.value == EventOk <==> EventKnown(s, Clubs.IntegerValue(NumberValue(entityId.value)).value)) &&
      (r.value == EventOk || r.value == Missing)
  {
    if entityType.GetOr("") == "" || entityId.GetOr("") == "" then Success(StatusError(RequiredMessage))
    else
      var kind := entityType.value;
      if kind !in {"player", "club", "event"} then Success(StatusError(UnknownTypeMessage))
      else
        match Clubs.IntegerValue(NumberValue(entityId.value))
        case None => Failure(NonIntegerId)
        case Some(id) =>
          if kind == "player" then
            Success(if id in s.players then Stored(s.players[id].syncStatus, s.players[id].lastSyncedAt, s.players[id].syncError) else Missing)
          else if kind == "club" then
            Success(if id in s.clubs then Stored(s.clubs[id].syncStatus, s.clubs[id].lastSyncedAt, s.clubs[id].syncError) else Missing)
          else
            Success(if EventKnown(s, id) then EventOk else Missing)
  }

  /** The probe reads ids as the routes write them. */
  lemma StatusIdRoundTrip(id: int)
    ensures Clubs.IntegerValue(NumberValue(IntToString(id))) == Some(id)
    ensures IntToString(id) != ""
  {
    NumberOfRendering(id);
    RenderingSign(id);
  }

  /** After a successful player sync the probe reports the Player row the
      run finished with: stamped at the run's instant, `ok` with no error
      when history was found, `failed` with the no-history message when not. */
  lemma StatusAfterPlayerSync(s: Store, remote: Remote, host: Host, playerId: int, body: SyncBody)
    requires SyncPlayerRoute(s, remote, host, playerId, body).Success?
    ensures var reply := SyncStatusOf(SyncPlayerRoute(s, remote, host, playerId, body).value, Some("player"), Some(IntToString(playerId)));
      reply.Success? && reply.value.Stored? && reply.value.lastSyncedAt == Some(host.now) &&
      ((reply.value.status == Ok && reply.value.error.None?) || (reply.value.status == Failed && reply.value.error == Some(NoHistoryMessage)))
  {
    var months := CheckRange(body.monthsBack, body.confirmExtendedRange).value;
    var opts := PlayerOptions(None, Some(months));
    var rows := FetchPlayerHistory(remote, host.parseDate, playerId).value;
    var t := SyncPlayerRoute(s, remote, host, playerId, body).value;
    assert t == ApplyHistory(s, remote, host, playerId, opts, rows);
    StatusOfSyncedPlayer(s, t, playerId, host.now, |rows| == 0);
  }

  /** The probe reads back the Player row a run left behind. */
  lemma StatusOfSyncedPlayer(s: Store, t: Store, playerId: int, now: Date, historyEmpty: bool)
    requires PlayerAfter(s, t, playerId, now, historyEmpty)
    ensures var reply := SyncStatusOf(t, Some("player"), Some(IntToString(playerId)));
      reply.Success? && reply.value == Stored(t.players[playerId].syncStatus, Some(now), t.players[playerId].syncError) &&
      (historyEmpty ==> reply.value.status == Failed && reply.value.error == Some(NoHistoryMessage)) &&
      (!historyEmpty ==> reply.value.status == Ok && reply.value.error.None?)
  {
    StatusIdRoundTrip(playerId);
  }

  /** After a successful club sync the probe reports the Club row `ok`, with
      no error, stamped at the run's instant. */
  lemma StatusAfterClubSync(s: Store, remote: Remote, host: Host, clubId: int, body: ClubSyncBody, order: seq<int>)
    requires SyncClubRoute(s, remote, host, clubId, body, order).Success?
    ensures SyncStatusOf(SyncClubRoute(s, remote, host, clubId, body, order).value, Some("club"), Some(IntToString(clubId)))
      == Success(Stored(Ok, Some(host.now), None))
  {
    StatusIdRoundTrip(clubId);
  }
}
