/** The relational store the synchronisation engine reads and writes, as an
    immutable record of finite maps keyed by the natural ids the database
    uses (backend/src/services/sync-*.ts). Rows the engine never inspects
    (timestamps it does not write, auto-increment ids) are left out. */
module Store {
  import opened Wrappers
  import opened Parse

  datatype SyncStatus = Ok | Stale | InProgress | Failed

  /** The status a Player row gets when it is created without one (by the
      club roster upsert). The database schema is not part of this model;
      the schema's default is taken to be `stale`. */
  const NewPlayerStatus: SyncStatus := Stale

  datatype Player = Player(
    displayName: string,
    avatarUrl: Option<string>,
    syncStatus: SyncStatus,
    syncError: Option<string>,
    lastSyncedAt: Option<Date>)

  datatype Club = Club(
    name: string,
    syncStatus: SyncStatus,
    syncError: Option<string>,
    lastSyncedAt: Option<Date>)

  /** A ClubMember row; the key is `(clubId, playerId)`. */
  datatype ClubMember = ClubMember(
    rank: Option<int>,
    displayName: string,
    ratingMean: Option<int>,
    ratingStDev: Option<int>,
    lastPlayedDate: Option<Date>)

  datatype Event = Event(name: string, date: Date)

  /** An EventSummary row; the key is `(eventId, playerId)`. */
  datatype EventSummary = EventSummary(
    playerName: string,
    initialMean: int,
    initialStDev: int,
    pointChange: int,
    finalMean: int,
    finalStDev: int)

  /** An EventMatch row. The rows of one `(eventId, playerId)` are kept
      together, in `rowIndex` order. */
  datatype EventMatch = EventMatch(
    opponentName: Option<string>,
    winnerId: int,
    loserId: int,
    score: string,
    winnerDelta: int,
    winnerOppMean: int,
    winnerOppStDev: int,
    loserDelta: int,
    loserOppMean: int,
    loserOppStDev: int,
    matchesPairPlayed: int,
    rowIndex: int)

  /** A PlayerHistory row; the key is `(playerId, eventId)`. */
  datatype History = History(
    eventDate: Date,
    eventName: string,
    initialMean: int,
    initialStDev: int,
    pointChange: int,
    finalMean: int,
    finalStDev: int)

  datatype Store = Store(
    players: map<int, Player>,
    clubs: map<int, Club>,
    members: map<(int, int), ClubMember>,
    events: map<int, Event>,
    summaries: map<(int, int), EventSummary>,
    matches: map<(int, int), seq<EventMatch>>,
    history: map<(int, int), History>)

  /** The match rows stored for `(eventId, playerId)`; none when the key is absent. */
  function MatchesOf(s: Store, eventId: int, playerId: int): seq<EventMatch> {
    if (eventId, playerId) in s.matches then s.matches[(eventId, playerId)] else []
  }

  /** Row `i` of a match set carries `rowIndex == i`. */
  predicate Indexed(rows: seq<EventMatch>) {
    forall i :: 0 <= i < |rows| ==> rows[i].rowIndex == i
  }

  /** Every ClubMember row refers to an existing Player row. */
  predicate MembersHavePlayers(s: Store) {
    forall k :: k in s.members ==> k.1 in s.players
  }

  /** A stored match set is never empty and is indexed by position. */
  predicate MatchSetsIndexed(s: Store) {
    forall k :: k in s.matches ==> |s.matches[k]| > 0 && Indexed(s.matches[k])
  }

  /** No stored Event has an empty name: every writer falls back to the
      stored name or to the `Event {id}` placeholder. */
  predicate EventsNamed(s: Store) {
    forall e :: e in s.events ==> s.events[e].name != ""
  }

  /** The invariants the synchronisation engine keeps. */
  predicate Valid(s: Store) {
    MembersHavePlayers(s) && MatchSetsIndexed(s) && EventsNamed(s)
  }

  const Empty: Store := Store(map[], map[], map[], map[], map[], map[], map[])

  lemma EmptyValid()
    ensures Valid(Empty)
  {
  }
}
