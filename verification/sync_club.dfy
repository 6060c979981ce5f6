/** `syncClub` (backend/src/services/sync-club.ts): load a club's roster —
    live from the club page, or from the stored ClubMember rows in cache
    mode — then (live mode only) stamp the Club row and upsert a Player and
    a ClubMember row per member, cascade into `syncPlayer` per member with
    failures isolated, and finally mark the Club `ok`. */
module ClubSync {
  import opened Wrappers
  import opened Errors
  import opened Parse
  import opened Seqs
  import opened ClubRosterPage
  import opened Store
  import opened Remote
  import opened PlayerSync

  datatype ClubOptions = ClubOptions(
    clubName: Option<string>,
    syncPlayers: Option<bool>,
    monthsBack: Option<int>,
    useRosterCache: Option<bool>)

  const DefaultClubName: string := "Club"

  /** `options.clubName ?? 'Club'`. */
  function ClubName(opts: ClubOptions): string {
    opts.clubName.GetOr(DefaultClubName)
  }

  /** `options.syncPlayers !== false`. */
  predicate SyncPlayersOn(opts: ClubOptions) {
    opts.syncPlayers != Some(false)
  }

  /** `options.monthsBack ?? 12`. */
  function ClubMonthsBack(opts: ClubOptions): int {
    opts.monthsBack.GetOr(DefaultMonthsBack)
  }

  /** `options.useRosterCache === true`. */
  predicate CacheMode(opts: ClubOptions) {
    opts.useRosterCache == Some(true)
  }

  // ---------------------------------------------------------------------
  // The roster

  /** A stored membership read back as a roster entry (`?? undefined`). */
  function EntryOfMember(playerId: int, m: ClubMember): ClubRosterEntry {
    ClubRosterEntry(playerId, m.rank, m.displayName, m.ratingMean, m.ratingStDev, m.lastPlayedDate)
  }

  /** The ClubMember row written for a roster entry (`?? null`): every
      field is overwritten. */
  function MemberOf(e: ClubRosterEntry): ClubMember {
    ClubMember(e.rank, e.displayName, e.ratingMean, e.ratingStDev, e.lastPlayedDate)
  }

  /** A stored membership survives the round trip through the cached roster. */
  lemma MemberRoundTrip(playerId: int, m: ClubMember)
    ensures MemberOf(EntryOfMember(playerId, m)) == m
    ensures EntryOfMember(playerId, m).playerId == playerId
  {
  }

  /** `order` is the order in which the store returns this club's
      ClubMember rows: each of the club's member ids exactly once (the query
      leaves the order open). */
  ghost predicate RosterOrder(s: Store, clubId: int, order: seq<int>) {
    (forall p :: p in order <==> (clubId, p) in s.members) &&
    (forall i, j :: 0 <= i < j < |order| ==> order[i] != order[j])
  }

  /** The cached roster: the club's ClubMember rows read back as entries,
      one per member, in the order the store returns them. */
  function CachedRoster(s: Store, clubId: int, order: seq<int>): (r: seq<ClubRosterEntry>)
    requires RosterOrder(s, clubId, order)
    ensures |r| == |order|
    ensures forall i :: 0 <= i < |r| ==> r[i].playerId == order[i] && MemberOf(r[i]) == s.members[(clubId, order[i])]
    ensures forall p :: (clubId, p) in s.members <==> exists i :: 0 <= i < |r| && r[i].playerId == p
    ensures forall i, j :: 0 <= i < j < |r| ==> r[i].playerId != r[j].playerId
  {
    var r := seq(|order|, i requires 0 <= i < |order| => EntryOfMember(order[i], s.members[(clubId, order[i])]));
    assert forall p :: (clubId, p) in s.members ==> exists i :: 0 <= i < |r| && r[i].playerId == p by {
      forall p | (clubId, p) in s.members
        ensures exists i :: 0 <= i < |r| && r[i].playerId == p
      {
        var i :| 0 <= i < |order| && order[i] == p;
        assert r[i].playerId == p;
      }
    }
    r
  }

  /** The roster source: the store in cache mode, the club page otherwise. */
  function LoadRoster(s: Store, remote: Remote, host: Host, clubId: int, opts: ClubOptions, order: seq<int>): (r: Result<seq<ClubRosterEntry>, SyncError>)
    requires CacheMode(opts) ==> RosterOrder(s, clubId, order)
    ensures CacheMode(opts) ==> r == Success(CachedRoster(s, clubId, order))
    ensures !CacheMode(opts) ==> r == FetchClubRoster(remote, host.parseDate, clubId, ClubName(opts))
  {
    if CacheMode(opts) then Success(CachedRoster(s, clubId, order))
    else FetchClubRoster(remote, host.parseDate, clubId, ClubName(opts))
  }

  /** In cache mode the roster is empty exactly when the club has no stored
      memberships. */
  lemma CachedRosterEmpty(s: Store, clubId: int, order: seq<int>)
    requires RosterOrder(s, clubId, order)
    ensures |CachedRoster(s, clubId, order)| == 0 <==> forall p :: (clubId, p) !in s.members
  {
    if |order| > 0 {
      assert order[0] in order;
    }
  }

  // ---------------------------------------------------------------------
  // Live-mode writes

  /** The first Club upsert: name, `in_progress`, no error, stamped now. */
  function MarkClub(s: Store, clubId: int, name: string, now: Date): (r: Store)
    ensures Valid(s) ==> Valid(r)
    ensures r == s.(clubs := r.clubs)
    ensures r.clubs.Keys == s.clubs.Keys + {clubId}
    ensures forall c :: c in s.clubs && c != clubId ==> r.clubs[c] == s.clubs[c]
    ensures r.clubs[clubId] == Club(name, InProgress, None, Some(now))
  {
    s.(clubs := s.clubs[clubId := Club(name, InProgress, None, Some(now))])
  }

  /** The terminal Club update. */
  function FinishClub(s: Store, clubId: int, now: Date): (r: Store)
    requires clubId in s.clubs
    ensures Valid(s) ==> Valid(r)
    ensures r == s.(clubs := r.clubs)
    ensures r.clubs.Keys == s.clubs.Keys
    ensures r.clubs[clubId] == s.clubs[clubId].(syncStatus := Ok, syncError := None, lastSyncedAt := Some(now))
  {
    s.(clubs := s.clubs[clubId := s.clubs[clubId].(syncStatus := Ok, syncError := None, lastSyncedAt := Some(now))])
  }

  /** `a` is `b` with at most its display name changed. */
  predicate SameButName(a: Player, b: Player) {
    a.(displayName := b.displayName) == b
  }

  /** The Player upsert of a roster member: only the display name changes; a
      created row gets the schema defaults. */
  function UpsertRosterPlayer(players: map<int, Player>, e: ClubRosterEntry): (r: map<int, Player>)
    ensures r.Keys == players.Keys + {e.playerId}
    ensures forall q :: q in players && q != e.playerId ==> r[q] == players[q]
    ensures r[e.playerId].displayName == e.displayName
    ensures e.playerId in players ==> SameButName(r[e.playerId], players[e.playerId])
    ensures e.playerId !in players ==> r[e.playerId] == Player(e.displayName, None, NewPlayerStatus, None, None)
  {
    var p := if e.playerId in players then players[e.playerId].(displayName := e.displayName)
             else Player(e.displayName, None, NewPlayerStatus, None, None);
    players[e.playerId := p]
  }

  /** One iteration of the member loop: the Player upsert, then the
      ClubMember upsert. */
  function UpsertMember(s: Store, clubId: int, e: ClubRosterEntry): (r: Store)
    ensures Valid(s) ==> Valid(r)
    ensures r == s.(players := r.players, members := r.members)
    ensures r.players == UpsertRosterPlayer(s.players, e)
    ensures r.members == s.members[(clubId, e.playerId) := MemberOf(e)]
  {
    s.(players := UpsertRosterPlayer(s.players, e), members := s.members[(clubId, e.playerId) := MemberOf(e)])
  }

  function MemberStep(clubId: int): (Store, ClubRosterEntry) -> Store {
    (t: Store, e: ClubRosterEntry) => UpsertMember(t, clubId, e)
  }

  /** The member loop over the roster, in order. Player rows are only ever
      added or renamed; other clubs' memberships and every other table are
      left alone. */
  function UpsertRoster(s: Store, clubId: int, roster: seq<ClubRosterEntry>): (r: Store)
    ensures Valid(s) ==> Valid(r)
    ensures r == s.(players := r.players, members := r.members)
    ensures forall q :: q in s.players ==> q in r.players && SameButName(r.players[q], s.players[q])
    ensures forall k :: k in s.members && k.0 != clubId ==> k in r.members && r.members[k] == s.members[k]
    ensures forall k :: k in r.members && k.0 != clubId ==> k in s.members
  {
    var step := MemberStep(clubId);
    FoldInvariant(step, (t: Store) => Valid(s) ==> Valid(t), s, roster);
    FoldInvariant(step, (t: Store) => t == s.(players := t.players, members := t.members), s, roster);
    FoldInvariant(step, (t: Store) => forall q :: q in s.players ==> q in t.players && SameButName(t.players[q], s.players[q]), s, roster);
    FoldInvariant(step, (t: Store) => forall k :: k in s.members && k.0 != clubId ==> k in t.members && t.members[k] == s.members[k], s, roster);
    FoldInvariant(step, (t: Store) => forall k :: k in t.members && k.0 != clubId ==> k in s.members, s, roster);
    Fold(step, s, roster)
  }

  /** Entries after the last one of a player leave that player's membership alone. */
  lemma {:induction false} UpsertRosterUntouched(s: Store, clubId: int, roster: seq<ClubRosterEntry>, playerId: int)
    requires forall j :: 0 <= j < |roster| ==> roster[j].playerId != playerId
    ensures (clubId, playerId) in s.members ==> (clubId, playerId) in UpsertRoster(s, clubId, roster).members
    ensures (clubId, playerId) in s.members ==> UpsertRoster(s, clubId, roster).members[(clubId, playerId)] == s.members[(clubId, playerId)]
    ensures playerId in s.players ==> playerId in UpsertRoster(s, clubId, roster).players
    decreases |roster|
  {
    if |roster| > 0 {
      UpsertRosterUntouched(UpsertMember(s, clubId, roster[0]), clubId, roster[1..], playerId);
    }
  }

  /** Every roster member ends with a Player row and a ClubMember row, the
      latter written from the member's last roster entry. */
  lemma MemberWrittenFromLastEntry(s: Store, clubId: int, roster: seq<ClubRosterEntry>, i: int)
    requires 0 <= i < |roster|
    requires forall j :: i < j < |roster| ==> roster[j].playerId != roster[i].playerId
    ensures roster[i].playerId in UpsertRoster(s, clubId, roster).players
    ensures (clubId, roster[i].playerId) in UpsertRoster(s, clubId, roster).members
    ensures UpsertRoster(s, clubId, roster).members[(clubId, roster[i].playerId)] == MemberOf(roster[i])
  {
    var step := MemberStep(clubId);
    var p := roster[i].playerId;
    assert roster == roster[..i] + [roster[i]] + roster[i + 1..];
    FoldAppend(step, s, roster[..i] + [roster[i]], roster[i + 1..]);
    FoldAppend(step, s, roster[..i], [roster[i]]);
    var mid := Fold(step, s, roster[..i + 1]);
    assert roster[..i] + [roster[i]] == roster[..i + 1];
    assert mid == UpsertMember(Fold(step, s, roster[..i]), clubId, roster[i]) by {
      assert [roster[i]][1..] == [];
    }
    UpsertRosterUntouched(mid, clubId, roster[i + 1..], p);
  }

  // ---------------------------------------------------------------------
  // The player cascade

  /** One guarded `syncPlayer(member.playerId, { monthsBack })` call: a
      failure is caught and leaves the store as it was. */
  function TryPlayerSync(s: Store, remote: Remote, host: Host, monthsBack: int, e: ClubRosterEntry): (r: Store)
    ensures Valid(s) ==> Valid(r)
    ensures r.clubs == s.clubs && r.members == s.members
    ensures SyncPlayer(s, remote, host, e.playerId, PlayerOptions(None, Some(monthsBack))).Failure? ==> r == s
    ensures SyncPlayer(s, remote, host, e.playerId, PlayerOptions(None, Some(monthsBack))).Success? ==>
      r == SyncPlayer(s, remote, host, e.playerId, PlayerOptions(None, Some(monthsBack))).value
  {
    match SyncPlayer(s, remote, host, e.playerId, PlayerOptions(None, Some(monthsBack)))
    case Success(t) => t
    case Failure(_) => s
  }

  function PlayerStep(remote: Remote, host: Host, monthsBack: int): (Store, ClubRosterEntry) -> Store {
    (t: Store, e: ClubRosterEntry) => TryPlayerSync(t, remote, host, monthsBack, e)
  }

  /** The loop over the roster: clubs and memberships are untouched and the
      store invariants survive. */
  function CascadePlayers(s: Store, remote: Remote, host: Host, monthsBack: int, roster: seq<ClubRosterEntry>): (r: Store)
    ensures Valid(s) ==> Valid(r)
    ensures r.clubs == s.clubs && r.members == s.members
  {
    var step := PlayerStep(remote, host, monthsBack);
    FoldInvariant(step, (t: Store) => Valid(s) ==> Valid(t), s, roster);
    FoldInvariant(step, (t: Store) => t.clubs == s.clubs && t.members == s.members, s, roster);
    Fold(step, s, roster)
  }

  /** Failure isolation: a member whose sync fails, wherever it sits in the
      roster, changes nothing and the loop goes on as if it were absent. */
  lemma CascadeSkipsFailedPlayer(s: Store, remote: Remote, host: Host, monthsBack: int,
                                 xs: seq<ClubRosterEntry>, e: ClubRosterEntry, ys: seq<ClubRosterEntry>)
    requires SyncPlayer(CascadePlayers(s, remote, host, monthsBack, xs), remote, host, e.playerId, PlayerOptions(None, Some(monthsBack))).Failure?
    ensures CascadePlayers(s, remote, host, monthsBack, xs + [e] + ys) == CascadePlayers(s, remote, host, monthsBack, xs + ys)
  {
    FoldSkip(PlayerStep(remote, host, monthsBack), s, xs, e, ys);
  }

  /** A member whose sync succeeds, wherever it sits in the roster, has
      that sync's store carried into the rest of the loop. */
  lemma CascadeAttemptsEach(s: Store, remote: Remote, host: Host, monthsBack: int,
                            xs: seq<ClubRosterEntry>, e: ClubRosterEntry, ys: seq<ClubRosterEntry>)
    requires SyncPlayer(CascadePlayers(s, remote, host, monthsBack, xs), remote, host, e.playerId, PlayerOptions(None, Some(monthsBack))).Success?
    ensures CascadePlayers(s, remote, host, monthsBack, xs + [e] + ys)
         == CascadePlayers(SyncPlayer(CascadePlayers(s, remote, host, monthsBack, xs), remote, host, e.playerId, PlayerOptions(None, Some(monthsBack))).value,
                           remote, host, monthsBack, ys)
  {
    var step := PlayerStep(remote, host, monthsBack);
    FoldAppend(step, s, xs + [e], ys);
    FoldAppend(step, s, xs, [e]);
    assert [e][1..] == [];
  }

  // ---------------------------------------------------------------------
  // The pipeline

  /** `a` and `b` agree on every table a player sync writes. */
  predicate SamePlayerTables(a: Store, b: Store) {
    && a.players == b.players
    && a.history == b.history
    && a.events == b.events
    && a.summaries == b.summaries
    && a.matches == b.matches
  }

  /** Everything after a non-empty roster has been loaded. */
  function ApplyRoster(s: Store, remote: Remote, host: Host, clubId: int, opts: ClubOptions, roster: seq<ClubRosterEntry>): (r: Store)
    ensures Valid(s) ==> Valid(r)
    // cache mode: no Club, Player or ClubMember write of its own
    ensures CacheMode(opts) && !SyncPlayersOn(opts) ==> r == s
    ensures CacheMode(opts) ==> r.clubs == s.clubs && r.members == s.members
    ensures CacheMode(opts) && SyncPlayersOn(opts) ==> r == CascadePlayers(s, remote, host, ClubMonthsBack(opts), roster)
    // live mode: the Club ends `ok` under its given name
    ensures !CacheMode(opts) ==> clubId in r.clubs && r.clubs[clubId] == Club(ClubName(opts), Ok, None, Some(host.now))
    ensures !CacheMode(opts) ==> forall c :: c in s.clubs && c != clubId ==> c in r.clubs && r.clubs[c] == s.clubs[c]
    ensures !CacheMode(opts) ==> r.members == UpsertRoster(MarkClub(s, clubId, ClubName(opts), host.now), clubId, roster).members
    // live mode: the member cascade runs on the upserted roster when asked for
    ensures !CacheMode(opts) && SyncPlayersOn(opts) ==>
      SamePlayerTables(r, CascadePlayers(UpsertRoster(MarkClub(s, clubId, ClubName(opts), host.now), clubId, roster), remote, host, ClubMonthsBack(opts), roster))
    ensures !CacheMode(opts) && !SyncPlayersOn(opts) ==>
      SamePlayerTables(r, UpsertRoster(MarkClub(s, clubId, ClubName(opts), host.now), clubId, roster))
  {
    var cache := CacheMode(opts);
    var s1 := if cache then s else UpsertRoster(MarkClub(s, clubId, ClubName(opts), host.now), clubId, roster);
    var s2 := if SyncPlayersOn(opts) then CascadePlayers(s1, remote, host, ClubMonthsBack(opts), roster) else s1;
    if cache then s2 else FinishClub(s2, clubId, host.now)
  }

  /** `syncClub(clubId, options)`. A failed or empty roster is raised
      before anything is written; a failing player sync is caught inside
      the cascade. */
  function SyncClub(s: Store, remote: Remote, host: Host, clubId: int, opts: ClubOptions, order: seq<int>): (r: Result<Store, SyncError>)
    requires CacheMode(opts) ==> RosterOrder(s, clubId, order)
    ensures LoadRoster(s, remote, host, clubId, opts, order).Failure? ==> r.Failure?
    ensures LoadRoster(s, remote, host, clubId, opts, order).Success? && |LoadRoster(s, remote, host, clubId, opts, order).value| == 0
      ==> r == Failure(RosterEmpty)
    ensures r.Success? <==> LoadRoster(s, remote, host, clubId, opts, order).Success? && |LoadRoster(s, remote, host, clubId, opts, order).value| > 0
    ensures Valid(s) && r.Success? ==> Valid(r.value)
    ensures r.Success? ==> r.value == ApplyRoster(s, remote, host, clubId, opts, LoadRoster(s, remote, host, clubId, opts, order).value)
  {
    var roster :- LoadRoster(s, remote, host, clubId, opts, order);
    if |roster| == 0 then Failure(RosterEmpty)
    else Success(ApplyRoster(s, remote, host, clubId, opts, roster))
  }

  /** In cache mode the sync fails with `RosterEmpty` exactly when the club
      has no stored memberships, and succeeds otherwise. */
  lemma CacheSyncNeedsMembers(s: Store, remote: Remote, host: Host, clubId: int, opts: ClubOptions, order: seq<int>)
    requires CacheMode(opts) && RosterOrder(s, clubId, order)
    ensures SyncClub(s, remote, host, clubId, opts, order) == Failure(RosterEmpty) <==> forall p :: (clubId, p) !in s.members
    ensures SyncClub(s, remote, host, clubId, opts, order).Success? <==> exists p :: (clubId, p) in s.members
  {
    CachedRosterEmpty(s, clubId, order);
  }

  /** In live mode every roster member ends with a ClubMember row of this
      club, written from its last roster entry. */
  lemma LiveRosterWritten(s: Store, remote: Remote, host: Host, clubId: int, opts: ClubOptions, roster: seq<ClubRosterEntry>, i: int)
    requires !CacheMode(opts)
    requires 0 <= i < |roster|
    requires forall j :: i < j < |roster| ==> roster[j].playerId != roster[i].playerId
    ensures var r := ApplyRoster(s, remote, host, clubId, opts, roster);
      (clubId, roster[i].playerId) in r.members && r.members[(clubId, roster[i].playerId)] == MemberOf(roster[i])
  {
    MemberWrittenFromLastEntry(MarkClub(s, clubId, ClubName(opts), host.now), clubId, roster, i);
  }
}
