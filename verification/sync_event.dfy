/** `syncEventForPlayer` (backend/src/services/sync-event.ts): refresh one
    player's view of one event — the Event row, the player's EventSummary
    row and the player's set of EventMatch rows — from the event's summary
    and detail exports, unless the store already holds a complete copy. */
module EventSync {
  import opened Wrappers
  import opened Text
  import opened Errors
  import opened Parse
  import opened Seqs
  import opened EventDetailFeed
  import opened EventSummaryFeed
  import opened Store
  import opened Remote

  /** What the caller already knows about the event. */
  datatype EventMeta = EventMeta(name: Option<string>, date: Option<Date>)

  /** The number of match rows whose opponent name is still unresolved. */
  function MissingNames(rows: seq<EventMatch>): (n: nat)
    ensures n <= |rows|
    ensures n == 0 <==> forall i :: 0 <= i < |rows| ==> rows[i].opponentName.Some?
  {
    if |rows| == 0 then 0
    else
      var n := MissingNames(rows[1..]);
      assert forall i :: 1 <= i < |rows| ==> rows[i] == rows[1..][i - 1];
      (if rows[0].opponentName.None? then 1 else 0) + n
  }

  /** The completeness probe: a summary, at least one match, and every
      match's opponent named. */
  predicate AlreadyStored(s: Store, eventId: int, playerId: int) {
    && (eventId, playerId) in s.summaries
    && |MatchesOf(s, eventId, playerId)| > 0
    && MissingNames(MatchesOf(s, eventId, playerId)) == 0
  }

  // ---------------------------------------------------------------------
  // The name map

  /** A summary row that contributes to the name map. */
  predicate Named(row: EventSummaryRow) {
    row.playerId != 0 && row.playerName != ""
  }

  /** Row `i` is the last named row for `id`. */
  ghost predicate LastNamed(rows: seq<EventSummaryRow>, id: int, i: int) {
    && 0 <= i < |rows| && Named(rows[i]) && rows[i].playerId == id
    && forall j :: i < j < |rows| ==> !(Named(rows[j]) && rows[j].playerId == id)
  }

  /** Player id to name, built by `Map.set` over the summary rows in order,
      so the last named row for an id wins (`NameMapDomain`, `NameMapLastWins`). */
  function NameMap(rows: seq<EventSummaryRow>): map<int, string> {
    if |rows| == 0 then map[]
    else
      var last := rows[|rows| - 1];
      var m0 := NameMap(rows[..|rows| - 1]);
      if Named(last) then m0[last.playerId := last.playerName] else m0
  }

  /** Exactly the ids of named rows are in the map. */
  lemma {:induction false} NameMapDomain(rows: seq<EventSummaryRow>, id: int)
    ensures id in NameMap(rows) <==> exists i :: 0 <= i < |rows| && Named(rows[i]) && rows[i].playerId == id
    decreases |rows|
  {
    if |rows| > 0 {
      var init := rows[..|rows| - 1];
      NameMapDomain(init, id);
      if id in NameMap(init) {
        var i :| 0 <= i < |init| && Named(init[i]) && init[i].playerId == id;
        assert rows[i] == init[i];
      }
      if exists i :: 0 <= i < |rows| && Named(rows[i]) && rows[i].playerId == id {
        var i :| 0 <= i < |rows| && Named(rows[i]) && rows[i].playerId == id;
        if i < |init| {
          assert init[i] == rows[i];
        }
      }
    }
  }

  /** The name stored for an id is the name of its last named row. */
  lemma {:induction false} NameMapLastWins(rows: seq<EventSummaryRow>, id: int)
    requires id in NameMap(rows)
    ensures exists i :: LastNamed(rows, id, i) && NameMap(rows)[id] == rows[i].playerName
    decreases |rows|
  {
    var init := rows[..|rows| - 1];
    var last := rows[|rows| - 1];
    if Named(last) && id == last.playerId {
      assert LastNamed(rows, id, |rows| - 1);
    } else {
      NameMapLastWins(init, id);
      var i :| LastNamed(init, id, i) && NameMap(init)[id] == init[i].playerName;
      assert rows[i] == init[i];
      assert LastNamed(rows, id, i);
    }
  }

  /** The name the map gives `id`, if any (`nameMap.get(id) ?? null`). */
  function Lookup(names: map<int, string>, id: int): Option<string> {
    if id in names then Some(names[id]) else None
  }

  // ---------------------------------------------------------------------
  // The Event row

  /** `meta.name?.trim() || existing?.name || "Event {id}"`. */
  function EventName(meta: EventMeta, existing: Option<Event>, eventId: int): (name: string)
    ensures name != ""
    ensures meta.name.Some? && Trim(meta.name.value) != "" ==> name == Trim(meta.name.value)
    ensures (meta.name.None? || Trim(meta.name.value) == "") && existing.Some? && existing.value.name != ""
      ==> name == existing.value.name
    ensures (meta.name.None? || Trim(meta.name.value) == "") && (existing.None? || existing.value.name == "")
      ==> name == "Event " + IntToString(eventId)
  {
    var given := if meta.name.Some? then Trim(meta.name.value) else "";
    if given != "" then given
    else if existing.Some? && existing.value.name != "" then existing.value.name
    else "Event " + IntToString(eventId)
  }

  /** `meta.date || existing?.date || new Date()`. */
  function EventDate(meta: EventMeta, existing: Option<Event>, now: Date): (date: Date)
    ensures meta.date.Some? ==> date == meta.date.value
    ensures meta.date.None? && existing.Some? ==> date == existing.value.date
    ensures meta.date.None? && existing.None? ==> date == now
  {
    if meta.date.Some? then meta.date.value
    else if existing.Some? then existing.value.date
    else now
  }

  function FindEvent(s: Store, eventId: int): Option<Event> {
    if eventId in s.events then Some(s.events[eventId]) else None
  }

  /** Choosing the name again, with the chosen name now stored, changes
      nothing: a stored real name is never replaced by the placeholder. */
  lemma EventNameStable(meta: EventMeta, existing: Option<Event>, eventId: int, date: Date)
    ensures EventName(meta, Some(Event(EventName(meta, existing, eventId), date)), eventId) == EventName(meta, existing, eventId)
  {
  }

  // ---------------------------------------------------------------------
  // The EventSummary row

  /** Row `i` is the first summary row of `playerId` (`Array.find`). */
  ghost predicate FirstFor(rows: seq<EventSummaryRow>, playerId: int, i: int) {
    0 <= i < |rows| && rows[i].playerId == playerId && forall j :: 0 <= j < i ==> rows[j].playerId != playerId
  }

  function FindSummary(rows: seq<EventSummaryRow>, playerId: int): (r: Option<EventSummaryRow>)
    ensures r.None? <==> forall i :: 0 <= i < |rows| ==> rows[i].playerId != playerId
    ensures r.Some? ==> exists i :: FirstFor(rows, playerId, i) && r.value == rows[i]
  {
    if |rows| == 0 then None
    else if rows[0].playerId == playerId then
      assert FirstFor(rows, playerId, 0);
      Some(rows[0])
    else
      var r := FindSummary(rows[1..], playerId);
      assert forall i :: 1 <= i < |rows| ==> rows[i] == rows[1..][i - 1];
      assert r.Some? ==> exists i :: FirstFor(rows, playerId, i) && r.value == rows[i] by {
        if r.Some? {
          var i :| FirstFor(rows[1..], playerId, i) && r.value == rows[1..][i];
          assert FirstFor(rows, playerId, i + 1);
        }
      }
      r
  }

  function SummaryOf(row: EventSummaryRow): EventSummary {
    EventSummary(row.playerName, row.initialMean, row.initialStDev, row.pointChange, row.finalMean, row.finalStDev)
  }

  // ---------------------------------------------------------------------
  // The EventMatch rows

  /** The detail row has the player as winner or loser. */
  predicate Involves(row: EventDetailRow, playerId: int) {
    row.winnerId == playerId || row.loserId == playerId
  }

  /** The detail rows that involve the player, in source order. */
  function PlayerMatches(rows: seq<EventDetailRow>, playerId: int): (r: seq<EventDetailRow>)
    ensures |r| <= |rows|
    ensures forall i :: 0 <= i < |r| ==> Involves(r[i], playerId)
    ensures IsSubsequence(r, rows)
    ensures |r| == 0 <==> forall i :: 0 <= i < |rows| ==> !Involves(rows[i], playerId)
    ensures forall x :: multiset(r)[x] == if Involves(x, playerId) then multiset(rows)[x] else 0
  {
    var keep := (row: EventDetailRow) => Involves(row, playerId);
    FilterIsSubsequence(keep, rows);
    FilterCounts(keep, rows);
    var r := Filter(keep, rows);
    assert (exists i :: 0 <= i < |rows| && Involves(rows[i], playerId)) ==> |r| > 0 by {
      if exists i :: 0 <= i < |rows| && Involves(rows[i], playerId) {
        var i :| 0 <= i < |rows| && Involves(rows[i], playerId);
        assert rows[i] in r;
      }
    }
    r
  }

  /** The other side of the match. */
  function Opponent(row: EventDetailRow, playerId: int): int {
    if row.winnerId == playerId then row.loserId else row.winnerId
  }

  /** The EventMatch row written for the `index`-th involving detail row. */
  function MatchOf(row: EventDetailRow, playerId: int, names: map<int, string>, index: int): EventMatch {
    EventMatch(
      Lookup(names, Opponent(row, playerId)),
      row.winnerId, row.loserId, row.score,
      row.winnerDelta, row.winnerOppMean, row.winnerOppStDev,
      row.loserDelta, row.loserOppMean, row.loserOppStDev,
      row.matchesPairPlayed,
      index)
  }

  /** The detail row a stored match was made from. */
  function DetailOf(m: EventMatch): EventDetailRow {
    EventDetailRow(
      m.winnerId, m.loserId, m.score,
      m.winnerDelta, m.winnerOppMean, m.winnerOppStDev,
      m.loserDelta, m.loserOppMean, m.loserOppStDev,
      m.matchesPairPlayed)
  }

  function Details(ms: seq<EventMatch>): (rows: seq<EventDetailRow>)
    ensures |rows| == |ms|
    ensures forall i :: 0 <= i < |ms| ==> rows[i] == DetailOf(ms[i])
  {
    seq(|ms|, i requires 0 <= i < |ms| => DetailOf(ms[i]))
  }

  /** `playerMatches.map((row, index) => ...)`. */
  function BuildMatches(rows: seq<EventDetailRow>, playerId: int, names: map<int, string>): (ms: seq<EventMatch>)
    ensures |ms| == |rows|
    ensures Indexed(ms)
    ensures Details(ms) == rows
    ensures forall i :: 0 <= i < |ms| ==> ms[i].opponentName == Lookup(names, Opponent(rows[i], playerId))
  {
    var ms := seq(|rows|, i requires 0 <= i < |rows| => MatchOf(rows[i], playerId, names, i));
    assert Details(ms) == rows;
    ms
  }

  // ---------------------------------------------------------------------
  // The pipeline

  /** `deleteMany` then `createMany` for one `(eventId, playerId)`: the
      set is replaced by `ms` and nothing else changes. */
  function ReplaceMatches(s: Store, eventId: int, playerId: int, ms: seq<EventMatch>): (r: Store)
    ensures Valid(s) && |ms| > 0 && Indexed(ms) ==> Valid(r)
    ensures r == s.(matches := r.matches)
    ensures MatchesOf(r, eventId, playerId) == ms
    ensures forall e, p :: (e, p) != (eventId, playerId) ==> MatchesOf(r, e, p) == MatchesOf(s, e, p)
  {
    s.(matches := s.matches[(eventId, playerId) := ms])
  }

  /** The Event upsert with the chosen name and date. */
  function WriteEvent(s: Store, eventId: int, meta: EventMeta, now: Date): (r: Store)
    ensures Valid(s) ==> Valid(r)
    ensures r == s.(events := r.events)
    ensures r.events == s.events[eventId := Event(EventName(meta, FindEvent(s, eventId), eventId), EventDate(meta, FindEvent(s, eventId), now))]
  {
    var existing := FindEvent(s, eventId);
    s.(events := s.events[eventId := Event(EventName(meta, existing, eventId), EventDate(meta, existing, now))])
  }

  /** The EventSummary upsert, when the summary feed has a row for the player. */
  function WriteSummary(s: Store, eventId: int, playerId: int, summary: seq<EventSummaryRow>): (r: Store)
    ensures Valid(s) ==> Valid(r)
    ensures r == s.(summaries := r.summaries)
    ensures FindSummary(summary, playerId).None? ==> r.summaries == s.summaries
    ensures FindSummary(summary, playerId).Some? ==> r.summaries == s.summaries[(eventId, playerId) := SummaryOf(FindSummary(summary, playerId).value)]
  {
    match FindSummary(summary, playerId)
    case Some(row) => s.(summaries := s.summaries[(eventId, playerId) := SummaryOf(row)])
    case None => s
  }

  /** The EventMatch replacement, when at least one detail row involves the player. */
  function WriteMatches(s: Store, eventId: int, playerId: int, names: map<int, string>, detail: seq<EventDetailRow>): (r: Store)
    ensures Valid(s) ==> Valid(r)
    ensures r == s.(matches := r.matches)
    ensures |PlayerMatches(detail, playerId)| == 0 ==> r.matches == s.matches
    ensures |PlayerMatches(detail, playerId)| > 0 ==> Details(MatchesOf(r, eventId, playerId)) == PlayerMatches(detail, playerId)
    ensures |PlayerMatches(detail, playerId)| > 0 ==> forall i :: 0 <= i < |MatchesOf(r, eventId, playerId)| ==>
      MatchesOf(r, eventId, playerId)[i].opponentName == Lookup(names, Opponent(PlayerMatches(detail, playerId)[i], playerId))
    ensures forall e, p :: (e, p) != (eventId, playerId) ==> MatchesOf(r, e, p) == MatchesOf(s, e, p)
  {
    var mine := PlayerMatches(detail, playerId);
    if |mine| > 0 then ReplaceMatches(s, eventId, playerId, BuildMatches(mine, playerId, names)) else s
  }

  /** `t` agrees with `s` on every Event row except `eventId`'s, and on every
      EventSummary and EventMatch row except those of `(eventId, playerId)`. */
  ghost predicate KeepsOtherEventRows(s: Store, t: Store, eventId: int, playerId: int) {
    && (forall e :: e in s.events && e != eventId ==> e in t.events && t.events[e] == s.events[e])
    && (forall k :: k in s.summaries && k != (eventId, playerId) ==> k in t.summaries && t.summaries[k] == s.summaries[k])
    && (forall e, p :: (e, p) != (eventId, playerId) ==> MatchesOf(t, e, p) == MatchesOf(s, e, p))
  }

  /** Everything after the fetches: the Event upsert, the EventSummary
      upsert and the EventMatch replacement. */
  function ApplyEventFeeds(
    s: Store, eventId: int, playerId: int, meta: EventMeta, now: Date,
    summary: seq<EventSummaryRow>, detail: seq<EventDetailRow>): (r: Store)
    ensures Valid(s) ==> Valid(r)
    ensures r.players == s.players && r.clubs == s.clubs && r.members == s.members && r.history == s.history
    ensures r.events == WriteEvent(s, eventId, meta, now).events
    ensures r.summaries == WriteSummary(s, eventId, playerId, summary).summaries
    ensures r.matches == WriteMatches(s, eventId, playerId, NameMap(summary), detail).matches
    ensures KeepsOtherEventRows(s, r, eventId, playerId)
  {
    var s1 := WriteEvent(s, eventId, meta, now);
    var s2 := WriteSummary(s1, eventId, playerId, summary);
    var r := WriteMatches(s2, eventId, playerId, NameMap(summary), detail);
    var written := match FindSummary(summary, playerId) case Some(row) => Some(SummaryOf(row)) case None => None;
    WritesKeepOtherRows(s, r, eventId, playerId, s1.events[eventId], written);
    r
  }

  /** An upsert of the Event row, an optional upsert of the player's
      EventSummary row and a replacement of the player's match set keep
      every other event's and player's rows. */
  lemma WritesKeepOtherRows(s: Store, r: Store, eventId: int, playerId: int, event: Event, summary: Option<EventSummary>)
    requires r.events == s.events[eventId := event]
    requires summary.None? ==> r.summaries == s.summaries
    requires summary.Some? ==> r.summaries == s.summaries[(eventId, playerId) := summary.value]
    requires forall e, p :: (e, p) != (eventId, playerId) ==> MatchesOf(r, e, p) == MatchesOf(s, e, p)
    ensures KeepsOtherEventRows(s, r, eventId, playerId)
  {
  }

  /** `syncEventForPlayer(eventId, playerId, meta)`. A fetch failure is
      raised before anything is written. */
  function SyncEventForPlayer(s: Store, remote: Remote, now: Date, eventId: int, playerId: int, meta: EventMeta): (r: Result<Store, SyncError>)
    ensures Valid(s) && r.Success? ==> Valid(r.value)
    ensures AlreadyStored(s, eventId, playerId) ==> r == Success(s)
    ensures !AlreadyStored(s, eventId, playerId) ==>
      (r.Failure? <==> remote.summaryCsv(eventId).Failure? || remote.detailCsv(eventId).Failure?)
    ensures r.Success? && !AlreadyStored(s, eventId, playerId) ==>
      r.value == ApplyEventFeeds(s, eventId, playerId, meta, now,
        FetchEventSummary(remote, eventId).value, FetchEventDetail(remote, eventId).value)
  {
    if AlreadyStored(s, eventId, playerId) then Success(s)
    else
      var summary :- FetchEventSummary(remote, eventId);
      var detail :- FetchEventDetail(remote, eventId);
      Success(ApplyEventFeeds(s, eventId, playerId, meta, now, summary, detail))
  }

  /** Writes of one event sync touch only the event's rows: players, clubs,
      memberships and histories are left alone. */
  lemma SyncEventFrame(s: Store, remote: Remote, now: Date, eventId: int, playerId: int, meta: EventMeta)
    requires SyncEventForPlayer(s, remote, now, eventId, playerId, meta).Success?
    ensures var t := SyncEventForPlayer(s, remote, now, eventId, playerId, meta).value;
      t.players == s.players && t.clubs == s.clubs && t.members == s.members && t.history == s.history
    ensures KeepsOtherEventRows(s, SyncEventForPlayer(s, remote, now, eventId, playerId, meta).value, eventId, playerId)
  {
  }

  /** The probe skips all fetches: when the store is complete the outcome
      does not depend on the remote site at all. */
  lemma SkipIgnoresRemote(s: Store, remote1: Remote, remote2: Remote, now: Date, eventId: int, playerId: int, meta: EventMeta)
    requires AlreadyStored(s, eventId, playerId)
    ensures SyncEventForPlayer(s, remote1, now, eventId, playerId, meta) == SyncEventForPlayer(s, remote2, now, eventId, playerId, meta)
  {
  }

  /** A run whose feeds name the player in the summary, involve the player
      in at least one match and name every opponent leaves a complete copy,
      so the next run is skipped and changes nothing. */
  lemma {:induction false} SyncEventIdempotent(
    s: Store, remote: Remote, remote2: Remote, now: Date, now2: Date, eventId: int, playerId: int, meta: EventMeta, meta2: EventMeta)
    requires SyncEventForPlayer(s, remote, now, eventId, playerId, meta).Success?
    requires !AlreadyStored(s, eventId, playerId)
    requires FindSummary(FetchEventSummary(remote, eventId).value, playerId).Some?
    requires |PlayerMatches(FetchEventDetail(remote, eventId).value, playerId)| > 0
    requires forall i :: 0 <= i < |PlayerMatches(FetchEventDetail(remote, eventId).value, playerId)| ==>
      Opponent(PlayerMatches(FetchEventDetail(remote, eventId).value, playerId)[i], playerId) in NameMap(FetchEventSummary(remote, eventId).value)
    ensures var t := SyncEventForPlayer(s, remote, now, eventId, playerId, meta).value;
      AlreadyStored(t, eventId, playerId) && SyncEventForPlayer(t, remote2, now2, eventId, playerId, meta2) == Success(t)
  {
    var summary := FetchEventSummary(remote, eventId).value;
    var detail := FetchEventDetail(remote, eventId).value;
    FeedsLeaveComplete(s, eventId, playerId, meta, now, summary, detail);
  }

  /** The writes of a run whose feeds cover the player leave a complete copy. */
  lemma FeedsLeaveComplete(
    s: Store, eventId: int, playerId: int, meta: EventMeta, now: Date,
    summary: seq<EventSummaryRow>, detail: seq<EventDetailRow>)
    requires FindSummary(summary, playerId).Some?
    requires |PlayerMatches(detail, playerId)| > 0
    requires forall i :: 0 <= i < |PlayerMatches(detail, playerId)| ==>
      Opponent(PlayerMatches(detail, playerId)[i], playerId) in NameMap(summary)
    ensures AlreadyStored(ApplyEventFeeds(s, eventId, playerId, meta, now, summary, detail), eventId, playerId)
  {
    var t := ApplyEventFeeds(s, eventId, playerId, meta, now, summary, detail);
    var ms := MatchesOf(t, eventId, playerId);
    var mine := PlayerMatches(detail, playerId);
    assert MatchesOf(t, eventId, playerId) == MatchesOf(WriteMatches(s, eventId, playerId, NameMap(summary), detail), eventId, playerId);
    assert Details(ms) == mine;
    forall i | 0 <= i < |ms|
      ensures ms[i].opponentName.Some?
    {
      assert ms[i].opponentName == Lookup(NameMap(summary), Opponent(mine[i], playerId));
    }
  }
}
