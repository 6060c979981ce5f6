/** `syncPlayer` (backend/src/services/sync-player.ts): fetch a player's
    rating history, stamp the Player row, write the Event and PlayerHistory
    rows of the events inside the look-back window, then cascade into
    `syncEventForPlayer` once per distinct event, isolating failures. */
module PlayerSync {
  import opened Wrappers
  import opened Text
  import opened Errors
  import opened Parse
  import opened Seqs
  import opened PlayerHistoryFeed
  import opened Store
  import opened Remote
  import opened EventSync

  datatype PlayerOptions = PlayerOptions(syncEvents: Option<bool>, monthsBack: Option<int>)

  const DefaultMonthsBack: int := 12
  const NoHistoryMessage: string := "No player history found."

  /** `options.syncEvents !== false`. */
  predicate SyncEventsOn(opts: PlayerOptions) {
    opts.syncEvents != Some(false)
  }

  /** `options.monthsBack ?? 12`. */
  function MonthsBack(opts: PlayerOptions): int {
    opts.monthsBack.GetOr(DefaultMonthsBack)
  }

  /** `existingPlayer?.displayName || "Player {id}"`. */
  function PlayerDisplayName(s: Store, playerId: int): (name: string)
    ensures name != ""
    ensures playerId in s.players && s.players[playerId].displayName != "" ==> name == s.players[playerId].displayName
    ensures !(playerId in s.players && s.players[playerId].displayName != "") ==> name == "Player " + IntToString(playerId)
  {
    if playerId in s.players && s.players[playerId].displayName != "" then s.players[playerId].displayName
    else "Player " + IntToString(playerId)
  }

  /** The first Player upsert: display name, `in_progress`, no error, stamped now.
      A created row has no avatar. */
  function MarkInProgress(s: Store, playerId: int, now: Date): (r: Store)
    ensures Valid(s) ==> Valid(r)
    ensures r == s.(players := r.players)
    ensures r.players.Keys == s.players.Keys + {playerId}
    ensures forall q :: q in s.players && q != playerId ==> r.players[q] == s.players[q]
    ensures r.players[playerId].syncStatus == InProgress && r.players[playerId].syncError.None?
    ensures r.players[playerId].displayName == PlayerDisplayName(s, playerId)
    ensures playerId in s.players ==> r.players[playerId].avatarUrl == s.players[playerId].avatarUrl
  {
    var name := PlayerDisplayName(s, playerId);
    var p := if playerId in s.players
      then s.players[playerId].(displayName := name, lastSyncedAt := Some(now), syncStatus := InProgress, syncError := None)
      else Player(name, None, InProgress, None, Some(now));
    s.(players := s.players[playerId := p])
  }

  /** The terminal Player update: status, error and time stamp only. */
  function SetStatus(s: Store, playerId: int, status: SyncStatus, error: Option<string>, now: Date): (r: Store)
    requires playerId in s.players
    ensures Valid(s) ==> Valid(r)
    ensures r == s.(players := r.players)
    ensures r.players.Keys == s.players.Keys
    ensures forall q :: q in s.players && q != playerId ==> r.players[q] == s.players[q]
    ensures r.players[playerId] == s.players[playerId].(syncStatus := status, syncError := error, lastSyncedAt := Some(now))
  {
    s.(players := s.players[playerId := s.players[playerId].(syncStatus := status, syncError := error, lastSyncedAt := Some(now))])
  }

  // ---------------------------------------------------------------------
  // Event and PlayerHistory writes

  /** The Event upsert for one history row: the date is always written; the
      name only when the row has one, and a created Event without one gets
      the `Event {id}` placeholder. */
  function UpsertEvent(events: map<int, Event>, row: PlayerHistoryRow): (r: map<int, Event>)
    ensures r.Keys == events.Keys + {row.eventId}
    ensures forall e :: e in events && e != row.eventId ==> r[e] == events[e]
    ensures r[row.eventId].date == row.eventDate
    ensures row.eventName != "" ==> r[row.eventId].name == row.eventName
    ensures row.eventName == "" && row.eventId in events ==> r[row.eventId].name == events[row.eventId].name
    ensures row.eventName == "" && row.eventId !in events ==> r[row.eventId].name == "Event " + IntToString(row.eventId)
  {
    var name :=
      if row.eventName != "" then row.eventName
      else if row.eventId in events then events[row.eventId].name
      else "Event " + IntToString(row.eventId);
    events[row.eventId := Event(name, row.eventDate)]
  }

  function HistoryOf(row: PlayerHistoryRow): History {
    History(row.eventDate, row.eventName, row.initialMean, row.initialStDev, row.pointChange, row.finalMean, row.finalStDev)
  }

  /** Row `i` is the last row for event `e`. */
  ghost predicate LastFor(rows: seq<PlayerHistoryRow>, e: int, i: int) {
    0 <= i < |rows| && rows[i].eventId == e && forall j :: i < j < |rows| ==> rows[j].eventId != e
  }

  /** Some row is for event `e`. */
  predicate Mentions(rows: seq<PlayerHistoryRow>, e: int) {
    exists i :: 0 <= i < |rows| && rows[i].eventId == e
  }

  lemma MentionsSnoc(rows: seq<PlayerHistoryRow>, e: int)
    requires |rows| > 0
    ensures Mentions(rows, e) <==> Mentions(rows[..|rows| - 1], e) || rows[|rows| - 1].eventId == e
  {
    var init := rows[..|rows| - 1];
    if Mentions(rows, e) && rows[|rows| - 1].eventId != e {
      var i :| 0 <= i < |rows| && rows[i].eventId == e;
      assert init[i].eventId == e;
    }
    if Mentions(init, e) {
      var i :| 0 <= i < |init| && init[i].eventId == e;
      assert rows[i].eventId == e;
    }
  }

  /** A last row in a prefix stays last once a row for another event follows. */
  lemma LastForSnoc(rows: seq<PlayerHistoryRow>, e: int, i: int)
    requires |rows| > 0 && rows[|rows| - 1].eventId != e
    requires LastFor(rows[..|rows| - 1], e, i)
    ensures LastFor(rows, e, i) && rows[i] == rows[..|rows| - 1][i]
  {
  }

  /** The Event upserts of the loop, row by row. */
  function EventFold(events: map<int, Event>, rows: seq<PlayerHistoryRow>): (r: map<int, Event>)
    ensures forall e :: e in r <==> e in events || Mentions(rows, e)
    ensures (forall e :: e in events ==> events[e].name != "") ==> forall e :: e in r ==> r[e].name != ""
    decreases |rows|
  {
    if |rows| == 0 then events
    else
      var r0 := EventFold(events, rows[..|rows| - 1]);
      MentionsSnoc(rows, rows[|rows| - 1].eventId);
      assert forall e :: Mentions(rows, e) <==> Mentions(rows[..|rows| - 1], e) || rows[|rows| - 1].eventId == e by {
        forall e
          ensures Mentions(rows, e) <==> Mentions(rows[..|rows| - 1], e) || rows[|rows| - 1].eventId == e
        {
          MentionsSnoc(rows, e);
        }
      }
      UpsertEvent(r0, rows[|rows| - 1])
  }

  /** The PlayerHistory upserts of the loop, row by row. */
  function HistoryFold(history: map<(int, int), History>, playerId: int, rows: seq<PlayerHistoryRow>): (r: map<(int, int), History>)
    ensures forall k :: k in r <==> k in history || (k.0 == playerId && Mentions(rows, k.1))
    decreases |rows|
  {
    if |rows| == 0 then history
    else
      var row := rows[|rows| - 1];
      var r0 := HistoryFold(history, playerId, rows[..|rows| - 1]);
      assert forall e :: Mentions(rows, e) <==> Mentions(rows[..|rows| - 1], e) || row.eventId == e by {
        forall e
          ensures Mentions(rows, e) <==> Mentions(rows[..|rows| - 1], e) || row.eventId == e
        {
          MentionsSnoc(rows, e);
        }
      }
      r0[(playerId, row.eventId) := HistoryOf(row)]
  }

  /** The loop over the recent rows: for each row the Event upsert, then the
      PlayerHistory upsert. The two touch different tables, so the loop's
      effect is the two folds side by side. */
  function WriteHistory(s: Store, playerId: int, rows: seq<PlayerHistoryRow>): (r: Store)
    ensures Valid(s) ==> Valid(r)
    ensures r == s.(events := r.events, history := r.history)
    ensures forall e :: e in r.events <==> e in s.events || Mentions(rows, e)
    ensures forall k :: k in r.history <==> k in s.history || (k.0 == playerId && Mentions(rows, k.1))
    ensures KeepsUnmentionedEvents(s, r, playerId, rows)
    ensures forall k :: k in s.history && (k.0 != playerId || !Mentions(rows, k.1)) ==> r.history[k] == s.history[k]
  {
    FoldsUntouched(s, playerId, rows);
    var r := s.(events := EventFold(s.events, rows), history := HistoryFold(s.history, playerId, rows));
    KeepsAllEvents(s, r, playerId, rows);
    r
  }

  /** Both folds leave the rows of unmentioned events alone. */
  lemma FoldsUntouched(s: Store, playerId: int, rows: seq<PlayerHistoryRow>)
    ensures forall e :: e in s.events && !Mentions(rows, e) ==> EventFold(s.events, rows)[e] == s.events[e]
    ensures forall k :: k in s.history && (k.0 != playerId || !Mentions(rows, k.1)) ==> HistoryFold(s.history, playerId, rows)[k] == s.history[k]
  {
    forall e | e in s.events && !Mentions(rows, e)
      ensures EventFold(s.events, rows)[e] == s.events[e]
    {
      EventFoldUntouched(s.events, rows, e);
    }
    forall k | k in s.history && (k.0 != playerId || !Mentions(rows, k.1))
      ensures HistoryFold(s.history, playerId, rows)[k] == s.history[k]
    {
      HistoryFoldUntouched(s.history, playerId, rows, k);
    }
  }

  /** The PlayerHistory row of an event is written from the last row for it. */
  lemma {:induction false} HistoryLastWins(history: map<(int, int), History>, playerId: int, rows: seq<PlayerHistoryRow>, e: int)
    requires Mentions(rows, e)
    ensures (playerId, e) in HistoryFold(history, playerId, rows)
    ensures exists i :: LastFor(rows, e, i) && HistoryFold(history, playerId, rows)[(playerId, e)] == HistoryOf(rows[i])
    decreases |rows|
  {
    var init := rows[..|rows| - 1];
    var row := rows[|rows| - 1];
    if row.eventId == e {
      assert LastFor(rows, e, |rows| - 1);
    } else {
      MentionsSnoc(rows, e);
      HistoryLastWins(history, playerId, init, e);
      var i :| LastFor(init, e, i) && HistoryFold(history, playerId, init)[(playerId, e)] == HistoryOf(init[i]);
      LastForSnoc(rows, e, i);
    }
  }

  /** The Event row of an event is dated by the last row for it. */
  lemma {:induction false} EventDateLastWins(events: map<int, Event>, rows: seq<PlayerHistoryRow>, e: int)
    requires Mentions(rows, e)
    ensures e in EventFold(events, rows)
    ensures exists i :: LastFor(rows, e, i) && EventFold(events, rows)[e].date == rows[i].eventDate
    decreases |rows|
  {
    var init := rows[..|rows| - 1];
    var row := rows[|rows| - 1];
    if row.eventId == e {
      assert LastFor(rows, e, |rows| - 1);
    } else {
      MentionsSnoc(rows, e);
      EventDateLastWins(events, init, e);
      var i :| LastFor(init, e, i) && EventFold(events, init)[e].date == init[i].eventDate;
      LastForSnoc(rows, e, i);
    }
  }

  /** Rows without a name never overwrite a stored Event name. */
  lemma {:induction false} EventNameKept(events: map<int, Event>, rows: seq<PlayerHistoryRow>, e: int)
    requires e in events
    requires forall i :: 0 <= i < |rows| && rows[i].eventId == e ==> rows[i].eventName == ""
    ensures EventFold(events, rows)[e].name == events[e].name
    decreases |rows|
  {
    if |rows| > 0 {
      var init := rows[..|rows| - 1];
      assert forall i :: 0 <= i < |init| ==> init[i] == rows[i];
      EventNameKept(events, init, e);
    }
  }

  /** Rows of other events leave an Event row alone. */
  lemma {:induction false} EventFoldUntouched(events: map<int, Event>, rows: seq<PlayerHistoryRow>, e: int)
    requires e in events && !Mentions(rows, e)
    ensures EventFold(events, rows)[e] == events[e]
    decreases |rows|
  {
    if |rows| > 0 {
      MentionsSnoc(rows, e);
      EventFoldUntouched(events, rows[..|rows| - 1], e);
    }
  }

  /** PlayerHistory rows of other players, or of events without a row, are left alone. */
  lemma {:induction false} HistoryFoldUntouched(history: map<(int, int), History>, playerId: int, rows: seq<PlayerHistoryRow>, k: (int, int))
    requires k in history && (k.0 != playerId || !Mentions(rows, k.1))
    ensures HistoryFold(history, playerId, rows)[k] == history[k]
    decreases |rows|
  {
    if |rows| > 0 {
      MentionsSnoc(rows, k.1);
      HistoryFoldUntouched(history, playerId, rows[..|rows| - 1], k);
    }
  }

  /** `r` agrees with `s` on the Event rows of the events no row mentions,
      and on the EventSummary and EventMatch rows of other players or of
      such events. */
  ghost predicate KeepsUnmentionedEvents(s: Store, r: Store, playerId: int, rows: seq<PlayerHistoryRow>) {
    && (forall e :: e in s.events && !Mentions(rows, e) ==> e in r.events && r.events[e] == s.events[e])
    && (forall k :: k in s.summaries && (k.1 != playerId || !Mentions(rows, k.0)) ==> k in r.summaries && r.summaries[k] == s.summaries[k])
    && (forall e, p :: p != playerId || !Mentions(rows, e) ==> MatchesOf(r, e, p) == MatchesOf(s, e, p))
  }

  /** Two runs that each keep the rows of unmentioned events keep them
      together, when the second run's events are among the first's. */
  lemma KeepsUnmentionedTrans(s: Store, t: Store, u: Store, playerId: int, rows: seq<PlayerHistoryRow>, later: seq<PlayerHistoryRow>)
    requires KeepsUnmentionedEvents(s, t, playerId, rows)
    requires KeepsUnmentionedEvents(t, u, playerId, later)
    requires forall e :: Mentions(later, e) ==> Mentions(rows, e)
    ensures KeepsUnmentionedEvents(s, u, playerId, rows)
  {
  }

  // ---------------------------------------------------------------------
  // The cascade

  /** Position of the row for event `e`, if any. */
  function IndexOfEvent(rows: seq<PlayerHistoryRow>, e: int): (r: Option<nat>)
    ensures r.None? <==> forall i :: 0 <= i < |rows| ==> rows[i].eventId != e
    ensures r.Some? ==> r.value < |rows| && rows[r.value].eventId == e
  {
    if |rows| == 0 then None
    else if rows[|rows| - 1].eventId == e then Some(|rows| - 1)
    else IndexOfEvent(rows[..|rows| - 1], e)
  }

  /** No two rows are for the same event. */
  predicate DistinctEvents(rows: seq<PlayerHistoryRow>) {
    forall i, j :: 0 <= i < j < |rows| ==> rows[i].eventId != rows[j].eventId
  }

  /** `new Map(rows.map(row => [row.eventId, row])).values()`: one row per
      event, in order of first appearance, holding the last row for it
      (`UniqueByEventDistinct`, `UniqueByEventCovers`, `UniqueByEventLastWins`,
      `UniqueByEventOrder`). */
  function UniqueByEvent(rows: seq<PlayerHistoryRow>): (u: seq<PlayerHistoryRow>)
    ensures |u| <= |rows|
  {
    if |rows| == 0 then []
    else
      var row := rows[|rows| - 1];
      var u0 := UniqueByEvent(rows[..|rows| - 1]);
      match IndexOfEvent(u0, row.eventId)
      case Some(j) => u0[j := row]
      case None => u0 + [row]
  }

  lemma {:induction false} UniqueByEventDistinct(rows: seq<PlayerHistoryRow>)
    ensures DistinctEvents(UniqueByEvent(rows))
    decreases |rows|
  {
    if |rows| > 0 {
      UniqueByEventDistinct(rows[..|rows| - 1]);
    }
  }

  /** Every event of the input has its row in the output. */
  lemma {:induction false} UniqueByEventCovers(rows: seq<PlayerHistoryRow>, e: int)
    ensures Mentions(UniqueByEvent(rows), e) <==> Mentions(rows, e)
    decreases |rows|
  {
    if |rows| > 0 {
      var init := rows[..|rows| - 1];
      var row := rows[|rows| - 1];
      var u0 := UniqueByEvent(init);
      var u := UniqueByEvent(rows);
      UniqueByEventCovers(init, e);
      MentionsSnoc(rows, e);
      match IndexOfEvent(u0, row.eventId)
      case Some(j) =>
        if Mentions(u0, e) {
          var k :| 0 <= k < |u0| && u0[k].eventId == e;
          assert u[k].eventId == e;
        }
        if Mentions(u, e) {
          var k :| 0 <= k < |u| && u[k].eventId == e;
          if k != j {
            assert u0[k].eventId == e;
          }
        }
      case None =>
        MentionsSnoc(u, e);
        assert u[..|u| - 1] == u0;
    }
  }

  /** Each output row is the last input row for its event. */
  lemma {:induction false} UniqueByEventLastWins(rows: seq<PlayerHistoryRow>, k: int)
    requires 0 <= k < |UniqueByEvent(rows)|
    ensures exists i :: LastFor(rows, UniqueByEvent(rows)[k].eventId, i) && UniqueByEvent(rows)[k] == rows[i]
    decreases |rows|
  {
    var init := rows[..|rows| - 1];
    var row := rows[|rows| - 1];
    var u0 := UniqueByEvent(init);
    var u := UniqueByEvent(rows);
    UniqueByEventDistinct(init);
    var at := match IndexOfEvent(u0, row.eventId) case Some(j) => j case None => |u0|;
    if k == at {
      assert u[k] == row;
      assert LastFor(rows, row.eventId, |rows| - 1);
    } else {
      assert k < |u0| && u[k] == u0[k] && u0[k].eventId != row.eventId;
      UniqueByEventLastWins(init, k);
      var i :| LastFor(init, u0[k].eventId, i) && u0[k] == init[i];
      LastForSnoc(rows, u[k].eventId, i);
    }
  }

  /** Row `i` is the first row for event `e`. */
  ghost predicate FirstFor(rows: seq<PlayerHistoryRow>, e: int, i: int) {
    0 <= i < |rows| && rows[i].eventId == e && forall j :: 0 <= j < i ==> rows[j].eventId != e
  }

  lemma {:induction false} FirstForExists(rows: seq<PlayerHistoryRow>, e: int)
    requires Mentions(rows, e)
    ensures exists i :: FirstFor(rows, e, i)
    decreases |rows|
  {
    var init := rows[..|rows| - 1];
    MentionsSnoc(rows, e);
    if Mentions(init, e) {
      FirstForExists(init, e);
      var i :| FirstFor(init, e, i);
      assert FirstFor(rows, e, i);
    } else {
      assert FirstFor(rows, e, |rows| - 1);
    }
  }

  /** A first row in a prefix is a first row of the whole. */
  lemma FirstForPrefix(rows: seq<PlayerHistoryRow>, e: int, i: int)
    requires |rows| > 0 && FirstFor(rows[..|rows| - 1], e, i)
    ensures FirstFor(rows, e, i)
  {
  }

  /** The output lists the events in the order of their first appearance in
      the input, as a `Map` keeps the insertion order of its keys. */
  lemma {:induction false} UniqueByEventOrder(rows: seq<PlayerHistoryRow>, k: int, l: int)
    requires 0 <= k < l < |UniqueByEvent(rows)|
    ensures exists i, j :: i < j && FirstFor(rows, UniqueByEvent(rows)[k].eventId, i) && FirstFor(rows, UniqueByEvent(rows)[l].eventId, j)
    decreases |rows|
  {
    var init := rows[..|rows| - 1];
    var row := rows[|rows| - 1];
    var u0 := UniqueByEvent(init);
    var u := UniqueByEvent(rows);
    if l < |u0| {
      assert u[k].eventId == u0[k].eventId && u[l].eventId == u0[l].eventId;
      UniqueByEventOrder(init, k, l);
      var i, j :| i < j && FirstFor(init, u0[k].eventId, i) && FirstFor(init, u0[l].eventId, j);
      FirstForPrefix(rows, u[k].eventId, i);
      FirstForPrefix(rows, u[l].eventId, j);
    } else {
      NewEventComesLast(rows, k);
      var i :| i < |rows| - 1 && FirstFor(rows, u[k].eventId, i);
      assert FirstFor(rows, u[l].eventId, |rows| - 1);
    }
  }

  /** An event the prefix did not have is appended, after every event the
      prefix had, and its first row is the last input row. */
  lemma NewEventComesLast(rows: seq<PlayerHistoryRow>, k: int)
    requires |rows| > 0 && 0 <= k < |UniqueByEvent(rows[..|rows| - 1])| < |UniqueByEvent(rows)|
    ensures exists i :: i < |rows| - 1 && FirstFor(rows, UniqueByEvent(rows)[k].eventId, i)
    ensures FirstFor(rows, UniqueByEvent(rows)[|UniqueByEvent(rows)| - 1].eventId, |rows| - 1)
  {
    var init := rows[..|rows| - 1];
    var u0 := UniqueByEvent(init);
    NewEventAppended(rows);
    assert Mentions(u0, u0[k].eventId) by { assert u0[k].eventId == u0[k].eventId; }
    UniqueByEventCovers(init, u0[k].eventId);
    FirstForExists(init, u0[k].eventId);
    var i :| FirstFor(init, u0[k].eventId, i);
    FirstForPrefix(rows, u0[k].eventId, i);
    assert UniqueByEvent(rows)[k] == u0[k];
  }

  /** When the output grows, the last input row is appended, and it is the
      first row of its event. */
  lemma NewEventAppended(rows: seq<PlayerHistoryRow>)
    requires |rows| > 0 && |UniqueByEvent(rows[..|rows| - 1])| < |UniqueByEvent(rows)|
    ensures UniqueByEvent(rows) == UniqueByEvent(rows[..|rows| - 1]) + [rows[|rows| - 1]]
    ensures FirstFor(rows, rows[|rows| - 1].eventId, |rows| - 1)
  {
    var init := rows[..|rows| - 1];
    var row := rows[|rows| - 1];
    var u0 := UniqueByEvent(init);
    assert IndexOfEvent(u0, row.eventId).None?;
    forall j | 0 <= j < |rows| - 1
      ensures rows[j].eventId != row.eventId
    {
      assert init[j] == rows[j];
      UniqueByEventCovers(init, row.eventId);
    }
  }

  /** The meta data the cascade passes along: the row's name and date. */
  function MetaOf(row: PlayerHistoryRow): EventMeta {
    EventMeta(Some(row.eventName), Some(row.eventDate))
  }

  /** One guarded `syncEventForPlayer` call: a failure is caught and leaves
      the store as it was. */
  function TryEventSync(s: Store, remote: Remote, now: Date, playerId: int, row: PlayerHistoryRow): (r: Store)
    ensures Valid(s) ==> Valid(r)
    ensures r.players == s.players && r.clubs == s.clubs && r.members == s.members && r.history == s.history
    ensures KeepsOtherEventRows(s, r, row.eventId, playerId)
    ensures SyncEventForPlayer(s, remote, now, row.eventId, playerId, MetaOf(row)).Failure? ==> r == s
    ensures SyncEventForPlayer(s, remote, now, row.eventId, playerId, MetaOf(row)).Success? ==>
      r == SyncEventForPlayer(s, remote, now, row.eventId, playerId, MetaOf(row)).value
  {
    match SyncEventForPlayer(s, remote, now, row.eventId, playerId, MetaOf(row))
    case Success(t) => t
    case Failure(_) => s
  }

  function EventStep(remote: Remote, now: Date, playerId: int): (Store, PlayerHistoryRow) -> Store {
    (t: Store, row: PlayerHistoryRow) => TryEventSync(t, remote, now, playerId, row)
  }

  /** The loop over the distinct events, in order: only the events' rows
      change, and the store invariants survive. */
  function CascadeEvents(s: Store, remote: Remote, now: Date, playerId: int, rows: seq<PlayerHistoryRow>): (r: Store)
    ensures Valid(s) ==> Valid(r)
    ensures r.players == s.players && r.clubs == s.clubs && r.members == s.members && r.history == s.history
    ensures KeepsUnmentionedEvents(s, r, playerId, rows)
  {
    var step := EventStep(remote, now, playerId);
    FoldInvariant(step, (t: Store) => Valid(s) ==> Valid(t), s, rows);
    FoldInvariant(step, (t: Store) => t.players == s.players && t.clubs == s.clubs && t.members == s.members && t.history == s.history, s, rows);
    CascadeKeepsUnmentioned(s, remote, now, playerId, rows);
    Fold(step, s, rows)
  }

  /** Each step of the cascade writes only the rows of an event of the
      list, for this player. */
  lemma CascadeKeepsUnmentioned(s: Store, remote: Remote, now: Date, playerId: int, rows: seq<PlayerHistoryRow>)
    ensures KeepsUnmentionedEvents(s, Fold(EventStep(remote, now, playerId), s, rows), playerId, rows)
  {
    var step := EventStep(remote, now, playerId);
    var inv := (t: Store) => KeepsUnmentionedEvents(s, t, playerId, rows);
    forall t, x | x in rows && inv(t)
      ensures inv(step(t, x))
    {
      var i :| 0 <= i < |rows| && rows[i] == x;
      assert Mentions(rows, x.eventId);
      KeepsStep(s, t, TryEventSync(t, remote, now, playerId, x), playerId, rows, x.eventId);
    }
    FoldInvariantIn(step, inv, s, rows);
  }

  /** A step that writes only one mentioned event's rows for this player
      keeps the rows of the unmentioned events. */
  lemma KeepsStep(s: Store, t: Store, u: Store, playerId: int, rows: seq<PlayerHistoryRow>, eventId: int)
    requires KeepsUnmentionedEvents(s, t, playerId, rows)
    requires KeepsOtherEventRows(t, u, eventId, playerId)
    requires Mentions(rows, eventId)
    ensures KeepsUnmentionedEvents(s, u, playerId, rows)
  {
  }

  /** Failure isolation: an event whose sync fails, wherever it sits in the
      list, changes nothing and the loop goes on as if it were absent. */
  lemma CascadeSkipsFailedEvent(s: Store, remote: Remote, now: Date, playerId: int, xs: seq<PlayerHistoryRow>, row: PlayerHistoryRow, ys: seq<PlayerHistoryRow>)
    requires SyncEventForPlayer(CascadeEvents(s, remote, now, playerId, xs), remote, now, row.eventId, playerId, MetaOf(row)).Failure?
    ensures CascadeEvents(s, remote, now, playerId, xs + [row] + ys) == CascadeEvents(s, remote, now, playerId, xs + ys)
  {
    FoldSkip(EventStep(remote, now, playerId), s, xs, row, ys);
  }

  /** Every event of the list is attempted: one whose sync succeeds leaves
      its result behind for the rest of the loop to build on. */
  lemma CascadeAttemptsEach(s: Store, remote: Remote, now: Date, playerId: int, xs: seq<PlayerHistoryRow>, row: PlayerHistoryRow, ys: seq<PlayerHistoryRow>)
    requires SyncEventForPlayer(CascadeEvents(s, remote, now, playerId, xs), remote, now, row.eventId, playerId, MetaOf(row)).Success?
    ensures CascadeEvents(s, remote, now, playerId, xs + [row] + ys)
         == CascadeEvents(SyncEventForPlayer(CascadeEvents(s, remote, now, playerId, xs), remote, now, row.eventId, playerId, MetaOf(row)).value,
                          remote, now, playerId, ys)
  {
    var step := EventStep(remote, now, playerId);
    FoldAppend(step, s, xs + [row], ys);
    FoldAppend(step, s, xs, [row]);
    assert [row][1..] == [];
  }

  // ---------------------------------------------------------------------
  // The pipeline

  /** The history rows inside the look-back window (`eventDate >= cutoff`). */
  function Recent(rows: seq<PlayerHistoryRow>, cutoff: Date): (r: seq<PlayerHistoryRow>)
    ensures IsSubsequence(r, rows)
    ensures forall i :: 0 <= i < |r| ==> r[i].eventDate >= cutoff
    ensures forall i :: 0 <= i < |rows| && rows[i].eventDate >= cutoff ==> rows[i] in r
    ensures forall i :: 0 <= i < |r| ==> r[i] in rows
    ensures forall x :: multiset(r)[x] == if x.eventDate >= cutoff then multiset(rows)[x] else 0
  {
    var keep := (row: PlayerHistoryRow) => row.eventDate >= cutoff;
    FilterIsSubsequence(keep, rows);
    FilterCounts(keep, rows);
    Filter(keep, rows)
  }

  /** A recent row mentions the event exactly when some in-window row does. */
  lemma RecentMentions(rows: seq<PlayerHistoryRow>, cutoff: Date, e: int)
    ensures Mentions(Recent(rows, cutoff), e) <==> exists i :: 0 <= i < |rows| && rows[i].eventId == e && rows[i].eventDate >= cutoff
  {
    var r := Recent(rows, cutoff);
    if Mentions(r, e) {
      var k :| 0 <= k < |r| && r[k].eventId == e;
      assert r[k] in rows;
    }
    if exists i :: 0 <= i < |rows| && rows[i].eventId == e && rows[i].eventDate >= cutoff {
      var i :| 0 <= i < |rows| && rows[i].eventId == e && rows[i].eventDate >= cutoff;
      assert rows[i] in r;
      var k :| 0 <= k < |r| && r[k] == rows[i];
    }
  }

  /** The Player row after the run: stamped now, with the chosen display
      name, `failed` for an empty history and `ok` otherwise. */
  predicate PlayerAfter(s: Store, r: Store, playerId: int, now: Date, historyEmpty: bool) {
    && r.players.Keys == s.players.Keys + {playerId}
    && (forall q :: q in s.players && q != playerId ==> r.players[q] == s.players[q])
    && r.players[playerId].displayName == PlayerDisplayName(s, playerId)
    && r.players[playerId].lastSyncedAt == Some(now)
    && (playerId in s.players ==> r.players[playerId].avatarUrl == s.players[playerId].avatarUrl)
    && (historyEmpty ==> r.players[playerId].syncStatus == Failed && r.players[playerId].syncError == Some(NoHistoryMessage))
    && (!historyEmpty ==> r.players[playerId].syncStatus == Ok && r.players[playerId].syncError.None?)
  }

  /** The empty-history path: the Player row is marked `failed` and
      nothing else is written. */
  function NoHistory(s: Store, playerId: int, now: Date): (r: Store)
    ensures Valid(s) ==> Valid(r)
    ensures r == s.(players := r.players)
    ensures PlayerAfter(s, r, playerId, now, true)
  {
    SetStatus(MarkInProgress(s, playerId, now), playerId, Failed, Some(NoHistoryMessage), now)
  }

  /** The path with history: the window's rows are written, the cascade
      runs when asked for, and the Player row ends `ok`. */
  function WithHistory(s: Store, remote: Remote, now: Date, playerId: int, syncEvents: bool, recent: seq<PlayerHistoryRow>): (r: Store)
    ensures Valid(s) ==> Valid(r)
    ensures r.clubs == s.clubs && r.members == s.members
    ensures PlayerAfter(s, r, playerId, now, false)
    ensures forall k :: k in r.history <==> k in s.history || (k.0 == playerId && Mentions(recent, k.1))
    ensures forall k :: k in s.history && (k.0 != playerId || !Mentions(recent, k.1)) ==> r.history[k] == s.history[k]
    ensures KeepsUnmentionedEvents(s, r, playerId, recent)
    // the history table is the fold of the window's rows
    ensures r.history == HistoryFold(s.history, playerId, recent)
    // the event tables hold the Event fold alone, or what the cascade over
    // the deduplicated window makes of it
    ensures !syncEvents ==> SameEventTables(r, s.(events := EventFold(s.events, recent)))
    ensures syncEvents ==> SameEventTables(r, CascadeEvents(WriteHistory(MarkInProgress(s, playerId, now), playerId, recent), remote, now, playerId, UniqueByEvent(recent)))
  {
    var s1 := MarkInProgress(s, playerId, now);
    var s2 := WriteHistory(s1, playerId, recent);
    var s3 := if syncEvents then CascadeEvents(s2, remote, now, playerId, UniqueByEvent(recent)) else s2;
    assert s3.players == s1.players && s3.history == s2.history;
    UniqueByEventMentions(recent);
    KeepsUnmentionedTrans(s1, s2, s3, playerId, recent, UniqueByEvent(recent));
    var r := SetStatus(s3, playerId, Ok, None, now);
    KeepsUnmentionedOfSameRows(s, s1, s3, r, playerId, recent);
    r
  }

  /** `a` and `b` agree on the Event, EventSummary and EventMatch tables. */
  predicate SameEventTables(a: Store, b: Store) {
    a.events == b.events && a.summaries == b.summaries && a.matches == b.matches
  }

  /** Writes to other tables before or after do not disturb the frame. */
  lemma KeepsUnmentionedOfSameRows(s: Store, s1: Store, t: Store, r: Store, playerId: int, rows: seq<PlayerHistoryRow>)
    requires s1.events == s.events && s1.summaries == s.summaries && s1.matches == s.matches
    requires r.events == t.events && r.summaries == t.summaries && r.matches == t.matches
    requires KeepsUnmentionedEvents(s1, t, playerId, rows)
    ensures KeepsUnmentionedEvents(s, r, playerId, rows)
  {
    assert forall e, p :: MatchesOf(r, e, p) == MatchesOf(t, e, p) && MatchesOf(s1, e, p) == MatchesOf(s, e, p);
  }

  /** The deduplicated list mentions no event the input does not. */
  lemma UniqueByEventMentions(rows: seq<PlayerHistoryRow>)
    ensures forall e :: Mentions(UniqueByEvent(rows), e) ==> Mentions(rows, e)
  {
    forall e | Mentions(UniqueByEvent(rows), e)
      ensures Mentions(rows, e)
    {
      UniqueByEventCovers(rows, e);
    }
  }

  /** Everything after the history fetch. */
  function ApplyHistory(s: Store, remote: Remote, host: Host, playerId: int, opts: PlayerOptions, rows: seq<PlayerHistoryRow>): (r: Store)
    ensures Valid(s) ==> Valid(r)
    ensures r.clubs == s.clubs && r.members == s.members
    ensures PlayerAfter(s, r, playerId, host.now, |rows| == 0)
    // empty history: nothing but the Player row is written
    ensures |rows| == 0 ==> r == s.(players := r.players)
    // only in-window rows are written
    ensures forall k :: k in r.history <==> k in s.history || (k.0 == playerId && Mentions(Recent(rows, host.monthsBefore(MonthsBack(opts))), k.1))
  {
    if |rows| == 0 then NoHistory(s, playerId, host.now)
    else WithHistory(s, remote, host.now, playerId, SyncEventsOn(opts), Recent(rows, host.monthsBefore(MonthsBack(opts))))
  }

  /** History rows of other players and of out-of-window events keep their
      values. */
  lemma ApplyHistoryKeepsHistory(s: Store, remote: Remote, host: Host, playerId: int, opts: PlayerOptions, rows: seq<PlayerHistoryRow>)
    ensures forall k :: k in s.history && (k.0 != playerId || !Mentions(Recent(rows, host.monthsBefore(MonthsBack(opts))), k.1)) ==>
      ApplyHistory(s, remote, host, playerId, opts, rows).history[k] == s.history[k]
  {
    var recent := Recent(rows, host.monthsBefore(MonthsBack(opts)));
    if |rows| == 0 {
      assert ApplyHistory(s, remote, host, playerId, opts, rows) == NoHistory(s, playerId, host.now);
    } else {
      assert ApplyHistory(s, remote, host, playerId, opts, rows) == WithHistory(s, remote, host.now, playerId, SyncEventsOn(opts), recent);
    }
  }

  /** Event, EventSummary and EventMatch rows change only for in-window
      events. */
  lemma ApplyHistoryKeepsEvents(s: Store, remote: Remote, host: Host, playerId: int, opts: PlayerOptions, rows: seq<PlayerHistoryRow>)
    ensures KeepsUnmentionedEvents(s, ApplyHistory(s, remote, host, playerId, opts, rows), playerId, Recent(rows, host.monthsBefore(MonthsBack(opts))))
  {
    var recent := Recent(rows, host.monthsBefore(MonthsBack(opts)));
    if |rows| == 0 {
      KeepsAllEvents(s, NoHistory(s, playerId, host.now), playerId, recent);
    } else {
      assert ApplyHistory(s, remote, host, playerId, opts, rows) == WithHistory(s, remote, host.now, playerId, SyncEventsOn(opts), recent);
    }
  }

  /** For a non-empty history, the run writes the window's history rows
      and runs the event cascade over them when the options ask for it. */
  lemma ApplyHistoryWrites(s: Store, remote: Remote, host: Host, playerId: int, opts: PlayerOptions, rows: seq<PlayerHistoryRow>)
    requires |rows| > 0
    ensures var recent := Recent(rows, host.monthsBefore(MonthsBack(opts)));
      ApplyHistory(s, remote, host, playerId, opts, rows).history == HistoryFold(s.history, playerId, recent)
    ensures var recent := Recent(rows, host.monthsBefore(MonthsBack(opts)));
      !SyncEventsOn(opts) ==> SameEventTables(ApplyHistory(s, remote, host, playerId, opts, rows), s.(events := EventFold(s.events, recent)))
    ensures var recent := Recent(rows, host.monthsBefore(MonthsBack(opts)));
      SyncEventsOn(opts) ==> SameEventTables(ApplyHistory(s, remote, host, playerId, opts, rows),
        CascadeEvents(WriteHistory(MarkInProgress(s, playerId, host.now), playerId, recent), remote, host.now, playerId, UniqueByEvent(recent)))
  {
    var recent := Recent(rows, host.monthsBefore(MonthsBack(opts)));
    assert ApplyHistory(s, remote, host, playerId, opts, rows) == WithHistory(s, remote, host.now, playerId, SyncEventsOn(opts), recent);
  }

  /** A run that keeps the Event rows of unmentioned events and leaves the
      summary and match tables alone keeps every unmentioned event's rows. */
  lemma KeepsAllEvents(s: Store, r: Store, playerId: int, rows: seq<PlayerHistoryRow>)
    requires forall e :: e in s.events && !Mentions(rows, e) ==> e in r.events && r.events[e] == s.events[e]
    requires r.summaries == s.summaries && r.matches == s.matches
    ensures KeepsUnmentionedEvents(s, r, playerId, rows)
  {
  }

  /** `syncPlayer(playerId, options)`. The only failure is the history
      fetch (or its date conversion), raised before anything is written;
      a failing event sync is caught inside the cascade. */
  function SyncPlayer(s: Store, remote: Remote, host: Host, playerId: int, opts: PlayerOptions): (r: Result<Store, SyncError>)
    ensures r.Failure? <==> FetchPlayerHistory(remote, host.parseDate, playerId).Failure?
    ensures remote.historyCsv(playerId).Failure? ==> r.Failure?
    ensures Valid(s) && r.Success? ==> Valid(r.value)
    ensures r.Success? ==> r.value.clubs == s.clubs && r.value.members == s.members
    ensures r.Success? ==> r.value == ApplyHistory(s, remote, host, playerId, opts, FetchPlayerHistory(remote, host.parseDate, playerId).value)
  {
    var rows :- FetchPlayerHistory(remote, host.parseDate, playerId);
    Success(ApplyHistory(s, remote, host, playerId, opts, rows))
  }

  /** A player whose stored display name is real keeps it. */
  lemma SyncPlayerKeepsDisplayName(s: Store, remote: Remote, host: Host, playerId: int, opts: PlayerOptions)
    requires playerId in s.players && s.players[playerId].displayName != ""
    requires SyncPlayer(s, remote, host, playerId, opts).Success?
    ensures SyncPlayer(s, remote, host, playerId, opts).value.players[playerId].displayName == s.players[playerId].displayName
  {
  }
}
