# smashwars synchronisation engine — a Dafny model

This project models the backend of smashwars, a table-tennis rating tracker.
The backend copies data from the RatingsCentral site into a relational store
and serves read endpoints over it. The model covers:

- **Three cascading sync pipelines.**
  - `syncClub` loads a club roster and writes Club, Player and ClubMember rows. It can then sync every member.
  - `syncPlayer` writes a player's rating history as Event and PlayerHistory rows. It can then sync every event.
  - `syncEventForPlayer` writes one event's Event, EventSummary and EventMatch rows for one player.
  - Each child failure is caught, so a failing member or event is skipped.
- **The scrapers' row extraction.** This is the mapping from tokenised CSV records and HTML table rows to typed rows. It covers:
  - lenient integer coercion (`toInt`) and date conversion (`toDate`, `toDateOptional`);
  - the drop rules;
  - the roster's `mean±stdev` rating parser.
- **The read side.**
  - The per-event projection and aggregates (`getEventDetailsForPlayer`).
  - The player overview aggregates: confidence bucket, streak, momentum, upsets, trend and win rate.
  - The two keyset-paginated listings: history and club leaderboard.
  - The range keys.
- **The HTTP sync routes.** These are the extended-range guard, option forcing and the status probe.
- **The frontend's set-score token parser.**

The store is an immutable `Store` record of finite maps keyed by the natural keys (`store.dfy`). Each pipeline is a pure function from a store, the remote answers and the host's clock to `Result<Store, SyncError>`:

- The remote site is a `Remote` value of oracle functions. Each returns the tokenised records of one download, or a fetch failure.
- The clock, month arithmetic and `new Date(text)` form a `Host` value.

Every failure the pipelines raise happens before their first write, so a failure carries no store. The cascades call the real child pipeline. A child that fails leaves the store exactly as it was, and the loop goes on.

JavaScript's `Number(text)` is modelled exactly for decimal text (sign, digits, optional fraction, surrounding white space) as `Parse.Numeric`. Scores in the set-score parser are `real`s.

## Model

| member | source | states |
|---|---|---|
| Parse.NumberValue | backend/src/utils/parse.ts:8 | blank text converts to zero; a number only comes from text with a digit |
| Parse.ToInt | backend/src/utils/parse.ts:1-13 | an absent value or NaN gives the fallback; otherwise the integer within one half of the number, halves rounded up |
| Parse.ToIntOfBlank | backend/src/utils/parse.ts:8 | blank or white-space text gives 0, not the fallback |
| Parse.ToIntOfNonNumeric | backend/src/utils/parse.ts:9-11 | non-blank text with no digit gives the fallback |
| Parse.ToIntOfDigits | backend/src/utils/parse.ts:1-13 | a digit string gives its decimal value |
| Parse.ToIntRoundTrip | backend/src/utils/parse.ts:1-13 | an integer's decimal rendering converts back to that integer |
| Parse.ToDate | backend/src/utils/parse.ts:15-22 | an absent cell or unreadable trimmed text is an error naming the raw text; success is the date the trimmed text denotes |
| Parse.ToDateOptional | backend/src/utils/parse.ts:24-37 | never fails; absent or blank text gives no date; otherwise it agrees with ToDate, with no date exactly where ToDate fails |
| Csv.TextCell | backend/src/scrapers/eventDetail.ts:35 | a missing column gives the empty string, a present one its trimmed text |
| Csv.IntCell | backend/src/scrapers/eventDetail.ts:33-42 | a missing or non-numeric cell gives 0; a digit cell gives its value |
| EventDetailFeed.RowOf | backend/src/scrapers/eventDetail.ts:32-43 | the score is the trimmed Score cell or empty; missing id columns give 0 |
| EventDetailFeed.Extract | backend/src/scrapers/eventDetail.ts:31-44 | an order-preserving subsequence of the mapped records; every row with a non-zero winner or loser is kept as often as it occurs, every other row is dropped |
| EventSummaryFeed.RowOf | backend/src/scrapers/eventSummary.ts:30-41 | the name is trimmed or empty; the country is absent exactly when its cell is empty or missing, else trimmed |
| EventSummaryFeed.Extract | backend/src/scrapers/eventSummary.ts:29-42 | at most one row per record; an order-preserving subsequence of the mapped records; every kept row has a non-zero player id |
| EventSummaryFeed.ExtractCounts | backend/src/scrapers/eventSummary.ts:29-42 | a row with a non-zero player id is kept as often as it occurs among the mapped records; no other row is kept |
| EventSummaryFeed.ExtractCovers | backend/src/scrapers/eventSummary.ts:29-42 | every record with a non-zero player id has its row in the output |
| PlayerHistoryFeed.RowOf | backend/src/scrapers/playerHistory.ts:30-39 | a record converts exactly when its EventDate does; the event name is trimmed or empty |
| PlayerHistoryFeed.Extract | backend/src/scrapers/playerHistory.ts:29-40 | fails exactly when some record's date fails, with the first such error; otherwise an order-preserving subsequence of the mapped rows, all with a non-zero event id |
| PlayerHistoryFeed.ExtractCounts | backend/src/scrapers/playerHistory.ts:29-40 | on success a row with a non-zero event id is kept as often as it occurs among the mapped rows; no other row is kept |
| PlayerHistoryFeed.ExtractCovers | backend/src/scrapers/playerHistory.ts:29-40 | on success every record whose row has a non-zero event id has that row in the output |
| PlayerHistoryFeed.DroppedRecordStillFails | backend/src/scrapers/playerHistory.ts:31-40 | a record that the filter would drop still fails the extraction when its date is unreadable |
| ClubRosterPage.Normalize | backend/src/scrapers/clubRoster.ts:22 | no zero-width space and no white space other than single inner spaces remain; the ends are not spaces; digits are kept |
| ClubRosterPage.FirstPair | backend/src/scrapers/clubRoster.ts:23 | none exactly when no match of `(\d+)\s*±\s*(\d+)` starts at or after the position; otherwise the two digit groups of the leftmost match |
| ClubRosterPage.FirstDigits | backend/src/scrapers/clubRoster.ts:27 | none exactly when no digit follows the position; otherwise the whole digit run that starts at the first digit |
| ClubRosterPage.ParseRating | backend/src/scrapers/clubRoster.ts:15-32 | an absent or empty cell gives neither value; a mean exactly when the cell has a digit; a stdev exactly when the normalized text has a `mean±stdev` match, and then both numbers are that first match's; otherwise the mean is the first digit run's value |
| ClubRosterPage.ParseRatingOfPair | backend/src/scrapers/clubRoster.ts:21-25 | a `mean±stdev` cell, with any white space or zero-width spaces around the sign, gives the two numbers |
| ClubRosterPage.ParseRatingOfDigits | backend/src/scrapers/clubRoster.ts:27-29 | a bare number gives the mean and no deviation |
| ClubRosterPage.RatingText | backend/src/scrapers/clubRoster.ts:15-32 | a rating written as mean, gap, `±`, gap, deviation reads back as its two numbers |
| ClubRosterPage.PlusMinusSurvives | backend/src/scrapers/clubRoster.ts:22 | a '±' after normalising was already in the raw text |
| ClubRosterPage.PlayerIdParam | backend/src/scrapers/clubRoster.ts:73 | the digits after the first case-insensitive `playerid=` that is followed by a digit, or none exactly when there is no such place |
| ClubRosterPage.ProfileLinkId | backend/src/scrapers/clubRoster.ts:71-74 | a profile link gives back the player id it was written with |
| ClubRosterPage.EntryOf | backend/src/scrapers/clubRoster.ts:60-91 | a row is kept exactly when it has cells, a non-zero id from the link's `playerid=` digits and a non-empty name; the name is the link text, falling back to the cell text; the rank is absent exactly for a blank rank cell, else its number; the rating is `parseRating` of the trimmed cell; the date is `toDateOptional` of the trimmed cell |
| ClubRosterPage.EntryOfRosterRow | backend/src/scrapers/clubRoster.ts:60-91 | a row written from an id, rank, name, rating and date reads back as the entry with exactly those values |
| ClubRosterPage.Entries | backend/src/scrapers/clubRoster.ts:58-93 | every row that yields an entry contributes it; every entry comes from some row |
| ClubRosterPage.EntriesAppend | backend/src/scrapers/clubRoster.ts:58-93 | rows are read in order: appending a row appends exactly its own entry, if any |
| ClubRosterPage.ExtractRoster | backend/src/scrapers/clubRoster.ts:54-56 | a missing roster table is the "table not found" error; otherwise the entries of its rows |
| Remote.FetchEventSummary | backend/src/scrapers/eventSummary.ts:17-43 | fails exactly when the download does; otherwise the extracted rows |
| Remote.FetchEventDetail | backend/src/scrapers/eventDetail.ts:19-45 | fails exactly when the download does; otherwise the extracted rows |
| Remote.FetchPlayerHistory | backend/src/scrapers/playerHistory.ts:17-41 | a failed download fails; otherwise the extraction, including its date failures |
| Remote.FetchClubRoster | backend/src/scrapers/clubRoster.ts:34-94 | a failed download fails; otherwise the roster extraction |
| EventSync.MissingNames | backend/src/services/sync-event.ts:34-40 | zero exactly when every stored match has an opponent name |
| EventSync.NameMapDomain | backend/src/services/sync-event.ts:57-62 | a player is in the name map exactly when some summary row has that non-zero id and a non-empty name |
| EventSync.NameMapLastWins | backend/src/services/sync-event.ts:57-62 | the mapped name comes from the last such row |
| EventSync.EventName | backend/src/services/sync-event.ts:64-65 | the trimmed listing name if non-empty, else the stored name, else `Event {id}`; never empty |
| EventSync.EventDate | backend/src/services/sync-event.ts:66 | the listing date, else the stored date, else now |
| EventSync.EventNameStable | backend/src/services/sync-event.ts:64-79 | re-running the name choice on the row it wrote picks the same name |
| EventSync.FindSummary | backend/src/services/sync-event.ts:81 | none exactly when no summary row is for the player; otherwise the first row for the player |
| EventSync.PlayerMatches | backend/src/services/sync-event.ts:115-117 | an order-preserving subsequence; each row involving the player is kept as often as it occurs, no other row; empty exactly when no row involves the player |
| EventSync.BuildMatches | backend/src/services/sync-event.ts:130-150 | one stored match per row, in order, indexed 0..n-1; the row data are carried over; the opponent name is the name map's entry for the other side, or none |
| EventSync.ReplaceMatches | backend/src/services/sync-event.ts:119-150 | the match set of (event, player) becomes the new rows; every other match set is unchanged |
| EventSync.WriteEvent | backend/src/services/sync-event.ts:68-79 | only the Event row of this id changes, to the chosen name and date |
| EventSync.WriteSummary | backend/src/services/sync-event.ts:81-113 | a summary is written only when the feed has a row for the player, from the first such row |
| EventSync.WriteMatches | backend/src/services/sync-event.ts:115-155 | with no row for the player nothing changes; otherwise the stored matches are exactly the player's rows, in order, with resolved opponent names; other (event, player) pairs are untouched |
| EventSync.ApplyEventFeeds | backend/src/services/sync-event.ts:52-155 | players, clubs, memberships and history are untouched; events, summaries and matches are the three writes; every other event's row, every other summary and every other match set is unchanged |
| EventSync.SyncEventForPlayer | backend/src/services/sync-event.ts:10-156 | a complete stored event returns the store unchanged; otherwise it fails exactly when a download fails, and succeeds with the three writes; store invariants are kept |
| EventSync.SyncEventFrame | backend/src/services/sync-event.ts:10-156 | an event sync never changes players, clubs, memberships or history, nor the rows of any other event or player |
| EventSync.SkipIgnoresRemote | backend/src/services/sync-event.ts:42-47 | the completeness probe answers without consulting the remote site |
| EventSync.SyncEventIdempotent | backend/src/services/sync-event.ts:42-47 | after a run that stored a summary and matches with every opponent named, a repeat run changes nothing |
| PlayerSync.PlayerDisplayName | backend/src/services/sync-player.ts:22-23 | the stored non-empty name, else `Player {id}` |
| PlayerSync.MarkInProgress | backend/src/services/sync-player.ts:25-39 | only this Player row is written: `in_progress`, no error, chosen name, avatar kept |
| PlayerSync.SetStatus | backend/src/services/sync-player.ts:43-50 | only the status, error and time stamp of this Player row change |
| PlayerSync.UpsertEvent | backend/src/services/sync-player.ts:62-74 | the date is always written; an empty name never overwrites a stored name; a new Event without a name gets `Event {id}` |
| PlayerSync.EventFold | backend/src/services/sync-player.ts:58-104 | an Event row exists afterwards exactly when it existed or some row names it; names stay non-empty |
| PlayerSync.HistoryFold | backend/src/services/sync-player.ts:76-103 | a PlayerHistory row exists afterwards exactly when it existed or it is this player's and some row names the event |
| PlayerSync.WriteHistory | backend/src/services/sync-player.ts:58-104 | only events and history change, in the two ways above; unmentioned events keep their Event, summary and match rows; other players' and unmentioned events' history rows keep their values |
| PlayerSync.HistoryLastWins | backend/src/services/sync-player.ts:76-103 | an event's PlayerHistory row holds the last row for it |
| PlayerSync.EventDateLastWins | backend/src/services/sync-player.ts:62-74 | an event's date comes from the last row for it |
| PlayerSync.EventNameKept | backend/src/services/sync-player.ts:64-67 | rows without a name never overwrite a stored Event name |
| PlayerSync.EventFoldUntouched | backend/src/services/sync-player.ts:58-104 | Events no row names are left alone |
| PlayerSync.HistoryFoldUntouched | backend/src/services/sync-player.ts:58-104 | other players' history and events no row names are left alone |
| PlayerSync.IndexOfEvent | backend/src/services/sync-player.ts:106-108 | absent exactly when no row is for the event; otherwise a position of a row for it |
| PlayerSync.UniqueByEventDistinct | backend/src/services/sync-player.ts:106-108 | the deduplicated rows name each event at most once |
| PlayerSync.UniqueByEventCovers | backend/src/services/sync-player.ts:106-108 | an event is in the deduplicated rows exactly when it is in the input |
| PlayerSync.UniqueByEventLastWins | backend/src/services/sync-player.ts:106-108 | each deduplicated row is the last input row for its event |
| PlayerSync.UniqueByEventOrder | backend/src/services/sync-player.ts:106-112 | the deduplicated events come in the order of their first appearance in the input, as a `Map` keeps first-insertion order |
| PlayerSync.TryEventSync | backend/src/services/sync-player.ts:110-123 | a failing event sync leaves the store unchanged; a succeeding one is taken whole |
| PlayerSync.CascadeEvents | backend/src/services/sync-player.ts:106-125 | players, clubs, memberships and history are untouched; Event, EventSummary and EventMatch rows change only for events the rows name, and only the player's; invariants kept |
| PlayerSync.CascadeSkipsFailedEvent | backend/src/services/sync-player.ts:110-123 | a failing event anywhere in the list is as if it were absent |
| PlayerSync.CascadeAttemptsEach | backend/src/services/sync-player.ts:106-125 | every event is attempted, and a success feeds the rest of the loop |
| PlayerSync.Recent | backend/src/services/sync-player.ts:54-56 | the rows dated at or after the cutoff, in order, each as often as it occurs; no other row |
| PlayerSync.RecentMentions | backend/src/services/sync-player.ts:54-56 | an event is written exactly when some in-window row names it |
| PlayerSync.NoHistory | backend/src/services/sync-player.ts:41-52 | empty history: the Player ends `failed` with the no-history message and nothing else changes |
| PlayerSync.WithHistory | backend/src/services/sync-player.ts:54-134 | the Player ends `ok` with no error; the history table becomes the last-row-wins fold of the window's rows; without event sync the event tables hold the Event fold of the window and nothing else, with it they are what the cascade over the window's deduplicated rows makes of that; other history values and the event rows of events outside the window are unchanged |
| PlayerSync.ApplyHistory | backend/src/services/sync-player.ts:22-134 | the Player row ends as above; empty history writes nothing else; only in-window rows are written |
| PlayerSync.ApplyHistoryKeepsHistory | backend/src/services/sync-player.ts:54-104 | history rows of other players and of events outside the window keep their values |
| PlayerSync.ApplyHistoryKeepsEvents | backend/src/services/sync-player.ts:54-125 | Event, EventSummary and EventMatch rows change only for events in the window, and only the player's |
| PlayerSync.ApplyHistoryWrites | backend/src/services/sync-player.ts:14-125 | for a non-empty history, the same writes over the rows inside the window the options choose, the cascade running exactly when `syncEvents` is not false |
| PlayerSync.SyncPlayer | backend/src/services/sync-player.ts:10-136 | fails exactly when the history fetch fails, before any write; clubs and memberships are untouched; invariants kept |
| PlayerSync.SyncPlayerKeepsDisplayName | backend/src/services/sync-player.ts:22-23 | a real stored display name survives the run |
| ClubSync.MemberRoundTrip | backend/src/services/sync-club.ts:22-34 | a stored membership read back as a roster entry and written again is unchanged |
| ClubSync.CachedRoster | backend/src/services/sync-club.ts:22-34 | one entry per stored membership of the club, in the store's order, each the membership read back; every member appears, each player id once |
| ClubSync.CachedRosterEmpty | backend/src/services/sync-club.ts:22-34 | the cached roster is empty exactly when the club has no stored membership |
| ClubSync.LoadRoster | backend/src/services/sync-club.ts:22-44 | cache mode reads the store; live mode fetches the club page |
| ClubSync.MarkClub | backend/src/services/sync-club.ts:50-66 | only this Club row is written: given name, `in_progress`, no error, now |
| ClubSync.FinishClub | backend/src/services/sync-club.ts:129-138 | only this Club's status, error and time stamp change, to `ok`, none, now |
| ClubSync.UpsertRosterPlayer | backend/src/services/sync-club.ts:70-79 | only the display name changes; a new Player gets the schema defaults |
| ClubSync.UpsertMember | backend/src/services/sync-club.ts:69-105 | the Player upsert, then the membership is fully overwritten |
| ClubSync.UpsertRoster | backend/src/services/sync-club.ts:68-106 | players are only added or renamed; other clubs' memberships are untouched; every membership keeps a Player |
| ClubSync.UpsertRosterUntouched | backend/src/services/sync-club.ts:68-106 | a player absent from the roster keeps its membership and Player row |
| ClubSync.MemberWrittenFromLastEntry | backend/src/services/sync-club.ts:68-106 | each member ends with a Player row and a membership written from its last roster entry |
| ClubSync.TryPlayerSync | backend/src/services/sync-club.ts:110-125 | a failing player sync leaves the store unchanged; a succeeding one is taken whole |
| ClubSync.CascadePlayers | backend/src/services/sync-club.ts:108-127 | clubs and memberships are untouched; invariants kept |
| ClubSync.CascadeSkipsFailedPlayer | backend/src/services/sync-club.ts:110-125 | a failing member anywhere in the roster is as if it were absent |
| ClubSync.CascadeAttemptsEach | backend/src/services/sync-club.ts:108-127 | every member is attempted, and a successful sync's store feeds the rest of the loop |
| ClubSync.ApplyRoster | backend/src/services/sync-club.ts:50-138 | cache mode writes no Club, Player or membership itself; live mode ends with the Club `ok` under its name and the roster's memberships, and its player, history and event tables are the member cascade's over the upserted roster when members are synced, the upsert's otherwise |
| ClubSync.SyncClub | backend/src/services/sync-club.ts:12-140 | a failed or empty roster fails before any write; success is exactly a non-empty roster, and its store is that of the roster's pipeline; invariants kept |
| ClubSync.CacheSyncNeedsMembers | backend/src/services/sync-club.ts:22-48 | in cache mode the sync fails as an empty roster exactly when the club has no stored membership, and succeeds otherwise |
| ClubSync.LiveRosterWritten | backend/src/services/sync-club.ts:68-106 | in live mode every member ends with its membership from its last entry |
| Range.ParseRange | backend/src/utils/api/range.ts:3-11 | a known key maps to itself; an absent, empty or unknown value gives `12m` |
| Range.ParseRangeRoundTrip | backend/src/utils/api/range.ts:7-9 | each key's text parses back to the key |
| Range.ParseRangeIdempotent | backend/src/utils/api/range.ts:3-11 | parsing the text of a parsed key changes nothing |
| Range.Months | backend/src/utils/api/range.ts:18 | a key other than `all` means 3, 6 or 12 months |
| Range.RangeStart | backend/src/utils/api/range.ts:13-22 | no start exactly for `all`; otherwise now minus the key's months |
| Range.WindowsNest | backend/src/utils/api/range.ts:13-22 | a date in a shorter window is in every longer one |
| Insights.Project | backend/src/services/insights.service.ts:27-41 | `W` exactly when the player won; the opponent, delta and rating come from the matching side |
| Insights.ProjectBothSides | backend/src/services/insights.service.ts:27-41 | the winner's view and the loser's view of a match are mirror images |
| Insights.Projection | backend/src/services/insights.service.ts:27 | one result per match, in order |
| Insights.BestWin | backend/src/services/insights.service.ts:54-57 | none exactly when there is no win; otherwise the first win with the greatest opponent mean |
| Insights.ToughestLoss | backend/src/services/insights.service.ts:59-62 | none exactly when there is no loss; otherwise the first loss with the least opponent mean |
| Insights.AverageOpponent | backend/src/services/insights.service.ts:46-52 | none exactly when there are no matches; otherwise the mean rounded to the nearest integer, halves up |
| Insights.AverageWithinOpponents | backend/src/services/insights.service.ts:46-52 | the rounded mean lies between the least and the greatest opponent mean |
| Insights.Summarize | backend/src/services/insights.service.ts:43-62 | wins plus losses is the number of matches; losses count the `L` results |
| Insights.EventDetailsForPlayer | backend/src/services/insights.service.ts:4-87 | none exactly when the Event is missing; the summary is present exactly when stored; the matches are the stored ones projected, in order |
| Insights.StoredInRowIndexOrder | backend/src/services/insights.service.ts:19-25 | the stored matches come in ascending row index |
| Insights.ReportsWrittenMatches | backend/src/services/insights.service.ts:27-41 | after an event sync wrote a player's matches, the report lists exactly those matches with their results and scores |
| Players.ConfidenceBucket | backend/src/services/players.service.ts:7-14 | unknown exactly without a stdev; high up to 60, medium up to 130, low above |
| Players.ConfidenceMonotone | backend/src/services/players.service.ts:7-14 | a wider stdev never gives a more confident bucket |
| Players.InWindow | backend/src/services/players.service.ts:23-32 | every row kept is dated at or after the range start |
| Players.InWindowExactly | backend/src/services/players.service.ts:23-32 | a row is in the window exactly when it is listed and dated at or after the range start |
| Players.RunLength | backend/src/services/players.service.ts:89-96 | the longest prefix in one direction |
| Players.CurrentStreak | backend/src/services/players.service.ts:84-97 | none exactly without rows; otherwise the first row's direction with a count between 1 and the row count, covering exactly the leading run |
| Players.StreakExtends | backend/src/services/players.service.ts:84-97 | an older row in the same direction lengthens a full streak; one in the other direction leaves it |
| Players.MomentumOfFew | backend/src/services/players.service.ts:116-118 | with at most five rows, momentum is the total point change |
| Players.MomentumIgnoresOlder | backend/src/services/players.service.ts:116-118 | rows past the fifth do not affect momentum |
| Players.MomentumBounds | backend/src/services/players.service.ts:116-118 | momentum is bounded by the counted rows times the largest change |
| Players.Trend | backend/src/services/players.service.ts:107-114 | the rows reversed, as points |
| Players.TrendAscending | backend/src/services/players.service.ts:107-114 | for newest-first rows, the trend is in ascending date order |
| Players.StdevChange | backend/src/services/players.service.ts:120-123 | none exactly with fewer than two rows |
| Players.StdevChangeAlongTrend | backend/src/services/players.service.ts:120-123 | the newest stdev minus the oldest, the trend's last point minus its first |
| Players.RecentEvents | backend/src/services/players.service.ts:99-105 | at most seven entries, the leading rows in order |
| Players.RecentAreNewest | backend/src/services/players.service.ts:99-105 | for newest-first rows, no omitted row is newer than a reported one |
| Players.WindowMatches | backend/src/services/players.service.ts:54-63 | every stored match of the player in each window event is included, tagged with its event; nothing else; none without rows |
| Players.WindowMatchesAppend | backend/src/services/players.service.ts:54-63 | one more window row appends exactly that event's stored matches, in stored order |
| Players.RatingFor | backend/src/services/players.service.ts:69 | none exactly when no row is for the event; otherwise the initial mean of the last row for it |
| Players.UpsetsExactly | backend/src/services/players.service.ts:68-73 | an upset is exactly a win whose opponent mean exceeds the player's initial mean for that event |
| Players.BestUpset | backend/src/services/players.service.ts:75-77 | none exactly without upsets; otherwise the first upset with the greatest opponent mean |
| Players.ToughestLoss | backend/src/services/players.service.ts:79-82 | none exactly without losses; otherwise the first loss with the least opponent mean |
| Players.WinRateOf | backend/src/services/players.service.ts:153-155 | none exactly without matches; the total is the match count |
| Players.WinRateAddsUp | backend/src/services/players.service.ts:65-66 | when every match was won or lost by the player, wins plus losses is the total |
| Players.InsightsOf | backend/src/services/players.service.ts:149-176 | every field is its aggregate of the window: events played is its size; streak, momentum and stdev change of its rows; win rate, upset count, best upset and toughest loss of its matches |
| Players.GetOverview | backend/src/services/players.service.ts:35-185 | none exactly without a Player row; the current rating is the newest row's; insights, trend and recent events come from the window |
| Players.EventsPlayedCountsWindow | backend/src/services/players.service.ts:23-32 | an event is in the window exactly when the player's stored history row for it is in range |
| Players.CursorOf | backend/src/services/players.service.ts:213-217 | the cursor of a row sits at that row's place in the order |
| Players.BeforeCursorIsAfter | backend/src/services/players.service.ts:195-207 | the query's older-than-the-cursor condition is "after the cursor" in (date desc, id desc) order |
| Players.HistoryMatchesQuery | backend/src/services/players.service.ts:191-209 | every matching row is in range and strictly older than the cursor |
| Players.GetHistory | backend/src/services/players.service.ts:187-218 | a positive limit succeeds; at most limit items, a prefix of the matching rows; more rows exactly when more than limit match; a next cursor exactly then, at the last item |
| Players.HistoryPagesChain | backend/src/services/players.service.ts:187-218 | a page followed by the rows after its cursor is exactly the rows of this page's query |
| Players.NextHistoryCursorServesRest | backend/src/services/players.service.ts:187-218 | the cursor of the n-th matching row selects exactly the rows after it in the window: none skipped, none repeated |
| Paging.Take | backend/src/services/players.service.ts:208 | a non-negative take is a prefix of the asked length |
| Paging.SliceTo | backend/src/services/players.service.ts:212 | `slice(0, end)` is a prefix; a negative end counts from the end |
| Paging.PageOf | backend/src/routes/clubs.controller.ts:49-56 | more exactly when more than limit rows came; the items are a prefix; the last item is remembered exactly when there are more; it throws exactly when there are more but no items |
| Paging.LookAheadPage | backend/src/routes/clubs.controller.ts:46-56 | with a positive limit, fetching one row more than the limit never throws; more exactly when more than limit rows match, and then the page is the first limit rows and remembers the last of them |
| Paging.AfterRow | backend/src/routes/clubs.controller.ts:36-47 | in an ascending listing, what follows a row's key is the rest of the listing |
| Paging.AfterNested | backend/src/routes/clubs.controller.ts:36-47 | filtering by an earlier cursor and then a later one is filtering by the later one |
| Paging.NextPageContinues | backend/src/routes/clubs.controller.ts:33-56 | the rows after the last row of a full page are the matching rows minus the page |
| Clubs.IntegerValue | backend/src/routes/clubs.controller.ts:30 | an integer exactly when the number is whole |
| Clubs.SafeLimitAsWritten | backend/src/routes/clubs.controller.ts:27-30 | NaN or zero gives 50; never above 200; a whole number is clamped at 200; a fraction is refused |
| Clubs.MinusOnePassesAsWritten | backend/src/routes/clubs.controller.ts:30 | the limit `-1` passes the clamp as -1 |
| Clubs.NegativeLimitFailsAsWritten | backend/src/routes/clubs.controller.ts:46-56 | any negative limit makes the page throw reading the last item |
| Clubs.SafeLimit | backend/src/routes/clubs.controller.ts:27-30 | the corrected clamp: between 1 and 200 whenever it succeeds |
| Clubs.SafeLimitAgrees | backend/src/routes/clubs.controller.ts:30 | wherever the written clamp gives a positive limit, the corrected one gives the same |
| Clubs.DecodeRankCursor | backend/src/routes/clubs.controller.ts:13-20 | an absent or empty cursor gives none; otherwise the decoder's answer |
| Clubs.DecodeEncodedCursor | backend/src/routes/clubs.controller.ts:13-20 | an encoded cursor decodes to itself |
| Clubs.MatchesAsWritten | backend/src/routes/clubs.controller.ts:36-45 | with a cursor, only ranked members can match |
| Clubs.NullRankSkippedAsWritten | backend/src/routes/clubs.controller.ts:36-56 | two unranked members, limit 1: the second page is empty although a member is left |
| Clubs.UnrankedAfterRankedSkippedAsWritten | backend/src/routes/clubs.controller.ts:36-56 | a ranked member followed, in the query's order, by an unranked one, limit 1: the first page's cursor `(1, 1)` matches nothing |
| Clubs.CursorOf | backend/src/routes/clubs.controller.ts:51-56 | the corrected cursor keeps a null rank null, and sits at its row's place in the query's order |
| Clubs.AfterCursorIsAfter | backend/src/routes/clubs.controller.ts:36-45 | the corrected condition holds exactly for the rows after the cursor in (rank ascending, nulls last; player id ascending) order |
| Clubs.AfterCursorAgrees | backend/src/routes/clubs.controller.ts:36-45 | the corrected condition agrees with the written one whenever the row and the cursor both carry a rank |
| Clubs.NullRankServed | backend/src/routes/clubs.controller.ts:51-56 | with the corrected cursor the second unranked member is served, and so is an unranked member after a ranked one |
| Clubs.GetLeaderboard | backend/src/routes/clubs.controller.ts:22-69 | fails exactly on a fractional limit; at most the limit, at most 200; items a prefix of the rows after the cursor; more exactly when more than limit match; a next cursor exactly then, at the last item |
| Clubs.LeaderboardPagesChain | backend/src/routes/clubs.controller.ts:33-56 | in the query's order, null ranks last, a page followed by the rows after its cursor is exactly the rows of this page's query |
| Clubs.NextCursorServesRest | backend/src/routes/clubs.controller.ts:51-56 | in the query's order, the cursor of the n-th match selects exactly the matches after it |
| SyncRoutes.CheckRange | backend/src/routes/sync.controller.ts:30-35 | refused exactly when the window, default 12, exceeds 12 months without confirmation; otherwise the window |
| SyncRoutes.SyncPlayerRoute | backend/src/routes/sync.controller.ts:28-38 | a refused window is refused; otherwise a player sync with the window |
| SyncRoutes.SyncClubRoute | backend/src/routes/sync.controller.ts:40-55 | a refused window is refused; otherwise a live-mode club sync, members synced only when asked |
| SyncRoutes.SyncEventRoute | backend/src/routes/sync.controller.ts:57-64 | a complete event is left as it is; otherwise fails exactly when a download fails |
| SyncRoutes.RefusalTouchesNothing | backend/src/routes/sync.controller.ts:30-35 | a refusal does not depend on the store or the remote site |
| SyncRoutes.ClubRouteDefaultsToRosterOnly | backend/src/routes/sync.controller.ts:48-53 | by default the club route writes no history, event, summary or match |
| SyncRoutes.SyncStatusOf | backend/src/routes/sync.controller.ts:66-110 | a missing type or id, or an unknown type, gives an error reply; a stored player or club row's fields, else `missing`; an event is `ok` exactly when a summary or match is stored |
| SyncRoutes.StatusIdRoundTrip | backend/src/routes/sync.controller.ts:77-97 | an id written by a route is read back as that id |
| SyncRoutes.StatusAfterPlayerSync | backend/src/routes/sync.controller.ts:77-86 | after a player sync the probe shows the row stamped now, `ok` or `failed` with the no-history message |
| SyncRoutes.StatusAfterClubSync | backend/src/routes/sync.controller.ts:88-97 | after a club sync the probe shows `ok`, no error, stamped now |
| ScoreTokens.Split | frontend/src/app/pages/EventDetails.tsx:53 | at least one token; no token holds a separator; text without separators is one token |
| ScoreTokens.SplitJoin | frontend/src/app/pages/EventDetails.tsx:53 | non-empty tokens joined by separator runs split back into those tokens |
| ScoreTokens.ParseScoreToken | frontend/src/app/pages/EventDetails.tsx:31-49 | empty is none; `d-d` gives (left, right); other text is none exactly when not a number; a number gives its magnitude to the loser, the win to the player exactly when non-negative, and the winner the larger of 11 and the magnitude plus 2 |
| ScoreTokens.PairRoundTrip | frontend/src/app/pages/EventDetails.tsx:33-37 | a rendered pair parses back to the pair |
| ScoreTokens.NumberRoundTrip | frontend/src/app/pages/EventDetails.tsx:39-48 | a rendered integer v gives max(11, abs(v)+2) to the winner and abs(v) to the loser |
| ScoreTokens.ParseSetScores | frontend/src/app/pages/EventDetails.tsx:51-55 | no more scores than tokens; every parsed score comes from a token; every parsable token's score is kept |
| ScoreTokens.SetScoresByToken | frontend/src/app/pages/EventDetails.tsx:51-55 | each token contributes its set, or nothing, in front of the sets of the tokens after it: the sets come in token order, one per token that reads as a set |
| ScoreTokens.SetScoresRoundTrip | frontend/src/app/pages/EventDetails.tsx:51-55 | pair tokens joined by separators parse back to the pairs, in order |

## Left out

- Network access, timeouts and the CSV and HTML libraries. Downloads are oracle inputs that answer with tokenised records, the roster table's rows (or no table) or a fetch failure. Choosing the roster table by its header words belongs to the oracle.
- The database engine. The store is a record of maps. The delete-then-create of a match set is one map update: the source issues the two statements without a transaction, and their interleaving with other writers is not modelled.
- The order in which the database returns the cached roster, which the source leaves unset, is an input: any order that holds every stored member of the club once. `Promise.all` fan-outs are sequential.
- The order of the overview's matches is fixed by the model rather than taken as an input: event by event in the window's order, and each event's rows in their stored order (`Players.WindowMatches`). Ties in `bestUpset` and `toughestLoss` go to the first match in that order (backend/src/services/players.service.ts:75-82). Another order the database might return can pick a different one of two equally rated matches.
- Logging, the API-key guard, the NestJS wiring and the response bodies' JSON shapes. The status probe returns the stored fields, not their ISO renderings.
- The base64/JSON cursor encoding (`backend/src/utils/api/cursor.ts`). The decoder is a function input. History cursors carry a date value, not the text `new Date` reads.
- The player overview's club lookup, the avatar fetch and the latest-row query: `Players.GetOverview` takes the newest row of the given rows as the latest row.
- JavaScript `Number` forms other than plain decimals (exponents, hexadecimal, `Infinity`). They are read as NaN. Floating-point rounding of long digit strings is not modelled: numbers are exact.
- Route parameters are taken as integers: the `Number(param)` conversion of the sync routes' ids is not modelled. Only the status probe converts its id text.
- `monthsBack` in the sync routes' bodies is taken as an integer. A fractional JavaScript number, such as 12.5 (refused without confirmation) or 3.5 (whose month arithmetic truncates), is not modelled.
- `confirmExtendedRange` is an optional boolean; other truthy JSON values are not modelled.
- The database's `take` with a negative count is modelled as reading the last rows. That is how the ORM documents it.
- `Players.WinRateOf`: states the total and the bounds only. Wins plus losses equal the total only when every stored match was won or lost by the player (`Players.WinRateAddsUp`).
- `Clubs.GetLeaderboard`: uses the corrected limit clamp and cursor filter. The store lists the club's members in the order the query asks the database for: rank ascending with null ranks last, then player id.
- `NewPlayerStatus`: a Player row created by the roster upsert (backend/src/services/sync-club.ts:75-78) starts `stale`. The history path creates its row `in_progress` instead (`PlayerSync.MarkInProgress`). The database schema that sets this default is not part of this model.
- The frontend pages other than the two score parsers, and the older prototype under `src/app`: these are presentation.

## Findings

| source | as written | input that shows it | evidently intended | confidence | as-written member | corrected member |
|---|---|---|---|---|---|---|
| backend/src/routes/clubs.controller.ts:30 | `Math.min(Number(limit) \|\| 50, 200)` lets a negative limit through; `take: limit + 1` then reads from the end, and `items[items.length - 1]` is read on an empty page | `limit=-1` | a limit between 1 and 200 | not executed | Clubs.SafeLimitAsWritten, Clubs.MinusOnePassesAsWritten, Clubs.NegativeLimitFailsAsWritten | Clubs.SafeLimit, Clubs.SafeLimitAgrees |
| backend/src/routes/clubs.controller.ts:36-56 | the next cursor writes a null rank as 0, but the cursor filter only matches members with a rank, so unranked members after the first page are never served | two unranked members, or a ranked and then an unranked member, with `limit=1` | the second page holds the second member | not executed | Clubs.MatchesAsWritten, Clubs.NullRankSkippedAsWritten, Clubs.UnrankedAfterRankedSkippedAsWritten | Clubs.AfterCursorIsAfter, Clubs.NullRankServed, Clubs.LeaderboardPagesChain |
