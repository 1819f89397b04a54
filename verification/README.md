# Nox game lobby — a Dafny model

This project models the core of `noxworld-dev/lobby`, the lobby server for
Nox games. Game hosts register their games. Clients list the registered
games. The model covers these parts:

- **The in-memory lobby (`Service`).** It validates and normalises a
  registration and stores it under its address and port, stamped with the
  time it was seen. Entries expire one timeout after that. They are
  swept out lazily: at most once per timeout on registration, or at once
  after a listing has seen a stale entry. Listings hold only live entries,
  sorted by address and then port.
- **`KeepRegistered`.** This is the host-side loop that re-registers a game
  on every tick. It gives up on the fourth refusal in a row.
- **The overlay.** It lays a registering lobby over a read-only one.
  Registration goes only to the upper lobby. Listings of the two lobbies
  are merged by key, with the upper lobby winning.
- **The read-through cache.** After a successful refresh it asks its
  upstream lister at most once per expiry window. After a failed refresh
  every call asks again.
- **The XWIS adapter.** It turns the rooms of the foreign XWIS lobby into
  games.

Go's wall clock becomes explicit `Time` parameters. A `Time` is an integer
count of nanoseconds, and "`t.Add(d).After(now)`" becomes
`Within(t, d, now)`, that is `t + d > now`. The order in which Go happens
to range over a map becomes an explicit `order` parameter. It is any
duplicate-free enumeration of the keys, and the lemmas show that the
results do not depend on it. The answers of other listers and hosts, and
the XWIS room fetch, are parameters too.

Files:

- `common.dfy` holds the shared option, error and time definitions.
- `text.dfy` holds Go's `strings.TrimSpace` and `strings.ToLower` and the
  code-point string order, which equals Go's byte order on valid UTF-8.
- `games.dfy` holds the game records and their copies.
- `keys.dfy` holds the game key, the listing order and the sort.
- `registry.dfy` holds the in-memory lobby.
- `keepalive.dfy` holds `KeepRegistered`.
- `overlay.dfy`, `cache.dfy` and `xwis.dfy` hold the three wrappers.

Two choices of the overlay's code decide what its listing returns:

- **Whose error is returned.** When both sides list nothing, the
  registering (upper) lobby's error is returned if there is one, and
  otherwise the read-only base's error (overlay.go:27-32).
- **Who wins a key collision.** The base's entries are stored first and
  the upper lobby's entries overwrite them, so the upper lobby's entry
  wins (overlay.go:8, 36-41).

## Model

| member | source | states |
|---|---|---|
| Text.TrimmedIff | lobby.go:150 | a name equals its trimmed form iff it is empty or neither starts nor ends with a Unicode space |
| Text.ToLower | lobby.go:156 | the result has the input's length; each ASCII upper-case letter becomes its lower-case partner (code point plus 32); every other character is kept; the result holds no upper-case letter, and an all-lower-case name is unchanged |
| Text.TrimSpace | lobby.go:150 | the result is one contiguous run of the input, with only white space cut from either end, and it neither starts nor ends with white space |
| Text.StrLess | lobby.go:225 | Go's `<` on strings, defined lexicographically: `a < b` holds only for different strings, and only when `b` is non-empty |
| Text.StrLessFirstDifference | lobby.go:225 | `a < b` iff, at the first position where the two strings differ, `a` has ended or carries the smaller character |
| Text.StrLessIrreflexive | lobby.go:225 | no address sorts before itself |
| Text.StrLessTransitive | lobby.go:225 | the address order is transitive |
| Text.StrLessTotal | lobby.go:225 | of two different addresses, one sorts before the other |
| Text.StrLessAsymmetric | lobby.go:225 | two addresses never sort before each other |
| Games.CloneGame | game.go:71-80 | a copy of a game equals the original, and a missing game copies to a missing game |
| Games.CloneResolution | game.go:42-48 | copying a resolution gives an equal value, and nil gives nil |
| Games.ClonePlayers | game.go:88-94 | copying the player counts gives an equal value, and nil gives nil |
| Games.CloneQuest | game.go:101-107 | copying quest info gives an equal value, and nil gives nil |
| Games.CloneInfo | lobby.go:24-31 | copying a listed game gives an equal value, and nil gives nil |
| Games.CloneList | cache.go:55-58 | the copied-out list equals the cached list element by element |
| Keys.KeyOf | lobby.go:92-97 | a game's key is its address and its port, and nothing else |
| Keys.KeyLess | lobby.go:222-228 | keys compare by address, then by port: `a` sorts first iff its address is smaller, or the addresses are equal and its port is smaller; no key sorts before itself |
| Keys.KeyLessTransitive | lobby.go:221-229 | the sort's comparator (address, then port) is transitive |
| Keys.KeyLessTotal | lobby.go:221-229 | of two different keys, one sorts before the other |
| Keys.KeyLessAsymmetric | lobby.go:221-229 | two keys never sort before each other |
| Keys.SortGames | lobby.go:221-229 | the sorted list is ordered by key and is a permutation of the input; with distinct keys the order is strict |
| Keys.StrictlySortedUnique | lobby.go:221-229 | two strictly key-ordered lists with the same elements are equal, so the sort's output is fully determined by its input's contents |
| Registry.NewLobby | lobby.go:107-112 | a new lobby is empty, has the default one-minute timeout and satisfies the store invariant |
| Registry.IsValid | lobby.go:191-193 | an entry is live at `now` iff its age `now - seenAt` is below the store's timeout, that is iff `seenAt + timeout > now` |
| Registry.SetTimeout | lobby.go:124-128 | the timeout becomes `dt`; the store, the gc flag and the last sweep are untouched, and every entry is now judged live or stale against the new timeout |
| Registry.Validate | lobby.go:132-152 | a record is refused iff some rule is broken, and the error is always one of the seven rule messages |
| Registry.NameOk | lobby.go:150-152 | a name passes iff it is non-empty and neither starts nor ends with white space |
| Registry.ValidRecordIsRules | lobby.go:132-152 | a record is valid exactly when it keeps all seven registration rules, each checked in the source's order |
| Registry.ValidateReportsFirstBroken | lobby.go:132-152 | the error reported is the message of the first rule broken, in the source's order |
| Registry.Normalize | lobby.go:153-156 | a non-positive port becomes 18590 and any other port is kept; the map name becomes its `ToLower`; nothing else changes; a valid record becomes storable, and a stored one is left alone |
| Registry.MaybeGC | lobby.go:176-189 | the request flag is always cleared; a sweep happens iff the flag was set or a full timeout has passed since the last sweep; a sweep keeps exactly the entries live at `now` and records `now` |
| Registry.MaybeGCLeavesNoStale | lobby.go:176-189 | whenever `maybeGC` sweeps, nothing stale at its instant survives |
| Registry.RegisterGame | lobby.go:131-168 | an invalid record changes nothing and gets its rule's error; a valid one is normalised and stored under its key with `seenAt = now`, present whenever the timeout is positive; other entries are kept unless stale at `now`; if no sweep is due (flag clear, last sweep less than a timeout ago) the store is exactly the old one plus the new entry and the last sweep is unchanged; otherwise the sweep runs at `now`, records `now` and leaves nothing stale; the invariant is preserved |
| Registry.DefaultPortSameEntry | lobby.go:153-155 | registering with port 0 and with the default port 18590 has the same outcome |
| Registry.CollectValid | lobby.go:199-203 | the scan copies out exactly the entries live at `now`, once each |
| Registry.RequestGC | lobby.go:200-206 | the scan raises the gc flag iff the flag was clear and some entry is stale; a set flag stays set |
| Registry.ListGames | lobby.go:212-219 | the listing has no error, is strictly ordered by key, and holds exactly the entries live at the scan's instant |
| Registry.FlagAndSweep | lobby.go:170-216 | the flag raise of the scan (lobby.go:204-205), the conditional sweep after it (lobby.go:213-216) and `doGC` itself (lobby.go:170-174), together: if the scan finds a stale entry while no sweep is pending, the follow-up sweep leaves nothing stale at its own instant; otherwise the store is unchanged; the invariant is preserved |
| Registry.StaleInIff | lobby.go:201-206 | scanning any enumeration of the map finds a stale entry iff the map holds one |
| Registry.ListGamesOrderIrrelevant | lobby.go:195-219 | the listing and the resulting store do not depend on the map's iteration order |
| Registry.RegisteredVisibleUntilExpiry | lobby_test.go:146-156 | right after registering at `t0`, a listing at `now` shows the record iff `now < t0 + timeout` |
| Registry.ReRegisterReplaces | lobby_test.go:166-169 | a second registration under the same key, under another name, replaces the first; the listing holds one entry for that key |
| KeepAlive.KeepRegistered | lobby.go:61-90 | the loop, started with no refusals counted, stops within the rounds given |
| KeepAlive.InfoErrorStops | lobby.go:70-74 | a failed host answer ends the loop at once with that error |
| KeepAlive.CancelStopsQuietly | lobby.go:84-86 | cancellation seen after a tolerated round (an accepted registration, or a refusal that leaves at most three in a row) ends the loop with no error |
| KeepAlive.StopReasons | lobby.go:67-89 | whenever the loop stops: every earlier round had a good host answer and was not cancelled; a failed host answer in the last round is the error returned; a nil result means the last round's host answer was good and cancellation was seen |
| KeepAlive.Run | lobby.go:67-89 | the loop stops within the rounds given; while running, its failure counter never exceeds three |
| KeepAlive.RunningCountsTrailingFailures | lobby.go:75-83 | while the loop runs, its counter is the number of refused registrations in a row so far, and no round has failed or been cancelled |
| KeepAlive.GivesUpOnFourthFailure | lobby.go:76-80 | when the loop ends with the lobby's error, that error is the last refusal's, and the four rounds ending there were all refused |
| KeepAlive.StopCounts | lobby.go:67-83 | the same, for a loop entered with some refusals already counted |
| KeepAlive.FourthFailureStops | lobby.go:76-80 | conversely, four refusals in a row end the loop with the fourth refusal's error |
| KeepAlive.SuccessResets | lobby.go:81-83 | after an accepted registration the loop continues as if newly started |
| KeepAlive.TrailingFailuresPrepend | lobby.go:67-83 | (counter bookkeeping) a round put in front changes the trailing refusal count only when every later round was refused |
| Cache.NewCache | cache.go:11-16 | a zero window means thirty seconds; any other window is kept; the cache starts empty |
| Cache.Refresh | cache.go:27-40 | under the lock, a fresh snapshot is reused with no upstream call; otherwise one call is made; an error leaves the cache as it was and is returned with a nil list; success replaces the snapshot and stamps it |
| Cache.ListGames | cache.go:42-60 | at most one upstream call, made iff the snapshot is stale at both readings of the clock; when the upstream is called its error, if any, is what the call returns, with a nil list and the cache unchanged; on success the copied-out list equals the snapshot, and a refresh stamps it with the second clock reading |
| Cache.FreshCallsAreFree | cache.go:43-48 | calls that find the snapshot fresh make no upstream call and leave the cache as it was |
| Cache.OneUpstreamCallPerWindow | cache.go:27-60 | after a good refresh, any number of calls inside the window cost no further upstream call |
| Cache.FailedRefreshRetries | cache.go:34-37 | a failed refresh does not restart the window, so the next call asks the upstream again |
| Overlay.RegisterGame | overlay.go:19-21 | registration goes to the upper lobby with its outcome, and the base is never touched |
| Overlay.MergeInto | overlay.go:36-41 | the merged map's keys are the earlier keys plus the list's keys |
| Overlay.MergeLastWins | overlay.go:36-41 | the last entry of a list with a key is the one the merge keeps |
| Overlay.MergeKeepsOthers | overlay.go:36-41 | a key the list does not carry keeps its earlier value |
| Overlay.MergeValuesFrom | overlay.go:36-41 | every merged value comes from the list or was there before, under its own key |
| Overlay.Merged | overlay.go:35-41 | the merged map covers the keys of both sides, and each value comes from one of them |
| Overlay.MergedWinners | overlay.go:36-41 | the upper lobby's last entry for a key wins; otherwise the base's last entry for it is kept |
| Overlay.SortedValues | overlay.go:42-46 | the merged map's values are listed once each, in strictly increasing key order, whatever the iteration order |
| Overlay.ListedKeys | overlay.go:35-46 | the listing covers the keys of both sides and holds only entries from one of them |
| Overlay.ListedWinners | overlay.go:36-46 | the listing holds the upper lobby's last entry for each of its keys, and the base's last entry for every other key |
| Overlay.ListGamesOrderIrrelevant | overlay.go:36-46 | the overlay's listing does not depend on the order in which the merged map is enumerated |
| Overlay.ListGames | overlay.go:23-48 | with no games on either side, the result is empty and carries the upper lobby's error if any, else the base's; otherwise there is no error, and the result is strictly key-ordered, covers the keys of both sides, and holds the upper lobby's entry wherever both sides have the key |
| Xwis.GameMode | xwis.go:17-37 | each of the eight named map types maps to the mode of the same name, and back; every other type, and only those, maps to custom |
| Xwis.GameFromXwis | xwis.go:39-56 | name, address, map and player counts are copied; the port is 18590; the quest stage is present iff the map type is quest, iff the mode is quest, and it is the frag limit |
| Xwis.XwisGamesNotRegistrable | xwis.go:39-56 | a converted game carries no version, so the in-memory lobby would refuse it |
| Xwis.Convert | xwis.go:90-98 | one game for each room that hosts one, all seen at `now`, and nothing else |
| Xwis.ConvertAppend | xwis.go:91-98 | conversion preserves the rooms' order: converting two runs of rooms is converting them together |
| Xwis.ListGames | xwis.go:81-102 | a failed fetch gives a nil list and its error; otherwise the converted games and no error |

## Left out

- HTTP server and client, `cmd/`, metrics and logging: these are outside the core. The counters updated in `RegisterGame`, `maybeGC` and the XWIS lister change nothing the lobby returns.
- Locks, the atomic compare-and-swap and the read-to-write lock upgrade: every operation is modelled as one atomic step on a sequential state. A listing's scan and its follow-up sweep take separate clock readings (`now`, `gcNow`), and so do the cache's two checks (`now`, `lockNow`). Interleavings with other goroutines are not modelled. The gc request flag is therefore always clear between operations.
- Wall clock: time is a parameter. Overflow of Go's `time.Time.Add`, which saturates, is not modelled; times are unbounded integers.
- `KeepRegistered`'s context, ticker and per-call timeout: the loop is modelled as a sequence of rounds. Each round is the host's answer, the lobby's answer and whether cancellation won the `select`. The default ticker period (a third of the timeout) only paces rounds, so it does not appear.
- Text.ToLower: lower-cases ASCII letters only; Go's `strings.ToLower` also maps non-ASCII upper-case letters.
- Text.StrLess: compares code points; Go compares UTF-8 bytes. The two orders agree, but that equivalence is not proved here.
- The `xwis` package (client, room fetch, its `MapType` values) is not part of this model. Only the fields the adapter reads are declared.
- `xwisLister.metricsForRooms` and its remembered `prev` map: they affect only metrics.
- Aliasing of shared records: here records are values, so each `Clone` is the identity and is stated as such. Go's listings hand out deep copies, but `RegisterGame` stores a shallow copy of the caller's record (lobby.go:160), so its `Quest` stays shared with the caller and a later change by the caller would show in the store. The model does not capture that sharing.
- Go's map iteration order: it is an explicit parameter, and the listing is proved independent of it (`Registry.ListGamesOrderIrrelevant`). For the overlay, the same is proved by `Overlay.ListGamesOrderIrrelevant`.
- Overlay.ListGames: the base lister is queried before the upper one, but both answers arrive here as inputs, so that order is not visible in the model.
- The lobby test's full-timeout expiry and three-server scenario follow from `Registry.RegisteredVisibleUntilExpiry` and `Registry.ListGames`; they are not restated as separate lemmas.
- KeepAlive.Run: its own contract bounds only the stopping round and the failure counter. What ends the loop, and with which error, is stated by `KeepAlive.StopReasons` (for a stop in any round), `KeepAlive.GivesUpOnFourthFailure`, `KeepAlive.FourthFailureStops`, `KeepAlive.RunningCountsTrailingFailures` and `KeepAlive.SuccessResets`.
- KeepAlive.KeepRegistered: its own contract only bounds the stopping round. Its behaviour is stated by the `KeepAlive.Run` lemmas listed above and by `KeepAlive.InfoErrorStops` and `KeepAlive.CancelStopsQuietly`. `KeepRegistered` is `Run` entered with `failure` = 0, so each of these applies to it. `KeepAlive.StopReasons` covers a stop in any round; `KeepAlive.InfoErrorStops` and `KeepAlive.CancelStopsQuietly` describe the round about to run, for any counter value the loop can carry into it.
