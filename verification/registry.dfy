/** The in-memory lobby `Service` of lobby.go: validation and normalisation
    of registrations, time-to-live expiry, amortised garbage collection and
    sorted listings. Every operation is one atomic step and takes the clock
    reading it would make as a parameter. */
module Registry {
  import opened Common
  import opened Text
  import opened Games
  import opened Keys

  /** `gc` is the "sweep requested" flag, `byAddr` the store, `lastGC` the
      instant of the last sweep. */
  datatype Service = Service(gc: bool, byAddr: map<GameKey, GameInfo>, timeout: Duration, lastGC: Time)

  /** Every stored entry sits under its own key and holds a record that
      passed validation and was normalised. */
  predicate WfStore(m: map<GameKey, GameInfo>)
  {
    forall k :: k in m ==> InfoKey(m[k]) == k && Stored(m[k].game)
  }

  predicate Stored(g: Game)
  {
    ValidRecord(g) && g.port > 0 && IsLower(g.mapName)
  }

  /** Between two operations the sweep request flag is clear: a listing that
      raises it sweeps before it returns, and every registration clears it. */
  predicate Inv(s: Service)
  {
    !s.gc && WfStore(s.byAddr)
  }

  /** `NewLobby`: an empty store with the default timeout; the last sweep is
      the zero time. */
  function NewLobby(): (s: Service)
    ensures Inv(s) && |s.byAddr| == 0 && s.timeout == DefaultTimeout && s.lastGC == 0
  {
    Service(false, map[], DefaultTimeout, 0)
  }

  /** `isValid`: an entry is live while `now` is before its last sighting
      plus the store's current timeout. */
  predicate IsValid(s: Service, v: GameInfo, now: Time): (live: bool)
    ensures live <==> now - v.seenAt < s.timeout
  {
    Within(v.seenAt, s.timeout, now)
  }

  /** `SetTimeout`: the timeout is a property of the store, so it re-decides
      the validity of the entries already stored. */
  function SetTimeout(s: Service, dt: Duration): (r: Service)
    ensures r.timeout == dt
    ensures r.byAddr == s.byAddr && r.gc == s.gc && r.lastGC == s.lastGC
    ensures Inv(s) ==> Inv(r)
    ensures forall k, now :: k in s.byAddr ==> (IsValid(r, s.byAddr[k], now) <==> s.byAddr[k].seenAt + dt > now)
  {
    s.(timeout := dt)
  }

  const ErrPlayersCur := Err("players number should be positive")
  const ErrPlayersMax := Err("max players number should be set")
  const ErrAddress := Err("address must be set")
  const ErrVersion := Err("version should be set")
  const ErrMap := Err("map should be set")
  const ErrMode := Err("mode should be set")
  const ErrName := Err("invalid server name")

  /** A name that is not empty and carries no surrounding white space. */
  predicate ValidName(n: string)
  {
    |n| > 0 && !IsSpace(n[0]) && !IsSpace(n[|n| - 1])
  }

  /** Everything a registration must satisfy (`ValidRecordIsRules`: each of
      the seven rules below). */
  predicate ValidRecord(g: Game)
  {
    && g.players.cur >= 0
    && g.players.max > 0
    && |g.address| > 0
    && |g.vers| > 0
    && |g.mapName| > 0
    && |g.mode| > 0
    && ValidName(g.name)
  }

  /** The registration rules in the order they are checked, each with the
      error reported when it is the first one broken. */
  function Rule(g: Game, i: nat): (holds: bool)
    requires i < 7
  {
    match i
    case 0 => g.players.cur >= 0
    case 1 => g.players.max > 0
    case 2 => |g.address| > 0
    case 3 => |g.vers| > 0
    case 4 => |g.mapName| > 0
    case 5 => |g.mode| > 0
    case _ => ValidName(g.name)
  }

  const RuleErrs: seq<Err> := [ErrPlayersCur, ErrPlayersMax, ErrAddress, ErrVersion, ErrMap, ErrMode, ErrName]

  /** A record is valid exactly when it keeps every rule. */
  lemma ValidRecordIsRules(g: Game)
    ensures ValidRecord(g) <==> forall i :: 0 <= i < |RuleErrs| ==> Rule(g, i)
  {
    if forall i :: 0 <= i < |RuleErrs| ==> Rule(g, i) {
      assert Rule(g, 0) && Rule(g, 1) && Rule(g, 2) && Rule(g, 3);
      assert Rule(g, 4) && Rule(g, 5) && Rule(g, 6);
    }
  }

  /** The name check: non-empty and equal to its own `TrimSpace`, which is
      exactly a valid name. */
  function NameOk(n: string): (ok: bool)
    ensures ok <==> ValidName(n)
  {
    TrimmedIff(n);
    n != "" && n == TrimSpace(n)
  }

  /** The checks at the head of `RegisterGame`: no error iff the record is
      valid. */
  function Validate(g: Game): (r: Option<Err>)
    ensures r.None? <==> ValidRecord(g)
    ensures r.Some? ==> r.value in RuleErrs
  {
    if g.players.cur < 0 then Some(ErrPlayersCur)
    else if g.players.max <= 0 then Some(ErrPlayersMax)
    else if g.address == "" then Some(ErrAddress)
    else if g.vers == "" then Some(ErrVersion)
    else if g.mapName == "" then Some(ErrMap)
    else if g.mode == "" then Some(ErrMode)
    else if !NameOk(g.name) then Some(ErrName)
    else None
  }

  /** `Validate` reports the error of the first rule broken, in the order
      the rules are checked. */
  lemma ValidateReportsFirstBroken(g: Game, i: nat)
    requires i < 7 && !Rule(g, i)
    requires forall j :: 0 <= j < i ==> Rule(g, j)
    ensures Validate(g) == Some(RuleErrs[i])
  {
    if i > 0 { assert Rule(g, 0); }
    if i > 1 { assert Rule(g, 1); }
    if i > 2 { assert Rule(g, 2); }
    if i > 3 { assert Rule(g, 3); }
    if i > 4 { assert Rule(g, 4); }
    if i > 5 { assert Rule(g, 5); }
  }

  /** The normalisation a valid record undergoes: a missing port becomes the
      default one and the map name is lower-cased; nothing else changes, and
      a stored record is a fixed point. */
  function Normalize(g: Game): (r: Game)
    ensures r.port > 0 && IsLower(r.mapName) && |r.mapName| == |g.mapName|
    ensures r.mapName == ToLower(g.mapName)
    ensures g.port > 0 ==> r.port == g.port
    ensures g.port <= 0 ==> r.port == DefaultGamePort
    ensures r == g.(port := r.port, mapName := r.mapName)
    ensures ValidRecord(g) ==> Stored(r)
    ensures Stored(g) ==> r == g
  {
    var port := if g.port <= 0 then DefaultGamePort else g.port;
    g.(port := port, mapName := ToLower(g.mapName))
  }

  /** The result of `RegisterGame`: the new store, the caller's record as the
      call left it (Go mutates it in place) and the error. */
  datatype Registration = Registration(service: Service, record: Game, err: Option<Err>)

  /** `SweptAt(before, after, now)`: `after` keeps exactly the entries of
      `before` still valid at `now`, unchanged, records `now` as the last
      sweep and has the request flag clear. */
  predicate SweptAt(before: Service, after: Service, now: Time)
  {
    && !after.gc && after.timeout == before.timeout && after.lastGC == now
    && (forall k :: k in after.byAddr ==> k in before.byAddr && after.byAddr[k] == before.byAddr[k])
    && (forall k :: k in before.byAddr ==> (k in after.byAddr <==> IsValid(before, before.byAddr[k], now)))
  }

  /** A sweep at `now` leaves nothing stale at `now`. */
  lemma MaybeGCLeavesNoStale(s: Service, now: Time)
    ensures s.gc || !Within(s.lastGC, s.timeout, now) ==> !HasStale(MaybeGC(s, now), now)
  {
  }

  /** `maybeGC`: the request flag is always cleared; a sweep happens iff it
      was set or a full timeout has passed since the last sweep. */
  function MaybeGC(s: Service, now: Time): (r: Service)
    ensures !r.gc && r.timeout == s.timeout
    ensures s.gc || !Within(s.lastGC, s.timeout, now) ==> SweptAt(s, r, now)
    ensures !s.gc && Within(s.lastGC, s.timeout, now) ==> r == s
    ensures WfStore(s.byAddr) ==> WfStore(r.byAddr)
  {
    if s.gc || !Within(s.lastGC, s.timeout, now) then
      var kept := map k | k in s.byAddr && IsValid(s, s.byAddr[k], now) :: s.byAddr[k];
      Service(false, kept, s.timeout, now)
    else
      s.(gc := false)
  }

  /** `RegisterGame`: an invalid record is refused with the first broken
      rule's error and nothing changes; a valid one is normalised, stored
      under its key with `seenAt = now` in place of any earlier record for
      that key, and the store then gets a chance to sweep at `now`. */
  function RegisterGame(s: Service, g: Game, now: Time): (r: Registration)
    ensures !ValidRecord(g) ==> r.err.Some? && r.err == Validate(g) && r.service == s && r.record == g
    ensures ValidRecord(g) ==> r.err.None? && r.record == Normalize(g)
    ensures ValidRecord(g) ==>
      var key := KeyOf(r.record);
      && (key in r.service.byAddr ==> r.service.byAddr[key] == GameInfo(r.record, now))
      && (s.timeout > 0 ==> key in r.service.byAddr)
      && (forall k :: k in r.service.byAddr && k != key ==> k in s.byAddr && r.service.byAddr[k] == s.byAddr[k])
      && (forall k :: k in s.byAddr && k != key && IsValid(s, s.byAddr[k], now) ==> k in r.service.byAddr)
    ensures ValidRecord(g) ==>
      var stored := s.(byAddr := s.byAddr[KeyOf(r.record) := GameInfo(r.record, now)]);
      if !s.gc && Within(s.lastGC, s.timeout, now) then
        r.service == stored
      else
        SweptAt(stored, r.service, now) && !HasStale(r.service, now)
    ensures r.service.timeout == s.timeout
    ensures Inv(s) ==> Inv(r.service)
  {
    match Validate(g)
    case Some(e) => Registration(s, g, Some(e))
    case None =>
      var n := Normalize(g);
      var stored := s.(byAddr := s.byAddr[KeyOf(n) := GameInfo(n, now)]);
      MaybeGCLeavesNoStale(stored, now);
      Registration(MaybeGC(stored, now), n, None)
  }

  /** The copies `listGames` takes, in map iteration order `order`, of the
      entries valid at `now`. */
  function CollectValid(s: Service, order: seq<GameKey>, now: Time): (r: seq<GameInfo>)
    requires forall k :: k in order ==> k in s.byAddr
    requires WfStore(s.byAddr)
    ensures forall g :: g in r ==> InfoKey(g) in order && s.byAddr[InfoKey(g)] == g && IsValid(s, g, now)
    ensures forall k :: k in order && IsValid(s, s.byAddr[k], now) ==> s.byAddr[k] in r
    ensures Distinct(order) ==> KeyDistinct(r)
  {
    if |order| == 0 then []
    else
      var v := s.byAddr[order[0]];
      var rest := CollectValid(s, order[1..], now);
      var head := if IsValid(s, v, now) then [CloneInfo(Some(v)).value] else [];
      CollectedDistinct(order, head, rest);
      head + rest
  }

  /** Some key of `order` names an entry stale at `now`. */
  predicate StaleIn(s: Service, order: seq<GameKey>, now: Time)
    requires forall k :: k in order ==> k in s.byAddr
  {
    exists i :: 0 <= i < |order| && !IsValid(s, s.byAddr[order[i]], now)
  }

  predicate HasStale(s: Service, now: Time)
  {
    exists k :: k in s.byAddr && !IsValid(s, s.byAddr[k], now)
  }

  /** The flag cell after a scan, and whether this scan raised it. */
  datatype GCRequest = GCRequest(flag: bool, requested: bool)

  /** The gc bookkeeping of the `listGames` loop: at each stale entry, while
      it has not yet raised the flag itself, the scan tries to swap the flag
      from clear to set. It raises the flag iff the flag was clear and a
      stale entry exists; a set flag stays set. */
  function RequestGC(s: Service, order: seq<GameKey>, now: Time, flag: bool, requested: bool): (r: GCRequest)
    requires forall k :: k in order ==> k in s.byAddr
    ensures requested ==> r == GCRequest(flag, true)
    ensures !requested ==> (r.flag <==> flag || StaleIn(s, order, now))
    ensures !requested ==> (r.requested <==> !flag && StaleIn(s, order, now))
  {
    if |order| == 0 then GCRequest(flag, requested)
    else if requested then RequestGC(s, order[1..], now, flag, requested)
    else if IsValid(s, s.byAddr[order[0]], now) then
      var r := RequestGC(s, order[1..], now, flag, requested);
      assert StaleIn(s, order, now) <==> StaleIn(s, order[1..], now) by {
        if StaleIn(s, order, now) {
          var i :| 0 <= i < |order| && !IsValid(s, s.byAddr[order[i]], now);
          assert order[1..][i - 1] == order[i];
        }
        if StaleIn(s, order[1..], now) {
          var i :| 0 <= i < |order[1..]| && !IsValid(s, s.byAddr[order[1..][i]], now);
          assert order[1..][i] == order[i + 1];
        }
      }
      r
    else
      assert StaleIn(s, order, now) by {
        assert !IsValid(s, s.byAddr[order[0]], now);
      }
      RequestGC(s, order[1..], now, true, !flag)
  }

  /** The result of `ListGames`: the store after any sweep, the listing and
      the error, which is always nil. */
  datatype Listing = Listing(service: Service, games: seq<GameInfo>, err: Option<Err>)

  /** `ListGames`: the scan at `now` (`listGames`), then the sweep at `gcNow`
      (`doGC`) if the scan raised the flag, then the sort. The listing holds
      exactly the entries valid at `now`, in strictly increasing key order. */
  function ListGames(s: Service, order: seq<GameKey>, now: Time, gcNow: Time): (r: Listing)
    requires Enumerates(order, s.byAddr) && WfStore(s.byAddr)
    ensures r.err.None?
    ensures StrictlySorted(r.games)
    ensures forall g :: g in r.games ==> InfoKey(g) in s.byAddr && s.byAddr[InfoKey(g)] == g && IsValid(s, g, now)
    ensures forall k :: k in s.byAddr && IsValid(s, s.byAddr[k], now) ==> s.byAddr[k] in r.games
    ensures r.service == FlagAndSweep(s, order, now, gcNow)
  {
    var list := CollectValid(s, order, now);
    var sorted := SortGames(list);
    SameElements(sorted, list);
    Listing(FlagAndSweep(s, order, now, gcNow), sorted, None)
  }

  /** The store-side effect of `ListGames`: the scan raises the request flag
      if it sees a stale entry while the flag is clear, and `doGC` then
      sweeps at `gcNow`, so nothing stale at `gcNow` survives. */
  function FlagAndSweep(s: Service, order: seq<GameKey>, now: Time, gcNow: Time): (r: Service)
    requires Enumerates(order, s.byAddr)
    ensures !s.gc && HasStale(s, now) ==> SweptAt(s, r, gcNow) && !HasStale(r, gcNow)
    ensures s.gc || !HasStale(s, now) ==> r == s
    ensures WfStore(s.byAddr) ==> WfStore(r.byAddr)
    ensures Inv(s) ==> Inv(r)
  {
    var req := RequestGC(s, order, now, s.gc, false);
    StaleInIff(s, order, now);
    var flagged := s.(gc := req.flag);
    if req.requested then MaybeGC(flagged, gcNow) else flagged
  }

  lemma StaleInIff(s: Service, order: seq<GameKey>, now: Time)
    requires Enumerates(order, s.byAddr)
    ensures StaleIn(s, order, now) <==> HasStale(s, now)
  {
  }

  /** However the map happens to be enumerated, `ListGames` gives the same
      store and the same listing. */
  lemma ListGamesOrderIrrelevant(s: Service, o1: seq<GameKey>, o2: seq<GameKey>, now: Time, gcNow: Time)
    requires Enumerates(o1, s.byAddr) && Enumerates(o2, s.byAddr) && WfStore(s.byAddr)
    ensures ListGames(s, o1, now, gcNow) == ListGames(s, o2, now, gcNow)
  {
    var a := ListGames(s, o1, now, gcNow);
    var b := ListGames(s, o2, now, gcNow);
    StrictlySortedUnique(a.games, b.games);
    if !s.gc && HasStale(s, now) {
      assert a.service.byAddr == b.service.byAddr;
    }
  }

  /** Expiry: right after a successful registration at `t0`, a listing at
      `now` shows the record iff `now` is before `t0` plus the timeout,
      whatever was stored before and whether or not a sweep ran. Applied to
      a store that already held the key, this is the refresh of the window. */
  lemma RegisteredVisibleUntilExpiry(s: Service, g: Game, t0: Time, order: seq<GameKey>, now: Time, gcNow: Time)
    requires Inv(s) && ValidRecord(g) && s.timeout > 0
    requires Enumerates(order, RegisterGame(s, g, t0).service.byAddr)
    ensures var r := RegisterGame(s, g, t0);
      GameInfo(r.record, t0) in ListGames(r.service, order, now, gcNow).games <==> t0 + s.timeout > now
  {
  }

  /** Registering another record under the same key (a different name, say)
      replaces the first: a later listing holds exactly one entry for the
      key, the second record. */
  lemma ReRegisterReplaces(s: Service, g1: Game, g2: Game, t1: Time, t2: Time,
                           order: seq<GameKey>, now: Time, gcNow: Time)
    requires Inv(s) && s.timeout > 0 && ValidRecord(g1) && ValidRecord(g2)
    requires KeyOf(Normalize(g1)) == KeyOf(Normalize(g2))
    requires t2 + s.timeout > now
    requires Enumerates(order, RegisterGame(RegisterGame(s, g1, t1).service, g2, t2).service.byAddr)
    ensures var s2 := RegisterGame(RegisterGame(s, g1, t1).service, g2, t2).service;
      var games := ListGames(s2, order, now, gcNow).games;
      && GameInfo(Normalize(g2), t2) in games
      && forall x :: x in games && InfoKey(x) == KeyOf(Normalize(g2)) ==> x == GameInfo(Normalize(g2), t2)
  {
  }

  /** A port of zero and the default port address the same entry. */
  lemma DefaultPortSameEntry(s: Service, g: Game, now: Time)
    requires ValidRecord(g)
    ensures RegisterGame(s, g.(port := 0), now) == RegisterGame(s, g.(port := DefaultGamePort), now)
  {
  }
}
