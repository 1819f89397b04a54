/** The read-through cache of cache.go: a snapshot of an upstream lister,
    reused while it is younger than the expiry window. The upstream's answer
    is a parameter and `calls` counts whether the cache asked for it. */
module Cache {
  import opened Common
  import opened Games

  /** `listCache`: the window `exp`, the instant `last` of the last good
      refresh and the snapshot `list`. */
  datatype ListCache = ListCache(exp: Duration, last: Time, list: seq<GameInfo>)

  /** `Cache`: a zero window means half of `DefaultTimeout`; any other
      window is kept as given. The snapshot starts empty at the zero time. */
  function NewCache(expire: Duration): (c: ListCache)
    ensures expire == 0 ==> c.exp == DefaultTimeout / 2
    ensures expire != 0 ==> c.exp == expire
    ensures c.exp != 0 && c.last == 0 && |c.list| == 0
  {
    var exp := if expire == 0 then DefaultTimeout / 2 else expire;
    ListCache(exp, 0, [])
  }

  /** The snapshot may be reused at `now`. */
  predicate Fresh(c: ListCache, now: Time)
  {
    Within(c.last, c.exp, now)
  }

  /** The cache after a call, what the call returned, and how many times it
      called the upstream lister. */
  datatype CacheResult = CacheResult(cache: ListCache, games: seq<GameInfo>, err: Option<Err>, calls: nat)

  /** `listGames`, the exclusive-lock half: freshness is checked again, and
      only a stale snapshot costs one upstream call; an upstream error is
      passed on with a nil list and the cache as it was. */
  function Refresh(c: ListCache, now: Time, upstream: ListResult): (r: CacheResult)
    ensures Fresh(c, now) ==> r.calls == 0 && r.cache == c && r.games == c.list && r.err.None?
    ensures !Fresh(c, now) ==> r.calls == 1
    ensures !Fresh(c, now) && upstream.err.Some? ==> r.cache == c && r.games == [] && r.err == upstream.err
    ensures !Fresh(c, now) && upstream.err.None? ==>
      r.cache == ListCache(c.exp, now, upstream.games) && r.games == upstream.games && r.err.None?
  {
    if Fresh(c, now) then CacheResult(c, c.list, None, 0)
    else if upstream.err.Some? then CacheResult(c, [], upstream.err, 1)
    else CacheResult(c.(list := upstream.games, last := now), upstream.games, None, 1)
  }

  /** `ListGames`: a fresh snapshot at `now` is copied out with no upstream
      call; otherwise `Refresh` runs at its own clock reading `lockNow`, and
      its list, if any, is copied out. */
  function ListGames(c: ListCache, now: Time, lockNow: Time, upstream: ListResult): (r: CacheResult)
    ensures r.calls <= 1 && r.cache.exp == c.exp
    ensures r.calls == 1 <==> !Fresh(c, now) && !Fresh(c, lockNow)
    ensures r.calls == 0 ==> r.cache == c && r.err.None?
    ensures r.err.None? ==> r.games == r.cache.list
    ensures r.err.Some? ==> r.cache == c && r.games == [] && r.calls == 1 && r.err == upstream.err
    ensures r.calls == 1 && r.err.None? ==> r.cache == ListCache(c.exp, lockNow, upstream.games)
    ensures r.calls == 1 ==> r.err == upstream.err
  {
    var list := c.list;
    if Fresh(c, now) then CacheResult(c, CloneList(list), None, 0)
    else
      var locked := Refresh(c, lockNow, upstream);
      if locked.err.Some? then CacheResult(locked.cache, [], locked.err, locked.calls)
      else CacheResult(locked.cache, CloneList(locked.games), None, locked.calls)
  }

  /** One call of `ListGames`: its two clock readings and the answer the
      upstream would give. */
  datatype Call = Call(now: Time, lockNow: Time, upstream: ListResult)

  /** The cache after a series of calls, and the upstream calls they made. */
  datatype Replayed = Replayed(cache: ListCache, calls: nat)

  function Replay(c: ListCache, calls: seq<Call>): (r: Replayed)
    ensures r.calls <= |calls|
    ensures r.cache.exp == c.exp
    decreases |calls|
  {
    if |calls| == 0 then Replayed(c, 0)
    else
      var first := ListGames(c, calls[0].now, calls[0].lockNow, calls[0].upstream);
      var rest := Replay(first.cache, calls[1..]);
      Replayed(rest.cache, rest.calls + first.calls)
  }

  /** While the snapshot is fresh, calls make no upstream call and leave the
      cache alone. */
  lemma {:induction false} FreshCallsAreFree(c: ListCache, calls: seq<Call>)
    requires forall i :: 0 <= i < |calls| ==> Fresh(c, calls[i].now)
    ensures Replay(c, calls) == Replayed(c, 0)
  {
    if |calls| > 0 {
      FreshCallsAreFree(c, calls[1..]);
    }
  }

  /** The cache bound: after a refresh at `t`, any number of calls made
      before `t` plus the window cost no further upstream call, so the whole
      series costs exactly one. */
  lemma {:induction false} OneUpstreamCallPerWindow(c: ListCache, calls: seq<Call>)
    requires |calls| > 0
    requires !Fresh(c, calls[0].now) && !Fresh(c, calls[0].lockNow) && calls[0].upstream.err.None?
    requires forall i :: 1 <= i < |calls| ==> calls[i].now < calls[0].lockNow + c.exp
    ensures Replay(c, calls).calls == 1
  {
    var first := ListGames(c, calls[0].now, calls[0].lockNow, calls[0].upstream);
    assert first.cache.last == calls[0].lockNow;
    var rest := calls[1..];
    assert forall i :: 0 <= i < |rest| ==> rest[i] == calls[i + 1];
    FreshCallsAreFree(first.cache, rest);
  }

  /** A failed refresh does not extend the window: the next call, made no
      earlier, asks the upstream again. */
  lemma FailedRefreshRetries(c: ListCache, first: Call, next: Call)
    requires ListGames(c, first.now, first.lockNow, first.upstream).err.Some?
    requires first.now <= next.now <= next.lockNow
    ensures ListGames(ListGames(c, first.now, first.lockNow, first.upstream).cache,
                      next.now, next.lockNow, next.upstream).calls == 1
  {
  }
}
