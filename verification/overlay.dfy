/** The overlay of overlay.go: a registering lobby (`over`) laid over a
    read-only lister (`base`). Registration goes to `over` alone; listings of
    both are merged by key, `over` winning, and sorted. Both listers'
    answers are parameters. */
module Overlay {
  import opened Common
  import opened Games
  import opened Keys
  import Registry

  /** `overlay`: the registering lobby, which here is the in-memory
      `Service`, and the state of the base lister, whatever it is. */
  datatype Overlay<B> = Overlay(over: Registry.Service, base: B)

  /** `overlay.RegisterGame`: forwarded to `over`; `base` is never touched. */
  function RegisterGame<B>(o: Overlay<B>, g: Game, now: Time): (r: (Overlay<B>, Option<Err>))
    ensures r.0.base == o.base
    ensures var reg := Registry.RegisterGame(o.over, g, now);
      r.0.over == reg.service && r.1 == reg.err
  {
    var reg := Registry.RegisterGame(o.over, g, now);
    (o.(over := reg.service), reg.err)
  }

  /** `xs[i]` is the last element of `xs` with its key. */
  predicate LastOfKey(xs: seq<GameInfo>, i: int)
    requires 0 <= i < |xs|
  {
    forall j :: i < j < |xs| ==> InfoKey(xs[j]) != InfoKey(xs[i])
  }

  /** One of the merge loops: every element of `xs` in turn is stored under
      its key, so the last element with a key is the one kept. */
  function MergeInto(m: map<GameKey, GameInfo>, xs: seq<GameInfo>): (r: map<GameKey, GameInfo>)
    ensures r.Keys == m.Keys + KeySet(xs)
    decreases |xs|
  {
    if |xs| == 0 then m
    else
      var init := xs[..|xs| - 1];
      var last := xs[|xs| - 1];
      assert xs == init + [last];
      assert KeySet(xs) == KeySet(init) + {InfoKey(last)};
      MergeInto(m, init)[InfoKey(last) := last]
  }

  /** Later wins: the last element of `xs` with a key is what the merge
      holds for that key. */
  lemma {:induction false} MergeLastWins(m: map<GameKey, GameInfo>, xs: seq<GameInfo>, i: int)
    requires 0 <= i < |xs| && LastOfKey(xs, i)
    ensures InfoKey(xs[i]) in MergeInto(m, xs) && MergeInto(m, xs)[InfoKey(xs[i])] == xs[i]
    decreases |xs|
  {
    if i < |xs| - 1 {
      var init := xs[..|xs| - 1];
      assert init[i] == xs[i];
      assert LastOfKey(init, i) by {
        forall j | i < j < |init|
          ensures InfoKey(init[j]) != InfoKey(init[i])
        {
          assert init[j] == xs[j];
        }
      }
      MergeLastWins(m, init, i);
    }
  }

  /** A key none of `xs` carries keeps its earlier value. */
  lemma {:induction false} MergeKeepsOthers(m: map<GameKey, GameInfo>, xs: seq<GameInfo>, k: GameKey)
    requires k in m && k !in KeySet(xs)
    ensures MergeInto(m, xs)[k] == m[k]
    decreases |xs|
  {
    if |xs| > 0 {
      var init := xs[..|xs| - 1];
      assert xs == init + [xs[|xs| - 1]];
      assert k !in KeySet(init) by {
        forall g | g in init
          ensures InfoKey(g) != k
        {
          assert g in xs;
        }
      }
      MergeKeepsOthers(m, init, k);
    }
  }

  /** Whatever the merge holds came from `xs` or was there before, and sits
      under its own key if `m`'s values did. */
  lemma {:induction false} MergeValuesFrom(m: map<GameKey, GameInfo>, xs: seq<GameInfo>, k: GameKey)
    requires k in MergeInto(m, xs)
    requires forall k' :: k' in m ==> InfoKey(m[k']) == k'
    ensures MergeInto(m, xs)[k] in xs || (k in m && MergeInto(m, xs)[k] == m[k])
    ensures InfoKey(MergeInto(m, xs)[k]) == k
    decreases |xs|
  {
    if |xs| > 0 {
      var init := xs[..|xs| - 1];
      var last := xs[|xs| - 1];
      assert xs == init + [last];
      if k != InfoKey(last) {
        MergeValuesFrom(m, init, k);
      }
    }
  }

  /** The map `overlay.ListGames` builds: `base` first, then `over`. */
  function Merged(base: seq<GameInfo>, over: seq<GameInfo>): (r: map<GameKey, GameInfo>)
    ensures r.Keys == KeySet(base) + KeySet(over)
    ensures forall k :: k in r ==> InfoKey(r[k]) == k && (r[k] in base || r[k] in over)
  {
    var m := MergeInto(map[], base);
    forall k | k in m
      ensures InfoKey(m[k]) == k && m[k] in base
    {
      MergeValuesFrom(map[], base, k);
    }
    var r := MergeInto(m, over);
    forall k | k in r
      ensures InfoKey(r[k]) == k && (r[k] in base || r[k] in over)
    {
      MergeValuesFrom(m, over, k);
    }
    r
  }

  /** The values of `m` in map iteration order `order`. */
  function ValuesIn(m: map<GameKey, GameInfo>, order: seq<GameKey>): (r: seq<GameInfo>)
    requires forall k :: k in order ==> k in m
    requires forall k :: k in m ==> InfoKey(m[k]) == k
    ensures forall g :: g in r ==> InfoKey(g) in order && g == m[InfoKey(g)]
    ensures forall k :: k in order ==> m[k] in r
    ensures Distinct(order) ==> KeyDistinct(r)
  {
    if |order| == 0 then []
    else
      var rest := ValuesIn(m, order[1..]);
      CollectedDistinct(order, [m[order[0]]], rest);
      [m[order[0]]] + rest
  }

  /** The values of `m`, collected in iteration order `order` and sorted:
      each value exactly once, in strictly increasing key order. */
  function SortedValues(m: map<GameKey, GameInfo>, order: seq<GameKey>): (r: seq<GameInfo>)
    requires Enumerates(order, m)
    requires forall k :: k in m ==> InfoKey(m[k]) == k
    ensures StrictlySorted(r)
    ensures forall g :: g in r <==> InfoKey(g) in m && m[InfoKey(g)] == g
  {
    var list := ValuesIn(m, order);
    var sorted := SortGames(list);
    SameElements(sorted, list);
    sorted
  }

  /** `overlay.ListGames`. With no game on either side the result is empty
      and carries `over`'s error if it has one, else `base`'s (possibly
      nil). Otherwise errors are dropped, and the result holds one entry per
      key of either side, `over`'s where both have it, sorted by key. */
  function ListGames(base: ListResult, over: ListResult, order: seq<GameKey>): (r: ListResult)
    requires Enumerates(order, Merged(base.games, over.games))
    ensures |base.games| + |over.games| == 0 ==>
      r.games == [] && r.err == (if over.err.Some? then over.err else base.err)
    ensures |base.games| + |over.games| > 0 ==> r.err.None?
    ensures StrictlySorted(r.games)
    ensures KeySet(r.games) == KeySet(base.games) + KeySet(over.games)
    ensures forall g :: g in r.games ==> g in base.games || g in over.games
    ensures forall i :: 0 <= i < |over.games| && LastOfKey(over.games, i) ==> over.games[i] in r.games
    ensures forall i :: 0 <= i < |base.games| && LastOfKey(base.games, i) && InfoKey(base.games[i]) !in KeySet(over.games) ==>
              base.games[i] in r.games
  {
    if |base.games| + |over.games| == 0 then
      if over.err.Some? then ListResult([], over.err) else ListResult([], base.err)
    else
      var sorted := SortedValues(Merged(base.games, over.games), order);
      ListedKeys(base.games, over.games, sorted);
      ListedWinners(base.games, over.games, sorted);
      ListResult(sorted, None)
  }

  /** A list holding exactly the merged values covers the keys of both
      sides and holds nothing from elsewhere. */
  lemma ListedKeys(base: seq<GameInfo>, over: seq<GameInfo>, sorted: seq<GameInfo>)
    requires forall g :: g in sorted <==> InfoKey(g) in Merged(base, over) && Merged(base, over)[InfoKey(g)] == g
    ensures KeySet(sorted) == KeySet(base) + KeySet(over)
    ensures forall g :: g in sorted ==> g in base || g in over
  {
  }

  /** A list holding exactly the merged values holds the winners. */
  lemma ListedWinners(base: seq<GameInfo>, over: seq<GameInfo>, sorted: seq<GameInfo>)
    requires forall g :: g in sorted <==> InfoKey(g) in Merged(base, over) && Merged(base, over)[InfoKey(g)] == g
    ensures forall i :: 0 <= i < |over| && LastOfKey(over, i) ==> over[i] in sorted
    ensures forall i :: 0 <= i < |base| && LastOfKey(base, i) && InfoKey(base[i]) !in KeySet(over) ==>
              base[i] in sorted
  {
    MergedWinners(base, over);
  }

  /** Who wins in the merged map: `over`'s last entry for a key, else
      `base`'s last entry. */
  lemma MergedWinners(base: seq<GameInfo>, over: seq<GameInfo>)
    ensures forall i :: 0 <= i < |over| && LastOfKey(over, i) ==> Merged(base, over)[InfoKey(over[i])] == over[i]
    ensures forall i :: 0 <= i < |base| && LastOfKey(base, i) && InfoKey(base[i]) !in KeySet(over) ==>
              Merged(base, over)[InfoKey(base[i])] == base[i]
  {
    var m := MergeInto(map[], base);
    forall i | 0 <= i < |over| && LastOfKey(over, i)
      ensures Merged(base, over)[InfoKey(over[i])] == over[i]
    {
      MergeLastWins(m, over, i);
    }
    forall i | 0 <= i < |base| && LastOfKey(base, i) && InfoKey(base[i]) !in KeySet(over)
      ensures Merged(base, over)[InfoKey(base[i])] == base[i]
    {
      MergeLastWins(map[], base, i);
      MergeKeepsOthers(m, over, InfoKey(base[i]));
    }
  }

  /** However the merged map happens to be enumerated, the overlay's
      listing is the same. */
  lemma {:induction false} ListGamesOrderIrrelevant(base: ListResult, over: ListResult, o1: seq<GameKey>, o2: seq<GameKey>)
    requires Enumerates(o1, Merged(base.games, over.games))
    requires Enumerates(o2, Merged(base.games, over.games))
    ensures ListGames(base, over, o1) == ListGames(base, over, o2)
  {
    if |base.games| + |over.games| > 0 {
      var m := Merged(base.games, over.games);
      StrictlySortedUnique(SortedValues(m, o1), SortedValues(m, o2));
    }
  }
}
