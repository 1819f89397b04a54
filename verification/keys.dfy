/** Session keys and the order listings are returned in (`gameKey` and
    `sortGameInfos` of lobby.go), shared by the registry and the overlay. */
module Keys {
  import opened Text
  import opened Games

  /** `gameKey`: a session is identified by its address and port. */
  datatype GameKey = GameKey(addr: string, port: int)

  function KeyOf(g: Game): (k: GameKey)
    ensures k.addr == g.address && k.port == g.port
  {
    GameKey(g.address, g.port)
  }

  function InfoKey(g: GameInfo): (k: GameKey)
    ensures k.addr == g.game.address && k.port == g.game.port
  {
    KeyOf(g.game)
  }

  /** The less function handed to `sort.Slice`: by address, then by port. */
  predicate KeyLess(a: GameKey, b: GameKey): (lt: bool)
    ensures lt ==> a != b
    ensures lt <==> StrLess(a.addr, b.addr) || (a.addr == b.addr && a.port < b.port)
  {
    if a.addr != b.addr then StrLess(a.addr, b.addr) else a.port < b.port
  }

  lemma KeyLessIrreflexive(a: GameKey)
    ensures !KeyLess(a, a)
  {
  }

  lemma KeyLessTransitive(a: GameKey, b: GameKey, c: GameKey)
    requires KeyLess(a, b) && KeyLess(b, c)
    ensures KeyLess(a, c)
  {
    if a.addr != b.addr && b.addr != c.addr {
      StrLessTransitive(a.addr, b.addr, c.addr);
      if a.addr == c.addr {
        StrLessAsymmetric(a.addr, b.addr);
      }
    }
  }

  /** Keys are totally ordered: equal, or one is less than the other. */
  lemma KeyLessTotal(a: GameKey, b: GameKey)
    ensures a == b || KeyLess(a, b) || KeyLess(b, a)
  {
    StrLessTotal(a.addr, b.addr);
  }

  lemma KeyLessAsymmetric(a: GameKey, b: GameKey)
    requires KeyLess(a, b)
    ensures !KeyLess(b, a)
  {
    if a.addr != b.addr {
      StrLessAsymmetric(a.addr, b.addr);
    }
  }

  /** No element is placed after one it should precede. */
  predicate Sorted(s: seq<GameInfo>)
  {
    forall i, j :: 0 <= i < j < |s| ==> !KeyLess(InfoKey(s[j]), InfoKey(s[i]))
  }

  /** Keys strictly increase along the list, so no key occurs twice. */
  predicate StrictlySorted(s: seq<GameInfo>)
  {
    forall i, j :: 0 <= i < j < |s| ==> KeyLess(InfoKey(s[i]), InfoKey(s[j]))
  }

  /** No two elements of the list share a key. */
  predicate KeyDistinct(s: seq<GameInfo>)
  {
    forall i, j :: 0 <= i < j < |s| ==> InfoKey(s[i]) != InfoKey(s[j])
  }

  function KeySet(s: seq<GameInfo>): (keys: set<GameKey>)
  {
    set g | g in s :: InfoKey(g)
  }

  /** No key occurs twice in `order`. */
  predicate Distinct(order: seq<GameKey>)
  {
    forall i, j :: 0 <= i < j < |order| ==> order[i] != order[j]
  }

  /** The tail of a duplicate-free order is duplicate-free and lacks the head. */
  lemma DistinctTail(order: seq<GameKey>)
    requires |order| > 0 && Distinct(order)
    ensures Distinct(order[1..]) && order[0] !in order[1..]
  {
  }

  /** A head whose key no element of the tail carries keeps keys distinct. */
  lemma ConsKeyDistinct(head: seq<GameInfo>, rest: seq<GameInfo>)
    requires |head| <= 1 && KeyDistinct(rest)
    requires forall g, x :: g in rest && x in head ==> InfoKey(g) != InfoKey(x)
    ensures KeyDistinct(head + rest)
  {
  }

  /** Collecting along a duplicate-free order gives distinct keys: the entry
      (if any) taken for the order's first key, followed by entries taken for
      the keys after it. */
  lemma CollectedDistinct(order: seq<GameKey>, head: seq<GameInfo>, rest: seq<GameInfo>)
    requires |order| > 0 && |head| <= 1
    requires forall x :: x in head ==> InfoKey(x) == order[0]
    requires forall g :: g in rest ==> InfoKey(g) in order[1..]
    requires Distinct(order[1..]) ==> KeyDistinct(rest)
    ensures Distinct(order) ==> KeyDistinct(head + rest)
  {
    if Distinct(order) {
      DistinctTail(order);
      ConsKeyDistinct(head, rest);
    }
  }

  /** `order` lists every key of `m` exactly once: one possible iteration
      order of a Go map. */
  predicate Enumerates<V>(order: seq<GameKey>, m: map<GameKey, V>)
  {
    && Distinct(order)
    && (forall k :: k in order ==> k in m)
    && (forall k :: k in m ==> k in order)
  }

  /** Inserts `x` into a sorted list, after every element not after it. */
  function Insert(x: GameInfo, s: seq<GameInfo>): (r: seq<GameInfo>)
    requires Sorted(s)
    ensures Sorted(r)
    ensures multiset(r) == multiset(s) + multiset{x}
    ensures StrictlySorted(s) && InfoKey(x) !in KeySet(s) ==> StrictlySorted(r)
  {
    if |s| == 0 || KeyLess(InfoKey(x), InfoKey(s[0])) then
      InsertFrontSorted(x, s);
      [x] + s
    else
      var t := Insert(x, s[1..]);
      InsertAfterSorted(x, s, t);
      [s[0]] + t
  }

  lemma InsertFrontSorted(x: GameInfo, s: seq<GameInfo>)
    requires Sorted(s)
    requires |s| == 0 || KeyLess(InfoKey(x), InfoKey(s[0]))
    ensures Sorted([x] + s)
    ensures StrictlySorted(s) ==> StrictlySorted([x] + s)
  {
    if |s| > 0 {
      forall j | 0 < j < |s|
        ensures KeyLess(InfoKey(x), InfoKey(s[j]))
      {
        KeyLessTotal(InfoKey(s[0]), InfoKey(s[j]));
        if InfoKey(s[0]) != InfoKey(s[j]) {
          KeyLessTransitive(InfoKey(x), InfoKey(s[0]), InfoKey(s[j]));
        }
      }
      forall j | 0 <= j < |s|
        ensures !KeyLess(InfoKey(s[j]), InfoKey(x))
      {
        KeyLessAsymmetric(InfoKey(x), InfoKey(s[j]));
      }
    }
  }

  lemma InsertAfterSorted(x: GameInfo, s: seq<GameInfo>, t: seq<GameInfo>)
    requires Sorted(s) && |s| > 0 && !KeyLess(InfoKey(x), InfoKey(s[0]))
    requires Sorted(t) && multiset(t) == multiset(s[1..]) + multiset{x}
    requires StrictlySorted(s) && InfoKey(x) !in KeySet(s) ==> StrictlySorted(t)
    ensures Sorted([s[0]] + t)
    ensures multiset([s[0]] + t) == multiset(s) + multiset{x}
    ensures StrictlySorted(s) && InfoKey(x) !in KeySet(s) ==> StrictlySorted([s[0]] + t)
  {
    assert s == [s[0]] + s[1..];
    forall j | 0 <= j < |t|
      ensures t[j] == x || t[j] in s[1..]
    {
      assert t[j] in multiset(t);
    }
    if StrictlySorted(s) && InfoKey(x) !in KeySet(s) {
      KeyLessTotal(InfoKey(x), InfoKey(s[0]));
    }
  }

  /** `sortGameInfos`: orders a list by address, then port. The result is a
      permutation of the input; when no key repeats, keys strictly increase. */
  function SortGames(xs: seq<GameInfo>): (r: seq<GameInfo>)
    ensures Sorted(r)
    ensures multiset(r) == multiset(xs)
    ensures KeyDistinct(xs) ==> StrictlySorted(r)
  {
    if |xs| == 0 then []
    else
      var t := SortGames(xs[1..]);
      assert xs == [xs[0]] + xs[1..];
      SortedTailKeys(xs, t);
      Insert(xs[0], t)
  }

  lemma SortedTailKeys(xs: seq<GameInfo>, t: seq<GameInfo>)
    requires |xs| > 0 && multiset(t) == multiset(xs[1..])
    ensures KeyDistinct(xs) ==> KeyDistinct(xs[1..]) && InfoKey(xs[0]) !in KeySet(t)
  {
    if KeyDistinct(xs) {
      forall g | g in t
        ensures InfoKey(g) != InfoKey(xs[0])
      {
        assert g in multiset(xs[1..]);
        var j :| 0 <= j < |xs[1..]| && xs[1..][j] == g;
        assert xs[j + 1] == g;
      }
    }
  }

  /** Lists with the same multiset of elements have the same elements. */
  lemma SameElements(a: seq<GameInfo>, b: seq<GameInfo>)
    requires multiset(a) == multiset(b)
    ensures forall g :: g in a <==> g in b
  {
    assert forall g :: g in a <==> g in multiset(a);
    assert forall g :: g in b <==> g in multiset(b);
  }

  /** Two strictly sorted lists with the same elements are the same list:
      however a Go map is enumerated, sorting its values gives one answer. */
  lemma {:induction false} StrictlySortedUnique(a: seq<GameInfo>, b: seq<GameInfo>)
    requires StrictlySorted(a) && StrictlySorted(b)
    requires forall g :: g in a <==> g in b
    ensures a == b
    decreases |a|
  {
    if |b| > 0 {
      assert b[0] in a;
    }
    if |a| > 0 {
      assert a[0] in b;
      var i :| 0 <= i < |a| && a[i] == b[0];
      var j :| 0 <= j < |b| && b[j] == a[0];
      if i > 0 && j > 0 {
        KeyLessAsymmetric(InfoKey(a[0]), InfoKey(a[i]));
      }
      assert a[0] == b[0];
      forall g
        ensures g in a[1..] <==> g in b[1..]
      {
        if g in a[1..] {
          var p :| 0 <= p < |a[1..]| && a[1..][p] == g;
          assert KeyLess(InfoKey(a[0]), InfoKey(a[p + 1]));
          KeyLessIrreflexive(InfoKey(a[0]));
          assert g in b;
        }
        if g in b[1..] {
          var p :| 0 <= p < |b[1..]| && b[1..][p] == g;
          assert KeyLess(InfoKey(b[0]), InfoKey(b[p + 1]));
          KeyLessIrreflexive(InfoKey(b[0]));
          assert g in a;
        }
      }
      StrictlySortedUnique(a[1..], b[1..]);
      assert a == [a[0]] + a[1..] && b == [b[0]] + b[1..];
    }
  }
}
