/** The cache key the client factories are memoised on: `hash({ router,
    options })`. The hash reads object properties in sorted-name order, so two
    option objects that differ only in the order their properties were written
    share one key and one client. The key is modelled by the canonical form the
    hash digests; collisions of the digest are not modelled. */
module MemoKey {
  import opened Json

  /** A value with every object's properties gathered into a map: what is left
      once property order is forgotten. */
  datatype Canon =
    | CUndefined
    | CNull
    | CBool(b: bool)
    | CNum(n: int)
    | CStr(s: string)
    | CArr(items: seq<Canon>)
    | CObj(props: map<string, Canon>)

  /** The canonical form: arrays keep their order, objects become maps. */
  function Canonical(v: JsValue): (c: Canon)
    ensures v.Obj? ==> c.CObj? && c.props.Keys == set i | 0 <= i < |v.entries| :: v.entries[i].0
    ensures v.Arr? ==> c.CArr? && |c.items| == |v.items|
    decreases v, 1, 0
  {
    match v
    case Undefined => CUndefined
    case Null => CNull
    case Bool(b) => CBool(b)
    case Num(n) => CNum(n)
    case Str(s) => CStr(s)
    case Arr(items) => CArr(seq(|items|, i requires 0 <= i < |items| => Canonical(items[i])))
    case Obj(entries) => CObj(Props(v, |entries|))
  }

  /** The map built from the first `n` properties of object `v`, later ones
      overriding earlier ones. */
  function Props(v: JsValue, n: nat): (m: map<string, Canon>)
    requires v.Obj? && n <= |v.entries|
    ensures m.Keys == set i | 0 <= i < n :: v.entries[i].0
    decreases v, 0, n
  {
    if n == 0 then map[]
    else
      var e := v.entries[n - 1];
      assert e.1 < e;
      var m := Props(v, n - 1)[e.0 := Canonical(e.1)];
      assert m.Keys == set i | 0 <= i < n :: v.entries[i].0 by {
        assert v.entries[n - 1].0 == e.0;
      }
      m
  }

  /** In an object with distinct property names, the map sends every name to
      the canonical form of its value. */
  lemma {:induction false} PropsValue(v: JsValue, n: nat, i: nat)
    requires v.Obj? && DistinctKeys(v.entries) && i < n <= |v.entries|
    ensures Props(v, n)[v.entries[i].0] == Canonical(v.entries[i].1)
    decreases n
  {
    var e := v.entries[n - 1];
    var m := Props(v, n - 1);
    assert Props(v, n) == m[e.0 := Canonical(e.1)];
    if i < n - 1 {
      PropsValue(v, n - 1, i);
      assert v.entries[i].0 != e.0;
    }
  }

  /** The names a list of properties holds. */
  function Names(e: seq<(string, JsValue)>): set<string> {
    set i | 0 <= i < |e| :: e[i].0
  }

  lemma NamesOfPair(e: seq<(string, JsValue)>)
    requires |e| == 2
    ensures Names(e) == {e[0].0, e[1].0}
  {
    assert e[0].0 in Names(e) && e[1].0 in Names(e);
  }

  /** Holding the same properties means holding the same names. */
  lemma SamePropertiesSameNames(e1: seq<(string, JsValue)>, e2: seq<(string, JsValue)>)
    requires forall p :: p in e1 <==> p in e2
    ensures Names(e1) == Names(e2)
  {
    forall k | k in Names(e1) ensures k in Names(e2) {
      var i :| 0 <= i < |e1| && e1[i].0 == k;
      assert e1[i] in e2;
      var j :| 0 <= j < |e2| && e2[j] == e1[i];
    }
    forall k | k in Names(e2) ensures k in Names(e1) {
      var j :| 0 <= j < |e2| && e2[j].0 == k;
      assert e2[j] in e1;
      var i :| 0 <= i < |e1| && e1[i] == e2[j];
    }
  }

  /** Two objects with the same property names, each name holding values with
      equal keys, share a key, whatever order the properties were written in,
      at any depth. */
  lemma PropertyOrderIrrelevant(e1: seq<(string, JsValue)>, e2: seq<(string, JsValue)>)
    requires DistinctKeys(e1) && DistinctKeys(e2) && Names(e1) == Names(e2)
    requires forall i, j :: 0 <= i < |e1| && 0 <= j < |e2| && e1[i].0 == e2[j].0 ==>
               Canonical(e1[i].1) == Canonical(e2[j].1)
    ensures Canonical(Obj(e1)) == Canonical(Obj(e2))
  {
    var m1, m2 := Props(Obj(e1), |e1|), Props(Obj(e2), |e2|);
    assert m1.Keys == m2.Keys by {
      assert m1.Keys == Names(e1) && m2.Keys == Names(e2);
    }
    forall k | k in m1.Keys ensures m1[k] == m2[k] {
      var i :| 0 <= i < |e1| && e1[i].0 == k;
      var j :| 0 <= j < |e2| && e2[j].0 == k;
      SameNameSameProps(e1, e2, i, j);
    }
    assert m1 == m2;
    assert Canonical(Obj(e1)) == CObj(m1) && Canonical(Obj(e2)) == CObj(m2);
  }

  /** A name held by both lists maps to the same canonical value in both maps. */
  lemma SameNameSameProps(e1: seq<(string, JsValue)>, e2: seq<(string, JsValue)>, i: nat, j: nat)
    requires DistinctKeys(e1) && DistinctKeys(e2)
    requires i < |e1| && j < |e2| && e1[i].0 == e2[j].0
    requires Canonical(e1[i].1) == Canonical(e2[j].1)
    ensures Props(Obj(e1), |e1|)[e1[i].0] == Props(Obj(e2), |e2|)[e2[j].0]
  {
    PropsValue(Obj(e1), |e1|, i);
    PropsValue(Obj(e2), |e2|, j);
  }

  /** In particular, the same properties listed in another order give the same
      key. */
  lemma PermutedPropertiesShareKey(e1: seq<(string, JsValue)>, e2: seq<(string, JsValue)>)
    requires DistinctKeys(e1) && DistinctKeys(e2)
    requires forall p :: p in e1 <==> p in e2
    ensures Canonical(Obj(e1)) == Canonical(Obj(e2))
  {
    SamePropertiesSameNames(e1, e2);
    forall i, j | 0 <= i < |e1| && 0 <= j < |e2| && e1[i].0 == e2[j].0
      ensures Canonical(e1[i].1) == Canonical(e2[j].1)
    {
      assert e1[i] in e2;
      var j' :| 0 <= j' < |e2| && e2[j'] == e1[i];
      assert j' == j;
    }
    PropertyOrderIrrelevant(e1, e2);
  }

  /** Objects whose property names differ get different keys, and so do objects
      that give one name values with different keys. */
  lemma DifferentPropertiesDifferentKeys(e1: seq<(string, JsValue)>, e2: seq<(string, JsValue)>, i: nat, j: nat)
    requires DistinctKeys(e1) && DistinctKeys(e2)
    requires i < |e1|
    ensures (forall j' :: 0 <= j' < |e2| ==> e2[j'].0 != e1[i].0) ==> Canonical(Obj(e1)) != Canonical(Obj(e2))
    ensures j < |e2| && e2[j].0 == e1[i].0 && Canonical(e1[i].1) != Canonical(e2[j].1)
            ==> Canonical(Obj(e1)) != Canonical(Obj(e2))
  {
    if j < |e2| && e2[j].0 == e1[i].0 {
      PropsValue(Obj(e1), |e1|, i);
      PropsValue(Obj(e2), |e2|, j);
    }
    assert e1[i].0 in Canonical(Obj(e1)).props.Keys;
  }

  /** A memo cache: key to client instance, and the next instance number. */
  datatype Cache = Cache(clients: map<Canon, nat>, next: nat)

  /** Every cached instance was handed out before, and no two keys share one. */
  predicate ValidCache(c: Cache) {
    && (forall k | k in c.clients :: c.clients[k] < c.next)
    && (forall k1, k2 | k1 in c.clients && k2 in c.clients && k1 != k2 :: c.clients[k1] != c.clients[k2])
  }

  /** `memoize`: the instance cached under the key, or a new one that is then
      cached. */
  function Memoized(c: Cache, key: Canon): (r: (nat, Cache))
    requires ValidCache(c)
    ensures ValidCache(r.1)
    ensures key in c.clients ==> r == (c.clients[key], c)
    ensures key !in c.clients ==> r.0 == c.next && r.1.clients == c.clients[key := c.next]
  {
    if key in c.clients then (c.clients[key], c)
    else (c.next, Cache(c.clients[key := c.next], c.next + 1))
  }

  /** A client factory call: the key is built from the router and the options. */
  function UseClient(c: Cache, router: JsValue, options: JsValue): (r: (nat, Cache))
    requires ValidCache(c)
    ensures ValidCache(r.1)
  {
    Memoized(c, Canonical(Obj([("router", router), ("options", options)])))
  }

  /** Asking twice with the same key gives the same instance; asking with a new
      key and then an old one never hands out the new key's instance. */
  lemma SameKeySameInstance(c: Cache, a: Canon, b: Canon)
    requires ValidCache(c)
    ensures var (x, c1) := Memoized(c, a);
            var (y, _) := Memoized(c1, b);
            (a == b ==> x == y) && (a != b ==> x != y)
  {
  }

  /** Options with equal keys share a client. */
  lemma UseClientEqualOptions(c: Cache, router: JsValue, o1: JsValue, o2: JsValue)
    requires ValidCache(c) && Canonical(o1) == Canonical(o2)
    ensures var (x, c1) := UseClient(c, router, o1);
            UseClient(c1, router, o2).0 == x
  {
    var w1 := [("router", router), ("options", o1)];
    var w2 := [("router", router), ("options", o2)];
    NamesOfPair(w1); NamesOfPair(w2);
    PropertyOrderIrrelevant(w1, w2);
    SameKeySameClient(c, Canonical(Obj(w1)));
  }

  /** Asking twice for one key gives the client of the first call. */
  lemma SameKeySameClient(c: Cache, k: Canon)
    requires ValidCache(c)
    ensures var (x, c1) := Memoized(c, k);
            Memoized(c1, k) == (x, c1)
  {
  }

  /** Options with different keys get different clients. */
  lemma UseClientDifferentOptions(c: Cache, router: JsValue, o1: JsValue, o2: JsValue)
    requires ValidCache(c) && Canonical(o1) != Canonical(o2)
    ensures var (x, c1) := UseClient(c, router, o1);
            UseClient(c1, router, o2).0 != x
  {
    WrapperKeysDiffer(router, o1, o2);
    var k1 := Canonical(Obj([("router", router), ("options", o1)]));
    var k2 := Canonical(Obj([("router", router), ("options", o2)]));
    DistinctKeysDistinctClients(c, k1, k2);
  }

  /** The key of `{ router, options }` tells different options apart. */
  lemma WrapperKeysDiffer(router: JsValue, o1: JsValue, o2: JsValue)
    requires Canonical(o1) != Canonical(o2)
    ensures Canonical(Obj([("router", router), ("options", o1)]))
            != Canonical(Obj([("router", router), ("options", o2)]))
  {
    var w1 := [("router", router), ("options", o1)];
    var w2 := [("router", router), ("options", o2)];
    assert DistinctKeys(w1) && DistinctKeys(w2);
    PropsValue(Obj(w1), 2, 1); PropsValue(Obj(w2), 2, 1);
  }

  /** Two different keys asked for one after the other get different clients. */
  lemma DistinctKeysDistinctClients(c: Cache, k1: Canon, k2: Canon)
    requires ValidCache(c) && k1 != k2
    ensures var (x, c1) := Memoized(c, k1);
            Memoized(c1, k2).0 != x
  {
    var (x, c1) := Memoized(c, k1);
    assert k1 in c1.clients && c1.clients[k1] == x;
  }

  /** A call without options and a call with options get different clients;
      so do calls whose options differ in a property name. */
  lemma UseClientNewOptions(c: Cache, router: JsValue, o1: seq<(string, JsValue)>, o2: seq<(string, JsValue)>, i: nat)
    requires ValidCache(c) && DistinctKeys(o1) && DistinctKeys(o2)
    requires i < |o1| && forall j :: 0 <= j < |o2| ==> o2[j].0 != o1[i].0
    ensures var (x, c1) := UseClient(c, router, Undefined);
            UseClient(c1, router, Obj(o1)).0 != x
    ensures var (x, c1) := UseClient(c, router, Obj(o1));
            UseClient(c1, router, Obj(o2)).0 != x
  {
    UseClientDifferentOptions(c, router, Undefined, Obj(o1));
    DifferentPropertiesDifferentKeys(o1, o2, i, 0);
    UseClientDifferentOptions(c, router, Obj(o1), Obj(o2));
  }

  /** Options naming the same base URL and the same base headers, written in
      another order at both levels, have the same key. */
  lemma ReorderedNestedOptionsShareKey()
    ensures Canonical(Obj([("baseUrl", Str("/custom")),
                           ("baseHeaders", Obj([("a", Str("a")), ("b", Str("b"))]))]))
         == Canonical(Obj([("baseHeaders", Obj([("b", Str("b")), ("a", Str("a"))])),
                           ("baseUrl", Str("/custom"))]))
  {
    var h1 := [("a", Str("a")), ("b", Str("b"))];
    var h2 := [("b", Str("b")), ("a", Str("a"))];
    SwappedPairShareKey(h1, h2);
    var e1 := [("baseUrl", Str("/custom")), ("baseHeaders", Obj(h1))];
    var e2 := [("baseHeaders", Obj(h2)), ("baseUrl", Str("/custom"))];
    SwappedPairShareKey(e1, e2);
  }

  /** Two properties with distinct names, listed in either order, whose values
      have the same canonical forms. */
  lemma SwappedPairShareKey(e1: seq<(string, JsValue)>, e2: seq<(string, JsValue)>)
    requires |e1| == 2 && |e2| == 2 && e1[0].0 != e1[1].0
    requires e2[0].0 == e1[1].0 && e2[1].0 == e1[0].0
    requires Canonical(e2[0].1) == Canonical(e1[1].1) && Canonical(e2[1].1) == Canonical(e1[0].1)
    ensures Canonical(Obj(e1)) == Canonical(Obj(e2))
  {
    NamesOfPair(e1); NamesOfPair(e2);
    PropertyOrderIrrelevant(e1, e2);
  }
}
