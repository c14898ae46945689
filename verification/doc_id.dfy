/** `simplifyToDocIdDeep`: keep only the id of every document nested in a value.
    Any object carrying an `id` property is replaced by that property's value;
    arrays and id-less objects are rebuilt with their parts simplified. */
module DocId {
  import opened Json

  /** The rewrite, branch for branch as `simplifyToDocIdDeep` takes them:
      nullish values and primitives are returned as they are, arrays are mapped,
      an object with `id` becomes its id, and an id-less object is rebuilt entry
      by entry. */
  function SimplifyToDocIdDeep(v: JsValue): (r: JsValue)
    ensures IsNullish(v) ==> r == v
    ensures v.Bool? || v.Num? || v.Str? ==> r == v
    ensures v.Arr? ==> r.Arr? && |r.items| == |v.items|
    ensures v.Obj? && HasKey(v.entries, "id") ==> r == Get(v.entries, "id")
    ensures v.Obj? && !HasKey(v.entries, "id") ==> r.Obj? && KeysOf(r.entries) == KeysOf(v.entries)
    decreases v, 0
  {
    match v
    case Undefined => v
    case Null => v
    case Arr(items) =>
      Arr(seq(|items|, i requires 0 <= i < |items| => SimplifyToDocIdDeep(items[i])))
    case Obj(entries) =>
      if HasKey(entries, "id") then Get(entries, "id")
      else Obj(seq(|entries|, i requires 0 <= i < |entries| =>
                     (entries[i].0, SimplifyEntryValue(entries[i].1))))
    case _ => v
  }

  /** The per-entry step of an id-less object: an array value is mapped, `null` is
      kept, an object value with `id` becomes its id, any other object value is
      simplified recursively, and every other value is kept. */
  function SimplifyEntryValue(value: JsValue): JsValue
    decreases value, 1
  {
    match value
    case Arr(items) =>
      Arr(seq(|items|, i requires 0 <= i < |items| => SimplifyToDocIdDeep(items[i])))
    case Null => value
    case Obj(entries) =>
      if HasKey(entries, "id") then Get(entries, "id") else SimplifyToDocIdDeep(value)
    case _ => value
  }

  /** The per-entry branches agree with simplifying the entry's value on its own. */
  lemma EntryValueIsSimplification(value: JsValue)
    ensures SimplifyEntryValue(value) == SimplifyToDocIdDeep(value)
  {
  }

  /** An array is simplified element by element. */
  lemma SimplifyArrayElementwise(items: seq<JsValue>)
    ensures var r := SimplifyToDocIdDeep(Arr(items));
            forall i :: 0 <= i < |items| ==> r.items[i] == SimplifyToDocIdDeep(items[i])
  {
  }

  /** An id-less object keeps its property names, in order, and each value is
      simplified on its own. */
  lemma SimplifyObjectEntrywise(entries: seq<(string, JsValue)>)
    requires !HasKey(entries, "id")
    ensures var r := SimplifyToDocIdDeep(Obj(entries));
            && r.Obj? && |r.entries| == |entries|
            && forall i :: 0 <= i < |entries| ==>
                 r.entries[i] == (entries[i].0, SimplifyToDocIdDeep(entries[i].1))
  {
    forall i | 0 <= i < |entries| {
      EntryValueIsSimplification(entries[i].1);
    }
  }

  /** No object reachable through arrays and id-less objects carries an `id`. */
  predicate IdFree(v: JsValue) {
    match v
    case Arr(items) => forall i :: 0 <= i < |items| ==> IdFree(items[i])
    case Obj(entries) =>
      !HasKey(entries, "id") && forall i :: 0 <= i < |entries| ==> IdFree(entries[i].1)
    case _ => true
  }

  /** The rewrite leaves a value unchanged exactly when there is no id to pull out. */
  lemma {:induction false} SimplifyFixpointIff(v: JsValue)
    ensures SimplifyToDocIdDeep(v) == v <==> IdFree(v)
  {
    match v
    case Arr(items) =>
      var r := SimplifyToDocIdDeep(v);
      forall i | 0 <= i < |items| {
        SimplifyFixpointIff(items[i]);
      }
      if r == v {
        forall i | 0 <= i < |items| ensures IdFree(items[i]) {
          assert r.items[i] == items[i];
        }
      }
      if IdFree(v) {
        assert r.items == items;
      }
    case Obj(entries) =>
      var r := SimplifyToDocIdDeep(v);
      if HasKey(entries, "id") {
        var k := KeyIndex(entries, "id");
        assert entries[k].1 < entries[k];
        assert r == entries[k].1;
      } else {
        SimplifyObjectEntrywise(entries);
        forall i | 0 <= i < |entries| {
          SimplifyFixpointIff(entries[i].1);
        }
        if r == v {
          forall i | 0 <= i < |entries| ensures IdFree(entries[i].1) {
            assert r.entries[i] == entries[i];
          }
        }
        if IdFree(v) {
          assert r.entries == entries;
        }
      }
    case _ =>
  }

  /** Simplification never makes an object repeat a property name. */
  lemma {:induction false} SimplifyPreservesWellFormed(v: JsValue)
    requires WellFormed(v)
    ensures WellFormed(SimplifyToDocIdDeep(v))
  {
    match v
    case Arr(items) =>
      forall i | 0 <= i < |items| {
        SimplifyPreservesWellFormed(items[i]);
      }
    case Obj(entries) =>
      if !HasKey(entries, "id") {
        SimplifyObjectEntrywise(entries);
        forall i | 0 <= i < |entries| {
          SimplifyPreservesWellFormed(entries[i].1);
        }
      } else {
        var k := KeyIndex(entries, "id");
      }
    case _ =>
  }

  /** Empty objects and arrays, and an id-less record of empty parts, come back as
      they are. */
  lemma EmptyContainersUnchanged()
    ensures SimplifyToDocIdDeep(Obj([])) == Obj([])
    ensures SimplifyToDocIdDeep(Arr([])) == Arr([])
    ensures SimplifyToDocIdDeep(Obj([("a", Obj([])), ("b", Arr([]))]))
            == Obj([("a", Obj([])), ("b", Arr([]))])
  {
    var v := Obj([("a", Obj([])), ("b", Arr([]))]);
    assert !HasKey(v.entries, "id");
    assert IdFree(v);
    SimplifyFixpointIff(v);
  }

  /** An id at the root wins over everything else in the object. */
  lemma RootIdExample()
    ensures SimplifyToDocIdDeep(Obj([("id", Str("rootId")), ("name", Str("test"))])) == Str("rootId")
  {
    var e := [("id", Str("rootId")), ("name", Str("test"))];
    assert e[0].0 == "id";
  }
}
