/** Shared request and response shapes: the object-id and bearer-header
    patterns, and the page-based paginated record. */
module Schema {
  import opened Wrappers
  import opened Json
  import Text
  import MongooseIds

  /** `objectIdSchema`: the string form is exactly 24 characters of `[0-9a-f]`,
      which are exactly the hexadecimal forms of database object ids. */
  function ObjectIdSchemaAccepts(v: JsValue): (b: bool)
    ensures b <==> exists o :: MongooseIds.ValidObjectId(o) && MongooseIds.ToHexString(o) == ToJsString(v)
  {
    var s := ToJsString(v);
    WrittenIds(s);
    |s| == 24 && forall i :: 0 <= i < |s| ==> Text.IsLowerHexDigit(s[i])
  }

  /** The 24-character lower-case hex strings are the texts of object ids. */
  lemma WrittenIds(s: string)
    ensures (|s| == 24 && forall i :: 0 <= i < |s| ==> Text.IsLowerHexDigit(s[i]))
            <==> exists o :: MongooseIds.ValidObjectId(o) && MongooseIds.ToHexString(o) == s
  {
    if |s| == 24 && forall i :: 0 <= i < |s| ==> Text.IsLowerHexDigit(s[i]) {
      MongooseIds.HexStringRoundTrip(s);
      var o := MongooseIds.CreateFromHexString(s).value;
      assert MongooseIds.ValidObjectId(o) && MongooseIds.ToHexString(o) == s;
    }
  }

  /** The length must be exactly 24 and capital hex digits are refused. */
  lemma ObjectIdSchemaRejects(s: string)
    ensures |s| != 24 ==> !ObjectIdSchemaAccepts(Str(s))
    ensures (exists i :: 0 <= i < |s| && 'A' <= s[i] <= 'F') ==> !ObjectIdSchemaAccepts(Str(s))
  {
  }

  /** Any value whose string form is 24 lower-case hex characters is accepted,
      whatever its type: a one-element array holding such a string, say. */
  lemma ObjectIdSchemaCoerces(s: string)
    requires |s| == 24 && forall i :: 0 <= i < |s| ==> Text.IsLowerHexDigit(s[i])
    ensures ObjectIdSchemaAccepts(Str(s)) && ObjectIdSchemaAccepts(Arr([Str(s)]))
  {
    assert ToJsString(Arr([Str(s)])) == s;
  }

  /** `bearerTokenSchema`: the `authorization` field may be missing; when present
      it must be a string beginning with `Bearer`. There is no coercion: `null`,
      numbers and arrays are refused, and a string passes exactly when its first
      `Bearer` is at its start. */
  function BearerHeaderAccepts(authorization: JsValue): (b: bool)
    ensures !authorization.Undefined? && !authorization.Str? ==> !b
    ensures authorization.Str? ==> (b <==> Text.IndexOf(authorization.s, "Bearer") == Some(0))
  {
    authorization.Undefined? || (authorization.Str? && Text.StartsWith(authorization.s, "Bearer"))
  }

  lemma BearerHeaderExamples(token: string)
    ensures BearerHeaderAccepts(Undefined) && BearerHeaderAccepts(Str("Bearer " + token))
    ensures BearerHeaderAccepts(Str("Bearer"))
    ensures !BearerHeaderAccepts(Null) && !BearerHeaderAccepts(Str("bearer " + token))
  {
    assert ("Bearer " + token)[..6] == "Bearer";
    assert ("bearer " + token)[..6] != "Bearer" by {
      assert ("bearer " + token)[0] == 'b';
    }
  }

  /** A page of results: always the three counters and the page's data. */
  datatype PaginatedData<T> = PaginatedData(skip: int, limit: int, total: int, data: seq<T>)

  /** Every element parsed by the element schema, or `None` at the first refusal. */
  function ParseEach<T>(items: seq<JsValue>, item: JsValue -> Option<T>): (r: Option<seq<T>>)
    ensures r.Some? <==> forall i :: 0 <= i < |items| ==> item(items[i]).Some?
    ensures r.Some? ==> |r.value| == |items|
                        && forall i :: 0 <= i < |items| ==> item(items[i]) == Some(r.value[i])
  {
    if |items| == 0 then Some([])
    else
      var head := item(items[0]);
      var rest := ParseEach(items[1..], item);
      if head.Some? && rest.Some? then Some([head.value] + rest.value)
      else if head.None? then None
      else
        assert exists i :: 1 <= i < |items| && item(items[i]).None? by {
          var j :| 0 <= j < |items[1..]| && item(items[1..][j]).None?;
          assert items[1..][j] == items[j + 1];
        }
        None
  }

  /** `definePaginatedDataSchema(dataSchema)` parsing a value: an object whose
      `skip`, `limit` and `total` coerce to numbers (`toNumber` stands for the
      coercion, `None` for NaN) and whose `data` is an array every element of which
      the element schema accepts. */
  function ParsePaginated<T>(v: JsValue, toNumber: JsValue -> Option<int>, item: JsValue -> Option<T>)
    : (r: Option<PaginatedData<T>>)
    ensures r.Some? <==>
              && v.Obj?
              && toNumber(Property(v.entries, "skip")).Some?
              && toNumber(Property(v.entries, "limit")).Some?
              && toNumber(Property(v.entries, "total")).Some?
              && Property(v.entries, "data").Arr?
              && forall i :: 0 <= i < |Property(v.entries, "data").items| ==>
                   item(Property(v.entries, "data").items[i]).Some?
    ensures r.Some? ==> Some(r.value.skip) == toNumber(Property(v.entries, "skip"))
                        && Some(r.value.limit) == toNumber(Property(v.entries, "limit"))
                        && Some(r.value.total) == toNumber(Property(v.entries, "total"))
    ensures r.Some? ==> var items := Property(v.entries, "data").items;
                        |r.value.data| == |items|
                        && forall i :: 0 <= i < |items| ==> item(items[i]) == Some(r.value.data[i])
  {
    if !v.Obj? then None
    else
      var skip := toNumber(Property(v.entries, "skip"));
      var limit := toNumber(Property(v.entries, "limit"));
      var total := toNumber(Property(v.entries, "total"));
      var data := Property(v.entries, "data");
      if skip.None? || limit.None? || total.None? || !data.Arr? then None
      else
        match ParseEach(data.items, item)
        case None => None
        case Some(xs) => Some(PaginatedData(skip.value, limit.value, total.value, xs))
  }
}
