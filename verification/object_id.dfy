/** `parseObjectId` of the API server: normalise one id-like value, or an array
    of them, into database object ids. Falsy values and existing object ids pass
    through; objects give up their `_id`; everything else is read as a
    24-character hexadecimal string. */
module MongooseIds {
  import opened Wrappers
  import opened Json
  import Text

  newtype byte = x: int | 0 <= x < 256

  /** A database object id: twelve bytes. */
  datatype ObjectId = ObjectId(bytes: seq<byte>)

  predicate ValidObjectId(o: ObjectId) {
    |o.bytes| == 12
  }

  function HexValue(c: char): (d: nat)
    requires Text.IsHexDigit(c)
    ensures d < 16
  {
    if Text.IsDigit(c) then c as int - '0' as int
    else if 'a' <= c <= 'f' then c as int - 'a' as int + 10
    else c as int - 'A' as int + 10
  }

  function HexChar(d: nat): (c: char)
    requires d < 16
    ensures Text.IsLowerHexDigit(c)
  {
    if d < 10 then ('0' as int + d) as char else ('a' as int + d - 10) as char
  }

  /** `ObjectId.createFromHexString`: 24 hexadecimal characters, two per byte;
      anything else throws (`None`). */
  function CreateFromHexString(s: string): (r: Option<ObjectId>)
    ensures r.Some? <==> |s| == 24 && forall i :: 0 <= i < |s| ==> Text.IsHexDigit(s[i])
    ensures r.Some? ==> ValidObjectId(r.value)
  {
    if |s| == 24 && forall i :: 0 <= i < |s| ==> Text.IsHexDigit(s[i]) then
      Some(ObjectId(seq(12, k requires 0 <= k < 12 =>
                          (16 * HexValue(s[2 * k]) + HexValue(s[2 * k + 1])) as byte)))
    else None
  }

  /** `toHexString`: two lower-case hexadecimal characters per byte. */
  function ToHexString(o: ObjectId): (s: string)
    ensures |s| == 2 * |o.bytes|
    ensures forall i :: 0 <= i < |s| ==> Text.IsLowerHexDigit(s[i])
  {
    seq(2 * |o.bytes|, i requires 0 <= i < 2 * |o.bytes| =>
          if i % 2 == 0 then HexChar(o.bytes[i / 2] as nat / 16) else HexChar(o.bytes[i / 2] as nat % 16))
  }

  lemma HexCharValue(d: nat)
    requires d < 16
    ensures HexValue(HexChar(d)) == d
  {
  }

  lemma HexValueChar(c: char)
    requires Text.IsLowerHexDigit(c)
    ensures HexChar(HexValue(c)) == c
  {
  }

  /** A lower-case hex string survives decoding and re-encoding unchanged. */
  lemma HexStringRoundTrip(s: string)
    requires |s| == 24 && forall i :: 0 <= i < |s| ==> Text.IsLowerHexDigit(s[i])
    ensures CreateFromHexString(s).Some?
    ensures ToHexString(CreateFromHexString(s).value) == s
  {
    var o := CreateFromHexString(s).value;
    var t := ToHexString(o);
    forall i | 0 <= i < 24 ensures t[i] == s[i] {
      var k := i / 2;
      var hi, lo := HexValue(s[2 * k]), HexValue(s[2 * k + 1]);
      assert o.bytes[k] as nat == 16 * hi + lo;
      assert (16 * hi + lo) / 16 == hi && (16 * hi + lo) % 16 == lo;
      if i % 2 == 0 {
        assert i == 2 * k;
        HexValueChar(s[2 * k]);
      } else {
        assert i == 2 * k + 1;
        HexValueChar(s[2 * k + 1]);
      }
    }
  }

  /** Encoding an object id and decoding the text gives the same id back. */
  lemma ObjectIdRoundTrip(o: ObjectId)
    requires ValidObjectId(o)
    ensures CreateFromHexString(ToHexString(o)) == Some(o)
  {
    var s := ToHexString(o);
    assert forall i :: 0 <= i < |s| ==> Text.IsHexDigit(s[i]);
    var p := CreateFromHexString(s).value;
    forall k | 0 <= k < 12 ensures p.bytes[k] == o.bytes[k] {
      WrittenPair(o, k);
      HexPairValue(o.bytes[k] as nat);
      CreatedByte(s, k);
    }
    assert p.bytes == o.bytes;
  }

  /** Byte k of an id is written as hex digits 2k and 2k + 1. */
  lemma WrittenPair(o: ObjectId, k: nat)
    requires k < |o.bytes|
    ensures ToHexString(o)[2 * k] == HexChar(o.bytes[k] as nat / 16)
    ensures ToHexString(o)[2 * k + 1] == HexChar(o.bytes[k] as nat % 16)
  {
    assert (2 * k) / 2 == k && (2 * k + 1) / 2 == k;
  }

  /** Byte k of a parsed id comes from hex digits 2k and 2k + 1. */
  lemma CreatedByte(s: string, k: nat)
    requires |s| == 24 && forall i :: 0 <= i < |s| ==> Text.IsHexDigit(s[i])
    requires k < 12
    ensures CreateFromHexString(s).value.bytes[k] as int == 16 * HexValue(s[2 * k]) + HexValue(s[2 * k + 1])
  {
  }

  /** The two hex digits written for a byte read back as that byte. */
  lemma HexPairValue(b: nat)
    requires b < 256
    ensures 16 * HexValue(HexChar(b / 16)) + HexValue(HexChar(b % 16)) == b
  {
    HexCharValue(b / 16);
    HexCharValue(b % 16);
  }

  /** An element handed to `parseObjectId`. */
  datatype Item =
    | Plain(v: JsValue)        // a string, a number, null, a plain object (its `_id` is read)
    | Oid(id: ObjectId)        // an existing ObjectId instance
    | Document(id: ObjectId)   // an object whose `_id` is an ObjectId instance

  /** The argument: one element, or an array of them. `Array.isArray` sends
      every array down the array path, so the program never builds `One` around
      a `Plain` array; the type does not rule that value out, and gives it the
      reading of a single non-array element. */
  datatype Input = One(item: Item) | Many(items: seq<Item>)

  /** One element of the result: the element itself, or a freshly built id. */
  datatype Converted = Kept(item: Item) | Made(id: ObjectId)

  /** The result mirrors the argument: one value for one, an array for an array. */
  datatype Output = Single(out: Converted) | List(outs: seq<Converted>)

  /** `createFromHexString` threw on this text. */
  datatype ParseError = InvalidHexString(text: string)

  predicate IsFalsyItem(item: Item) {
    item.Plain? && IsFalsy(item.v)
  }

  /** The text an element is read from: `${item._id}` for an object with `_id`,
      `${item}` otherwise. */
  function IdText(item: Item): string
    requires !item.Oid?
  {
    match item
    case Document(id) => ToHexString(id)
    case Plain(v) =>
      if v.Obj? && HasKey(v.entries, "_id") then ToJsString(Get(v.entries, "_id"))
      else ToJsString(v)
  }

  /** The per-element step. */
  function Convert(item: Item): (r: Result<Converted, ParseError>)
    ensures IsFalsyItem(item) || item.Oid? ==> r == Ok(Kept(item))
    ensures !IsFalsyItem(item) && !item.Oid? ==>
              match CreateFromHexString(IdText(item))
              case Some(o) => r == Ok(Made(o))
              case None => r == Err(InvalidHexString(IdText(item)))
  {
    if IsFalsyItem(item) then Ok(Kept(item))
    else if item.Oid? then Ok(Kept(item))
    else
      match CreateFromHexString(IdText(item))
      case Some(o) => Ok(Made(o))
      case None => Err(InvalidHexString(IdText(item)))
  }

  /** Mapping the step over an array; the first element that throws ends it. */
  function ConvertAll(items: seq<Item>): (r: Result<seq<Converted>, ParseError>)
    ensures r.Ok? <==> forall i :: 0 <= i < |items| ==> Convert(items[i]).Ok?
    ensures r.Ok? ==> |r.value| == |items|
                      && forall i :: 0 <= i < |items| ==> Convert(items[i]) == Ok(r.value[i])
    ensures r.Err? ==> exists i :: 0 <= i < |items| && Convert(items[i]) == Err(r.error)
                                   && forall j :: 0 <= j < i ==> Convert(items[j]).Ok?
  {
    if |items| == 0 then Ok([])
    else
      var head := Convert(items[0]);
      if head.Err? then Err(head.error)
      else
        var rest := ConvertAll(items[1..]);
        if rest.Err? then
          assert exists i :: 1 <= i < |items| && Convert(items[i]) == Err(rest.error)
                             && forall j :: 0 <= j < i ==> Convert(items[j]).Ok? by {
            var i :| 0 <= i < |items[1..]| && Convert(items[1..][i]) == Err(rest.error)
                     && forall j :: 0 <= j < i ==> Convert(items[1..][j]).Ok?;
            assert items[1..][i] == items[i + 1];
            forall j | 0 <= j < i + 1 ensures Convert(items[j]).Ok? {
              if j > 0 { assert items[j] == items[1..][j - 1]; }
            }
          }
          Err(rest.error)
        else
          Ok([head.value] + rest.value)
  }

  /** `parseObjectId`: one value gives one result and an array gives an array of
      as many results; an error is the error of some element. */
  function ParseObjectId(input: Input): (r: Result<Output, ParseError>)
    ensures input.One? && r.Ok? ==> r.value.Single?
    ensures input.Many? && r.Ok? ==> r.value.List? && |r.value.outs| == |input.items|
    ensures input.One? && r.Err? ==> Convert(input.item) == Err(r.error)
    ensures input.Many? && r.Err? ==> exists i :: 0 <= i < |input.items| && Convert(input.items[i]) == Err(r.error)
  {
    match input
    case One(item) =>
      if IsFalsyItem(item) then Ok(Single(Kept(item)))
      else (
        match Convert(item)
        case Ok(c) => Ok(Single(c))
        case Err(e) => Err(e))
    case Many(items) =>
      match ConvertAll(items)
      case Ok(cs) => Ok(List(cs))
      case Err(e) => Err(e)
  }

  /** A single value is handled as the one element of an array whose first
      result is taken: for a value that is not falsy, the single result is the
      one element of the array's result, and the errors agree. */
  lemma OneIsFirstOfSingletonArray(item: Item)
    requires !IsFalsyItem(item)
    ensures forall c :: ParseObjectId(One(item)) == Ok(Single(c)) <==> ParseObjectId(Many([item])) == Ok(List([c]))
    ensures forall e :: ParseObjectId(One(item)) == Err(e) <==> ParseObjectId(Many([item])) == Err(e)
  {
    assert [item][0] == item && [item][1..] == [];
    assert ConvertAll([]) == Ok([]);
    match Convert(item)
    case Ok(c0) =>
      assert Convert([item][0]) == Ok(c0);
      assert ConvertAll([item][1..]) == Ok([]);
      assert [c0] + [] == [c0];
      assert ConvertAll([item]) == Ok([c0]);
      assert ParseObjectId(One(item)) == Ok(Single(c0));
      assert ParseObjectId(Many([item])) == Ok(List([c0]));
      forall c: Converted ensures c == c0 <==> [c0] == [c] {
        if [c0] == [c] { assert [c0][0] == [c][0]; }
      }
    case Err(e0) =>
      assert ConvertAll([item]) == Err(e0);
  }

  /** A falsy argument, `undefined` and `null` among them, is returned as it is. */
  lemma FalsyPassesThrough(v: JsValue)
    requires IsFalsy(v)
    ensures ParseObjectId(One(Plain(v))) == Ok(Single(Kept(Plain(v))))
  {
  }

  /** One value gives one value and an array gives an array of the same length,
      converted element by element, falsy elements kept as they are. */
  lemma ResultMirrorsArgument(input: Input)
    ensures ParseObjectId(input).Ok? ==> (input.One? <==> ParseObjectId(input).value.Single?)
    ensures input.Many? && ParseObjectId(input).Ok? ==>
              var outs := ParseObjectId(input).value.outs;
              && |outs| == |input.items|
              && forall i :: 0 <= i < |outs| ==> Convert(input.items[i]) == Ok(outs[i])
    ensures input.Many? ==>
              (ParseObjectId(input).Ok? <==> forall i :: 0 <= i < |input.items| ==> Convert(input.items[i]).Ok?)
    ensures input.Many? && ParseObjectId(input).Ok? ==>
              forall i :: 0 <= i < |input.items| && IsFalsyItem(input.items[i])
                ==> ParseObjectId(input).value.outs[i] == Kept(input.items[i])
  {
  }

  /** An existing object id is returned unchanged. */
  lemma ExistingObjectIdUnchanged(o: ObjectId)
    ensures ParseObjectId(One(Oid(o))) == Ok(Single(Kept(Oid(o))))
  {
  }

  /** A valid id string parses to an id whose hex form is that string. */
  lemma HexStringParses(s: string)
    requires |s| == 24 && forall i :: 0 <= i < |s| ==> Text.IsLowerHexDigit(s[i])
    ensures var r := ParseObjectId(One(Plain(Str(s))));
            r.Ok? && r.value.out.Made? && ToHexString(r.value.out.id) == s
  {
    HexStringRoundTrip(s);
    assert Str(s) != Str("");
  }

  /** The same holds for the text in the `_id` field of a plain object. */
  lemma IdFieldParses(s: string)
    requires |s| == 24 && forall i :: 0 <= i < |s| ==> Text.IsLowerHexDigit(s[i])
    ensures var r := ParseObjectId(One(Plain(Obj([("_id", Str(s))]))));
            r.Ok? && r.value.out.Made? && ToHexString(r.value.out.id) == s
  {
    HexStringRoundTrip(s);
    var e := [("_id", Str(s))];
    assert e[0].0 == "_id";
  }

  /** A document's ObjectId `_id` comes back as an equal id. */
  lemma DocumentIdParses(o: ObjectId)
    requires ValidObjectId(o)
    ensures ParseObjectId(One(Document(o))) == Ok(Single(Made(o)))
  {
    ObjectIdRoundTrip(o);
  }

  /** Text that is not 24 hexadecimal characters makes the call throw. */
  lemma InvalidTextThrows(s: string)
    requires s != "" && |s| != 24
    ensures ParseObjectId(One(Plain(Str(s)))) == Err(InvalidHexString(s))
  {
  }
}
