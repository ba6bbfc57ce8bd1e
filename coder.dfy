/**
 * src/abi/coder.ts: the plain-object codec (typed values to JSON values and
 * back) and the packed binary codec (fields and elements laid end to end,
 * with no length prefixes or offsets).
 */
module Coder {
  import opened Wrappers
  import opened Primitives
  import opened Types
  import opened To
  import opened Helpers

  // Plain-object codec

  /** A uint narrow enough for a JavaScript number: `abi.size < 53` (false without a size). */
  predicate NarrowUint(t: AbiType)
    requires t.Elementary?
  {
    t.kind == Uint && t.size.Some? && t.size.value < 53
  }

  /** A BN in base 10, as its `toString(10)` renders it. */
  function SignedDecimalText(i: int): (s: string)
    ensures i >= 0 ==> s == DecimalText(i)
  {
    if i < 0 then "-" + DecimalText(-i) else DecimalText(i)
  }

  /**
   * `encodeJson` on an elementary type: a bool becomes a boolean, a narrow
   * uint a number, a wide uint the decimal text of its number, and every
   * other kind hex text.
   */
  function EncodeElementaryJson(t: AbiType, v: FieldValue): (r: Result<JsonValue, Error>)
    requires t.Elementary?
    ensures t.kind == Bool ==> r == Ok(BoolVal(JsTruthy(v)))
    ensures NarrowUint(t) ==> (r.Ok? <==> IsBufferLike(v)) && (r.Ok? ==> r.value == NumVal(ToInt(v).value))
    ensures t.kind == Uint && !NarrowUint(t) ==> (r.Ok? <==> ToBn(v).Ok?)
    ensures t.kind == Uint && !NarrowUint(t) && r.Ok? && ToBn(v).value >= 0 ==>
      r.value.StrVal? && ParseDecimal(r.value.s) == Some(ToBn(v).value)
    ensures t.kind in {Address, Byte, Bytes} ==> (r.Ok? <==> IsBufferLike(v)) && (r.Ok? ==> r.value == StrVal(ToHex(v).value))
  {
    if t.kind == Bool then Ok(BoolVal(JsTruthy(v)))
    else if NarrowUint(t) then
      var n :- ToInt(v);
      Ok(NumVal(n))
    else if t.kind == Uint then
      var n :- ToBn(v);
      DecimalRoundTrip(if n >= 0 then n else 0);
      Ok(StrVal(SignedDecimalText(n)))
    else
      var h :- ToHex(v);
      Ok(StrVal(h))
  }

  /**
   * `encodeJson` on an elementary type as the source writes it: a wide uint
   * goes through `toHex` like the other kinds, which yields hex digits with
   * no prefix.
   */
  function EncodeElementaryJsonAsWritten(t: AbiType, v: FieldValue): (r: Result<JsonValue, Error>)
    requires t.Elementary?
    ensures t.kind != Uint || NarrowUint(t) ==> r == EncodeElementaryJson(t, v)
    ensures t.kind == Uint && !NarrowUint(t) ==> (r.Ok? <==> IsBufferLike(v))
    ensures t.kind == Uint && !NarrowUint(t) && r.Ok? ==> r.value == StrVal(ToHex(v).value)
  {
    if t.kind == Uint && !NarrowUint(t) then
      var h :- ToHex(v);
      Ok(StrVal(h))
    else EncodeElementaryJson(t, v)
  }

  /** `encodeJson`: a typed value as a JSON value. */
  function EncodeJson(t: AbiType, v: FieldValue): (r: Result<JsonValue, Error>)
    ensures t.Elementary? ==> r == EncodeElementaryJson(t, v)
    ensures t.Enum? ==> (r.Ok? <==> IsBufferLike(v)) && (r.Ok? ==> r.value == NumVal(ToInt(v).value))
    ensures t.Array? && !v.ListVal? ==> r == Err(TypeMismatch)
    ensures t.Array? && r.Ok? ==> r.value.ListVal? && |r.value.items| == |v.items|
    decreases t, 1
  {
    match t
    case Elementary(_, _, _) => EncodeElementaryJson(t, v)
    case Enum(_, _, _, _) =>
      var n :- ToInt(v);
      Ok(NumVal(n))
    case Array(_, _, _, _) =>
      if v.ListVal? then
        var xs :- EncodeJsonItems(t, v.items, 0);
        Ok(ListVal(xs))
      else Err(TypeMismatch)
    case Struct(_, _, _, _) =>
      var m :- EncodeJsonFields(t, v, 0, map[]);
      Ok(ObjVal(m))
  }

  /** `value.map(v => encodeJson(abi.baseType, v))` from the `i`-th element on. */
  function EncodeJsonItems(t: AbiType, items: seq<FieldValue>, i: nat): (r: Result<seq<JsonValue>, Error>)
    requires t.Array? && i <= |items|
    ensures r.Ok? ==> |r.value| == |items| - i
    ensures r.Ok? ==> forall j :: 0 <= j < |r.value| ==> EncodeJson(t.baseType, items[i + j]) == Ok(r.value[j])
    decreases t, 0, |items| - i
  {
    if i == |items| then Ok([])
    else
      var x :- EncodeJson(t.baseType, items[i]);
      var rest :- EncodeJsonItems(t, items, i + 1);
      var xs := [x] + rest;
      assert forall j :: 1 <= j < |xs| ==> xs[j] == rest[j - 1];
      Ok(xs)
  }

  /** The names of the fields from the `i`-th on. */
  function NamesFrom(t: AbiType, i: nat): set<string>
    requires t.Struct? && i <= |t.fields|
  {
    set j | i <= j < |t.fields| :: t.fields[j].name
  }

  /**
   * The `reduce` over the fields: each field's encoding of `value[field.name]`
   * is added under its name, a later field of the same name replacing an
   * earlier one.
   */
  function EncodeJsonFields(t: AbiType, v: FieldValue, i: nat, acc: map<string, JsonValue>): (r: Result<map<string, JsonValue>, Error>)
    requires t.Struct? && i <= |t.fields|
    decreases t, 0, |t.fields| - i
  {
    if i == |t.fields| then Ok(acc)
    else
      var f := t.fields[i];
      var input :- Member(v, f.name);
      var x :- EncodeJson(f.fieldType, input);
      EncodeJsonFields(t, v, i + 1, acc[f.name := x])
  }

  /**
   * `decodeElementary`: a narrow uint through `toInt`, a wider one through
   * `toBn`, a bool through `toBool`, everything else through `toHex`.
   */
  function DecodeElementary(t: AbiType, v: FieldValue): (r: Result<FieldValue, Error>)
    requires t.Elementary?
    ensures NarrowUint(t) ==> (r.Ok? <==> IsBufferLike(v)) && (r.Ok? ==> r.value == NumVal(ToInt(v).value))
    ensures t.kind == Uint && !NarrowUint(t) ==> (r.Ok? <==> ToBn(v).Ok?) && (r.Ok? ==> r.value == BigVal(ToBn(v).value))
    ensures t.kind == Bool ==> (r.Ok? <==> ToBool(v).Ok?) && (r.Ok? ==> r.value == BoolVal(ToBool(v).value))
    ensures t.kind in {Address, Byte, Bytes} ==> (r.Ok? <==> IsBufferLike(v)) && (r.Ok? ==> r.value == StrVal(ToHex(v).value))
  {
    match t.kind
    case Uint =>
      if NarrowUint(t) then
        var n :- ToInt(v);
        Ok(NumVal(n))
      else
        var n :- ToBn(v);
        Ok(BigVal(n))
    case Bool =>
      var b :- ToBool(v);
      Ok(BoolVal(b))
    case _ =>
      var h :- ToHex(v);
      Ok(StrVal(h))
  }

  /** `decodeObject`: a JSON-like value as a typed value. */
  function DecodeObject(t: AbiType, v: FieldValue): (r: Result<FieldValue, Error>)
    ensures t.Elementary? ==> r == DecodeElementary(t, v)
    ensures t.Enum? ==> (r.Ok? <==> IsBufferLike(v)) && (r.Ok? ==> r.value == NumVal(ToInt(v).value))
    ensures t.Array? && !v.ListVal? ==> r == Err(TypeMismatch)
    ensures t.Array? && r.Ok? ==> r.value.ListVal? && |r.value.items| == |v.items|
    decreases t, 1
  {
    match t
    case Elementary(_, _, _) => DecodeElementary(t, v)
    case Enum(_, _, _, _) =>
      var n :- ToInt(v);
      Ok(NumVal(n))
    case Array(_, _, _, _) =>
      if v.ListVal? then
        var xs :- DecodeItems(t, v.items, 0);
        Ok(ListVal(xs))
      else Err(TypeMismatch)
    case Struct(_, _, _, _) =>
      var m :- DecodeFields(t, v, 0, map[]);
      Ok(ObjVal(m))
  }

  /** `input.map(v => decodeObject(abi.baseType, v))` from the `i`-th element on. */
  function DecodeItems(t: AbiType, items: seq<FieldValue>, i: nat): (r: Result<seq<FieldValue>, Error>)
    requires t.Array? && i <= |items|
    ensures r.Ok? ==> |r.value| == |items| - i
    ensures r.Ok? ==> forall j :: 0 <= j < |r.value| ==> DecodeObject(t.baseType, items[i + j]) == Ok(r.value[j])
    decreases t, 0, |items| - i
  {
    if i == |items| then Ok([])
    else
      var x :- DecodeObject(t.baseType, items[i]);
      var rest :- DecodeItems(t, items, i + 1);
      var xs := [x] + rest;
      assert forall j :: 1 <= j < |xs| ==> xs[j] == rest[j - 1];
      Ok(xs)
  }

  /** What a struct's `i`-th field is decoded from: the `i`-th item of a list, otherwise the property of that name. */
  function FieldInput(t: AbiType, v: FieldValue, i: nat): Result<FieldValue, Error>
    requires t.Struct? && i < |t.fields|
  {
    if v.ListVal? then Ok(if i < |v.items| then v.items[i] else Undefined)
    else Member(v, t.fields[i].name)
  }

  /** The `reduce` over the fields of `decodeObject`, from the `i`-th field on. */
  function DecodeFields(t: AbiType, v: FieldValue, i: nat, acc: map<string, FieldValue>): (r: Result<map<string, FieldValue>, Error>)
    requires t.Struct? && i <= |t.fields|
    decreases t, 0, |t.fields| - i
  {
    if i == |t.fields| then Ok(acc)
    else
      var f := t.fields[i];
      var input :- FieldInput(t, v, i);
      var x :- DecodeObject(f.fieldType, input);
      DecodeFields(t, v, i + 1, acc[f.name := x])
  }

  /** `decodeJson`: a JSON value decoded with `decodeObject`. */
  function DecodeJson(t: AbiType, j: JsonValue): (r: Result<FieldValue, Error>)
    ensures t.Elementary? && t.kind == Bool && j.BoolVal? ==> r == Ok(j)
    ensures t.Elementary? && t.kind in {Address, Byte, Bytes} && j.StrVal? && HasPrefix0x(j.s) ==> r == Ok(j)
    ensures (t.Enum? || (t.Elementary? && NarrowUint(t))) && j.NumVal? ==> r == Ok(j)
    ensures t.Elementary? && t.kind == Uint && !NarrowUint(t) && j.StrVal? && ParseDecimal(j.s).Some? ==>
      r == Ok(BigVal(ParseDecimal(j.s).value))
    ensures t.Array? && !j.ListVal? ==> r == Err(TypeMismatch)
    ensures t.Struct? && r.Ok? ==> r.value.ObjVal?
  {
    assert j.StrVal? && ParseDecimal(j.s).Some? ==> !IsHex(j.s) && ToBn(j) == Ok(ParseDecimal(j.s).value);
    DecodeObject(t, j)
  }

  // Packed codec: encoding

  /** `Math.ceil(n / 8)`. */
  function CeilDiv8(n: nat): (q: nat)
    ensures 8 * q >= n && 8 * q < n + 8
  {
    (n + 7) / 8
  }

  /** The byte width an elementary kind is brought to when packed, if any. */
  function PackedWidth(t: AbiType): Option<nat>
    requires t.Elementary? || t.Enum?
  {
    if t.Enum? then (if t.size.Some? then Some(t.size.value / 8) else None)
    else match t.kind
      case Address => Some(20)
      case Bool => Some(1)
      case Uint => Some(CeilDiv8(if Truthy(t.size) then t.size.value else 256))
      case Byte => Some(1)
      case Bytes => if Truthy(t.size) then Some(t.size.value / 8) else None
  }

  /** `encodeABIPacked`: the packed bytes of a typed value. */
  function EncodePacked(t: AbiType, v: FieldValue): (r: Result<Buffer, Error>)
    ensures t.Elementary? && t.kind != Bool ==> r == ToBuf(v, PackedWidth(t))
    ensures t.Elementary? && t.kind == Bool ==> r == ToBuf(NumVal(Finite(if JsTruthy(v) then 1 else 0)), Some(1))
    ensures t.Enum? ==> r == ToBuf(v, PackedWidth(t))
    ensures t.Array? && !v.ListVal? ==> r == Err(TypeMismatch)
    decreases t, 1
  {
    match t
    case Elementary(kind, _, _) =>
      if kind == Bool then ToBuf(NumVal(Finite(if JsTruthy(v) then 1 else 0)), Some(1))
      else ToBuf(v, PackedWidth(t))
    case Enum(_, _, _, _) => ToBuf(v, PackedWidth(t))
    case Array(_, _, _, _) =>
      if v.ListVal? then EncodePackedItems(t, v.items, 0) else Err(TypeMismatch)
    case Struct(_, _, _, _) => EncodePackedFields(t, v, 0)
  }

  /** `Buffer.concat` of the packed elements from the `i`-th on. */
  function EncodePackedItems(t: AbiType, items: seq<FieldValue>, i: nat): (r: Result<Buffer, Error>)
    requires t.Array? && i <= |items|
    decreases t, 0, |items| - i
  {
    if i == |items| then Ok([])
    else
      var x :- EncodePacked(t.baseType, items[i]);
      var rest :- EncodePackedItems(t, items, i + 1);
      Ok(x + rest)
  }

  /** `Buffer.concat` of the packed fields from the `i`-th on, each read from `value[name]`. */
  function EncodePackedFields(t: AbiType, v: FieldValue, i: nat): (r: Result<Buffer, Error>)
    requires t.Struct? && i <= |t.fields|
    decreases t, 0, |t.fields| - i
  {
    if i == |t.fields| then Ok([])
    else
      var f := t.fields[i];
      var input :- Member(v, f.name);
      var x :- EncodePacked(f.fieldType, input);
      var rest :- EncodePackedFields(t, v, i + 1);
      Ok(x + rest)
  }

  // Packed codec: decoding

  /** How a packed array is cut: `count` slices of `width` bytes. */
  datatype Layout = Layout(count: nat, width: nat)

  /**
   * The element count and width of a packed array of `n` bytes: the length
   * and the element's size when given, each otherwise derived from the other
   * and the buffer length.
   */
  function ArrayLayout(t: AbiType, n: nat): (r: Result<Layout, Error>)
    requires t.Array?
    ensures r.Ok? && Truthy(t.length) ==> r.value.count == t.length.value
    ensures r.Ok? && Truthy(t.baseType.size) ==> r.value.width == t.baseType.size.value / 8
    ensures r.Ok? && (!Truthy(t.length) || !Truthy(t.baseType.size)) ==> r.value.count * r.value.width == n
    ensures Truthy(t.length) && Truthy(t.baseType.size) ==> r.Ok?
    ensures Truthy(t.length) && !Truthy(t.baseType.size) ==> (r.Ok? <==> n % t.length.value == 0)
    ensures !Truthy(t.length) && Truthy(t.baseType.size) && t.baseType.size.value / 8 > 0 ==>
      (r.Ok? <==> n % (t.baseType.size.value / 8) == 0)
    ensures !Truthy(t.length) && (!Truthy(t.baseType.size) || t.baseType.size.value / 8 == 0) ==> r == Err(UnknownElementWidth)
  {
    var base := t.baseType;
    if Truthy(t.length) then
      var count := t.length.value;
      if Truthy(base.size) then Ok(Layout(count, base.size.value / 8))
      else if n % count == 0 then Ok(Layout(count, n / count))
      else Err(InvalidLength)
    else if !Truthy(base.size) || base.size.value / 8 == 0 then Err(UnknownElementWidth)
    else
      var width := base.size.value / 8;
      if n % width == 0 then Ok(Layout(n / width, width)) else Err(InvalidLength)
  }

  /** The bytes `sliceBuf` hands a struct field at cursor `index`: its size, or all that remain. */
  function SliceWidth(ft: AbiType, n: nat, index: nat): nat
    requires index <= n
  {
    if Truthy(ft.size) then ft.size.value / 8 else n - index
  }

  /**
   * What `decodeABIPacked` makes of the bytes `b`: the length check against
   * the descriptor's size, then the value of each kind.
   */
  function Unpacked(t: AbiType, b: Buffer): (r: Result<FieldValue, Error>)
    ensures Truthy(t.size) && |b| * 8 != t.size.value ==> r == Err(InvalidLength)
    ensures r.Ok? && Truthy(t.size) ==> |b| * 8 == t.size.value
    ensures r.Ok? && t.Array? ==> r.value.ListVal?
    ensures r.Ok? && t.Array? && Truthy(t.length) ==> |r.value.items| == t.length.value
    ensures t.Struct? && !PackedLegal(t) && !(Truthy(t.size) && |b| * 8 != t.size.value) ==> r == Err(UnsupportedStructLayout)
    decreases t, 2
  {
    if Truthy(t.size) && |b| * 8 != t.size.value then Err(InvalidLength)
    else match t
      case Elementary(_, _, _) => DecodeElementary(t, BufVal(b))
      case Enum(_, _, _, _) => Ok(NumVal(ToInt(BufVal(b)).value))
      case Array(_, _, _, _) =>
        var layout :- ArrayLayout(t, |b|);
        var items :- UnpackElements(t, b, layout, 0, []);
        Ok(ListVal(items))
      case Struct(_, _, _, _) =>
        if !PackedLegal(t) then Err(UnsupportedStructLayout)
        else
          var m :- UnpackFields(t, b, 0, 0, map[]);
          Ok(ObjVal(m))
  }

  /** The elements from the `i`-th on, each from its own slice, appended to `acc`. */
  function UnpackElements(t: AbiType, b: Buffer, layout: Layout, i: nat, acc: seq<FieldValue>): (r: Result<seq<FieldValue>, Error>)
    requires t.Array? && i <= layout.count
    ensures r.Ok? ==> |r.value| == |acc| + layout.count - i && r.value[..|acc|] == acc
    decreases t, 1, layout.count - i
  {
    if i == layout.count then Ok(acc)
    else if (i + 1) * layout.width > |b| then Err(ShortBuffer)
    else
      var x :- Unpacked(t.baseType, b[i * layout.width..(i + 1) * layout.width]);
      var r := UnpackElements(t, b, layout, i + 1, acc + [x]);
      assert r.Ok? ==> r.value[..|acc|] == (acc + [x])[..|acc|];
      r
  }

  /** The fields from the `i`-th on, sliced from cursor `index`, added to `acc`. */
  function UnpackFields(t: AbiType, b: Buffer, i: nat, index: nat, acc: map<string, FieldValue>): (r: Result<map<string, FieldValue>, Error>)
    requires t.Struct? && i <= |t.fields| && index <= |b|
    decreases t, 1, |t.fields| - i
  {
    if i == |t.fields| then Ok(acc)
    else
      var f := t.fields[i];
      var width := SliceWidth(f.fieldType, |b|, index);
      if index + width > |b| then Err(ShortBuffer)
      else
        var x :- Unpacked(f.fieldType, b[index..index + width]);
        UnpackFields(t, b, i + 1, index + width, acc[f.name := x])
  }

  /** One step of the element loop: element `i` is decoded from its slice and appended. */
  lemma UnpackElementsStep(t: AbiType, b: Buffer, count: nat, w: nat, i: nat, acc: seq<FieldValue>, lo: nat, x: FieldValue)
    requires t.Array? && i < count
    requires lo == i * w && lo + w == (i + 1) * w && lo + w <= |b|
    requires Unpacked(t.baseType, b[lo..lo + w]) == Ok(x)
    ensures UnpackElements(t, b, Layout(count, w), i, acc) == UnpackElements(t, b, Layout(count, w), i + 1, acc + [x])
  {
  }

  /** A legal struct of the right length is decoded field by field. */
  lemma StructUnpacks(t: AbiType, b: Buffer)
    requires t.Struct? && PackedLegal(t) && !(Truthy(t.size) && |b| * 8 != t.size.value)
    ensures Unpacked(t, b) ==
      var m := UnpackFields(t, b, 0, 0, map[]);
      if m.Ok? then Ok(ObjVal(m.value)) else Err(m.error)
  {
  }

  /** An array of the right length is decoded element by element with the layout the decoder computes. */
  lemma ArrayUnpacksWith(t: AbiType, b: Buffer, layout: Layout)
    requires t.Array? && !(Truthy(t.size) && |b| * 8 != t.size.value) && ArrayLayout(t, |b|) == Ok(layout)
    ensures Unpacked(t, b) ==
      var items := UnpackElements(t, b, layout, 0, []);
      if items.Ok? then Ok(ListVal(items.value)) else Err(items.error)
  {
  }

  /** The element loop stops at a slice past the end of the buffer, or with the error of the element that fails. */
  lemma UnpackElementsStops(t: AbiType, b: Buffer, count: nat, w: nat, i: nat, acc: seq<FieldValue>, lo: nat)
    requires t.Array? && i < count
    requires lo == i * w && lo + w == (i + 1) * w
    ensures lo + w > |b| ==> UnpackElements(t, b, Layout(count, w), i, acc) == Err(ShortBuffer)
    ensures lo + w <= |b| && Unpacked(t.baseType, b[lo..lo + w]).Err? ==>
      UnpackElements(t, b, Layout(count, w), i, acc) == Err(Unpacked(t.baseType, b[lo..lo + w]).error)
  {
  }

  /** One step of the field loop: field `i` is decoded from its slice and added. */
  lemma UnpackFieldsStep(t: AbiType, b: Buffer, i: nat, index: nat, acc: map<string, FieldValue>, x: FieldValue)
    requires t.Struct? && i < |t.fields| && index <= |b|
    requires index + SliceWidth(t.fields[i].fieldType, |b|, index) <= |b|
    requires Unpacked(t.fields[i].fieldType, b[index..index + SliceWidth(t.fields[i].fieldType, |b|, index)]) == Ok(x)
    ensures UnpackFields(t, b, i, index, acc)
      == UnpackFields(t, b, i + 1, index + SliceWidth(t.fields[i].fieldType, |b|, index), acc[t.fields[i].name := x])
  {
  }

  /** The field loop stops at a slice past the end of the buffer, or with the error of the field that fails. */
  lemma UnpackFieldsStops(t: AbiType, b: Buffer, i: nat, index: nat, acc: map<string, FieldValue>)
    requires t.Struct? && i < |t.fields| && index <= |b|
    ensures index + SliceWidth(t.fields[i].fieldType, |b|, index) > |b| ==> UnpackFields(t, b, i, index, acc) == Err(ShortBuffer)
    ensures index + SliceWidth(t.fields[i].fieldType, |b|, index) <= |b| ==>
      var e := Unpacked(t.fields[i].fieldType, b[index..index + SliceWidth(t.fields[i].fieldType, |b|, index)]);
      e.Err? ==> UnpackFields(t, b, i, index, acc) == Err(e.error)
  {
  }

  /** The cursor after the first `i` fields, with each field's slice taken as in `UnpackFields`. */
  function FieldOffset(t: AbiType, n: nat, i: nat): nat
    requires t.Struct? && i <= |t.fields|
  {
    if i == 0 then 0
    else
      var index := FieldOffset(t, n, i - 1);
      if index <= n then index + SliceWidth(t.fields[i - 1].fieldType, n, index) else index
  }

  /**
   * `decodeABIPacked`: the input as a Buffer, then the length check, then a
   * cursor that walks the buffer slice by slice for arrays and structs.
   */
  method DecodePacked(t: AbiType, input: FieldValue) returns (r: Result<FieldValue, Error>)
    ensures ToBuf(input, None).Err? ==> r == Err(ToBuf(input, None).error)
    ensures ToBuf(input, None).Ok? ==> r == Unpacked(t, ToBuf(input, None).value)
    decreases t, 1
  {
    var value :- ToBuf(input, None);
    if Truthy(t.size) && |value| * 8 != t.size.value {
      return Err(InvalidLength);
    }
    match t
    case Elementary(_, _, _) =>
      r := DecodeElementary(t, BufVal(value));
    case Enum(_, _, _, _) =>
      r := Ok(NumVal(ToInt(BufVal(value)).value));
    case Array(_, _, _, _) =>
      r := DecodePackedArray(t, value);
    case Struct(_, _, _, _) =>
      r := DecodePackedStruct(t, value);
  }

  /** The array branch of `decodeABIPacked`: one slice of the element width per element. */
  method DecodePackedArray(t: AbiType, value: Buffer) returns (r: Result<FieldValue, Error>)
    requires t.Array? && !(Truthy(t.size) && |value| * 8 != t.size.value)
    ensures r == Unpacked(t, value)
    decreases t, 0
  {
    var layout :- ArrayLayout(t, |value|);
    ArrayUnpacksWith(t, value, layout);
    var arr: seq<FieldValue> := [];
    var index: nat := 0;
    var i := 0;
    var count, width := layout.count, layout.width;
    while i < count
      invariant 0 <= i <= count
      invariant index == i * width
      invariant UnpackElements(t, value, layout, 0, []) == UnpackElements(t, value, layout, i, arr)
    {
      assert index + width == (i + 1) * width;
      UnpackElementsStops(t, value, count, width, i, arr, index);
      if index + width > |value| {
        return Err(ShortBuffer);
      }
      var buf := value[index..index + width];
      assert ToBuf(BufVal(buf), None) == Ok(buf);
      var x :- DecodePacked(t.baseType, BufVal(buf));
      UnpackElementsStep(t, value, count, width, i, arr, index, x);
      index := index + width;
      arr := arr + [x];
      i := i + 1;
    }
    r := Ok(ListVal(arr));
  }

  /** The struct branch of `decodeABIPacked`: `sliceBuf` hands each field its bytes in turn. */
  method DecodePackedStruct(t: AbiType, value: Buffer) returns (r: Result<FieldValue, Error>)
    requires t.Struct? && !(Truthy(t.size) && |value| * 8 != t.size.value)
    ensures r == Unpacked(t, value)
    decreases t, 0
  {
    var allowed := IsStructAllowed(t);
    if !allowed {
      return Err(UnsupportedStructLayout);
    }
    StructUnpacks(t, value);
    var obj: map<string, FieldValue> := map[];
    var index: nat := 0;
    for i := 0 to |t.fields|
      invariant index <= |value|
      invariant UnpackFields(t, value, 0, 0, map[]) == UnpackFields(t, value, i, index, obj)
    {
      var field := t.fields[i];
      var width := if Truthy(field.fieldType.size) then field.fieldType.size.value / 8 else |value| - index;
      UnpackFieldsStops(t, value, i, index, obj);
      if index + width > |value| {
        return Err(ShortBuffer);
      }
      var buf := value[index..index + width];
      assert width == SliceWidth(field.fieldType, |value|, index);
      assert ToBuf(BufVal(buf), None) == Ok(buf);
      var x :- DecodePacked(field.fieldType, BufVal(buf));
      UnpackFieldsStep(t, value, i, index, obj, x);
      index := index + width;
      obj := obj[field.name := x];
    }
    r := Ok(ObjVal(obj));
  }
}
