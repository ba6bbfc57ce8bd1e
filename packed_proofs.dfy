/**
 * Properties of the packed codec of src/abi/coder.ts: the width of each
 * elementary kind, the layout of arrays and structs in the packed bytes,
 * and that decoding the packed bytes of a value gives the value back.
 */
module PackedProofs {
  import opened Wrappers
  import opened Primitives
  import opened Types
  import opened To
  import opened Helpers
  import opened Coder

  // Widths of the elementary kinds

  /**
   * The byte widths `encodeABIPacked` gives each elementary kind and enum:
   * 20 for an address, 1 for a bool or a byte, the least number of bytes
   * that hold a uint's bits (256 bits without a size), and the whole bytes
   * of a sized enum or of bytes with a non-zero size; none otherwise.
   */
  lemma PackedWidths(t: AbiType)
    requires t.Elementary? || t.Enum?
    ensures t.Elementary? && t.kind == Address ==> PackedWidth(t) == Some(20)
    ensures t.Elementary? && (t.kind == Bool || t.kind == Byte) ==> PackedWidth(t) == Some(1)
    ensures t.Elementary? && t.kind == Uint ==>
      var bits := if Truthy(t.size) then t.size.value else 256;
      PackedWidth(t).Some? && bits <= 8 * PackedWidth(t).value < bits + 8
    ensures t.Elementary? && t.kind == Uint && !Truthy(t.size) ==> PackedWidth(t) == Some(32)
    ensures t.Elementary? && t.kind == Bytes ==> (PackedWidth(t).Some? <==> Truthy(t.size))
    ensures t.Enum? ==> (PackedWidth(t).Some? <==> t.size.Some?)
    ensures PackedWidth(t).Some? && (t.Enum? || t.kind == Bytes) ==>
      8 * PackedWidth(t).value <= t.size.value < 8 * PackedWidth(t).value + 8
  {
  }

  /** A value packs to exactly the kind's width, keeping its number, when it fits; too large otherwise. */
  lemma ElementaryPacksToWidth(t: AbiType, v: FieldValue)
    requires t.Elementary? && t.kind != Bool && PackedWidth(t).Some? && PackedWidth(t).value > 0
    ensures EncodePacked(t, v).Ok? <==> ToBuffer(v).Ok? && |Unpad(ToBuffer(v).value)| <= PackedWidth(t).value
    ensures EncodePacked(t, v).Ok? ==>
      |EncodePacked(t, v).value| == PackedWidth(t).value &&
      BigEndian(EncodePacked(t, v).value) == BigEndian(ToBuffer(v).value)
  {
  }

  /** A bool packs to the single byte 1 when the value is truthy and 0 otherwise. */
  lemma BoolPacksToOneByte(t: AbiType, v: FieldValue)
    requires t.Elementary? && t.kind == Bool
    ensures EncodePacked(t, v) == Ok([if JsTruthy(v) then 1 else 0])
  {
    var x: uint8 := if JsTruthy(v) then 1 else 0;
    ByteValuePacks(x);
  }

  lemma ByteValuePacks(x: uint8)
    ensures ToBuf(NumVal(Finite(x)), Some(1)) == Ok([x])
  {
    assert ToBuffer(NumVal(Finite(x))) == Ok([x]) by {
      assert MinimalBytes(x) == [x];
    }
    ExactLengthKept(NumVal(Finite(x)), [x], Some(1));
  }

  /** A non-negative number below 256^w packs to w bytes that hold it. */
  lemma NumberPacks(v: FieldValue, n: nat, w: nat)
    requires v == NumVal(Finite(n)) || v == BigVal(n)
    requires w > 0 && n < Pow256(w)
    ensures ToBuf(v, Some(w)).Ok?
    ensures |ToBuf(v, Some(w)).value| == w && BigEndian(ToBuf(v, Some(w)).value) == n
  {
    MinimalBytesFit(n, w);
  }

  lemma {:induction false} Pow2Bytes(k: nat)
    ensures Pow2(8 * k) == Pow256(k)
  {
    if k > 0 {
      Pow2Bytes(k - 1);
      var p := Pow2(8 * (k - 1));
      assert Pow2(8 * k) == 256 * p by {
        assert 8 * k == 8 * (k - 1) + 8;
        Pow2Shift(8 * (k - 1), 8);
      }
    }
  }

  lemma {:induction false} Pow2Shift(a: nat, b: nat)
    ensures Pow2(a + b) == Pow2(a) * Pow2(b)
    decreases b
  {
    if b > 0 {
      Pow2Shift(a, b - 1);
      assert Pow2(a + b) == 2 * Pow2(a + b - 1);
    }
  }

  lemma MulStep(a: nat, w: nat)
    ensures (a + 1) * w == a * w + w
  {
  }

  lemma {:induction false} MulMono(j: nat, n: nat, w: nat)
    requires j <= n
    ensures j * w <= n * w
    decreases n - j
  {
    if j < n {
      MulMono(j + 1, n, w);
      MulStep(j, w);
    }
  }

  /** `n` bytes hold `c` pieces of `bits` bits each, so `c` pieces of `w` bytes. */
  lemma BytesOfBits(n: nat, c: nat, w: nat, bits: nat)
    requires 8 * w == bits && n * 8 == c * bits
    ensures n == c * w
  {
    assert c * bits == 8 * (c * w);
  }

  lemma DivMul(c: nat, w: nat)
    requires w > 0
    ensures (c * w) / w == c && (c * w) % w == 0
  {
    var q := (c * w) / w;
    var r := (c * w) % w;
    assert c * w == q * w + r && 0 <= r < w;
    if q < c {
      MulMono(q + 1, c, w);
      MulStep(q, w);
      assert false;
    }
    if q > c {
      MulMono(c + 1, q, w);
      MulStep(c, w);
      assert false;
    }
  }

  // Descriptors and values the round trip covers

  /** The bits a descriptor declares, or 0. */
  function SizeBits(t: AbiType): nat {
    if t.size.Some? then t.size.value else 0
  }

  /** The bits the fields from the `i`-th on declare together. */
  function FieldBits(t: AbiType, i: nat): nat
    requires t.Struct? && i <= |t.fields|
    decreases |t.fields| - i
  {
    if i == |t.fields| then 0 else SizeBits(t.fields[i].fieldType) + FieldBits(t, i + 1)
  }

  /**
   * A descriptor whose `size` is a positive whole number of bytes that every
   * packed value of it fills: sized elementary kinds and enums, arrays of a
   * given length of such elements, and legal structs of such fields, each
   * declaring the sum of its parts.
   */
  predicate Fixed(t: AbiType)
    decreases t
  {
    && t.size.Some? && t.size.value > 0 && t.size.value % 8 == 0
    && match t
       case Elementary(kind, _, size) =>
         (kind == Address ==> size.value == 160) && (kind == Bool || kind == Byte ==> size.value == 8)
       case Enum(_, _, _, _) => true
       case Array(base, length, _, size) =>
         Fixed(base) && Truthy(length) && size.value == length.value * base.size.value
       case Struct(_, fields, _, size) =>
         && PackedLegal(t)
         && (forall i :: 0 <= i < |fields| ==> Fixed(fields[i].fieldType))
         && size.value == FieldBits(t, 0)
  }

  /**
   * A descriptor the packed decoder can take apart: a fixed one, or one
   * without a size (absent or 0) that is elementary, an enum, an array of
   * fixed elements, or a legal struct whose fields are fixed except the last,
   * which is decodable itself.
   */
  predicate Decodable(t: AbiType)
    decreases t, 1
  {
    || Fixed(t)
    || (!Truthy(t.size) && match t
        case Elementary(_, _, _) => true
        case Enum(_, _, _, _) => true
        case Array(base, _, _, _) => Fixed(base)
        case Struct(_, fields, _, _) =>
          && PackedLegal(t)
          && (forall i :: 0 <= i < |fields| - 1 ==> Fixed(fields[i].fieldType))
          && (|fields| > 0 ==> Decodable(fields[|fields| - 1].fieldType)))
  }

  /**
   * The bits of hex text an address or byte holds: 160 and 8 when they
   * declare no size, absent or 0 (the widths they are packed to), otherwise
   * the size.
   */
  function HexBits(t: AbiType): (r: Option<nat>)
    requires t.Elementary?
    ensures Truthy(t.size) ==> r == t.size
    ensures !Truthy(t.size) && t.kind in {Address, Byte} ==> r.Some? && PackedWidth(t) == Some(r.value / 8)
    ensures !Truthy(t.size) && t.kind !in {Address, Byte} ==> r.None?
  {
    if Truthy(t.size) then t.size
    else if t.kind == Address then Some(160)
    else if t.kind == Byte then Some(8)
    else None
  }

  /** `0x` and lower-case hex digits for whole bytes: exactly `size / 8` of them when there is a size. */
  predicate IsHexOfSize(s: string, size: Option<nat>) {
    && |s| >= 2 && s[..2] == "0x" && AllLowerHexDigits(s[2..]) && |s| % 2 == 0
    && (Truthy(size) ==> |s| == 2 + 2 * (size.value / 8))
  }

  /**
   * The values packed decoding produces for a descriptor: booleans; numbers
   * below 2^size for narrow uints and enums; BNs below 2^size for wide uints;
   * lower-case hex text for addresses and bytes; lists; and maps keyed by
   * the (distinct) field names.
   */
  predicate IsPackedValue(t: AbiType, v: FieldValue)
    decreases t
  {
    match t
    case Elementary(kind, _, size) =>
      (match kind
       case Bool => v.BoolVal?
       case Uint =>
         var bound := if Truthy(size) then Pow2(size.value) else Pow256(32);
         if NarrowUint(t) then v.NumVal? && v.n.Finite? && 0 <= v.n.i < bound
         else v.BigVal? && 0 <= v.big < bound
       case _ => v.StrVal? && IsHexOfSize(v.s, HexBits(t)))
    case Enum(_, _, _, size) =>
      v.NumVal? && v.n.Finite? && 0 <= v.n.i && (Truthy(size) ==> v.n.i < Pow2(size.value))
    case Array(base, length, _, _) =>
      && v.ListVal?
      && (Truthy(length) ==> |v.items| == length.value)
      && forall j :: 0 <= j < |v.items| ==> IsPackedValue(base, v.items[j])
    case Struct(_, fields, _, _) =>
      && v.ObjVal? && UniqueFieldNames(t) && v.entries.Keys == FieldNames(t)
      && forall j :: 0 <= j < |fields| ==> IsPackedValue(fields[j].fieldType, v.entries[fields[j].name])
  }

  // Lengths

  /** `0x` hex text of whole bytes, in either case, that fills the kind's width packs to those bytes unchanged. */
  lemma HexPacks(t: AbiType, s: string)
    requires t.Elementary? && t.kind in {Address, Byte, Bytes}
    requires |s| >= 2 && s[..2] == "0x" && AllHexDigits(s[2..]) && |s| % 2 == 0
    requires PackedWidth(t).Some? ==> |s| == 2 + 2 * PackedWidth(t).value
    ensures EncodePacked(t, StrVal(s)) == Ok(HexToBytes(s[2..]))
  {
    HexTextToBuffer(s);
    ExactLengthKept(StrVal(s), HexToBytes(s[2..]), PackedWidth(t));
  }

  /** Lower-case hex text of the bits `HexBits` gives fills the width the kind is packed to. */
  lemma HexFillsWidth(t: AbiType, s: string)
    requires t.Elementary? && t.kind in {Address, Byte, Bytes} && IsHexOfSize(s, HexBits(t))
    requires t.kind == Address ==> !Truthy(t.size) || t.size == Some(160)
    requires t.kind == Byte ==> !Truthy(t.size) || t.size == Some(8)
    ensures AllHexDigits(s[2..])
    ensures PackedWidth(t).Some? ==> |s| == 2 + 2 * PackedWidth(t).value
  {
  }

  lemma HexTextToBuffer(s: string)
    requires |s| >= 2 && s[..2] == "0x" && AllHexDigits(s[2..]) && |s| % 2 == 0
    ensures ToBuffer(StrVal(s)) == Ok(HexToBytes(s[2..]))
  {
    assert IsHexString(s);
  }

  /** `toBuf` leaves a buffer that already has the requested length as it is. */
  lemma ExactLengthKept(v: FieldValue, b: Buffer, w: Option<nat>)
    requires ToBuffer(v) == Ok(b)
    requires w.Some? ==> |b| == w.value
    ensures ToBuf(v, w) == Ok(b)
  {
    if Truthy(w) {
      assert SetLength(b, |b|) == b by {
        assert b[|b| - |b|..] == b;
      }
      assert ToBuf(v, w) == Ok(SetLength(b, w.value));
    }
  }

  /** A packed scalar value of a fixed descriptor packs to exactly `size / 8` bytes. */
  lemma FixedScalarLength(t: AbiType, v: FieldValue)
    requires t.Elementary? || t.Enum?
    requires Fixed(t) && IsPackedValue(t, v)
    ensures EncodePacked(t, v).Ok? && |EncodePacked(t, v).value| * 8 == t.size.value
  {
    var w := t.size.value / 8;
    assert t.size == Some(8 * w);
    if t.Elementary? && t.kind == Bool {
      assert EncodePacked(t, v) == Ok([if JsTruthy(v) then 1 else 0]) by {
        BoolPacksToOneByte(t, v);
      }
    } else if t.Enum? || t.kind == Uint {
      var n: nat := if v.NumVal? then v.n.i else v.big;
      NumberPacksTo(t, v, n, w);
    } else {
      assert EncodePacked(t, v) == Ok(HexToBytes(v.s[2..])) by {
        HexFillsWidth(t, v.s);
        HexPacks(t, v.s);
      }
    }
  }

  /** A number below 2^size is brought to size/8 bytes that hold it. */
  lemma NumberPacksTo(t: AbiType, v: FieldValue, n: nat, w: nat)
    requires t.Enum? || (t.Elementary? && t.kind == Uint)
    requires t.size == Some(8 * w) && w > 0 && n < Pow2(8 * w)
    requires v == NumVal(Finite(n)) || v == BigVal(n)
    ensures EncodePacked(t, v) == ToBuf(v, Some(w))
    ensures ToBuf(v, Some(w)).Ok? && |ToBuf(v, Some(w)).value| == w && BigEndian(ToBuf(v, Some(w)).value) == n
  {
    NumberWidth(t, w);
    Pow2Bytes(w);
    NumberPacks(v, n, w);
  }

  /** A uint or an enum of `8 * w` bits is brought to `w` bytes. */
  lemma NumberWidth(t: AbiType, w: nat)
    requires t.Enum? || (t.Elementary? && t.kind == Uint)
    requires t.size == Some(8 * w) && w > 0
    ensures PackedWidth(t) == Some(w)
  {
    assert CeilDiv8(8 * w) == w;
  }

  /** Every packed value of a fixed descriptor packs to exactly `size / 8` bytes. */
  lemma {:induction false} FixedLength(t: AbiType, v: FieldValue)
    requires Fixed(t) && IsPackedValue(t, v)
    ensures EncodePacked(t, v).Ok? && |EncodePacked(t, v).value| * 8 == t.size.value
    decreases t, 1
  {
    match t
    case Elementary(_, _, _) =>
      FixedScalarLength(t, v);
    case Enum(_, _, _, _) =>
      FixedScalarLength(t, v);
    case Array(base, _, _, _) =>
      var b := EncodePackedItems(t, v.items, 0);
      assert b.Ok? && |b.value| * 8 == |v.items| * base.size.value by {
        FixedItemsLength(t, v.items, 0);
      }
      ArrayPacks(t, v.items);
    case Struct(_, _, _, _) =>
      var b := EncodePackedFields(t, v, 0);
      assert b.Ok? && |b.value| * 8 == FieldBits(t, 0) by {
        FixedFieldsLength(t, v, 0);
      }
      StructPacks(t, v);
  }

  lemma FixedItemsLength(t: AbiType, items: seq<FieldValue>, i: nat)
    requires t.Array? && Fixed(t.baseType) && i <= |items|
    requires forall j :: 0 <= j < |items| ==> IsPackedValue(t.baseType, items[j])
    ensures EncodePackedItems(t, items, i).Ok?
    ensures |EncodePackedItems(t, items, i).value| * 8 == (|items| - i) * t.baseType.size.value
    decreases t, 0
  {
    forall j | 0 <= j < |items|
      ensures EncodePacked(t.baseType, items[j]).Ok? && |EncodePacked(t.baseType, items[j]).value| * 8 == t.baseType.size.value
    {
      FixedLength(t.baseType, items[j]);
    }
    ItemsOfBits(t, items, i, t.baseType.size.value);
  }

  /** Elements that each pack to `bits` bits pack together to `bits` bits apiece. */
  lemma {:induction false} ItemsOfBits(t: AbiType, items: seq<FieldValue>, i: nat, bits: nat)
    requires t.Array? && i <= |items|
    requires forall j :: 0 <= j < |items| ==>
      EncodePacked(t.baseType, items[j]).Ok? && |EncodePacked(t.baseType, items[j]).value| * 8 == bits
    ensures EncodePackedItems(t, items, i).Ok?
    ensures |EncodePackedItems(t, items, i).value| * 8 == (|items| - i) * bits
    decreases |items| - i
  {
    if i < |items| {
      ItemsOfBits(t, items, i + 1, bits);
      ItemsStep(t, items, i);
      MulStep(|items| - (i + 1), bits);
    }
  }

  /** The packed elements from the `i`-th on are the `i`-th element's bytes, then the rest. */
  lemma ItemsStep(t: AbiType, items: seq<FieldValue>, i: nat)
    requires t.Array? && i < |items|
    requires EncodePacked(t.baseType, items[i]).Ok? && EncodePackedItems(t, items, i + 1).Ok?
    ensures EncodePackedItems(t, items, i) ==
      Ok(EncodePacked(t.baseType, items[i]).value + EncodePackedItems(t, items, i + 1).value)
  {
  }

  /** The packed fields from the `i`-th on are the `i`-th field's bytes, then the rest. */
  lemma FieldsStep(t: AbiType, v: FieldValue, i: nat)
    requires t.Struct? && v.ObjVal? && i < |t.fields| && t.fields[i].name in v.entries
    requires EncodePacked(t.fields[i].fieldType, v.entries[t.fields[i].name]).Ok?
    requires EncodePackedFields(t, v, i + 1).Ok?
    ensures EncodePackedFields(t, v, i) ==
      Ok(EncodePacked(t.fields[i].fieldType, v.entries[t.fields[i].name]).value + EncodePackedFields(t, v, i + 1).value)
  {
  }

  lemma {:induction false} FixedFieldsLength(t: AbiType, v: FieldValue, i: nat)
    requires Fixed(t) && t.Struct? && IsPackedValue(t, v) && i <= |t.fields|
    ensures EncodePackedFields(t, v, i).Ok?
    ensures |EncodePackedFields(t, v, i).value| * 8 == FieldBits(t, i)
    decreases t, 0, |t.fields| - i
  {
    if i < |t.fields| {
      var f := t.fields[i];
      FixedLength(f.fieldType, v.entries[f.name]);
      FixedFieldsLength(t, v, i + 1);
      FieldsStep(t, v, i);
    }
  }

  // Decoding slices the buffer the way encoding laid it out

  /** Element `j` of a decoded array is the decoding of the `j`-th slice of the element width. */
  predicate ElementFromSlice(t: AbiType, b: Buffer, layout: Layout, j: nat, x: FieldValue)
    requires t.Array?
  {
    && (j + 1) * layout.width <= |b|
    && j * layout.width <= (j + 1) * layout.width
    && Unpacked(t.baseType, b[j * layout.width..(j + 1) * layout.width]) == Ok(x)
  }

  /** A decoded array is the list its layout's elements decode to. */
  lemma ArrayUnpacks(t: AbiType, b: Buffer)
    requires t.Array? && Unpacked(t, b).Ok?
    ensures ArrayLayout(t, |b|).Ok?
    ensures UnpackElements(t, b, ArrayLayout(t, |b|).value, 0, []).Ok?
    ensures Unpacked(t, b).value == ListVal(UnpackElements(t, b, ArrayLayout(t, |b|).value, 0, []).value)
  {
  }

  /** Each element of a decoded array comes from its own consecutive slice of the element width. */
  lemma PackedArraySlices(t: AbiType, b: Buffer)
    requires t.Array? && Unpacked(t, b).Ok?
    ensures ArrayLayout(t, |b|).Ok?
    ensures |Unpacked(t, b).value.items| == ArrayLayout(t, |b|).value.count
    ensures forall j :: 0 <= j < ArrayLayout(t, |b|).value.count ==>
      ElementFromSlice(t, b, ArrayLayout(t, |b|).value, j, Unpacked(t, b).value.items[j])
  {
    ArrayUnpacks(t, b);
    var layout := ArrayLayout(t, |b|).value;
    ElementSlices(t, b, layout, 0, []);
  }

  /** The element loop fails past the end of the buffer or where an element fails. */
  lemma ElementsOk(t: AbiType, b: Buffer, layout: Layout, i: nat, acc: seq<FieldValue>)
    requires t.Array? && i < layout.count && UnpackElements(t, b, layout, i, acc).Ok?
    ensures (i + 1) * layout.width <= |b|
    ensures i * layout.width <= (i + 1) * layout.width
    ensures Unpacked(t.baseType, b[i * layout.width..(i + 1) * layout.width]).Ok?
  {
    MulStep(i, layout.width);
  }

  lemma {:induction false} ElementSlices(t: AbiType, b: Buffer, layout: Layout, i: nat, acc: seq<FieldValue>)
    requires t.Array? && i <= layout.count && |acc| == i && UnpackElements(t, b, layout, i, acc).Ok?
    ensures forall j :: i <= j < layout.count ==>
      ElementFromSlice(t, b, layout, j, UnpackElements(t, b, layout, i, acc).value[j])
    decreases layout.count - i
  {
    if i < layout.count {
      ElementsOk(t, b, layout, i, acc);
      var x := Unpacked(t.baseType, b[i * layout.width..(i + 1) * layout.width]).value;
      MulStep(i, layout.width);
      UnpackElementsStep(t, b, layout.count, layout.width, i, acc, i * layout.width, x);
      ElementSlices(t, b, layout, i + 1, acc + [x]);
      var r := UnpackElements(t, b, layout, i + 1, acc + [x]).value;
      assert r[..i + 1] == acc + [x];
      assert r[i] == (acc + [x])[i];
    }
  }

  /** The field loop adds exactly the names of the fields it visits. */
  lemma {:induction false} UnpackFieldsKeys(t: AbiType, b: Buffer, i: nat, index: nat, acc: map<string, FieldValue>)
    requires t.Struct? && i <= |t.fields| && index <= |b| && UnpackFields(t, b, i, index, acc).Ok?
    ensures UnpackFields(t, b, i, index, acc).value.Keys == acc.Keys + NamesFrom(t, i)
    decreases |t.fields| - i
  {
    if i < |t.fields| {
      var f := t.fields[i];
      FieldsOk(t, b, i, index, acc);
      var width := SliceWidth(f.fieldType, |b|, index);
      var x := Unpacked(f.fieldType, b[index..index + width]).value;
      UnpackFieldsStep(t, b, i, index, acc, x);
      UnpackFieldsKeys(t, b, i + 1, index + width, acc[f.name := x]);
      assert NamesFrom(t, i) == {f.name} + NamesFrom(t, i + 1);
    }
  }

  /** A decoded struct is a map whose keys are exactly the field names. */
  lemma PackedStructKeys(t: AbiType, b: Buffer)
    requires t.Struct? && Unpacked(t, b).Ok?
    ensures Unpacked(t, b).value.ObjVal? && Unpacked(t, b).value.entries.Keys == FieldNames(t)
  {
    UnpackFieldsKeys(t, b, 0, 0, map[]);
    assert NamesFrom(t, 0) == FieldNames(t);
  }

  /** Field `j` of a decoded struct is the decoding of the bytes between its cursor and the next. */
  predicate FieldFromSlice(t: AbiType, b: Buffer, j: nat, m: map<string, FieldValue>)
    requires t.Struct? && j < |t.fields|
  {
    && FieldOffset(t, |b|, j) <= FieldOffset(t, |b|, j + 1) <= |b|
    && t.fields[j].name in m
    && Unpacked(t.fields[j].fieldType, b[FieldOffset(t, |b|, j)..FieldOffset(t, |b|, j + 1)]) == Ok(m[t.fields[j].name])
  }

  /**
   * Each field of a decoded struct with distinct field names comes from its
   * slice: `size / 8` bytes at the cursor for a sized field, all the
   * remaining bytes for one without a size.
   */
  lemma PackedStructSlices(t: AbiType, b: Buffer)
    requires t.Struct? && UniqueFieldNames(t) && Unpacked(t, b).Ok?
    ensures PackedLegal(t)
    ensures forall j :: 0 <= j < |t.fields| ==> FieldFromSlice(t, b, j, Unpacked(t, b).value.entries)
  {
    FieldSlices(t, b, 0, map[], Unpacked(t, b).value.entries);
  }

  /** The field loop fails where a slice runs past the end or a field fails. */
  lemma FieldsOk(t: AbiType, b: Buffer, i: nat, index: nat, acc: map<string, FieldValue>)
    requires t.Struct? && i < |t.fields| && index <= |b| && UnpackFields(t, b, i, index, acc).Ok?
    ensures index + SliceWidth(t.fields[i].fieldType, |b|, index) <= |b|
    ensures Unpacked(t.fields[i].fieldType, b[index..index + SliceWidth(t.fields[i].fieldType, |b|, index)]).Ok?
  {
  }

  /**
   * One step of the field loop from cursor `FieldOffset(i)` towards the
   * result `m`: it goes on from the next cursor with field `i` added, and
   * field `i` keeps its slice's value in `m`.
   */
  lemma FieldSliceStep(t: AbiType, b: Buffer, i: nat, acc: map<string, FieldValue>, m: map<string, FieldValue>)
    returns (acc': map<string, FieldValue>)
    requires t.Struct? && UniqueFieldNames(t) && i < |t.fields|
    requires FieldOffset(t, |b|, i) <= |b|
    requires UnpackFields(t, b, i, FieldOffset(t, |b|, i), acc) == Ok(m)
    ensures FieldOffset(t, |b|, i + 1) <= |b|
    ensures UnpackFields(t, b, i + 1, FieldOffset(t, |b|, i + 1), acc') == Ok(m)
    ensures FieldFromSlice(t, b, i, m)
  {
    var f := t.fields[i];
    var index := FieldOffset(t, |b|, i);
    var next := index + SliceWidth(f.fieldType, |b|, index);
    assert next <= |b| && Unpacked(f.fieldType, b[index..next]).Ok? by {
      FieldsOk(t, b, i, index, acc);
    }
    assert FieldOffset(t, |b|, i + 1) == next;
    var x := Unpacked(f.fieldType, b[index..next]).value;
    acc' := acc[f.name := x];
    assert UnpackFields(t, b, i + 1, next, acc') == Ok(m) by {
      UnpackFieldsStep(t, b, i, index, acc, x);
    }
    assert f.name in m && m[f.name] == x by {
      LaterFieldsKeep(t, b, i + 1, next, acc', f.name);
    }
  }

  lemma {:induction false} FieldSlices(t: AbiType, b: Buffer, i: nat, acc: map<string, FieldValue>, m: map<string, FieldValue>)
    requires t.Struct? && UniqueFieldNames(t) && i <= |t.fields|
    requires FieldOffset(t, |b|, i) <= |b|
    requires UnpackFields(t, b, i, FieldOffset(t, |b|, i), acc) == Ok(m)
    ensures forall j :: i <= j < |t.fields| ==> FieldFromSlice(t, b, j, m)
    decreases |t.fields| - i
  {
    if i < |t.fields| {
      var acc' := FieldSliceStep(t, b, i, acc, m);
      FieldSlices(t, b, i + 1, acc', m);
    }
  }

  /** A key that no later field has keeps the value it has in the accumulator. */
  lemma {:induction false} LaterFieldsKeep(t: AbiType, b: Buffer, i: nat, index: nat, acc: map<string, FieldValue>, k: string)
    requires t.Struct? && i <= |t.fields| && index <= |b|
    requires UnpackFields(t, b, i, index, acc).Ok? && k in acc
    requires forall j :: i <= j < |t.fields| ==> t.fields[j].name != k
    ensures k in UnpackFields(t, b, i, index, acc).value
    ensures UnpackFields(t, b, i, index, acc).value[k] == acc[k]
    decreases |t.fields| - i
  {
    if i < |t.fields| {
      var f := t.fields[i];
      FieldsOk(t, b, i, index, acc);
      var width := SliceWidth(f.fieldType, |b|, index);
      var x := Unpacked(f.fieldType, b[index..index + width]).value;
      UnpackFieldsStep(t, b, i, index, acc, x);
      LaterFieldsKeep(t, b, i + 1, index + width, acc[f.name := x], k);
    }
  }

  // The round trip

  /** A bool packs to 0 or 1 and decodes back to itself. */
  lemma BoolRoundTrip(t: AbiType, v: FieldValue)
    requires t.Elementary? && t.kind == Bool && (!Truthy(t.size) || t.size == Some(8)) && v.BoolVal?
    ensures EncodePacked(t, v) == Ok([if v.b then 1 else 0])
    ensures Unpacked(t, [if v.b then 1 else 0]) == Ok(v)
  {
    var x: uint8 := if v.b then 1 else 0;
    assert EncodePacked(t, v) == Ok([x]) by {
      BoolPacksToOneByte(t, v);
    }
    assert Unpacked(t, [x]) == Ok(v) by {
      BoolUnpacks(t, x);
    }
  }

  /** A bool's single byte is decoded as true exactly when it is not zero. */
  lemma BoolUnpacks(t: AbiType, x: uint8)
    requires t.Elementary? && t.kind == Bool && (!Truthy(t.size) || t.size == Some(8))
    ensures Unpacked(t, [x]) == Ok(BoolVal(x != 0))
  {
    assert BigEndian([x]) == x;
    ElementaryUnpacks(t, [x]);
  }

  /** A number below 2^size packs to size/8 bytes that decode back to it. */
  lemma NumberRoundTrip(t: AbiType, v: FieldValue, n: nat, w: nat)
    requires t.Enum? || (t.Elementary? && t.kind == Uint)
    requires t.size == Some(8 * w) && w > 0 && n < Pow2(8 * w)
    requires if t.Enum? || NarrowUint(t) then v == NumVal(Finite(n)) else v == BigVal(n)
    ensures EncodePacked(t, v).Ok? && Unpacked(t, EncodePacked(t, v).value) == Ok(v)
  {
    NumberPacksTo(t, v, n, w);
    NumberUnpacks(t, ToBuf(v, Some(w)).value);
  }

  /** An elementary type's bytes of the right length are decoded as a Buffer. */
  lemma ElementaryUnpacks(t: AbiType, b: Buffer)
    requires t.Elementary? && !(Truthy(t.size) && |b| * 8 != t.size.value)
    ensures Unpacked(t, b) == DecodeElementary(t, BufVal(b))
  {
  }

  /** A uint's or an enum's bytes of the right length are decoded as their big-endian number. */
  lemma NumberUnpacks(t: AbiType, b: Buffer)
    requires t.Enum? || (t.Elementary? && t.kind == Uint)
    requires !(Truthy(t.size) && |b| * 8 != t.size.value)
    ensures Unpacked(t, b) == Ok(if t.Enum? || NarrowUint(t) then NumVal(Finite(BigEndian(b))) else BigVal(BigEndian(b)))
  {
    if t.Elementary? {
      ElementaryUnpacks(t, b);
    }
  }

  /** Lower-case hex text packs to its bytes, which decode back to the same text. */
  lemma HexRoundTrip(t: AbiType, s: string)
    requires t.Elementary? && t.kind in {Address, Byte, Bytes} && IsHexOfSize(s, HexBits(t))
    requires t.kind == Address ==> !Truthy(t.size) || t.size == Some(160)
    requires t.kind == Byte ==> !Truthy(t.size) || t.size == Some(8)
    requires Truthy(t.size) ==> t.size.value % 8 == 0
    ensures EncodePacked(t, StrVal(s)).Ok? && Unpacked(t, EncodePacked(t, StrVal(s)).value) == Ok(StrVal(s))
  {
    var b := HexPacksTo(t, s);
    HexUnpacks(t, b, s);
  }

  /** The bytes lower-case hex text of the declared width packs to, which fill the size and print back as the text. */
  lemma HexPacksTo(t: AbiType, s: string) returns (b: Buffer)
    requires t.Elementary? && t.kind in {Address, Byte, Bytes} && IsHexOfSize(s, HexBits(t))
    requires t.kind == Address ==> !Truthy(t.size) || t.size == Some(160)
    requires t.kind == Byte ==> !Truthy(t.size) || t.size == Some(8)
    requires Truthy(t.size) ==> t.size.value % 8 == 0
    ensures EncodePacked(t, StrVal(s)) == Ok(b)
    ensures s == "0x" + ByteHex(b)
    ensures Truthy(t.size) ==> |b| * 8 == t.size.value
  {
    var h := s[2..];
    b := HexToBytes(h);
    HexFillsWidth(t, s);
    HexPacks(t, s);
    HexToBytesRoundTrip(h);
    assert s == "0x" + h;
    if Truthy(t.size) {
      HexBytesFill(|s|, |b|, t.size.value);
    }
  }

  /** `2 + 2 * (size / 8)` hex characters make `size / 8` bytes, which is `size` bits. */
  lemma HexBytesFill(chars: nat, bytes: nat, size: nat)
    requires size % 8 == 0 && chars == 2 + 2 * (size / 8) && bytes == (chars - 2) / 2
    ensures bytes * 8 == size
  {
  }

  /** Bytes of the declared size decode to their `0x` hex text. */
  lemma HexUnpacks(t: AbiType, b: Buffer, s: string)
    requires t.Elementary? && t.kind in {Address, Byte, Bytes}
    requires Truthy(t.size) ==> |b| * 8 == t.size.value
    requires s == "0x" + ByteHex(b)
    ensures Unpacked(t, b) == Ok(StrVal(s))
  {
    assert ToHex(BufVal(b)) == Ok(s);
  }

  /**
   * A uint without a size is packed to 32 bytes, so a value below 2^256
   * decodes back to itself: a BN when the size is absent, and a number when
   * it is 0, which counts as narrow.
   */
  lemma UnsizedUintRoundTrip(t: AbiType, n: nat)
    requires t.Elementary? && t.kind == Uint && !Truthy(t.size) && n < Pow256(32)
    ensures var v := if NarrowUint(t) then NumVal(Finite(n)) else BigVal(n);
      && EncodePacked(t, v).Ok? && |EncodePacked(t, v).value| == 32
      && Unpacked(t, EncodePacked(t, v).value) == Ok(v)
  {
    PackedWidths(t);
    WidthRoundTrip(t, if NarrowUint(t) then NumVal(Finite(n)) else BigVal(n), n, 32);
  }

  /** An unsized uint's value brought to `w` bytes that hold it decodes back from them. */
  lemma WidthRoundTrip(t: AbiType, v: FieldValue, n: nat, w: nat)
    requires t.Elementary? && t.kind == Uint && !Truthy(t.size)
    requires v == if NarrowUint(t) then NumVal(Finite(n)) else BigVal(n)
    requires PackedWidth(t) == Some(w) && w > 0 && n < Pow256(w)
    ensures EncodePacked(t, v).Ok? && |EncodePacked(t, v).value| == w
    ensures Unpacked(t, EncodePacked(t, v).value) == Ok(v)
  {
    NumberPacks(v, n, w);
    var b := ToBuf(v, Some(w)).value;
    assert EncodePacked(t, v) == Ok(b);
    assert !Truthy(t.size);
    NumberUnpacks(t, b);
  }

  /** An enum without a size (absent or 0) is packed to its shortest bytes, which decode back to its number. */
  lemma UnsizedEnumRoundTrip(t: AbiType, n: nat)
    requires t.Enum? && !Truthy(t.size)
    ensures EncodePacked(t, NumVal(Finite(n))) == Ok(MinimalBytes(n))
    ensures Unpacked(t, MinimalBytes(n)) == Ok(NumVal(Finite(n)))
  {
  }

  /**
   * An address written as `0x` and 40 hex digits in either case packs to its
   * 20 bytes, which decode to the same text with the digits in lower case.
   */
  lemma MixedCaseAddressRoundTrip(t: AbiType, s: string)
    requires t.Elementary? && t.kind == Address && (!Truthy(t.size) || t.size == Some(160))
    requires |s| == 42 && s[..2] == "0x" && AllHexDigits(s[2..])
    ensures EncodePacked(t, StrVal(s)) == Ok(HexToBytes(s[2..]))
    ensures Unpacked(t, HexToBytes(s[2..])) == Ok(StrVal("0x" + LowerHex(s[2..])))
  {
    HexPacks(t, s);
    var b := HexToBytes(s[2..]);
    HexToBytesLowers(s[2..]);
    HexUnpacks(t, b, "0x" + LowerHex(s[2..]));
  }

  lemma ScalarRoundTrip(t: AbiType, v: FieldValue)
    requires t.Elementary? || t.Enum?
    requires Decodable(t) && IsPackedValue(t, v)
    ensures EncodePacked(t, v).Ok? && Unpacked(t, EncodePacked(t, v).value) == Ok(v)
  {
    if t.Elementary? && t.kind == Bool {
      BoolRoundTrip(t, v);
    } else if t.Elementary? && t.kind == Uint && !Truthy(t.size) {
      UnsizedUintRoundTrip(t, if NarrowUint(t) then v.n.i else v.big);
    } else if t.Enum? && !Truthy(t.size) {
      UnsizedEnumRoundTrip(t, v.n.i);
    } else if t.Enum? || t.kind == Uint {
      var w := t.size.value / 8;
      assert t.size == Some(8 * w);
      var n := if v.NumVal? then v.n.i else v.big;
      NumberRoundTrip(t, v, n, w);
    } else {
      HexRoundTrip(t, v.s);
    }
  }

  /** Decoding the packed bytes of a packed value of a decodable descriptor gives the value back. */
  lemma {:induction false} PackedRoundTrip(t: AbiType, v: FieldValue)
    requires Decodable(t) && IsPackedValue(t, v)
    ensures EncodePacked(t, v).Ok?
    ensures Unpacked(t, EncodePacked(t, v).value) == Ok(v)
    decreases t, 2
  {
    match t
    case Elementary(_, _, _) =>
      ScalarRoundTrip(t, v);
    case Enum(_, _, _, _) =>
      ScalarRoundTrip(t, v);
    case Array(_, _, _, _) =>
      ItemsRoundTrip(t, v.items);
    case Struct(_, _, _, _) =>
      StructRoundTrip(t, v);
  }

  lemma {:induction false} ItemsRoundTrip(t: AbiType, items: seq<FieldValue>)
    requires t.Array? && Decodable(t) && IsPackedValue(t, ListVal(items))
    ensures EncodePacked(t, ListVal(items)).Ok?
    ensures Unpacked(t, EncodePacked(t, ListVal(items)).value) == Ok(ListVal(items))
    decreases t, 1
  {
    var base := t.baseType;
    DecodableArray(t);
    var w := base.size.value / 8;
    assert 8 * w == base.size.value;
    assert ElementsRoundTrip(t, items, w) by {
      ElementsRoundTrips(t, items, w);
    }
    var b := EncodePackedItems(t, items, 0);
    assert b.Ok? && |b.value| * 8 == |items| * base.size.value by {
      FixedItemsLength(t, items, 0);
    }
    assert Truthy(t.size) ==> t.size.value == |items| * base.size.value;
    assert Unpacked(t, b.value) == Ok(ListVal(items)) by {
      EncodedItemsDecode(t, items, w);
    }
    ArrayPacks(t, items);
  }

  /** A decodable array has fixed elements, and a size only when it has a length. */
  lemma DecodableArray(t: AbiType)
    requires t.Array? && Decodable(t)
    ensures Fixed(t.baseType)
    ensures Truthy(t.size) ==> Truthy(t.length) && t.size.value == t.length.value * t.baseType.size.value
  {
  }

  /** A list is packed as its elements laid end to end. */
  lemma ArrayPacks(t: AbiType, items: seq<FieldValue>)
    requires t.Array?
    ensures EncodePacked(t, ListVal(items)) == EncodePackedItems(t, items, 0)
  {
  }

  /** Every element packs to `w` bytes that decode back to it. */
  lemma {:induction false} ElementsRoundTrips(t: AbiType, items: seq<FieldValue>, w: nat)
    requires t.Array? && Fixed(t.baseType) && 8 * w == t.baseType.size.value
    requires forall j :: 0 <= j < |items| ==> IsPackedValue(t.baseType, items[j])
    ensures ElementsRoundTrip(t, items, w)
    decreases t, 0
  {
    forall j | 0 <= j < |items|
      ensures EncodePacked(t.baseType, items[j]).Ok? && |EncodePacked(t.baseType, items[j]).value| == w
      ensures Unpacked(t.baseType, EncodePacked(t.baseType, items[j]).value) == Ok(items[j])
    {
      FixedLength(t.baseType, items[j]);
      PackedRoundTrip(t.baseType, items[j]);
    }
  }

  /** The packed elements, laid end to end, decode back to the list. */
  lemma EncodedItemsDecode(t: AbiType, items: seq<FieldValue>, w: nat)
    requires t.Array? && Fixed(t.baseType) && 8 * w == t.baseType.size.value
    requires Truthy(t.length) ==> |items| == t.length.value
    requires Truthy(t.size) ==> t.size.value == |items| * t.baseType.size.value
    requires ElementsRoundTrip(t, items, w)
    requires EncodePackedItems(t, items, 0).Ok?
    requires |EncodePackedItems(t, items, 0).value| * 8 == |items| * t.baseType.size.value
    ensures Unpacked(t, EncodePackedItems(t, items, 0).value) == Ok(ListVal(items))
  {
    var b := EncodePackedItems(t, items, 0).value;
    BytesOfBits(|b|, |items|, w, t.baseType.size.value);
    ArrayLayoutOfItems(t, |items|, w);
    ElementsDecode(t, b, w, items, 0, 0);
    assert items[..0] == [];
  }

  /** The layout the decoder computes for `count` elements of width `w`. */
  lemma ArrayLayoutOfItems(t: AbiType, count: nat, w: nat)
    requires t.Array? && Fixed(t.baseType) && 8 * w == t.baseType.size.value
    requires Truthy(t.length) ==> count == t.length.value
    ensures ArrayLayout(t, count * w) == Ok(Layout(count, w))
  {
    DivMul(count, w);
  }

  /** The prefix of length `i + 1` is the prefix of length `i` and element `i`. */
  lemma PrefixExtend(s: seq<FieldValue>, i: nat)
    requires i < |s|
    ensures s[..i] + [s[i]] == s[..i + 1]
  {
  }

  /** A suffix that is `e + rest` starts with `e`, and `rest` follows it. */
  lemma SuffixSplit(b: Buffer, lo: nat, e: Buffer, rest: Buffer)
    requires lo <= |b| && b[lo..] == e + rest
    ensures lo + |e| <= |b| && b[lo..lo + |e|] == e && b[lo + |e|..] == rest
  {
    assert b[lo..lo + |e|] == b[lo..][..|e|];
    assert b[lo + |e|..] == b[lo..][|e|..];
  }

  /** Every element packs to `w` bytes that decode back to it. */
  predicate ElementsRoundTrip(t: AbiType, items: seq<FieldValue>, w: nat)
    requires t.Array?
  {
    forall j :: 0 <= j < |items| ==>
      && EncodePacked(t.baseType, items[j]).Ok?
      && |EncodePacked(t.baseType, items[j]).value| == w
      && Unpacked(t.baseType, EncodePacked(t.baseType, items[j]).value) == Ok(items[j])
  }

  lemma ElementAt(t: AbiType, items: seq<FieldValue>, w: nat, j: nat)
    requires t.Array? && ElementsRoundTrip(t, items, w) && j < |items|
    ensures EncodePacked(t.baseType, items[j]).Ok?
    ensures |EncodePacked(t.baseType, items[j]).value| == w
    ensures Unpacked(t.baseType, EncodePacked(t.baseType, items[j]).value) == Ok(items[j])
  {
  }

  /** Element `i` decodes from the front of the suffix that holds the elements from the `i`-th on. */
  lemma ElementDecodes(t: AbiType, b: Buffer, w: nat, items: seq<FieldValue>, i: nat, lo: nat)
    requires t.Array? && i < |items| && lo == i * w
    requires EncodePacked(t.baseType, items[i]).Ok?
    requires |EncodePacked(t.baseType, items[i]).value| == w
    requires Unpacked(t.baseType, EncodePacked(t.baseType, items[i]).value) == Ok(items[i])
    requires EncodePackedItems(t, items, i).Ok?
    requires lo <= |b| && b[lo..] == EncodePackedItems(t, items, i).value
    ensures EncodePackedItems(t, items, i + 1).Ok?
    ensures lo + w <= |b| && b[lo + w..] == EncodePackedItems(t, items, i + 1).value
    ensures UnpackElements(t, b, Layout(|items|, w), i, items[..i])
      == UnpackElements(t, b, Layout(|items|, w), i + 1, items[..i + 1])
  {
    ItemSlice(t, b, w, items, i, lo);
    assert lo + w == (i + 1) * w by {
      MulStep(i, w);
    }
    UnpackElementsStep(t, b, |items|, w, i, items[..i], lo, items[i]);
    PrefixExtend(items, i);
  }

  /** The suffix holding the elements from the `i`-th on starts with element `i`'s bytes. */
  lemma ItemSlice(t: AbiType, b: Buffer, w: nat, items: seq<FieldValue>, i: nat, lo: nat)
    requires t.Array? && i < |items|
    requires EncodePacked(t.baseType, items[i]).Ok? && |EncodePacked(t.baseType, items[i]).value| == w
    requires EncodePackedItems(t, items, i).Ok?
    requires lo <= |b| && b[lo..] == EncodePackedItems(t, items, i).value
    ensures EncodePackedItems(t, items, i + 1).Ok?
    ensures lo + w <= |b| && b[lo..lo + w] == EncodePacked(t.baseType, items[i]).value
    ensures b[lo + w..] == EncodePackedItems(t, items, i + 1).value
  {
    var e := EncodePacked(t.baseType, items[i]).value;
    var rest := EncodePackedItems(t, items, i + 1);
    assert rest.Ok?;
    ItemsStep(t, items, i);
    SuffixSplit(b, lo, e, rest.value);
  }

  lemma {:induction false} ElementsDecode(t: AbiType, b: Buffer, w: nat, items: seq<FieldValue>, i: nat, lo: nat)
    requires t.Array? && i <= |items| && lo == i * w
    requires ElementsRoundTrip(t, items, w)
    requires EncodePackedItems(t, items, i).Ok?
    requires lo <= |b| && b[lo..] == EncodePackedItems(t, items, i).value
    ensures UnpackElements(t, b, Layout(|items|, w), i, items[..i]) == Ok(items)
    decreases |items| - i
  {
    if i < |items| {
      ElementAt(t, items, w, i);
      ElementDecodes(t, b, w, items, i, lo);
      MulStep(i, w);
      ElementsDecode(t, b, w, items, i + 1, lo + w);
    } else {
      assert items[..i] == items;
    }
  }

  lemma {:induction false} StructRoundTrip(t: AbiType, v: FieldValue)
    requires t.Struct? && Decodable(t) && IsPackedValue(t, v)
    ensures EncodePacked(t, v).Ok?
    ensures Unpacked(t, EncodePacked(t, v).value) == Ok(v)
    decreases t, 1
  {
    FieldsRoundTrip(t, v);
    assert EncodePackedFields(t, v, 0).Ok? by {
      forall j | 0 <= j < |t.fields|
        ensures t.fields[j].name in v.entries && EncodePacked(t.fields[j].fieldType, v.entries[t.fields[j].name]).Ok?
      {
        assert FieldRoundTrips(t, v, j);
      }
      FieldsPack(t, v, 0);
    }
    var b := EncodePackedFields(t, v, 0).value;
    assert Truthy(t.size) ==> |b| * 8 == t.size.value by {
      if Truthy(t.size) {
        assert Fixed(t);
        FixedFieldsLength(t, v, 0);
      }
    }
    assert Unpacked(t, b) == Ok(v) by {
      EncodedFieldsUnpack(t, v, b);
    }
    StructPacks(t, v);
  }

  /** A struct is packed as its fields laid end to end. */
  lemma StructPacks(t: AbiType, v: FieldValue)
    requires t.Struct?
    ensures EncodePacked(t, v) == EncodePackedFields(t, v, 0)
  {
  }

  /** The packed fields, laid end to end, decode back to the struct value. */
  lemma EncodedFieldsUnpack(t: AbiType, v: FieldValue, b: Buffer)
    requires t.Struct? && PackedLegal(t) && v.ObjVal? && v.entries.Keys == FieldNames(t)
    requires Truthy(t.size) ==> |b| * 8 == t.size.value
    requires forall j :: 0 <= j < |t.fields| ==> FieldRoundTrips(t, v, j)
    requires EncodePackedFields(t, v, 0) == Ok(b)
    ensures Unpacked(t, b) == Ok(v)
  {
    FieldsDecode(t, v, b, 0, 0, map[]);
    PackedStructKeys(t, b);
    var m := UnpackFields(t, b, 0, 0, map[]).value;
    assert m == v.entries;
  }

  /** Every field packs, and decodes back from its own bytes. */
  lemma FieldsRoundTrip(t: AbiType, v: FieldValue)
    requires t.Struct? && Decodable(t) && IsPackedValue(t, v)
    ensures forall j :: 0 <= j < |t.fields| ==> FieldRoundTrips(t, v, j)
    decreases t, 0, 1
  {
    forall j | 0 <= j < |t.fields|
      ensures FieldRoundTrips(t, v, j)
    {
      FieldRoundTripsAt(t, v, j);
    }
  }

  /** Fields from the `i`-th on that each pack, pack together. */
  lemma {:induction false} FieldsPack(t: AbiType, v: FieldValue, i: nat)
    requires t.Struct? && v.ObjVal? && i <= |t.fields|
    requires forall j :: i <= j < |t.fields| ==>
      t.fields[j].name in v.entries && EncodePacked(t.fields[j].fieldType, v.entries[t.fields[j].name]).Ok?
    ensures EncodePackedFields(t, v, i).Ok?
    decreases |t.fields| - i
  {
    if i < |t.fields| {
      FieldsPack(t, v, i + 1);
      FieldsStep(t, v, i);
    }
  }

  lemma FieldRoundTripsAt(t: AbiType, v: FieldValue, i: nat)
    requires t.Struct? && Decodable(t) && IsPackedValue(t, v) && i < |t.fields|
    ensures FieldRoundTrips(t, v, i)
    decreases t, 0, 0
  {
    var f := t.fields[i];
    assert f.name in FieldNames(t);
    var x := v.entries[f.name];
    assert IsPackedValue(f.fieldType, x);
    assert Decodable(f.fieldType) && (Truthy(f.fieldType.size) ==> Fixed(f.fieldType))
      && (!Truthy(f.fieldType.size) ==> i == |t.fields| - 1) by {
      DecodableField(t, i);
    }
    PackedRoundTrip(f.fieldType, x);
    if Truthy(f.fieldType.size) {
      FixedLength(f.fieldType, x);
    }
  }

  /** A field of a decodable struct is decodable, and fixed unless it is the last one without a size. */
  lemma DecodableField(t: AbiType, i: nat)
    requires t.Struct? && Decodable(t) && i < |t.fields|
    ensures Decodable(t.fields[i].fieldType)
    ensures Truthy(t.fields[i].fieldType.size) ==> Fixed(t.fields[i].fieldType)
    ensures !Truthy(t.fields[i].fieldType.size) ==> i == |t.fields| - 1
  {
    if Fixed(t) || i < |t.fields| - 1 {
      assert Fixed(t.fields[i].fieldType);
    }
  }

  /**
   * Field `j` packs to bytes that decode back to its value, and the decoder
   * gives it exactly those bytes: its size when it has one, and otherwise it
   * is the last field.
   */
  predicate FieldRoundTrips(t: AbiType, v: FieldValue, j: nat)
    requires t.Struct? && j < |t.fields|
  {
    var f := t.fields[j];
    && v.ObjVal? && f.name in v.entries
    && var e := EncodePacked(f.fieldType, v.entries[f.name]);
    && e.Ok?
    && Unpacked(f.fieldType, e.value) == Ok(v.entries[f.name])
    && (Truthy(f.fieldType.size) ==> |e.value| * 8 == f.fieldType.size.value)
    && (!Truthy(f.fieldType.size) ==> j == |t.fields| - 1)
  }

  /**
   * Field `i` decodes from the front of the suffix that holds the fields
   * from the `i`-th on, and the rest of the suffix holds the later fields.
   */
  lemma FieldDecodes(t: AbiType, v: FieldValue, b: Buffer, i: nat, index: nat)
    requires t.Struct? && v.ObjVal? && i < |t.fields| && index <= |b|
    requires FieldRoundTrips(t, v, i)
    requires EncodePackedFields(t, v, i).Ok? && b[index..] == EncodePackedFields(t, v, i).value
    ensures EncodePackedFields(t, v, i + 1).Ok?
    ensures index + SliceWidth(t.fields[i].fieldType, |b|, index) <= |b|
    ensures b[index + SliceWidth(t.fields[i].fieldType, |b|, index)..] == EncodePackedFields(t, v, i + 1).value
    ensures Unpacked(t.fields[i].fieldType, b[index..index + SliceWidth(t.fields[i].fieldType, |b|, index)])
      == Ok(v.entries[t.fields[i].name])
  {
    var f := t.fields[i];
    var x := v.entries[f.name];
    FieldSlice(t, v, b, i, index);
    assert Unpacked(f.fieldType, EncodePacked(f.fieldType, x).value) == Ok(x);
  }

  /**
   * The suffix holding the fields from the `i`-th on starts with field `i`'s
   * bytes, which are exactly the slice the decoder hands that field.
   */
  lemma FieldSlice(t: AbiType, v: FieldValue, b: Buffer, i: nat, index: nat)
    requires t.Struct? && v.ObjVal? && i < |t.fields| && index <= |b|
    requires t.fields[i].name in v.entries
    requires EncodePacked(t.fields[i].fieldType, v.entries[t.fields[i].name]).Ok?
    requires Truthy(t.fields[i].fieldType.size) ==>
      |EncodePacked(t.fields[i].fieldType, v.entries[t.fields[i].name]).value| * 8 == t.fields[i].fieldType.size.value
    requires !Truthy(t.fields[i].fieldType.size) ==> i == |t.fields| - 1
    requires EncodePackedFields(t, v, i).Ok? && b[index..] == EncodePackedFields(t, v, i).value
    ensures EncodePackedFields(t, v, i + 1).Ok?
    ensures index + SliceWidth(t.fields[i].fieldType, |b|, index) <= |b|
    ensures b[index..index + SliceWidth(t.fields[i].fieldType, |b|, index)]
      == EncodePacked(t.fields[i].fieldType, v.entries[t.fields[i].name]).value
    ensures b[index + SliceWidth(t.fields[i].fieldType, |b|, index)..] == EncodePackedFields(t, v, i + 1).value
  {
    var f := t.fields[i];
    var e := EncodePacked(f.fieldType, v.entries[f.name]).value;
    var rest := EncodePackedFields(t, v, i + 1);
    assert rest.Ok?;
    FieldsStep(t, v, i);
    SuffixSplit(b, index, e, rest.value);
    assert SliceWidth(f.fieldType, |b|, index) == |e| by {
      if !Truthy(f.fieldType.size) {
        assert rest == Ok([]);
      }
    }
  }

  lemma {:induction false} FieldsDecode(t: AbiType, v: FieldValue, b: Buffer, i: nat, index: nat, acc: map<string, FieldValue>)
    requires t.Struct? && v.ObjVal? && i <= |t.fields| && index <= |b|
    requires EncodePackedFields(t, v, i).Ok? && b[index..] == EncodePackedFields(t, v, i).value
    requires forall j :: i <= j < |t.fields| ==> FieldRoundTrips(t, v, j)
    requires forall k :: k in acc ==> k in v.entries && acc[k] == v.entries[k]
    ensures UnpackFields(t, b, i, index, acc).Ok?
    ensures forall k :: k in UnpackFields(t, b, i, index, acc).value ==>
      k in v.entries && UnpackFields(t, b, i, index, acc).value[k] == v.entries[k]
    decreases |t.fields| - i
  {
    if i < |t.fields| {
      var f := t.fields[i];
      assert FieldRoundTrips(t, v, i);
      var next := FieldsDecodeStep(t, v, b, i, index, acc);
      FieldsDecode(t, v, b, i + 1, next, acc[f.name := v.entries[f.name]]);
    }
  }

  /** One step of the field loop over packed fields: field `i` gets its own value back. */
  lemma FieldsDecodeStep(t: AbiType, v: FieldValue, b: Buffer, i: nat, index: nat, acc: map<string, FieldValue>)
    returns (next: nat)
    requires t.Struct? && v.ObjVal? && i < |t.fields| && index <= |b|
    requires FieldRoundTrips(t, v, i)
    requires EncodePackedFields(t, v, i).Ok? && b[index..] == EncodePackedFields(t, v, i).value
    ensures next <= |b| && EncodePackedFields(t, v, i + 1).Ok? && b[next..] == EncodePackedFields(t, v, i + 1).value
    ensures UnpackFields(t, b, i, index, acc)
      == UnpackFields(t, b, i + 1, next, acc[t.fields[i].name := v.entries[t.fields[i].name]])
  {
    FieldDecodes(t, v, b, i, index);
    next := index + SliceWidth(t.fields[i].fieldType, |b|, index);
    UnpackFieldsStep(t, b, i, index, acc, v.entries[t.fields[i].name]);
  }

  // A worked example

  /** One byte decodes as a `uint8` to its number. */
  lemma ByteDecodes(x: uint8)
    ensures Unpacked(Elementary(Uint, None, Some(8)), [x]) == Ok(NumVal(Finite(x as int)))
  {
    assert BigEndian([x]) == BigEndian([x][..0]) * 256 + x as int;
  }

  /** One step of decoding three bytes as a `uint8[3]`: byte `i` becomes the next number. */
  lemma ByteElementStep(b: Buffer, i: nat, acc: seq<FieldValue>)
    requires |b| == 3 && i < 3
    ensures UnpackElements(Array(Elementary(Uint, None, Some(8)), Some(3), None, None), b, Layout(3, 1), i, acc)
      == UnpackElements(Array(Elementary(Uint, None, Some(8)), Some(3), None, None), b, Layout(3, 1), i + 1, acc + [NumVal(Finite(b[i] as int))])
  {
    var t := Array(Elementary(Uint, None, Some(8)), Some(3), None, None);
    assert b[i..i + 1] == [b[i]];
    ByteDecodes(b[i]);
    UnpackElementsStep(t, b, 3, 1, i, acc, i, NumVal(Finite(b[i] as int)));
  }

  /** A size of 0 counts as no size: a bool declared with 0 bits still packs to one byte that decodes back. */
  lemma ZeroSizeBoolRoundTrip(dynamic: Option<bool>, b: bool)
    ensures EncodePacked(Elementary(Bool, dynamic, Some(0)), BoolVal(b)) == Ok([if b then 1 else 0])
    ensures Unpacked(Elementary(Bool, dynamic, Some(0)), [if b then 1 else 0]) == Ok(BoolVal(b))
  {
    BoolRoundTrip(Elementary(Bool, dynamic, Some(0)), BoolVal(b));
  }

  /** A struct without fields packs to no bytes, which decode to the empty map. */
  lemma EmptyStructRoundTrip(name: string, dynamic: Option<bool>, size: Option<nat>)
    requires !Truthy(size)
    ensures EncodePacked(Struct(name, [], dynamic, size), ObjVal(map[])) == Ok([])
    ensures Unpacked(Struct(name, [], dynamic, size), []) == Ok(ObjVal(map[]))
  {
    var t := Struct(name, [], dynamic, size);
    assert FieldNames(t) == {};
    PackedRoundTrip(t, ObjVal(map[]));
  }

  /** The bytes 1, 2, 3 decode as a `uint8[3]` to the numbers 1, 2, 3. */
  lemma SmallArrayDecodes()
    ensures Unpacked(Array(Elementary(Uint, None, Some(8)), Some(3), None, None), [1, 2, 3])
      == Ok(ListVal([NumVal(Finite(1)), NumVal(Finite(2)), NumVal(Finite(3))]))
  {
    var t := Array(Elementary(Uint, None, Some(8)), Some(3), None, None);
    var b: Buffer := [1, 2, 3];
    var layout := Layout(3, 1);
    var x1, x2, x3 := NumVal(Finite(1)), NumVal(Finite(2)), NumVal(Finite(3));
    ByteElementStep(b, 0, []);
    assert [] + [x1] == [x1];
    ByteElementStep(b, 1, [x1]);
    assert [x1] + [x2] == [x1, x2];
    ByteElementStep(b, 2, [x1, x2]);
    assert [x1, x2] + [x3] == [x1, x2, x3];
    assert UnpackElements(t, b, layout, 3, [x1, x2, x3]) == Ok([x1, x2, x3]);
    assert ArrayLayout(t, |b|) == Ok(layout);
    ArrayUnpacksWith(t, b, layout);
  }
}
