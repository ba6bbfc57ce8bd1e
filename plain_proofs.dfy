/**
 * Properties of the plain-object codec of src/abi/coder.ts: the shape of
 * what `encodeJson` and `decodeObject` build for structs, how struct fields
 * are read from a list or a map, and the round trip from typed values to
 * JSON values and back.
 */
module PlainProofs {
  import opened Wrappers
  import opened Primitives
  import opened Types
  import opened To
  import opened Coder

  // Struct keys

  /** The encoding fold adds exactly the names of the fields it visits. */
  lemma {:induction false} EncodeJsonFieldsKeys(t: AbiType, v: FieldValue, i: nat, acc: map<string, JsonValue>)
    requires t.Struct? && i <= |t.fields| && EncodeJsonFields(t, v, i, acc).Ok?
    ensures EncodeJsonFields(t, v, i, acc).value.Keys == acc.Keys + NamesFrom(t, i)
    decreases |t.fields| - i
  {
    if i < |t.fields| {
      var f := t.fields[i];
      var x := EncodeJson(f.fieldType, Member(v, f.name).value).value;
      EncodeJsonFieldsKeys(t, v, i + 1, acc[f.name := x]);
      assert NamesFrom(t, i) == {f.name} + NamesFrom(t, i + 1);
    }
  }

  /** `encodeJson` turns a struct into a map whose keys are exactly the field names. */
  lemma EncodedStructKeys(t: AbiType, v: FieldValue)
    requires t.Struct? && EncodeJson(t, v).Ok?
    ensures EncodeJson(t, v).value.ObjVal? && EncodeJson(t, v).value.entries.Keys == FieldNames(t)
  {
    EncodeJsonFieldsKeys(t, v, 0, map[]);
    assert NamesFrom(t, 0) == FieldNames(t);
  }

  /** The decoding fold adds exactly the names of the fields it visits. */
  lemma {:induction false} DecodeFieldsKeys(t: AbiType, v: FieldValue, i: nat, acc: map<string, FieldValue>)
    requires t.Struct? && i <= |t.fields| && DecodeFields(t, v, i, acc).Ok?
    ensures DecodeFields(t, v, i, acc).value.Keys == acc.Keys + NamesFrom(t, i)
    decreases |t.fields| - i
  {
    if i < |t.fields| {
      var f := t.fields[i];
      var x := DecodeObject(f.fieldType, FieldInput(t, v, i).value).value;
      DecodeFieldsKeys(t, v, i + 1, acc[f.name := x]);
      assert NamesFrom(t, i) == {f.name} + NamesFrom(t, i + 1);
    }
  }

  /** `decodeObject` turns a struct into a map whose keys are exactly the field names. */
  lemma DecodedStructKeys(t: AbiType, v: FieldValue)
    requires t.Struct? && DecodeObject(t, v).Ok?
    ensures DecodeObject(t, v).value.ObjVal? && DecodeObject(t, v).value.entries.Keys == FieldNames(t)
  {
    DecodeFieldsKeys(t, v, 0, map[]);
    assert NamesFrom(t, 0) == FieldNames(t);
  }

  // Reading struct fields by position or by name

  /** Field `j` of a decoded struct is the decoding of the input the field is read from. */
  predicate FieldDecoded(t: AbiType, v: FieldValue, j: nat, m: map<string, FieldValue>)
    requires t.Struct? && j < |t.fields|
  {
    && FieldInput(t, v, j).Ok?
    && t.fields[j].name in m
    && DecodeObject(t.fields[j].fieldType, FieldInput(t, v, j).value) == Ok(m[t.fields[j].name])
  }

  /** One step of the decoding fold: field `i` is decoded and added. */
  lemma DecodeFieldsStep(t: AbiType, v: FieldValue, i: nat, acc: map<string, FieldValue>)
    requires t.Struct? && i < |t.fields| && DecodeFields(t, v, i, acc).Ok?
    ensures FieldInput(t, v, i).Ok? && DecodeObject(t.fields[i].fieldType, FieldInput(t, v, i).value).Ok?
    ensures DecodeFields(t, v, i, acc) == DecodeFields(t, v, i + 1,
      acc[t.fields[i].name := DecodeObject(t.fields[i].fieldType, FieldInput(t, v, i).value).value])
  {
  }

  /** A key that no later field has keeps the value it has in the accumulator. */
  lemma {:induction false} DecodeLaterFieldsKeep(t: AbiType, v: FieldValue, i: nat, acc: map<string, FieldValue>, k: string)
    requires t.Struct? && i <= |t.fields| && DecodeFields(t, v, i, acc).Ok? && k in acc
    requires forall j :: i <= j < |t.fields| ==> t.fields[j].name != k
    ensures k in DecodeFields(t, v, i, acc).value && DecodeFields(t, v, i, acc).value[k] == acc[k]
    decreases |t.fields| - i
  {
    if i < |t.fields| {
      DecodeFieldsStep(t, v, i, acc);
      var x := DecodeObject(t.fields[i].fieldType, FieldInput(t, v, i).value).value;
      DecodeLaterFieldsKeep(t, v, i + 1, acc[t.fields[i].name := x], k);
    }
  }

  lemma {:induction false} DecodeFieldsValues(t: AbiType, v: FieldValue, i: nat, acc: map<string, FieldValue>, m: map<string, FieldValue>)
    requires t.Struct? && UniqueFieldNames(t) && i <= |t.fields|
    requires DecodeFields(t, v, i, acc) == Ok(m)
    ensures forall j :: i <= j < |t.fields| ==> FieldDecoded(t, v, j, m)
    decreases |t.fields| - i
  {
    if i < |t.fields| {
      var f := t.fields[i];
      DecodeFieldsStep(t, v, i, acc);
      var x := DecodeObject(f.fieldType, FieldInput(t, v, i).value).value;
      assert f.name in m && m[f.name] == x by {
        DecodeLaterFieldsKeep(t, v, i + 1, acc[f.name := x], f.name);
      }
      DecodeFieldsValues(t, v, i + 1, acc[f.name := x], m);
    }
  }

  /**
   * A struct decoded from a list takes field `j` from item `j`, or from
   * undefined when the list is shorter.
   */
  lemma DecodedStructByPosition(t: AbiType, items: seq<FieldValue>)
    requires t.Struct? && UniqueFieldNames(t) && DecodeObject(t, ListVal(items)).Ok?
    ensures DecodeObject(t, ListVal(items)).value.ObjVal?
    ensures forall j :: 0 <= j < |t.fields| ==>
      var x := if j < |items| then items[j] else Undefined;
      t.fields[j].name in DecodeObject(t, ListVal(items)).value.entries &&
      DecodeObject(t.fields[j].fieldType, x) == Ok(DecodeObject(t, ListVal(items)).value.entries[t.fields[j].name])
  {
    var m := DecodeFields(t, ListVal(items), 0, map[]).value;
    DecodeFieldsValues(t, ListVal(items), 0, map[], m);
    forall j | 0 <= j < |t.fields|
      ensures t.fields[j].name in m
      ensures DecodeObject(t.fields[j].fieldType, if j < |items| then items[j] else Undefined) == Ok(m[t.fields[j].name])
    {
      assert FieldDecoded(t, ListVal(items), j, m);
    }
  }

  /**
   * A struct decoded from a map takes each field from the entry of its name,
   * or from undefined when there is none.
   */
  lemma DecodedStructByName(t: AbiType, entries: map<string, FieldValue>)
    requires t.Struct? && UniqueFieldNames(t) && DecodeObject(t, ObjVal(entries)).Ok?
    ensures DecodeObject(t, ObjVal(entries)).value.ObjVal?
    ensures forall j :: 0 <= j < |t.fields| ==>
      var name := t.fields[j].name;
      var x := if name in entries then entries[name] else Undefined;
      name in DecodeObject(t, ObjVal(entries)).value.entries &&
      DecodeObject(t.fields[j].fieldType, x) == Ok(DecodeObject(t, ObjVal(entries)).value.entries[name])
  {
    var m := DecodeFields(t, ObjVal(entries), 0, map[]).value;
    DecodeFieldsValues(t, ObjVal(entries), 0, map[], m);
    forall j | 0 <= j < |t.fields|
      ensures t.fields[j].name in m
      ensures DecodeObject(t.fields[j].fieldType,
        if t.fields[j].name in entries then entries[t.fields[j].name] else Undefined) == Ok(m[t.fields[j].name])
    {
      assert FieldDecoded(t, ObjVal(entries), j, m);
    }
  }

  /**
   * A wide uint field that the input map does not have decodes to the BN 0,
   * because `toBn` reads undefined as 0.
   */
  lemma MissingWideUintIsZero(t: AbiType, entries: map<string, FieldValue>, j: nat)
    requires t.Struct? && UniqueFieldNames(t) && j < |t.fields|
    requires t.fields[j].fieldType.Elementary? && t.fields[j].fieldType.kind == Uint
    requires !NarrowUint(t.fields[j].fieldType) && t.fields[j].name !in entries
    requires DecodeObject(t, ObjVal(entries)).Ok?
    ensures DecodeObject(t, ObjVal(entries)).value.ObjVal?
    ensures t.fields[j].name in DecodeObject(t, ObjVal(entries)).value.entries
    ensures DecodeObject(t, ObjVal(entries)).value.entries[t.fields[j].name] == BigVal(0)
  {
    DecodedStructByName(t, entries);
    assert DecodeObject(t.fields[j].fieldType, Undefined) == Ok(BigVal(0));
  }

  // The round trip

  /**
   * The typed values `decodeJson` produces, which `encodeJson` therefore has
   * to reproduce: booleans; numbers for narrow uints and enums; non-negative
   * BNs for wider uints; `0x` text for addresses and bytes; lists; and maps
   * keyed by the (distinct) field names.
   */
  predicate IsPlainValue(t: AbiType, v: FieldValue)
    decreases t
  {
    match t
    case Elementary(kind, _, _) =>
      (match kind
       case Bool => v.BoolVal?
       case Uint => if NarrowUint(t) then v.NumVal? else v.BigVal? && v.big >= 0
       case _ => v.StrVal? && HasPrefix0x(v.s))
    case Enum(_, _, _, _) => v.NumVal?
    case Array(base, _, _, _) =>
      v.ListVal? && forall j :: 0 <= j < |v.items| ==> IsPlainValue(base, v.items[j])
    case Struct(_, fields, _, _) =>
      && v.ObjVal? && UniqueFieldNames(t) && v.entries.Keys == FieldNames(t)
      && forall j :: 0 <= j < |fields| ==> IsPlainValue(fields[j].fieldType, v.entries[fields[j].name])
  }

  /** An elementary value comes back from its JSON value unchanged. */
  lemma ElementaryJsonRoundTrip(t: AbiType, v: FieldValue)
    requires t.Elementary? && IsPlainValue(t, v)
    ensures EncodeJson(t, v).Ok? && DecodeJson(t, EncodeJson(t, v).value) == Ok(v)
  {
    if t.kind == Uint && !NarrowUint(t) {
      var s := EncodeJson(t, v).value.s;
      assert s == DecimalText(v.big);
      DigitsAreNotHex(s);
      DecimalRoundTrip(v.big);
    }
  }

  /** Decoding `encodeJson`'s output with `decodeJson` gives back the plain value. */
  lemma {:induction false} JsonRoundTrip(t: AbiType, v: FieldValue)
    requires IsPlainValue(t, v)
    ensures EncodeJson(t, v).Ok?
    ensures DecodeJson(t, EncodeJson(t, v).value) == Ok(v)
    decreases t, 2
  {
    match t
    case Elementary(_, _, _) =>
      ElementaryJsonRoundTrip(t, v);
    case Enum(_, _, _, _) =>
    case Array(_, _, _, _) =>
      ItemsJsonRoundTrip(t, v.items);
    case Struct(_, _, _, _) =>
      StructJsonRoundTrip(t, v);
  }

  lemma {:induction false} ItemsJsonRoundTrip(t: AbiType, items: seq<FieldValue>)
    requires t.Array? && IsPlainValue(t, ListVal(items))
    ensures EncodeJson(t, ListVal(items)).Ok?
    ensures DecodeJson(t, EncodeJson(t, ListVal(items)).value) == Ok(ListVal(items))
    decreases t, 1
  {
    forall j | 0 <= j < |items|
      ensures EncodeJson(t.baseType, items[j]).Ok?
      ensures DecodeObject(t.baseType, EncodeJson(t.baseType, items[j]).value) == Ok(items[j])
    {
      JsonRoundTrip(t.baseType, items[j]);
    }
    EncodeItemsOk(t, items, 0);
    var xs := EncodeJsonItems(t, items, 0).value;
    DecodeItemsBack(t, xs, items, 0);
    assert items[0..] == items;
  }

  /** Every element from the `i`-th on encodes, so the list does. */
  lemma {:induction false} EncodeItemsOk(t: AbiType, items: seq<FieldValue>, i: nat)
    requires t.Array? && i <= |items|
    requires forall j :: i <= j < |items| ==> EncodeJson(t.baseType, items[j]).Ok?
    ensures EncodeJsonItems(t, items, i).Ok?
    decreases |items| - i
  {
    if i < |items| {
      EncodeItemsOk(t, items, i + 1);
    }
  }

  /** Items that each decode to their counterpart decode, as a list, to the list of counterparts. */
  lemma {:induction false} DecodeItemsBack(t: AbiType, xs: seq<FieldValue>, items: seq<FieldValue>, i: nat)
    requires t.Array? && |xs| == |items| && i <= |items|
    requires forall j :: i <= j < |items| ==> DecodeObject(t.baseType, xs[j]) == Ok(items[j])
    ensures DecodeItems(t, xs, i) == Ok(items[i..])
    decreases |items| - i
  {
    if i < |items| {
      assert DecodeObject(t.baseType, xs[i]) == Ok(items[i]);
      DecodeItemsBack(t, xs, items, i + 1);
      assert DecodeItems(t, xs, i) == Ok([items[i]] + items[i + 1..]);
      assert items[i..] == [items[i]] + items[i + 1..];
    } else {
      assert DecodeItems(t, xs, i) == Ok([]);
    }
  }

  lemma {:induction false} StructJsonRoundTrip(t: AbiType, v: FieldValue)
    requires t.Struct? && IsPlainValue(t, v)
    ensures EncodeJson(t, v).Ok?
    ensures DecodeJson(t, EncodeJson(t, v).value) == Ok(v)
    decreases t, 1
  {
    FieldsJsonRoundTrip(t, v);
    EncodeFieldsOk(t, v, 0, map[]);
    var m := EncodeJsonFields(t, v, 0, map[]).value;
    EncodedFieldsDecode(t, v, m);
  }

  /** Every field's value comes back from its JSON value. */
  lemma {:induction false} FieldsJsonRoundTrip(t: AbiType, v: FieldValue)
    requires t.Struct? && IsPlainValue(t, v)
    ensures forall j :: 0 <= j < |t.fields| ==> FieldJsonRoundTrips(t, v, j)
    decreases t, 0
  {
    forall j | 0 <= j < |t.fields|
      ensures FieldJsonRoundTrips(t, v, j)
    {
      var f := t.fields[j];
      assert f.name in FieldNames(t);
      JsonRoundTrip(f.fieldType, v.entries[f.name]);
    }
  }

  /** The map of encoded fields decodes back to the struct value. */
  lemma EncodedFieldsDecode(t: AbiType, v: FieldValue, m: map<string, JsonValue>)
    requires t.Struct? && IsPlainValue(t, v)
    requires forall j :: 0 <= j < |t.fields| ==> FieldJsonRoundTrips(t, v, j)
    requires EncodeJsonFields(t, v, 0, map[]) == Ok(m)
    ensures DecodeObject(t, ObjVal(m)) == Ok(v)
  {
    EncodedFieldsInputs(t, v, m);
    DecodeFieldsBack(t, ObjVal(m), v, 0, map[]);
    var d := DecodeFields(t, ObjVal(m), 0, map[]).value;
    assert d.Keys == v.entries.Keys by {
      DecodeFieldsKeys(t, ObjVal(m), 0, map[]);
      assert NamesFrom(t, 0) == FieldNames(t);
    }
    assert d == v.entries;
  }

  /** Each field's entry in the encoded map decodes to the field's value. */
  lemma EncodedFieldsInputs(t: AbiType, v: FieldValue, m: map<string, JsonValue>)
    requires t.Struct? && v.ObjVal? && UniqueFieldNames(t)
    requires forall j :: 0 <= j < |t.fields| ==> FieldJsonRoundTrips(t, v, j)
    requires EncodeJsonFields(t, v, 0, map[]) == Ok(m)
    ensures forall j :: 0 <= j < |t.fields| ==>
      && t.fields[j].name in v.entries
      && FieldInput(t, ObjVal(m), j).Ok?
      && DecodeObject(t.fields[j].fieldType, FieldInput(t, ObjVal(m), j).value) == Ok(v.entries[t.fields[j].name])
  {
    EncodeJsonFieldsValues(t, v, 0, map[], m);
    forall j | 0 <= j < |t.fields|
      ensures t.fields[j].name in v.entries
      ensures FieldInput(t, ObjVal(m), j).Ok?
      ensures DecodeObject(t.fields[j].fieldType, FieldInput(t, ObjVal(m), j).value) == Ok(v.entries[t.fields[j].name])
    {
      assert FieldJsonRoundTrips(t, v, j);
    }
  }

  /** Field `j`'s value encodes, and its encoding decodes back to it. */
  predicate FieldJsonRoundTrips(t: AbiType, v: FieldValue, j: nat)
    requires t.Struct? && j < |t.fields|
  {
    var f := t.fields[j];
    && v.ObjVal? && f.name in v.entries
    && EncodeJson(f.fieldType, v.entries[f.name]).Ok?
    && DecodeObject(f.fieldType, EncodeJson(f.fieldType, v.entries[f.name]).value) == Ok(v.entries[f.name])
  }

  /** Every field from the `i`-th on encodes, so the fold does. */
  lemma {:induction false} EncodeFieldsOk(t: AbiType, v: FieldValue, i: nat, acc: map<string, JsonValue>)
    requires t.Struct? && i <= |t.fields|
    requires forall j :: i <= j < |t.fields| ==> FieldJsonRoundTrips(t, v, j)
    ensures EncodeJsonFields(t, v, i, acc).Ok?
    decreases |t.fields| - i
  {
    if i < |t.fields| {
      var f := t.fields[i];
      assert FieldJsonRoundTrips(t, v, i);
      EncodeFieldsOk(t, v, i + 1, acc[f.name := EncodeJson(f.fieldType, v.entries[f.name]).value]);
    }
  }

  /** A key that no later field has keeps the value it has in the accumulator. */
  lemma {:induction false} EncodeLaterFieldsKeep(t: AbiType, v: FieldValue, i: nat, acc: map<string, JsonValue>, k: string)
    requires t.Struct? && i <= |t.fields| && EncodeJsonFields(t, v, i, acc).Ok? && k in acc
    requires forall j :: i <= j < |t.fields| ==> t.fields[j].name != k
    ensures k in EncodeJsonFields(t, v, i, acc).value && EncodeJsonFields(t, v, i, acc).value[k] == acc[k]
    decreases |t.fields| - i
  {
    if i < |t.fields| {
      var f := t.fields[i];
      var x := EncodeJson(f.fieldType, Member(v, f.name).value).value;
      EncodeLaterFieldsKeep(t, v, i + 1, acc[f.name := x], k);
    }
  }

  /** In the encoded map, each field's name holds the encoding of that field's value. */
  lemma {:induction false} EncodeJsonFieldsValues(t: AbiType, v: FieldValue, i: nat, acc: map<string, JsonValue>, m: map<string, JsonValue>)
    requires t.Struct? && v.ObjVal? && UniqueFieldNames(t) && i <= |t.fields|
    requires EncodeJsonFields(t, v, i, acc) == Ok(m)
    ensures forall j :: i <= j < |t.fields| ==>
      t.fields[j].name in m && EncodeJson(t.fields[j].fieldType, Member(v, t.fields[j].name).value) == Ok(m[t.fields[j].name])
    decreases |t.fields| - i
  {
    if i < |t.fields| {
      var f := t.fields[i];
      var x := EncodeJson(f.fieldType, Member(v, f.name).value).value;
      assert f.name in m && m[f.name] == x by {
        EncodeLaterFieldsKeep(t, v, i + 1, acc[f.name := x], f.name);
      }
      EncodeJsonFieldsValues(t, v, i + 1, acc[f.name := x], m);
    }
  }

  /**
   * Fields whose inputs in `w` decode to `v`'s entries decode, as a fold,
   * to a map that agrees with `v`'s entries.
   */
  lemma {:induction false} DecodeFieldsBack(t: AbiType, w: FieldValue, v: FieldValue, i: nat, acc: map<string, FieldValue>)
    requires t.Struct? && v.ObjVal? && i <= |t.fields|
    requires forall j :: i <= j < |t.fields| ==>
      && t.fields[j].name in v.entries
      && FieldInput(t, w, j).Ok?
      && DecodeObject(t.fields[j].fieldType, FieldInput(t, w, j).value) == Ok(v.entries[t.fields[j].name])
    requires forall k :: k in acc ==> k in v.entries && acc[k] == v.entries[k]
    ensures DecodeFields(t, w, i, acc).Ok?
    ensures forall k :: k in DecodeFields(t, w, i, acc).value ==>
      k in v.entries && DecodeFields(t, w, i, acc).value[k] == v.entries[k]
    decreases |t.fields| - i
  {
    if i < |t.fields| {
      var f := t.fields[i];
      DecodeFieldsBack(t, w, v, i + 1, acc[f.name := v.entries[f.name]]);
    }
  }

  // The wide-uint finding

  /**
   * As written, `encodeJson` renders the 256-bit uint 16 as the hex digits
   * `10`, and `decodeJson` reads those digits back as the decimal 10.
   */
  lemma WideUintJsonRoundTripFails()
    ensures EncodeElementaryJsonAsWritten(Elementary(Uint, None, Some(256)), BigVal(16)) == Ok(StrVal("10"))
    ensures DecodeElementary(Elementary(Uint, None, Some(256)), StrVal("10")) == Ok(BigVal(10))
  {
    assert ToHex(BigVal(16)) == Ok("10") by {
      assert HexDigit(1) == '1' && HexDigit(0) == '0';
      assert HexText(1) == [HexDigit(1)];
      assert HexText(16) == HexText(1) + [HexDigit(0)];
      assert SignedHexText(16) == "10";
    }
    assert ToBn(StrVal("10")) == Ok(10) by {
      assert DecimalText(10) == "10" by {
        assert DecimalDigit(1) == '1' && DecimalDigit(0) == '0';
        assert DecimalText(10) == DecimalText(1) + [DecimalDigit(0)];
      }
      DecimalRoundTrip(10);
      DigitsAreNotHex("10");
    }
  }
}
