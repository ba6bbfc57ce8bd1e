/**
 * src/abi/helpers.ts: the bit width of a number, the translation of a
 * descriptor into the JSON dialect of the Solidity ABI, and the rule that
 * decides whether a struct can be sliced out of packed bytes.
 */
module Helpers {
  import opened Wrappers
  import opened Primitives
  import opened Types

  lemma {:induction false} Pow2Monotonic(i: nat, j: nat)
    requires i <= j
    ensures Pow2(i) <= Pow2(j)
    decreases j
  {
    if i < j {
      Pow2Monotonic(i, j - 1);
    }
  }

  /** `Math.ceil(Math.log2(n + 1))`: the number of bits `n` needs. */
  function BitLength(n: nat): (a: nat)
    ensures n < Pow2(a)
    ensures a == 0 || Pow2(a - 1) <= n
  {
    if n == 0 then 0 else 1 + BitLength(n / 2)
  }

  /** `bitsRequired`: the bit length of `n` rounded up to a whole number of bytes. */
  function BitsRequired(n: nat): (r: nat)
    ensures r % 8 == 0
    ensures BitLength(n) <= r < BitLength(n) + 8
    ensures n < Pow2(r)
  {
    var a := BitLength(n);
    var m := a % 8;
    var r := if m == 0 then a else a + 8 - m;
    Pow2Monotonic(a, r);
    r
  }

  /** No smaller whole number of bytes holds `n`. */
  lemma BitsRequiredIsLeast(n: nat, m: nat)
    requires m % 8 == 0 && n < Pow2(m)
    ensures BitsRequired(n) <= m
  {
    var a := BitLength(n);
    if a > m {
      Pow2Monotonic(m, a - 1);
      assert false;
    }
    WholeBytesBetween(BitsRequired(n), m, a);
  }

  /** A multiple of 8 below `a + 8` is at most any multiple of 8 that is at least `a`. */
  lemma WholeBytesBetween(r: nat, m: nat, a: nat)
    requires r % 8 == 0 && m % 8 == 0 && a <= m && r < a + 8
    ensures r <= m
  {
    assert r == 8 * (r / 8) && m == 8 * (m / 8);
  }

  // Type names

  /** `${n}` for an optional number: its decimal text, or `undefined`. */
  function OptionalNumberText(o: Option<nat>): string {
    if o.Some? then DecimalText(o.value) else "undefined"
  }

  /** Eighths as JavaScript prints the fraction of a number. */
  function EighthsText(r: nat): string
    requires r < 8
  {
    ["", ".125", ".25", ".375", ".5", ".625", ".75", ".875"][r]
  }

  /** `${size / 8}`: `NaN` without a size, and a fraction when the size is not a whole number of bytes. */
  function ByteCountText(o: Option<nat>): string {
    if o.None? then "NaN" else DecimalText(o.value / 8) + EighthsText(o.value % 8)
  }

  /** `name` is `base`, then `[`, text that reads as the number `n`, then `]`. */
  predicate NamesArrayOf(name: string, base: string, n: nat) {
    && |base| + 2 < |name| && name[..|base|] == base && name[|base|] == '[' && name[|name| - 1] == ']'
    && ParseDecimal(name[|base| + 1..|name| - 1]) == Some(n)
  }

  /**
   * `toTypeName`: the name of a descriptor in the ABI's JSON dialect. A
   * struct is a `tuple`; an array is its element's name followed by its
   * length in brackets, or by `[]` when the length is absent or 0.
   */
  function TypeName(t: AbiType): (r: string)
    ensures t.Struct? ==> r == "tuple"
    ensures t.Array? && !Truthy(t.length) ==> r == TypeName(t.baseType) + "[]"
    ensures t.Array? && Truthy(t.length) ==> NamesArrayOf(r, TypeName(t.baseType), t.length.value)
  {
    match t
    case Elementary(kind, _, size) =>
      (match kind
       case Uint => "uint" + OptionalNumberText(size)
       case Bool => "bool"
       case Byte => "byte"
       case Bytes => "bytes" + ByteCountText(size)
       case Address => "address")
    case Array(base, length, _, _) =>
      var digits := if Truthy(length) then DecimalText(length.value) else "";
      var r := TypeName(base) + "[" + digits + "]";
      assert r[..|TypeName(base)|] == TypeName(base) && r[|TypeName(base)| + 1..|r| - 1] == digits;
      if Truthy(length) then DecimalRoundTrip(length.value); r else r
    case Struct(_, _, _, _) => "tuple"
    case Enum(_, _, _, size) => "uint" + OptionalNumberText(size)
  }

  /**
   * No name is empty. A name ends in `]` exactly when it names an array, and
   * an array's name begins with its element's name.
   */
  lemma TypeNameShape(t: AbiType)
    ensures |TypeName(t)| > 0
    ensures t.Array? <==> TypeName(t)[|TypeName(t)| - 1] == ']'
    ensures t.Array? ==> |TypeName(t.baseType)| < |TypeName(t)| && TypeName(t)[..|TypeName(t.baseType)|] == TypeName(t.baseType)
  {
  }

  /** An enum is named as the uint of its size. */
  lemma EnumNamedAsUint(name: string, options: seq<string>, dynamic: Option<bool>, size: Option<nat>)
    ensures TypeName(Enum(name, options, dynamic, size)) == TypeName(Elementary(Uint, dynamic, size))
    ensures size.Some? ==> TypeName(Enum(name, options, dynamic, size)) == "uint" + DecimalText(size.value)
  {
  }

  /** A `bytes` of `8 * k` bits is named `bytes<k>`; one without a size is `bytesNaN`. */
  lemma BytesNamedByByteCount(dynamic: Option<bool>, k: nat)
    ensures TypeName(Elementary(Bytes, dynamic, Some(8 * k))) == "bytes" + DecimalText(k)
    ensures TypeName(Elementary(Bytes, dynamic, None)) == "bytesNaN"
  {
    assert (8 * k) / 8 == k && (8 * k) % 8 == 0;
  }

  predicate IsNumeral(s: string) {
    s != [] && AllDecimalDigits(s)
  }

  /**
   * The type names of the Solidity ABI's JSON form that this codec uses:
   * `uint<N>`, `bytes<N>`, `bool`, `byte`, `address`, `tuple`, and a name
   * followed by `[]` or `[<N>]`.
   */
  predicate IsCanonicalTypeName(s: string)
    decreases |s|
  {
    || s == "bool" || s == "byte" || s == "address" || s == "tuple"
    || (|s| > 4 && s[..4] == "uint" && IsNumeral(s[4..]))
    || (|s| > 5 && s[..5] == "bytes" && IsNumeral(s[5..]))
    || exists k :: 0 < k < |s| - 1 && s[k] == '[' && s[|s| - 1] == ']'
                   && (k + 1 == |s| - 1 || IsNumeral(s[k + 1..|s| - 1]))
                   && IsCanonicalTypeName(s[..k])
  }

  /** Every uint and enum carries a size, every `bytes` a whole number of bytes. */
  predicate Nameable(t: AbiType) {
    match t
    case Elementary(kind, _, size) =>
      (kind == Uint ==> size.Some?) && (kind == Bytes ==> size.Some? && size.value % 8 == 0)
    case Enum(_, _, _, size) => size.Some?
    case Array(base, _, _, _) => Nameable(base)
    case Struct(_, _, _, _) => true
  }

  /** A descriptor with its sizes in place gets a name of the ABI's JSON form. */
  lemma {:induction false} NameableTypesHaveCanonicalNames(t: AbiType)
    requires Nameable(t)
    ensures IsCanonicalTypeName(TypeName(t))
  {
    match t
    case Elementary(kind, _, size) =>
      if kind == Uint {
        var s := TypeName(t);
        assert s[..4] == "uint" && s[4..] == DecimalText(size.value);
      } else if kind == Bytes {
        var s := TypeName(t);
        assert EighthsText(size.value % 8) == "";
        assert s[..5] == "bytes" && s[5..] == DecimalText(size.value / 8);
      }
    case Enum(_, _, _, size) =>
      var s := TypeName(t);
      assert s[..4] == "uint" && s[4..] == DecimalText(size.value);
    case Array(base, length, _, _) =>
      NameableTypesHaveCanonicalNames(base);
      var d := if Truthy(length) then DecimalText(length.value) else "";
      assert TypeName(t) == TypeName(base) + "[" + d + "]";
      BracketedNameIsCanonical(TypeName(base), d);
    case Struct(_, _, _, _) =>
  }

  /** A name of the ABI's form followed by `[]` or by a numeral in brackets is one too. */
  lemma BracketedNameIsCanonical(b: string, d: string)
    requires IsCanonicalTypeName(b) && (d == "" || IsNumeral(d))
    ensures IsCanonicalTypeName(b + "[" + d + "]")
  {
    var s := b + "[" + d + "]";
    var k := |b|;
    assert s[..k] == b && s[k] == '[' && s[|s| - 1] == ']' && s[k + 1..|s| - 1] == d;
  }

  /** A uint without a size is named `uintundefined`, which is not an ABI type name. */
  lemma UnsizedUintName(dynamic: Option<bool>)
    ensures TypeName(Elementary(Uint, dynamic, None)) == "uintundefined"
    ensures !IsCanonicalTypeName("uintundefined")
  {
    var s := "uintundefined";
    assert s[4..][0] == 'u';
    assert s[..5] != "bytes" by {
      assert s[..5][0] == 'u';
    }
    assert s[|s| - 1] == 'd';
  }

  // JSON definitions

  /** `abiTypeToJson`: the JSON definition handed to the standard ABI coder. */
  function ToJson(t: AbiType): (r: AbiJsonDef)
    ensures r.typeName == TypeName(t)
    ensures t.Elementary? || t.Enum? ==> r.name.None? && r.components.None?
    ensures t.Array? ==> r.name == ToJson(t.baseType).name && r.components == ToJson(t.baseType).components
    ensures t.Struct? ==> r.name == Some(t.name) && r.components.Some? && |r.components.value| == |t.fields|
    ensures t.Struct? ==> forall i :: 0 <= i < |t.fields| ==>
      && r.components.value[i].typeName == TypeName(t.fields[i].fieldType)
      && r.components.value[i].name == Some(t.fields[i].name)
      && r.components.value[i].components == ToJson(t.fields[i].fieldType).components
    decreases t, 1
  {
    match t
    case Elementary(_, _, _) => AbiJsonDef(TypeName(t), None, None)
    case Enum(_, _, _, _) => AbiJsonDef(TypeName(t), None, None)
    case Array(base, _, _, _) => ToJson(base).(typeName := TypeName(t))
    case Struct(name, fields, _, _) => AbiJsonDef(TypeName(t), Some(name), Some(ComponentsJson(t, 0)))
  }

  /** The `components` of a struct from its `i`-th field on, each named after its field. */
  function ComponentsJson(t: AbiType, i: nat): (cs: seq<AbiJsonDef>)
    requires t.Struct? && i <= |t.fields|
    ensures |cs| == |t.fields| - i
    ensures forall j :: 0 <= j < |cs| ==> cs[j] == ToJson(t.fields[i + j].fieldType).(name := Some(t.fields[i + j].name))
    decreases t, 0, |t.fields| - i
  {
    if i == |t.fields| then []
    else
      var f := t.fields[i];
      var rest := ComponentsJson(t, i + 1);
      var cs := [ToJson(f.fieldType).(name := Some(f.name))] + rest;
      assert forall j :: 1 <= j < |cs| ==> cs[j] == rest[j - 1];
      cs
  }

  /** The element type under all the array layers of a descriptor. */
  function ElementType(t: AbiType): (e: AbiType)
    ensures !e.Array?
  {
    if t.Array? then ElementType(t.baseType) else t
  }

  /** Arrays, however deeply nested, carry their element's name and components. */
  lemma {:induction false} ArrayJsonKeepsElementShape(t: AbiType)
    ensures ToJson(t).name == ToJson(ElementType(t)).name
    ensures ToJson(t).components == ToJson(ElementType(t)).components
  {
    if t.Array? {
      ArrayJsonKeepsElementShape(t.baseType);
    }
  }

  // Packed layout legality

  /**
   * The packed-layout rule for a struct: a dynamic field may only come last,
   * and a dynamic last field must be allowed as a tail.
   */
  predicate PackedLegal(s: AbiType)
    requires s.Struct?
    decreases s, 0
  {
    forall i :: 0 <= i < |s.fields| && s.fields[i].fieldType.IsDynamic() ==>
      i == |s.fields| - 1 && TailAllowed(s.fields[i].fieldType)
  }

  /** A dynamic last field: an array of non-dynamic elements, a struct that obeys the rule, or anything else. */
  predicate TailAllowed(t: AbiType)
    decreases t, 1
  {
    match t
    case Array(base, _, _, _) => !base.IsDynamic()
    case Struct(_, _, _, _) => PackedLegal(t)
    case _ => true
  }

  /** `isStructAllowed`: the loop over the fields, with its early returns. */
  method IsStructAllowed(s: AbiType) returns (allowed: bool)
    requires s.Struct?
    ensures allowed == PackedLegal(s)
    decreases s
  {
    var len := |s.fields|;
    for i := 0 to len
      invariant forall j :: 0 <= j < i && s.fields[j].fieldType.IsDynamic() ==>
        j == len - 1 && TailAllowed(s.fields[j].fieldType)
    {
      var field := s.fields[i];
      if field.fieldType.IsDynamic() {
        if i != len - 1 {
          return false;
        }
        if field.fieldType.Array? && field.fieldType.baseType.IsDynamic() {
          return false;
        }
        if field.fieldType.Struct? {
          var nested := IsStructAllowed(field.fieldType);
          if !nested {
            return false;
          }
        }
      }
    }
    return true;
  }

  /** A dynamic field anywhere but last makes the struct illegal. */
  lemma EarlyDynamicFieldIsIllegal(s: AbiType, i: nat)
    requires s.Struct? && i < |s.fields| - 1 && s.fields[i].fieldType.IsDynamic()
    ensures !PackedLegal(s)
  {
  }

  /** A dynamic last field that is an array of dynamic elements makes the struct illegal. */
  lemma DynamicArrayOfDynamicTailIsIllegal(s: AbiType)
    requires s.Struct? && |s.fields| > 0
    requires var last := s.fields[|s.fields| - 1].fieldType;
      last.IsDynamic() && last.Array? && last.baseType.IsDynamic()
    ensures !PackedLegal(s)
  {
  }

  /** A dynamic last field that is a struct is legal exactly when that struct is. */
  lemma NestedStructTailDecides(s: AbiType)
    requires s.Struct? && |s.fields| > 0
    requires forall i :: 0 <= i < |s.fields| - 1 ==> !s.fields[i].fieldType.IsDynamic()
    requires var last := s.fields[|s.fields| - 1].fieldType; last.IsDynamic() && last.Struct?
    ensures PackedLegal(s) == PackedLegal(s.fields[|s.fields| - 1].fieldType)
  {
  }

  /** Non-dynamic fields never decide legality: structs that agree on their dynamic fields agree on it. */
  lemma StaticFieldsDoNotMatter(s: AbiType, s': AbiType)
    requires s.Struct? && s'.Struct? && |s.fields| == |s'.fields|
    requires forall i :: 0 <= i < |s.fields| ==>
      s.fields[i].fieldType.IsDynamic() == s'.fields[i].fieldType.IsDynamic()
    requires forall i :: 0 <= i < |s.fields| && s.fields[i].fieldType.IsDynamic() ==>
      s.fields[i].fieldType == s'.fields[i].fieldType
    ensures PackedLegal(s) == PackedLegal(s')
  {
  }

  /** A struct without dynamic fields is always legal. */
  lemma StaticStructIsLegal(s: AbiType)
    requires s.Struct?
    requires forall i :: 0 <= i < |s.fields| ==> !s.fields[i].fieldType.IsDynamic()
    ensures PackedLegal(s)
  {
  }
}
