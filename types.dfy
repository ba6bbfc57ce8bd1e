/**
 * The ABI type descriptors and the value shapes of src/abi/types.ts.
 *
 * Optional properties of the TypeScript records (`size?`, `dynamic?`,
 * `length?`, `name?`, `components?`) are `Option`s. Sizes are in bits.
 */
module Types {
  import opened Wrappers
  import opened Primitives

  /** `BasicElementaryType`: the five elementary kinds. */
  datatype Kind = Bool | Byte | Bytes | Uint | Address

  /**
   * `AbiType`: exactly one of the four descriptor records, told apart in the
   * source by their `meta` tag. An enum's variant names are the record's
   * `fields` (here `variants`).
   */
  datatype AbiType =
    | Elementary(kind: Kind, dynamic: Option<bool>, size: Option<nat>)
    | Array(baseType: AbiType, length: Option<nat>, dynamic: Option<bool>, size: Option<nat>)
    | Enum(name: string, variants: seq<string>, dynamic: Option<bool>, size: Option<nat>)
    | Struct(name: string, fields: seq<StructField>, dynamic: Option<bool>, size: Option<nat>)
  {
    /** `def.dynamic` used as a condition: only an explicit `true` counts. */
    predicate IsDynamic() {
      dynamic == Some(true)
    }
  }

  /** `AbiStructField`: a named member of a struct. */
  datatype StructField = StructField(name: string, fieldType: AbiType)

  /** The names of a struct's fields. */
  function FieldNames(t: AbiType): set<string>
    requires t.Struct?
  {
    set i | 0 <= i < |t.fields| :: t.fields[i].name
  }

  /** No two fields of the struct share a name. */
  predicate UniqueFieldNames(t: AbiType)
    requires t.Struct?
  {
    forall i, j :: 0 <= i < j < |t.fields| ==> t.fields[i].name != t.fields[j].name
  }

  /** The `meta` tag of a descriptor. */
  function Meta(t: AbiType): (m: string)
    ensures m == "struct" <==> t.Struct?
    ensures m == "array" <==> t.Array?
    ensures m == "elementary" <==> t.Elementary?
    ensures m == "enum" <==> t.Enum?
  {
    match t
    case Elementary(_, _, _) => "elementary"
    case Array(_, _, _, _) => "array"
    case Enum(_, _, _, _) => "enum"
    case Struct(_, _, _, _) => "struct"
  }

  /** An optional number used as a condition (`if (abi.size)`): present and not zero. */
  predicate Truthy(o: Option<nat>) {
    o.Some? && o.value != 0
  }

  /** A JavaScript number: an integer here, or NaN. Fractions are not modelled. */
  datatype Number = Finite(i: int) | NaN

  /**
   * `FieldValue`: booleans, strings, numbers, Buffers and BNs, and lists and
   * string-keyed maps of field values; `Undefined` is what reading an absent
   * property yields.
   */
  datatype FieldValue =
    | BoolVal(b: bool)
    | StrVal(s: string)
    | NumVal(n: Number)
    | BufVal(buf: Buffer)
    | BigVal(big: int)
    | ListVal(items: seq<FieldValue>)
    | ObjVal(entries: map<string, FieldValue>)
    | Undefined

  /** The field values that are JSON values: no Buffer, BN or undefined anywhere. */
  predicate IsJson(v: FieldValue) {
    match v
    case BoolVal(_) => true
    case StrVal(_) => true
    case NumVal(_) => true
    case ListVal(items) => forall i :: 0 <= i < |items| ==> IsJson(items[i])
    case ObjVal(entries) => forall k :: k in entries ==> IsJson(entries[k])
    case _ => false
  }

  /** `JsonValue`: the same shape as `FieldValue` without Buffer and BN leaves. */
  type JsonValue = v: FieldValue | IsJson(v) witness BoolVal(false)

  /** `AbiJsonDef`: a type in the JSON dialect of the Solidity ABI. */
  datatype AbiJsonDef = AbiJsonDef(typeName: string, name: Option<string>, components: Option<seq<AbiJsonDef>>)

  /** The failures the codec throws. */
  datatype Error =
    | UnrecognizedType         // a value no coercion accepts
    | InvalidNumber            // text that bn.js cannot read as a number
    | ValueTooLarge            // a value longer than its fixed byte width
    | TypeMismatch             // a non-list for an array, or a property read on undefined
    | InvalidLength            // a packed buffer whose length differs from the declared size
    | UnsupportedStructLayout  // a struct that cannot be sliced from packed bytes
    | ShortBuffer              // a packed slice that runs past the end of the buffer
    | UnknownElementWidth      // a packed array whose element width cannot be determined

  /** `Boolean(value)`: JavaScript truthiness. */
  predicate JsTruthy(v: FieldValue) {
    match v
    case BoolVal(b) => b
    case NumVal(n) => n.Finite? && n.i != 0
    case StrVal(s) => s != ""
    case Undefined => false
    case _ => true
  }

  /**
   * `value[key]` for a key that is a field name: the entry of a map, or
   * undefined when it has none. Reading a property of undefined throws.
   */
  function Member(v: FieldValue, key: string): (r: Result<FieldValue, Error>)
    ensures r.Err? <==> v.Undefined?
    ensures v.ObjVal? && key in v.entries ==> r == Ok(v.entries[key])
    ensures !v.Undefined? && !(v.ObjVal? && key in v.entries) ==> r == Ok(Undefined)
  {
    match v
    case ObjVal(entries) => Ok(if key in entries then entries[key] else Undefined)
    case Undefined => Err(TypeMismatch)
    case _ => Ok(Undefined)
  }
}
