/** The scalar coercions of src/lib/to.ts. */
module To {
  import opened Wrappers
  import opened Primitives
  import opened Types

  /** `isHex`: the text holds an `x` or a lower-case `a` to `f` somewhere. */
  function IsHex(s: string): (r: bool)
    ensures r <==> exists i :: 0 <= i < |s| && s[i] in "xabcdef"
  {
    if s == [] then false
    else if s[0] in "xabcdef" then true
    else
      var r := IsHex(s[1..]);
      assert forall i :: 1 <= i < |s| ==> s[i] == s[1..][i - 1];
      r
  }

  /** Text that only uses decimal digits is never taken for hex. */
  lemma DigitsAreNotHex(s: string)
    requires AllDecimalDigits(s)
    ensures !IsHex(s)
  {
  }

  /** `value.slice(0, 2) == '0x'`. */
  predicate HasPrefix0x(s: string) {
    |s| >= 2 && s[..2] == "0x"
  }

  /** The white space JavaScript trims and `/\s/` matches, as far as the model knows it: the six ASCII ones. */
  predicate IsSpace(c: char) {
    c == ' ' || c == '\t' || c == '\n' || c == '\r' || c as int == 11 || c as int == 12
  }

  /** Text with no white space in it. */
  predicate NoSpaces(s: string) {
    forall i :: 0 <= i < |s| ==> !IsSpace(s[i])
  }

  /** The text without its leading white space. */
  function TrimStart(s: string): (r: string)
    ensures |r| <= |s|
    ensures r != [] ==> !IsSpace(r[0])
    ensures s != [] && !IsSpace(s[0]) ==> r == s
  {
    if s != [] && IsSpace(s[0]) then TrimStart(s[1..]) else s
  }

  /** The text without its trailing white space. */
  function TrimEnd(s: string): (r: string)
    ensures |r| <= |s|
    ensures r != [] ==> !IsSpace(r[|r| - 1])
    ensures s != [] && !IsSpace(s[|s| - 1]) ==> r == s
  {
    if s != [] && IsSpace(s[|s| - 1]) then TrimEnd(s[..|s| - 1]) else s
  }

  /** `s.replace(/\s+/g, '')`: the text with all its white space removed. */
  function RemoveSpaces(s: string): (r: string)
    ensures |r| <= |s| && NoSpaces(r)
    ensures NoSpaces(s) ==> r == s
    ensures IsHex(r) == IsHex(s)
  {
    if s == [] then []
    else
      var rest := RemoveSpaces(s[1..]);
      assert s == [s[0]] + s[1..];
      if IsSpace(s[0]) then
        assert !(s[0] in "xabcdef");
        rest
      else
        var r := [s[0]] + rest;
        assert r[1..] == rest;
        r
  }

  /** An optional sign: whether it is `-`, and the text after it. */
  function SplitSign(t: string, plus: bool): (r: (bool, string))
    ensures t != [] && t[0] == '-' ==> r == (true, t[1..])
    ensures t != [] && plus && t[0] == '+' ==> r == (false, t[1..])
    ensures t == [] || (t[0] != '-' && (!plus || t[0] != '+')) ==> r == (false, t)
  {
    if t != [] && t[0] == '-' then (true, t[1..])
    else if t != [] && plus && t[0] == '+' then (false, t[1..])
    else (false, t)
  }

  /** Digits, with at most a sign in front, hold no white space. */
  lemma DigitsHaveNoSpaces(s: string)
    ensures AllHexDigits(s) || (s != [] && s[0] == '-' && AllDecimalDigits(s[1..])) ==> NoSpaces(s)
  {
    forall i | 0 <= i < |s| && (AllHexDigits(s) || (s != [] && s[0] == '-' && AllDecimalDigits(s[1..])))
      ensures !IsSpace(s[i])
    {
      if !AllHexDigits(s) && i > 0 {
        assert s[i] == s[1..][i - 1];
      }
    }
  }

  /** The longest run of hex digits after an optional `0x`/`0X`, as a number; NaN without one. */
  function LeadingHexNumber(u: string): (r: Number)
    ensures r.Finite? ==> r.i >= 0
    ensures u != [] && AllHexDigits(u) ==> r == Finite(HexValue(u))
    ensures |u| > 2 && HasPrefix0x(u) && AllHexDigits(u[2..]) ==> r == Finite(HexValue(u[2..]))
  {
    var body := if |u| >= 2 && u[0] == '0' && (u[1] == 'x' || u[1] == 'X') then u[2..] else u;
    var k := LeadingHexDigits(body);
    assert AllHexDigits(body) ==> k == |body| && body[..k] == body;
    if k == 0 then NaN else Finite(HexValue(body[..k]))
  }

  /**
   * `parseInt(s, 16)`: leading white space and one sign are skipped, then an
   * optional `0x`/`0X`, then the longest run of hex digits; NaN without one.
   */
  function ParseInt16(s: string): (r: Number)
    ensures s != [] && AllHexDigits(s) ==> r == Finite(HexValue(s))
    ensures |s| > 1 && s[0] == '-' && AllHexDigits(s[1..]) ==> r == Finite(0 - HexValue(s[1..]))
    ensures |s| > 2 && HasPrefix0x(s) && AllHexDigits(s[2..]) ==> r == Finite(HexValue(s[2..]))
  {
    assert s != [] && (IsHexDigit(s[0]) || s[0] == '-') ==> TrimStart(s) == s;
    var (neg, u) := SplitSign(TrimStart(s), true);
    var n := LeadingHexNumber(u);
    if neg && n.Finite? then Finite(0 - n.i) else n
  }

  /**
   * Unary plus on text: white space around it is trimmed; then nothing is 0,
   * `0x`/`0X`, `0b`/`0B` and `0o`/`0O` followed by digits of base 16, 2 or 8
   * are their number, and decimal digits after an optional sign are their
   * number; the rest is NaN.
   */
  function ParseNumber(s: string): (r: Number)
    ensures ParseDecimal(s).Some? ==> r == Finite(ParseDecimal(s).value)
    ensures s != [] && s[0] == '-' && ParseDecimal(s[1..]).Some? ==> r == Finite(0 - ParseDecimal(s[1..]).value)
    ensures |s| > 2 && s[0] == '0' && (s[1] == 'x' || s[1] == 'X') && AllHexDigits(s[2..]) ==> r == Finite(HexValue(s[2..]))
    ensures |s| > 2 && s[0] == '0' && (s[1] == 'b' || s[1] == 'B') && AllRadixDigits(s[2..], 2) ==> r == Finite(RadixValue(s[2..], 2))
    ensures |s| > 2 && s[0] == '0' && (s[1] == 'o' || s[1] == 'O') && AllRadixDigits(s[2..], 8) ==> r == Finite(RadixValue(s[2..], 8))
  {
    assert |s| > 2 ==> s[|s| - 1] == s[2..][|s| - 3];
    var t := TrimEnd(TrimStart(s));
    if t == "" then Finite(0)
    else if |t| >= 2 && t[0] == '0' && (t[1] == 'x' || t[1] == 'X') then
      if |t| > 2 && AllHexDigits(t[2..]) then Finite(HexValue(t[2..])) else NaN
    else if |t| >= 2 && t[0] == '0' && (t[1] == 'b' || t[1] == 'B' || t[1] == 'o' || t[1] == 'O') then
      var radix := if t[1] == 'b' || t[1] == 'B' then 2 else 8;
      if |t| > 2 && AllRadixDigits(t[2..], radix) then Finite(RadixValue(t[2..], radix)) else NaN
    else
      var (neg, digits) := SplitSign(t, true);
      match ParseDecimal(digits)
      case Some(n) => Finite(if neg then 0 - n else n)
      case None => NaN
  }

  /** The values every coercion below accepts: numbers, strings, Buffers and BNs. */
  predicate IsBufferLike(v: FieldValue) {
    v.NumVal? || v.StrVal? || v.BufVal? || v.BigVal?
  }

  /**
   * bn.js reading text in base 16 or 10: white space is removed, a leading
   * `-` negates, and the rest must be digits of the base.
   */
  function ReadBnText(s: string, hex: bool): (r: Result<int, Error>)
    ensures r.Err? ==> r.error == InvalidNumber
    ensures hex && s != [] && AllHexDigits(s) ==> r == Ok(HexValue(s))
    ensures !hex && ParseDecimal(s).Some? ==> r == Ok(ParseDecimal(s).value)
    ensures !hex && s != [] && s[0] == '-' && ParseDecimal(s[1..]).Some? ==> r == Ok(0 - ParseDecimal(s[1..]).value)
  {
    DigitsHaveNoSpaces(s);
    var (neg, digits) := SplitSign(RemoveSpaces(s), false);
    if digits == [] then Err(InvalidNumber)
    else if hex then
      if AllHexDigits(digits) then Ok(if neg then 0 - HexValue(digits) else HexValue(digits))
      else Err(InvalidNumber)
    else
      match ParseDecimal(digits)
      case Some(n) => Ok(if neg then 0 - n else n)
      case None => Err(InvalidNumber)
  }

  /** White space anywhere in the text does not change what bn.js reads. */
  lemma SpacesAreIgnored(s: string, hex: bool)
    ensures ReadBnText(s, hex) == ReadBnText(RemoveSpaces(s), hex)
  {
    assert RemoveSpaces(RemoveSpaces(s)) == RemoveSpaces(s);
  }

  /** The numbers bn.js takes from a JavaScript number: those of magnitude below 2^53. */
  predicate SafeInteger(i: int) {
    -0x20_0000_0000_0000 < i < 0x20_0000_0000_0000
  }

  /**
   * `toBn`: `new BN(value || 0, base)`, with base 16 for text that `isHex`
   * accepts. Falsy input is 0; a number, hex or decimal text, a Buffer or a
   * BN is its number.
   */
  function ToBn(v: FieldValue): (r: Result<int, Error>)
    ensures !JsTruthy(v) ==> r == Ok(0)
    ensures v.NumVal? && v.n.Finite? ==> (r.Ok? <==> SafeInteger(v.n.i)) && (r.Ok? ==> r.value == v.n.i)
    ensures v.BigVal? ==> r == Ok(v.big)
    ensures v.BufVal? ==> r == Ok(BigEndian(v.buf))
    ensures v.StrVal? && !IsHex(v.s) && ParseDecimal(v.s).Some? ==> r == Ok(ParseDecimal(v.s).value)
    ensures v.StrVal? && v.s != [] ==> r == ReadBnText(v.s, IsHex(v.s))
    ensures v == BoolVal(true) ==> r == Err(InvalidNumber)
    ensures v.ListVal? || v.ObjVal? ==> r == Err(UnrecognizedType)
    ensures r.Err? ==> r.error in {InvalidNumber, UnrecognizedType}
  {
    match v
    case NumVal(Finite(i)) => if SafeInteger(i) then Ok(i) else Err(InvalidNumber)
    case NumVal(NaN) => Ok(0)
    case StrVal(s) => if s == "" then Ok(0) else ReadBnText(s, IsHex(s))
    case BufVal(b) => Ok(BigEndian(b))
    case BigVal(i) => Ok(i)
    case BoolVal(b) => if b then Err(InvalidNumber) else Ok(0)
    case Undefined => Ok(0)
    case _ => Err(UnrecognizedType)
  }

  /** `toInt`: a number from a number, a hex or decimal string, a Buffer or a BN. */
  function ToInt(v: FieldValue): (r: Result<Number, Error>)
    ensures r.Err? <==> !IsBufferLike(v)
    ensures r.Err? ==> r.error == UnrecognizedType
    ensures v.NumVal? ==> r == Ok(v.n)
    ensures v.BufVal? ==> r == Ok(Finite(BigEndian(v.buf)))
    ensures v.BigVal? ==> r == Ok(Finite(v.big))
    ensures v.StrVal? && IsHex(v.s) ==> r == Ok(ParseInt16(v.s))
    ensures v.StrVal? && !IsHex(v.s) ==> r == Ok(ParseNumber(v.s))
  {
    match v
    case NumVal(n) => Ok(n)
    case StrVal(s) => Ok(if IsHex(s) then ParseInt16(s) else ParseNumber(s))
    case BufVal(b) => Ok(Finite(BigEndian(b)))
    case BigVal(i) => Ok(Finite(i))
    case _ => Err(UnrecognizedType)
  }

  /** `toHex`: hex text; only a string that already starts with `0x` keeps a prefix. */
  function ToHex(v: FieldValue): (r: Result<string, Error>)
    ensures r.Err? <==> !IsBufferLike(v)
    ensures r.Err? ==> r.error == UnrecognizedType
    ensures v.StrVal? && HasPrefix0x(v.s) ==> r == Ok(v.s)
    ensures v.BufVal? ==> r == Ok(BufferToHex(v.buf))
    ensures v.NumVal? || v.BigVal? ==> r.Ok? && !HasPrefix0x(r.value)
  {
    match v
    case NumVal(Finite(i)) => NotPrefixed(i); Ok(SignedHexText(i))
    case NumVal(NaN) => assert "NaN"[..2] == "Na"; Ok("NaN")
    case StrVal(s) =>
      if HasPrefix0x(s) then Ok(s)
      else
        (match ParseNumber(s)
         case Finite(i) => Ok(SignedHexText(i))
         case NaN => assert "NaN"[..2] == "Na"; Ok("NaN"))
    case BufVal(b) => Ok(BufferToHex(b))
    case BigVal(i) => NotPrefixed(i); Ok(SignedHexText(i))
    case _ => Err(UnrecognizedType)
  }

  /** Upper-case `0X` text is no hex to `isHex`, which looks for a lower-case `x`, so `toInt` hands it to unary plus. */
  lemma UpperCasePrefixIsNumber()
    ensures ToInt(StrVal("0X1F")) == Ok(Finite(31))
  {
    UpperCaseTextIsNotHex();
    UpperCasePrefixIsRead();
  }

  lemma UpperCaseTextIsNotHex()
    ensures !IsHex("0X1F")
  {
    assert !IsHex("F") by { assert "F"[1..] == []; }
    assert !IsHex("1F") by { assert "1F"[1..] == "F"; }
    assert !IsHex("X1F") by { assert "X1F"[1..] == "1F"; }
    assert !IsHex("0X1F") by { assert "0X1F"[1..] == "X1F"; }
  }

  /** Unary plus reads upper-case `0X` text, which `toHex` hands to it because it lacks the lower-case `0x` prefix. */
  lemma UpperCasePrefixIsRead()
    ensures ParseNumber("0X1F") == Finite(31)
    ensures ToHex(StrVal("0X1F")) == Ok("1f")
  {
    assert "0X1F"[2..] == "1F" && "1F"[..1] == "1" && "1F"[..1][..0] == [];
    assert AllHexDigits("1F") && HexValue("1F") == 31;
    assert !HasPrefix0x("0X1F") by { assert "0X1F"[..2][1] == 'X'; }
    assert HexText(31) == "1f" by { assert HexText(1) == "1"; }
  }

  /** Unary plus reads binary `0b` text, which `toHex` hands to it because it lacks the `0x` prefix. */
  lemma BinaryPrefixIsRead()
    ensures ToHex(StrVal("0b11")) == Ok("3")
  {
    assert "0b11"[2..] == "11" && "11"[..1] == "1" && "11"[..1][..0] == [];
    assert AllRadixDigits("11", 2) && RadixValue("11", 2) == 3;
    assert !HasPrefix0x("0b11") by { assert "0b11"[..2][1] == 'b'; }
  }

  lemma NotPrefixed(i: int)
    ensures !HasPrefix0x(SignedHexText(i))
  {
    var s := SignedHexText(i);
    if |s| >= 2 {
      if i >= 0 {
        assert IsLowerHexDigit(s[1]) && s[..2][1] == s[1];
      } else {
        assert s[..2][0] == '-';
      }
    }
  }

  /** ethereumjs-util's `isHexString`: `0x` followed by hex digits only. */
  predicate IsHexString(s: string) {
    HasPrefix0x(s) && AllHexDigits(s[2..])
  }

  /** A `0` in front of hex text of odd length. */
  function PadToEven(h: string): (r: string)
    ensures |r| % 2 == 0
    ensures AllHexDigits(h) ==> AllHexDigits(r)
    ensures |h| % 2 == 0 ==> r == h
  {
    if |h| % 2 == 1 then "0" + h else h
  }

  /**
   * ethereumjs-util's `toBuffer`: a Buffer as it is, `0x` hex text as its
   * bytes, a number or BN as its shortest big-endian bytes, undefined as the
   * empty buffer. Other text, negative or NaN numbers, booleans, lists and
   * maps are refused.
   */
  function ToBuffer(v: FieldValue): (r: Result<Buffer, Error>)
    ensures v.BufVal? ==> r == Ok(v.buf)
    ensures v.NumVal? && v.n.Finite? && v.n.i >= 0 ==> r == Ok(MinimalBytes(v.n.i))
    ensures v.BigVal? && v.big >= 0 ==> r == Ok(MinimalBytes(v.big))
    ensures v.StrVal? && IsHexString(v.s) && |v.s| % 2 == 0 ==> r == Ok(HexToBytes(v.s[2..]))
    ensures v.Undefined? ==> r == Ok([])
  {
    match v
    case BufVal(b) => Ok(b)
    case StrVal(s) => if IsHexString(s) then Ok(HexToBytes(PadToEven(s[2..]))) else Err(UnrecognizedType)
    case NumVal(Finite(i)) => if i >= 0 then Ok(MinimalBytes(i)) else Err(UnrecognizedType)
    case BigVal(i) => Ok(MinimalBytes(if i < 0 then -i else i))
    case Undefined => Ok([])
    case _ => Err(UnrecognizedType)
  }

  /**
   * `toBuf`: the value's bytes, and with a length, those bytes brought to
   * exactly that many; too large when even without leading zeros they are
   * longer than the length.
   */
  function ToBuf(v: FieldValue, length: Option<nat>): (r: Result<Buffer, Error>)
    ensures !Truthy(length) ==> r == ToBuffer(v)
    ensures ToBuffer(v).Err? ==> r == ToBuffer(v)
    ensures Truthy(length) && ToBuffer(v).Ok? ==>
      (r.Err? <==> |Unpad(ToBuffer(v).value)| > length.value)
    ensures Truthy(length) && r.Ok? ==>
      |r.value| == length.value && BigEndian(r.value) == BigEndian(ToBuffer(v).value)
    ensures r.Err? ==> r.error == ValueTooLarge || r == ToBuffer(v)
  {
    var buf :- ToBuffer(v);
    if Truthy(length) then
      if |buf| > length.value && |Unpad(buf)| > length.value then Err(ValueTooLarge)
      else
        SetLengthKeepsValue(buf, length.value);
        Ok(SetLength(buf, length.value))
    else Ok(buf)
  }

  /** `toNonPrefixed`: the text without a leading `0x`, if it has one. */
  function ToNonPrefixed(s: string): (r: string)
    ensures HasPrefix0x(s) ==> "0x" + r == s
    ensures !HasPrefix0x(s) ==> r == s
  {
    if HasPrefix0x(s) then s[2..] else s
  }

  /** `toBool`: a boolean as it is; anything else is `Boolean(toInt(input))`. */
  function ToBool(v: FieldValue): (r: Result<bool, Error>)
    ensures v.BoolVal? ==> r == Ok(v.b)
    ensures !v.BoolVal? ==> (r.Err? <==> ToInt(v).Err?)
    ensures !v.BoolVal? && ToInt(v).Ok? ==> r == Ok(JsTruthy(NumVal(ToInt(v).value)))
  {
    if v.BoolVal? then Ok(v.b)
    else
      var n :- ToInt(v);
      Ok(n.Finite? && n.i != 0)
  }

  /** The hex text of a non-empty Buffer reads back, through `toInt`, as the Buffer's number. */
  lemma BufferHexReadsBack(b: Buffer)
    requires b != []
    ensures ToInt(StrVal(ToHex(BufVal(b)).value)) == Ok(Finite(BigEndian(b)))
  {
    var s := BufferToHex(b);
    assert s[1] == 'x';
    assert s[2..] == ByteHex(b);
    assert ToInt(StrVal(s)) == Ok(ParseInt16(s));
    ByteHexValue(b);
  }

  /** The hex text of the empty Buffer is `0x`, which `toInt` reads as NaN. */
  lemma EmptyBufferHexIsNaN()
    ensures ToInt(StrVal(ToHex(BufVal([])).value)) == Ok(NaN)
  {
    assert BufferToHex([]) == "0x";
    assert IsHex("0x") by {
      assert "0x"[1] == 'x';
    }
    assert TrimStart("0x") == "0x";
    assert LeadingHexNumber("0x") == NaN by {
      assert "0x"[2..] == [];
    }
  }
}
