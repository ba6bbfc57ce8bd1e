/**
 * Byte buffers, digits and number text.
 *
 * The coercions of src/lib/to.ts call into ethereumjs-util (toBuffer,
 * setLength, unpad, bufferToInt, bufferToHex), into bn.js and into
 * JavaScript's own number formatting and parsing. That code is not part of
 * this model: the functions below are small definitions with the behaviour
 * the coercions rely on, and the lemmas state that behaviour.
 */
module Primitives {
  import opened Wrappers

  type uint8 = b: int | 0 <= b < 256

  /** A Node.js Buffer. */
  type Buffer = seq<uint8>

  function Pow256(k: nat): (p: nat)
    ensures p >= 1
  {
    if k == 0 then 1 else 256 * Pow256(k - 1)
  }

  function Pow2(k: nat): (p: nat)
    ensures p >= 1
  {
    if k == 0 then 1 else 2 * Pow2(k - 1)
  }

  /** The unsigned big-endian number a buffer holds (bufferToInt, `new BN(buffer)`). */
  function BigEndian(b: Buffer): (n: nat)
    ensures n < Pow256(|b|)
  {
    if b == [] then 0
    else
      var n := BigEndian(b[..|b| - 1]);
      assert n * 256 <= (Pow256(|b| - 1) - 1) * 256;
      n * 256 + b[|b| - 1]
  }

  function Zeros(k: nat): (z: Buffer)
    ensures |z| == k && forall i :: 0 <= i < k ==> z[i] == 0
  {
    seq(k, _ => 0)
  }

  lemma {:induction false} ZerosValue(k: nat)
    ensures BigEndian(Zeros(k)) == 0
  {
    if k > 0 {
      assert Zeros(k)[..k - 1] == Zeros(k - 1);
      ZerosValue(k - 1);
    }
  }

  /** Leading zero bytes do not change the number a buffer holds. */
  lemma {:induction false} LeadingZerosKeepValue(k: nat, b: Buffer)
    ensures BigEndian(Zeros(k) + b) == BigEndian(b)
    decreases |b|
  {
    if b == [] {
      assert Zeros(k) + b == Zeros(k);
      ZerosValue(k);
    } else {
      var z := Zeros(k) + b;
      assert z[..|z| - 1] == Zeros(k) + b[..|b| - 1];
      LeadingZerosKeepValue(k, b[..|b| - 1]);
    }
  }

  /**
   * The shortest big-endian encoding of `n`, and one zero byte for zero:
   * what ethereumjs-util's toBuffer makes of a number and bn.js of a BN.
   */
  function MinimalBytes(n: nat): (b: Buffer)
    ensures |b| >= 1 && BigEndian(b) == n
    ensures |b| > 1 ==> b[0] != 0
  {
    if n < 256 then [n]
    else
      var b := MinimalBytes(n / 256) + [n % 256];
      assert b[..|b| - 1] == MinimalBytes(n / 256);
      b
  }

  /** A number below 256^k needs at most k bytes. */
  lemma {:induction false} MinimalBytesFit(n: nat, k: nat)
    requires k >= 1 && n < Pow256(k)
    ensures |MinimalBytes(n)| <= k
  {
    if n >= 256 {
      assert k >= 2;
      assert n / 256 < Pow256(k - 1);
      MinimalBytesFit(n / 256, k - 1);
    }
  }

  /** The number of zero bytes at the front of a buffer. */
  function LeadingZeros(b: Buffer): (k: nat)
    ensures k <= |b|
  {
    if b != [] && b[0] == 0 then 1 + LeadingZeros(b[1..]) else 0
  }

  lemma {:induction false} LeadingZerosAreZero(b: Buffer)
    ensures forall i :: 0 <= i < LeadingZeros(b) ==> b[i] == 0
    ensures LeadingZeros(b) < |b| ==> b[LeadingZeros(b)] != 0
  {
    if b != [] && b[0] == 0 {
      LeadingZerosAreZero(b[1..]);
      assert forall i :: 1 <= i < |b| ==> b[i] == b[1..][i - 1];
    }
  }

  /** ethereumjs-util's unpad on a buffer: the buffer without its leading zero bytes. */
  function Unpad(b: Buffer): (r: Buffer)
    ensures |r| <= |b|
  {
    b[LeadingZeros(b)..]
  }

  /**
   * ethereumjs-util's setLength (left-padding form): zero bytes in front of a
   * short buffer, or the last `len` bytes of a long one.
   */
  function SetLength(b: Buffer, len: nat): (r: Buffer)
    ensures |r| == len
  {
    if |b| < len then Zeros(len - |b|) + b else b[|b| - len..]
  }

  /** When the buffer without leading zeros fits, setLength keeps its number. */
  lemma {:induction false} SetLengthKeepsValue(b: Buffer, len: nat)
    requires |Unpad(b)| <= len
    ensures BigEndian(SetLength(b, len)) == BigEndian(b)
  {
    if |b| < len {
      LeadingZerosKeepValue(len - |b|, b);
    } else {
      var k := |b| - len;
      LeadingZerosAreZero(b);
      var z := Zeros(k) + b[k..];
      assert |z| == |b|;
      forall i | 0 <= i < |b|
        ensures z[i] == b[i]
      {
        if i < k {
          assert b[i] == 0;
        }
      }
      assert b == z;
      LeadingZerosKeepValue(k, b[k..]);
    }
  }

  // Digits

  predicate IsDecimalDigit(c: char) {
    '0' <= c <= '9'
  }

  predicate IsHexDigit(c: char) {
    '0' <= c <= '9' || 'a' <= c <= 'f' || 'A' <= c <= 'F'
  }

  predicate IsLowerHexDigit(c: char) {
    '0' <= c <= '9' || 'a' <= c <= 'f'
  }

  predicate AllDecimalDigits(s: string) {
    forall i :: 0 <= i < |s| ==> IsDecimalDigit(s[i])
  }

  predicate AllHexDigits(s: string) {
    forall i :: 0 <= i < |s| ==> IsHexDigit(s[i])
  }

  predicate AllLowerHexDigits(s: string) {
    forall i :: 0 <= i < |s| ==> IsLowerHexDigit(s[i])
  }

  function HexDigitValue(c: char): (d: nat)
    requires IsHexDigit(c)
    ensures d < 16
  {
    if '0' <= c <= '9' then c as int - '0' as int
    else if 'a' <= c <= 'f' then c as int - 'a' as int + 10
    else c as int - 'A' as int + 10
  }

  function HexDigit(d: nat): (c: char)
    requires d < 16
    ensures IsLowerHexDigit(c) && HexDigitValue(c) == d
  {
    if d < 10 then ('0' as int + d) as char else ('a' as int + d - 10) as char
  }

  function DecimalDigit(d: nat): (c: char)
    requires d < 10
    ensures IsDecimalDigit(c) && c as int - '0' as int == d
  {
    ('0' as int + d) as char
  }

  // Decimal text

  /** A number in base 10, as `${n}` and BN's toString(10) render it. */
  function DecimalText(n: nat): (s: string)
    ensures |s| >= 1 && AllDecimalDigits(s)
  {
    if n < 10 then [DecimalDigit(n)] else DecimalText(n / 10) + [DecimalDigit(n % 10)]
  }

  function DecimalValue(s: string): nat
    requires AllDecimalDigits(s)
  {
    if s == [] then 0 else DecimalValue(s[..|s| - 1]) * 10 + (s[|s| - 1] as int - '0' as int)
  }

  /** A string of decimal digits read as a number; anything else has no value. */
  function ParseDecimal(s: string): (r: Option<nat>)
    ensures r.Some? <==> s != [] && AllDecimalDigits(s)
  {
    if s != [] && AllDecimalDigits(s) then Some(DecimalValue(s)) else None
  }

  lemma {:induction false} DecimalTextValue(n: nat)
    ensures DecimalValue(DecimalText(n)) == n
  {
    if n >= 10 {
      var s := DecimalText(n);
      assert s[..|s| - 1] == DecimalText(n / 10);
      DecimalTextValue(n / 10);
    }
  }

  /** Reading back the decimal text of a number gives the number. */
  lemma DecimalRoundTrip(n: nat)
    ensures ParseDecimal(DecimalText(n)) == Some(n)
  {
    DecimalTextValue(n);
  }

  // Hexadecimal text

  /** A number in base 16 without prefix, as Number's and BN's toString(16) render it. */
  function HexText(n: nat): (s: string)
    ensures |s| >= 1 && AllLowerHexDigits(s)
  {
    if n < 16 then [HexDigit(n)] else HexText(n / 16) + [HexDigit(n % 16)]
  }

  /** A JavaScript number or BN in base 16: a minus sign, then the magnitude. */
  function SignedHexText(i: int): string {
    if i < 0 then "-" + HexText(-i) else HexText(i)
  }

  function HexValue(s: string): nat
    requires AllHexDigits(s)
  {
    if s == [] then 0 else HexValue(s[..|s| - 1]) * 16 + HexDigitValue(s[|s| - 1])
  }

  /** Digits of base `radix` (up to 16), in either case. */
  predicate AllRadixDigits(s: string, radix: nat) {
    forall i :: 0 <= i < |s| ==> IsHexDigit(s[i]) && HexDigitValue(s[i]) < radix
  }

  /** The number that digits of base `radix` denote, most significant first. */
  function RadixValue(s: string, radix: nat): nat
    requires AllRadixDigits(s, radix)
  {
    if s == [] then 0 else RadixValue(s[..|s| - 1], radix) * radix + HexDigitValue(s[|s| - 1])
  }

  /** Two lower-case hex digits per byte, most significant nibble first. */
  function ByteHex(b: Buffer): (s: string)
    ensures |s| == 2 * |b| && AllLowerHexDigits(s)
  {
    if b == [] then "" else [HexDigit(b[0] / 16), HexDigit(b[0] % 16)] + ByteHex(b[1..])
  }

  /** ethereumjs-util's bufferToHex. */
  function BufferToHex(b: Buffer): (s: string)
    ensures |s| == 2 + 2 * |b| && s[..2] == "0x" && AllLowerHexDigits(s[2..])
  {
    "0x" + ByteHex(b)
  }

  /** Pairs of hex digits read as bytes (Buffer.from(h, 'hex') on well-formed text). */
  function HexToBytes(h: string): (b: Buffer)
    requires |h| % 2 == 0 && AllHexDigits(h)
    ensures |b| == |h| / 2
  {
    if h == [] then [] else [HexDigitValue(h[0]) * 16 + HexDigitValue(h[1])] + HexToBytes(h[2..])
  }

  /** Lower-case hex text of even length survives a trip through bytes. */
  lemma {:induction false} HexToBytesRoundTrip(h: string)
    requires |h| % 2 == 0 && AllLowerHexDigits(h)
    ensures ByteHex(HexToBytes(h)) == h
    decreases |h|
  {
    if h != [] {
      var hi, lo := HexDigitValue(h[0]), HexDigitValue(h[1]);
      var x := hi * 16 + lo;
      assert x / 16 == hi && x % 16 == lo by {
        DigitPair(hi, lo);
      }
      assert HexDigit(hi) == h[0] && HexDigit(lo) == h[1] by {
        LowerHexDigitValue(h[0]);
        LowerHexDigitValue(h[1]);
      }
      var b := HexToBytes(h);
      assert b[0] == x && b[1..] == HexToBytes(h[2..]);
      HexToBytesRoundTrip(h[2..]);
      assert ByteHex(b) == [h[0], h[1]] + ByteHex(b[1..]);
      assert h == [h[0], h[1]] + h[2..];
    }
  }

  /** Hex text with its digits `A` to `F` written in lower case. */
  function LowerHex(h: string): (r: string)
    requires AllHexDigits(h)
    ensures |r| == |h| && AllLowerHexDigits(r)
    ensures forall i :: 0 <= i < |h| ==> HexDigitValue(r[i]) == HexDigitValue(h[i])
  {
    seq(|h|, i requires 0 <= i < |h| => HexDigit(HexDigitValue(h[i])))
  }

  /** Text already in lower case is its own lower-case form. */
  lemma LowerHexOfLower(h: string)
    requires AllLowerHexDigits(h)
    ensures LowerHex(h) == h
  {
    forall i | 0 <= i < |h|
      ensures LowerHex(h)[i] == h[i]
    {
      LowerHexDigitValue(h[i]);
    }
  }

  /** Hex text of even length in any case comes back from its bytes in lower case. */
  lemma {:induction false} HexToBytesLowers(h: string)
    requires |h| % 2 == 0 && AllHexDigits(h)
    ensures ByteHex(HexToBytes(h)) == LowerHex(h)
    decreases |h|
  {
    if h != [] {
      var hi, lo := HexDigitValue(h[0]), HexDigitValue(h[1]);
      var x := hi * 16 + lo;
      assert x / 16 == hi && x % 16 == lo by {
        DigitPair(hi, lo);
      }
      var b := HexToBytes(h);
      assert b[0] == x && b[1..] == HexToBytes(h[2..]);
      HexToBytesLowers(h[2..]);
      assert ByteHex(b) == [HexDigit(hi), HexDigit(lo)] + LowerHex(h[2..]);
      assert LowerHex(h) == [HexDigit(hi), HexDigit(lo)] + LowerHex(h[2..]) by {
        forall i | 2 <= i < |h|
          ensures LowerHex(h)[i] == LowerHex(h[2..])[i - 2]
        {
          assert h[i] == h[2..][i - 2];
        }
      }
    }
  }

  lemma DigitPair(hi: nat, lo: nat)
    requires lo < 16
    ensures (hi * 16 + lo) / 16 == hi && (hi * 16 + lo) % 16 == lo
  {
  }

  /** A lower-case hex digit is the digit of its own value. */
  lemma LowerHexDigitValue(c: char)
    requires IsLowerHexDigit(c)
    ensures HexDigit(HexDigitValue(c)) == c
  {
  }

  lemma {:induction false} ByteHexAppend(a: Buffer, x: uint8)
    ensures ByteHex(a + [x]) == ByteHex(a) + [HexDigit(x / 16), HexDigit(x % 16)]
    decreases |a|
  {
    if a != [] {
      assert (a + [x])[1..] == a[1..] + [x];
      ByteHexAppend(a[1..], x);
    } else {
      assert ByteHex([x]) == [HexDigit(x / 16), HexDigit(x % 16)] + ByteHex([]);
    }
  }

  /** The hex text of a buffer denotes the buffer's big-endian number. */
  lemma {:induction false} ByteHexValue(b: Buffer)
    ensures HexValue(ByteHex(b)) == BigEndian(b)
    decreases |b|
  {
    if b != [] {
      var a, x := b[..|b| - 1], b[|b| - 1];
      assert b == a + [x];
      ByteHexAppend(a, x);
      ByteHexValue(a);
      var s := ByteHex(a) + [HexDigit(x / 16), HexDigit(x % 16)];
      assert s[..|s| - 1] == ByteHex(a) + [HexDigit(x / 16)];
      assert (ByteHex(a) + [HexDigit(x / 16)])[..|s| - 2] == ByteHex(a);
      assert HexValue(s) == (BigEndian(a) * 16 + x / 16) * 16 + x % 16;
    }
  }

  /** The number of hex digits at the front of a string. */
  function LeadingHexDigits(s: string): (k: nat)
    ensures k <= |s| && AllHexDigits(s[..k])
    ensures k < |s| ==> !IsHexDigit(s[k])
  {
    if s != [] && IsHexDigit(s[0]) then
      var k := 1 + LeadingHexDigits(s[1..]);
      assert s[..k] == [s[0]] + s[1..][..k - 1];
      k
    else 0
  }
}
