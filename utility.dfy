/** Small pure helpers of the game: ASCII case mapping, packing of an integer
    colour into a 32-bit ABGR word and back, rendering an integer as a string
    of binary digits, and the first-match search used to look up entities. */
module Utility {

  datatype Option<T> = None | Some(value: T)

  // ---------------------------------------------------------------------------
  // Case mapping (::tolower / ::toupper in the "C" locale)

  function LowerChar(c: char): (r: char)
    ensures !('A' <= r <= 'Z')
    ensures 'A' <= c <= 'Z' ==> r as int == c as int + 32
    ensures !('A' <= c <= 'Z') ==> r == c
  {
    if 'A' <= c <= 'Z' then (c as int + 32) as char else c
  }

  function UpperChar(c: char): (r: char)
    ensures !('a' <= r <= 'z')
    ensures 'a' <= c <= 'z' ==> r as int == c as int - 32
    ensures !('a' <= c <= 'z') ==> r == c
  {
    if 'a' <= c <= 'z' then (c as int - 32) as char else c
  }

  /** The string with every character lower-cased, position by position. */
  function Lower(s: string): (r: string)
    ensures |r| == |s|
    ensures forall i :: 0 <= i < |s| ==> r[i] == LowerChar(s[i])
  {
    if s == [] then [] else [LowerChar(s[0])] + Lower(s[1..])
  }

  /** The string with every character upper-cased, position by position. */
  function Upper(s: string): (r: string)
    ensures |r| == |s|
    ensures forall i :: 0 <= i < |s| ==> r[i] == UpperChar(s[i])
  {
    if s == [] then [] else [UpperChar(s[0])] + Upper(s[1..])
  }

  /** toLower: copies the string and maps every character in place. */
  method ToLower(str: string) returns (out: string)
    ensures out == Lower(str)
  {
    var buf := new char[|str|](i requires 0 <= i < |str| => str[i]);
    var i := 0;
    while i < buf.Length
      invariant 0 <= i <= buf.Length
      invariant forall j :: 0 <= j < i ==> buf[j] == LowerChar(str[j])
      invariant forall j :: i <= j < buf.Length ==> buf[j] == str[j]
    {
      buf[i] := LowerChar(buf[i]);
      i := i + 1;
    }
    out := buf[..];
  }

  /** toUpper: copies the string and maps every character in place. */
  method ToUpper(str: string) returns (out: string)
    ensures out == Upper(str)
  {
    var buf := new char[|str|](i requires 0 <= i < |str| => str[i]);
    var i := 0;
    while i < buf.Length
      invariant 0 <= i <= buf.Length
      invariant forall j :: 0 <= j < i ==> buf[j] == UpperChar(str[j])
      invariant forall j :: i <= j < buf.Length ==> buf[j] == str[j]
    {
      buf[i] := UpperChar(buf[i]);
      i := i + 1;
    }
    out := buf[..];
  }

  lemma {:induction false} LowerIdempotent(s: string)
    ensures Lower(Lower(s)) == Lower(s)
  {
    if s != [] {
      LowerIdempotent(s[1..]);
      assert Lower(s) == [LowerChar(s[0])] + Lower(s[1..]);
    }
  }

  lemma {:induction false} UpperIdempotent(s: string)
    ensures Upper(Upper(s)) == Upper(s)
  {
    if s != [] {
      UpperIdempotent(s[1..]);
      assert Upper(s) == [UpperChar(s[0])] + Upper(s[1..]);
    }
  }

  /** Lower-casing forgets any earlier upper-casing (ASCII letters only). */
  lemma {:induction false} LowerAfterUpper(s: string)
    ensures Lower(Upper(s)) == Lower(s)
  {
    if s != [] {
      LowerAfterUpper(s[1..]);
      assert Upper(s) == [UpperChar(s[0])] + Upper(s[1..]);
    }
  }

  // ---------------------------------------------------------------------------
  // Integer colour <-> packed ABGR word

  const U32_MODULUS: int := 0x1_0000_0000

  type u32 = x: int | 0 <= x < U32_MODULUS
  type i32 = x: int | -0x8000_0000 <= x < 0x8000_0000

  /** An integer colour (x = red, y = green, z = blue, w = alpha). */
  datatype IColor = IColor(x: i32, y: i32, z: i32, w: i32)

  predicate IsByte(v: int) { 0 <= v < 256 }

  predicate ComponentsAreBytes(c: IColor) {
    IsByte(c.x) && IsByte(c.y) && IsByte(c.z) && IsByte(c.w)
  }

  /** static_cast<uint32_t> of a signed 32-bit value. */
  function ToU32(v: int): u32 { v % U32_MODULUS }

  /** uint32 left shift: the bits shifted past bit 31 are lost. */
  function ShiftLeft(v: u32, bits: nat): u32 { (v * Pow2(bits)) % U32_MODULUS }

  /** toABGR(iColor): alpha in bits 24..31, blue 16..23, green 8..15, red 0..7,
      added in uint32 arithmetic. */
  function ToABGR(c: IColor): u32 {
    (ShiftLeft(ToU32(c.w), 24) + ShiftLeft(ToU32(c.z), 16)
      + ShiftLeft(ToU32(c.y), 8) + ToU32(c.x)) % U32_MODULUS
  }

  /** toiColor: extracts the four bytes of a packed word. */
  function ToIColor(p: u32): (c: IColor)
    ensures ComponentsAreBytes(c)
  {
    IColor(p % 256, (p / 0x100) % 256, (p / 0x1_0000) % 256, (p / 0x100_0000) % 256)
  }

  /** With components in 0..255, toABGR places each byte in its own field. */
  lemma ToABGRLayout(c: IColor)
    requires ComponentsAreBytes(c)
    ensures ToABGR(c) == c.w * 0x100_0000 + c.z * 0x1_0000 + c.y * 0x100 + c.x
    ensures ToABGR(c) % 256 == c.x
    ensures (ToABGR(c) / 0x100) % 256 == c.y
    ensures (ToABGR(c) / 0x1_0000) % 256 == c.z
    ensures (ToABGR(c) / 0x100_0000) % 256 == c.w
  {
    ToABGRSum(c);
    var p := c.w * 0x100_0000 + c.z * 0x1_0000 + c.y * 0x100 + c.x;
    var q1 := c.w * 0x1_0000 + c.z * 0x100 + c.y;
    var q2 := c.w * 0x100 + c.z;
    DivModUnique(p, 0x100, q1, c.x);
    DivModUnique(q1, 0x100, q2, c.y);
    DivModUnique(q2, 0x100, c.w, c.z);
    DivModUnique(c.w, 0x100, 0, c.w);
    DivDiv(p, 0x100, 0x100);
    DivDiv(p, 0x1_0000, 0x100);
  }

  lemma ToABGRSum(c: IColor)
    requires ComponentsAreBytes(c)
    ensures ToABGR(c) == c.w * 0x100_0000 + c.z * 0x1_0000 + c.y * 0x100 + c.x
  {
    Pow2Values();
    assert ToU32(c.w) == c.w && ToU32(c.z) == c.z && ToU32(c.y) == c.y && ToU32(c.x) == c.x;
    assert ShiftLeft(c.w, 24) == c.w * 0x100_0000;
    assert ShiftLeft(c.z, 16) == c.z * 0x1_0000;
    assert ShiftLeft(c.y, 8) == c.y * 0x100;
  }

  /** toiColor undoes toABGR on byte-valued components. */
  lemma ColorRoundTrip(c: IColor)
    requires ComponentsAreBytes(c)
    ensures ToIColor(ToABGR(c)) == c
  {
    ToABGRLayout(c);
  }

  /** toABGR undoes toiColor on every 32-bit word. */
  lemma PackedRoundTrip(p: u32)
    ensures ToABGR(ToIColor(p)) == p
  {
    var c := ToIColor(p);
    var q1 := p / 0x100;
    var q2 := q1 / 0x100;
    var q3 := q2 / 0x100;
    DivDiv(p, 0x100, 0x100);
    DivDiv(p, 0x1_0000, 0x100);
    assert q3 < 256;
    assert c == IColor(p % 256, q1 % 256, q2 % 256, q3);
    ToABGRLayout(c);
    assert q2 == q3 * 0x100 + q2 % 256;
    assert q1 == q2 * 0x100 + q1 % 256;
    assert p == q1 * 0x100 + p % 256;
  }

  // ---------------------------------------------------------------------------
  // Binary rendering (to_binary_string)

  function Pow2(n: nat): (r: nat)
    ensures r >= 1
  {
    if n == 0 then 1 else 2 * Pow2(n - 1)
  }

  lemma Pow2Values()
    ensures Pow2(8) == 0x100 && Pow2(16) == 0x1_0000 && Pow2(24) == 0x100_0000
  {
    assert Pow2(4) == 16;
    assert Pow2(8) == 256;
    assert Pow2(12) == 4096;
    assert Pow2(16) == 65536;
    assert Pow2(20) == 1048576;
  }

  /** The value of bit k of v in two's complement (v may be negative). */
  function Bit(v: int, k: nat): int { (v / Pow2(k)) % 2 }

  function DigitChar(b: int): char
    requires 0 <= b < 2
  {
    if b == 0 then '0' else '1'
  }

  /** The n low bits of v as '0'/'1' characters, most significant first. */
  function BinaryDigits(v: int, n: nat): (r: string)
    ensures |r| == n
    decreases n
    ensures forall i :: 0 <= i < n ==> r[i] == DigitChar(Bit(v, n - 1 - i))
  {
    if n == 0 then []
    else
      var r := BinaryDigits(v / 2, n - 1) + [DigitChar(v % 2)];
      forall i | 0 <= i < n - 1
        ensures r[i] == DigitChar(Bit(v, n - 1 - i))
      {
        DivDiv(v, 2, Pow2(n - 2 - i));
      }
      r
  }

  /** Reads a string of '0'/'1' characters, most significant first. */
  function BinaryValue(s: string): nat {
    if s == [] then 0
    else 2 * BinaryValue(s[..|s| - 1]) + (if s[|s| - 1] == '1' then 1 else 0)
  }

  /** to_binary_string: fills a string of 8 * byteSize spaces from the right,
      one low bit of val per step, shifting val right after each. */
  method ToBinaryString(val: int, byteSize: nat) returns (ret: string)
    ensures ret == BinaryDigits(val, 8 * byteSize)
  {
    var n := 8 * byteSize;
    var sz := n;
    ret := seq(sz, _ => ' ');
    var v := val;
    while sz > 0
      invariant 0 <= sz <= n && |ret| == n
      invariant v == val / Pow2(n - sz)
      invariant forall j :: sz <= j < n ==> ret[j] == DigitChar(Bit(val, n - 1 - j))
    {
      sz := sz - 1;
      ret := ret[sz := DigitChar(v % 2)];
      DivDiv(val, Pow2(n - 1 - sz), 2);
      v := v / 2;
    }
  }

  /** Every rendered character is a binary digit. */
  lemma BinaryDigitsAreBits(v: int, n: nat)
    ensures forall i :: 0 <= i < n ==> BinaryDigits(v, n)[i] in {'0', '1'}
  {
    forall i | 0 <= i < n ensures BinaryDigits(v, n)[i] in {'0', '1'} {
      var b := Bit(v, n - 1 - i);
      assert b == 0 || b == 1;
    }
  }

  /** Reading the rendered digits back gives v modulo 2^n, that is v itself
      when it fits in n unsigned bits. */
  lemma {:induction false} BinaryRoundTrip(v: int, n: nat)
    ensures BinaryValue(BinaryDigits(v, n)) == v % Pow2(n)
    decreases n
  {
    if n > 0 {
      var r := BinaryDigits(v, n);
      var prefix := BinaryDigits(v / 2, n - 1);
      assert r == prefix + [DigitChar(v % 2)];
      assert r[..n - 1] == prefix;
      BinaryRoundTrip(v / 2, n - 1);
      ModDouble(v, Pow2(n - 1));
    }
  }

  lemma BinaryRoundTripUnsigned(v: int, n: nat)
    requires 0 <= v < Pow2(n)
    ensures BinaryValue(BinaryDigits(v, n)) == v
  {
    BinaryRoundTrip(v, n);
  }

  // ---------------------------------------------------------------------------
  // First-match search (std::find_if / findPtrByPredicate)

  /** Position of the first element satisfying p, as std::find_if finds it. */
  function FirstMatch<T>(s: seq<T>, p: T -> bool): (r: Option<nat>)
    ensures r.Some? ==> r.value < |s| && p(s[r.value])
    ensures r.Some? ==> forall j :: 0 <= j < r.value ==> !p(s[j])
    ensures r.None? <==> forall j :: 0 <= j < |s| ==> !p(s[j])
  {
    if s == [] then None
    else if p(s[0]) then Some(0)
    else match FirstMatch(s[1..], p)
      case None => None
      case Some(k) => Some(k + 1)
  }

  /** findPtrByPredicate: the first element satisfying p, or nothing (nullptr). */
  function FindPtrByPredicate<T>(s: seq<T>, p: T -> bool): (r: Option<T>)
    ensures r.Some? ==> exists i :: 0 <= i < |s| && s[i] == r.value && p(s[i])
                          && forall j :: 0 <= j < i ==> !p(s[j])
    ensures r.None? <==> forall j :: 0 <= j < |s| ==> !p(s[j])
  {
    match FirstMatch(s, p)
    case None => None
    case Some(i) => Some(s[i])
  }

  // ---------------------------------------------------------------------------
  // Division helpers

  lemma DivModUnique(v: int, d: int, q: int, r: int)
    requires d > 0 && 0 <= r < d && v == q * d + r
    ensures v / d == q && v % d == r
  {
    var q', r' := v / d, v % d;
    assert v == q' * d + r';
    assert (q - q') * d == r' - r;
    if q > q' {
      MulAtLeast(q - q', d);
    } else if q < q' {
      MulAtLeast(q' - q, d);
    }
  }

  lemma MulAtLeast(a: int, d: int)
    requires a >= 1 && d > 0
    ensures a * d >= d
  {
    assert a * d == (a - 1) * d + d;
    if a > 1 { MulAtLeast(a - 1, d); }
  }

  lemma DivDiv(v: int, a: int, b: int)
    requires a > 0 && b > 0
    ensures (v / a) / b == v / (a * b)
  {
    var q1, r1 := v / a, v % a;
    var q2, r2 := q1 / b, q1 % b;
    assert v == q1 * a + r1;
    assert q1 == q2 * b + r2;
    calc {
      v;
      (q2 * b + r2) * a + r1;
      { MulDistrib(q2 * b, r2, a); }
      (q2 * b) * a + r2 * a + r1;
      { MulAssoc(q2, b, a); }
      q2 * (a * b) + (r2 * a + r1);
    }
    MulBelow(r2, b, a);
    DivModUnique(v, a * b, q2, r2 * a + r1);
  }

  lemma MulDistrib(x: int, y: int, z: int)
    ensures (x + y) * z == x * z + y * z
  {
  }

  lemma MulAssoc(x: int, y: int, z: int)
    ensures (x * y) * z == x * (z * y)
  {
  }

  /** r * a stays at least a below a * b when r < b. */
  lemma MulBelow(r: int, b: int, a: int)
    requires 0 <= r < b && a > 0
    ensures 0 <= r * a <= a * b - a
  {
    MulDistrib(r, b - r, a);
    MulAtLeast(b - r, a);
    if r > 0 { MulAtLeast(r, a); }
  }

  lemma ModDouble(v: int, m: int)
    requires m > 0
    ensures 2 * ((v / 2) % m) + v % 2 == v % (2 * m)
  {
    var q := v / 2;
    var t := q / m;
    var u := q % m;
    assert v == 2 * q + v % 2;
    assert q == t * m + u;
    assert v == t * (2 * m) + (2 * u + v % 2);
    DivModUnique(v, 2 * m, t, 2 * u + v % 2);
  }
}
