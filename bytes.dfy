/** Byte-level vocabulary shared by the region codec and the legacy world
    reader: bytes as integers in 0..255, little-endian words and double
    words, the 32-bit wrap-around of C `int`, and two's-complement bitwise
    XOR/OR on unbounded integers. */
module Bytes {

  datatype Option<+T> = None | Some(value: T)

  /** C's EOF as returned by fgetc and the multi-byte readers built on it. */
  const EOF: int := -1

  predicate IsByte(b: int) { 0 <= b < 256 }

  predicate AllBytes(s: seq<int>) { forall i :: 0 <= i < |s| ==> IsByte(s[i]) }

  /** A `char` holding the byte `b`, read back through a `(signed char)` cast. */
  function Signed8(b: int): (r: int)
    requires IsByte(b)
    ensures -128 <= r < 128
    ensures (r + 256) % 256 == b
  {
    if b >= 128 then b - 256 else b
  }

  /** The value of `x` once stored in a 32-bit two's-complement `int`. */
  function Wrap32(x: int): (r: int)
    ensures -0x8000_0000 <= r < 0x8000_0000
    ensures (r - x) % 0x1_0000_0000 == 0
  {
    var m := x % 0x1_0000_0000;
    if m >= 0x8000_0000 then m - 0x1_0000_0000 else m
  }

  lemma Wrap32InRange(x: int)
    requires -0x8000_0000 <= x < 0x8000_0000
    ensures Wrap32(x) == x
  {
  }

  /** Low byte of an integer, as `(unsigned char)x` or fputc(x) keeps it. */
  function Low8(x: int): (r: int)
    ensures IsByte(r)
  {
    x % 256
  }

  lemma Low8OfByte(x: int)
    requires IsByte(x)
    ensures Low8(x) == x
  {
  }

  /** Little-endian 16-bit word at `i`. */
  function LeWord(s: seq<int>, i: int): (r: int)
    requires 0 <= i && i + 2 <= |s|
    requires IsByte(s[i]) && IsByte(s[i + 1])
    ensures 0 <= r < 0x1_0000
  {
    s[i] + 256 * s[i + 1]
  }

  /** Little-endian 32-bit double word at `i`, as an unsigned value. */
  function LeDwordU(s: seq<int>, i: int): (r: int)
    requires 0 <= i && i + 4 <= |s|
    requires forall k :: i <= k < i + 4 ==> IsByte(s[k])
    ensures 0 <= r < 0x1_0000_0000
  {
    LeWord(s, i) + 0x1_0000 * LeWord(s, i + 2)
  }

  /** Little-endian 32-bit double word at `i`, read into a C `int`. */
  function LeDword(s: seq<int>, i: int): (r: int)
    requires 0 <= i && i + 4 <= |s|
    requires forall k :: i <= k < i + 4 ==> IsByte(s[k])
    ensures -0x8000_0000 <= r < 0x8000_0000
  {
    Wrap32(LeDwordU(s, i))
  }

  /** The two bytes mfputw/fputw write for `x` (its low 16 bits). */
  function WordBytes(x: int): (r: seq<int>)
    ensures |r| == 2 && AllBytes(r)
  {
    [x % 256, (x / 256) % 256]
  }

  /** The four bytes mfputd/fputd write for `x` (its low 32 bits). */
  function DwordBytes(x: int): (r: seq<int>)
    ensures |r| == 4 && AllBytes(r)
  {
    var m := x % 0x1_0000_0000;
    WordBytes(m % 0x1_0000) + WordBytes(m / 0x1_0000)
  }

  lemma WordRoundTrip(x: int, s: seq<int>, i: int)
    requires 0 <= x < 0x1_0000
    requires 0 <= i && i + 2 <= |s| && s[i..i + 2] == WordBytes(x)
    ensures IsByte(s[i]) && IsByte(s[i + 1]) && LeWord(s, i) == x
  {
    assert s[i] == s[i..i + 2][0] && s[i + 1] == s[i..i + 2][1];
  }

  lemma DwordRoundTrip(x: int, s: seq<int>, i: int)
    requires -0x8000_0000 <= x < 0x8000_0000
    requires 0 <= i && i + 4 <= |s| && s[i..i + 4] == DwordBytes(x)
    ensures forall k :: i <= k < i + 4 ==> IsByte(s[k])
    ensures LeDword(s, i) == x
  {
    var m := x % 0x1_0000_0000;
    assert s[i..i + 2] == s[i..i + 4][..2] == WordBytes(m % 0x1_0000);
    assert s[i + 2..i + 4] == s[i..i + 4][2..] == WordBytes(m / 0x1_0000);
    WordRoundTrip(m % 0x1_0000, s, i);
    WordRoundTrip(m / 0x1_0000, s, i + 2);
    assert LeDwordU(s, i) == m;
  }

  function Pow2(n: nat): (r: nat)
    ensures r >= 1
  {
    if n == 0 then 1 else 2 * Pow2(n - 1)
  }

  /** Bitwise XOR of two naturals, bit by bit from the least significant. */
  function XorNat(a: nat, b: nat): nat
    decreases a + b
  {
    if a == 0 then b
    else if b == 0 then a
    else 2 * XorNat(a / 2, b / 2) + (if a % 2 == b % 2 then 0 else 1)
  }

  /** Bitwise OR of two naturals. */
  function OrNat(a: nat, b: nat): nat
    decreases a + b
  {
    if a == 0 then b
    else if b == 0 then a
    else 2 * OrNat(a / 2, b / 2) + (if a % 2 == 1 || b % 2 == 1 then 1 else 0)
  }

  /** C's `^` on signed integers: two's complement of unbounded width, which
      agrees with 32-bit `int` and `long` on every value they can hold. */
  function Xor(a: int, b: int): int
  {
    if a >= 0 && b >= 0 then XorNat(a, b)
    else if a < 0 && b < 0 then XorNat(-a - 1, -b - 1)
    else if a < 0 then -(XorNat(-a - 1, b) as int) - 1
    else -(XorNat(a, -b - 1) as int) - 1
  }

  lemma {:induction false} XorNatSelfInverse(a: nat, k: nat)
    ensures XorNat(XorNat(a, k), k) == a
    decreases a + k
  {
    if a == 0 {
      XorNatSelf(k);
    } else if k == 0 {
    } else {
      var x := XorNat(a, k);
      XorNatSelfInverse(a / 2, k / 2);
      if x == 0 {
        XorNatZeroMeansEqual(a, k);
      } else {
        assert x / 2 == XorNat(a / 2, k / 2);
        assert x % 2 == (if a % 2 == k % 2 then 0 else 1);
      }
    }
  }

  lemma {:induction false} XorNatSelf(a: nat)
    ensures XorNat(a, a) == 0
  {
    if a != 0 {
      XorNatSelf(a / 2);
    }
  }

  lemma {:induction false} XorNatZeroMeansEqual(a: nat, k: nat)
    requires XorNat(a, k) == 0
    ensures a == k
    decreases a + k
  {
    if a != 0 && k != 0 {
      XorNatZeroMeansEqual(a / 2, k / 2);
    }
  }

  lemma {:induction false} XorNatBound(a: nat, b: nat, n: nat)
    requires a < Pow2(n) && b < Pow2(n)
    ensures XorNat(a, b) < Pow2(n)
    decreases n
  {
    if a != 0 && b != 0 {
      XorNatBound(a / 2, b / 2, n - 1);
    }
  }

  /** XOR of two bytes is a byte. */
  lemma XorByte(a: int, b: int)
    requires IsByte(a) && IsByte(b)
    ensures IsByte(XorNat(a, b))
  {
    assert Pow2(8) == 256;
    XorNatBound(a, b, 8);
  }

  /** XOR with a key undoes itself, for every sign of either operand. */
  lemma XorSelfInverse(a: int, k: int)
    ensures Xor(Xor(a, k), k) == a
  {
    if a >= 0 && k >= 0 {
      XorNatSelfInverse(a, k);
    } else if a < 0 && k < 0 {
      var x := XorNat(-a - 1, -k - 1);
      assert Xor(a, k) == x;
      XorNatSelfInverse(-a - 1, -k - 1);
      assert Xor(x, k) == -(XorNat(x, -k - 1) as int) - 1;
    } else if a < 0 {
      var x := XorNat(-a - 1, k);
      assert Xor(a, k) == -(x as int) - 1;
      XorNatSelfInverse(-a - 1, k);
      assert Xor(-(x as int) - 1, k) == -(XorNat(x, k) as int) - 1;
    } else {
      var x := XorNat(a, -k - 1);
      assert Xor(a, k) == -(x as int) - 1;
      XorNatSelfInverse(a, -k - 1);
      assert Xor(-(x as int) - 1, k) == XorNat(x, -k - 1);
    }
  }

  /** OR with a value shifted clear of `a`'s bits is addition. */
  lemma {:induction false} OrNatDisjoint(a: nat, b: nat, k: nat)
    requires a < Pow2(k)
    ensures OrNat(a, b * Pow2(k)) == a + b * Pow2(k)
    decreases k
  {
    if a == 0 || b == 0 {
    } else {
      assert k > 0;
      assert b * Pow2(k) == 2 * (b * Pow2(k - 1));
      OrNatDisjoint(a / 2, b, k - 1);
    }
  }
}
