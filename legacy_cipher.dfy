/** The password cipher of legacy protected worlds (src/legacy_world.c):
    password normalisation, the rolling key derivation of get_pw_xor_code,
    the byte/word/double-word keys, and the streaming decryption that
    rewrites a protected world into an unprotected one. */
module LegacyCipher {
  import opened Bytes
  import opened CFiles

  const MaxPasswordLength: int := 15
  const DecryptBufferSize: int := 8192
  const LegacyBoardNameSize: int := 25
  const WorldBlock1Size: int := 4129
  const WorldBlock2Size: int := 72

  /** The fixed secret the stored password bytes were XORed with. */
  const MagicCode: seq<int> :=
    [0xE6, 0x52, 0xEB, 0xF2, 0x6D, 0x4D, 0x4A, 0xB7, 0x87, 0xB2, 0x92, 0x88, 0xDE, 0x91, 0x24]

  /** A byte XORed with the low byte of a key, as `char ^= unsigned` stores it. */
  function XorKeyByte(b: int, key: int): (r: int)
    ensures IsByte(r)
  {
    XorByte(Low8(b), Low8(key));
    XorNat(Low8(b), Low8(key))
  }

  function XorBytes(s: seq<int>, key: int): (r: seq<int>)
    ensures |r| == |s|
    ensures AllBytes(r)
  {
    if |s| == 0 then [] else [XorKeyByte(s[0], key)] + XorBytes(s[1..], key)
  }

  lemma {:induction false} XorBytesAt(s: seq<int>, key: int)
    ensures forall i :: 0 <= i < |s| ==> XorBytes(s, key)[i] == XorKeyByte(s[i], key)
  {
    if |s| > 0 {
      XorBytesAt(s[1..], key);
    }
  }

  /** decrypt_block is its own inverse: decrypting twice gives the bytes back. */
  lemma XorBytesInvolution(s: seq<int>, key: int)
    requires AllBytes(s)
    ensures XorBytes(XorBytes(s, key), key) == s
  {
    XorBytesAt(s, key);
    XorBytesAt(XorBytes(s, key), key);
    forall i | 0 <= i < |s|
      ensures XorBytes(XorBytes(s, key), key)[i] == s[i]
    {
      XorKeyByteInvolution(s[i], key);
    }
  }

  lemma XorKeyByteInvolution(b: int, key: int)
    requires IsByte(b)
    ensures XorKeyByte(XorKeyByte(b, key), key) == b
  {
    var k := Low8(key);
    var x := XorNat(b, k);
    XorByte(b, k);
    assert Low8(b) == b && Low8(x) == x;
    XorNatSelfInverse(b, k);
  }

  lemma XorBytesAppend(a: seq<int>, b: seq<int>, key: int)
    ensures XorBytes(a + b, key) == XorBytes(a, key) + XorBytes(b, key)
  {
    XorBytesAt(a + b, key);
    XorBytesAt(a, key);
    XorBytesAt(b, key);
  }

  // ---------------------------------------------------------------------
  // Password normalisation and key derivation

  /** The byte every password byte is XORed with after the offset. */
  const PasswordMask: int := 0x8D

  /** Undo one masking step: XOR with `m`, subtract `c`, XOR with `k`. */
  function Unmask(b: int, m: int, c: int, k: int): (r: int)
    requires IsByte(b) && IsByte(m) && IsByte(k)
    ensures IsByte(r)
  {
    XorByte(b, m);
    var y := (XorNat(b, m) - c) % 256;
    XorByte(y, k);
    XorNat(y, k)
  }

  /** One masking step: XOR with `k`, add `c`, XOR with `m`. */
  function Mask(b: int, m: int, c: int, k: int): (r: int)
    requires IsByte(b) && IsByte(m) && IsByte(k)
    ensures IsByte(r)
  {
    XorByte(b, k);
    var y := (XorNat(b, k) + c) % 256;
    XorByte(y, m);
    XorNat(y, m)
  }

  lemma UnmaskUndoesMask(b: int, m: int, c: int, k: int)
    requires IsByte(b) && IsByte(m) && IsByte(k)
    ensures Unmask(Mask(b, m, c, k), m, c, k) == b
  {
    var z := XorNat(b, k);
    XorByte(b, k);
    var y := (z + c) % 256;
    var r := XorNat(y, m);
    XorNatSelfInverse(y, m);
    assert XorNat(r, m) == y;
    ModShift(z, c);
    assert (y - c) % 256 == z;
    XorNatSelfInverse(b, k);
  }

  lemma MagicCodeIsBytes()
    ensures |MagicCode| == MaxPasswordLength && AllBytes(MagicCode)
  {
  }

  /** One stored password byte turned back into the password byte:
      `^ magic_code[i]`, `- (0x12 + pro_method)`, `^ 0x8D` on a char. */
  function NormalizeByte(b: int, i: int, proMethod: int): (r: int)
    requires IsByte(b) && 0 <= i < MaxPasswordLength
    ensures IsByte(r)
  {
    MagicCodeIsBytes();
    Unmask(b, MagicCode[i], 0x12 + proMethod, PasswordMask)
  }

  /** The obfuscation the normalisation reverses (applied when a password
      was stored). */
  function ObfuscateByte(b: int, i: int, proMethod: int): (r: int)
    requires IsByte(b) && 0 <= i < MaxPasswordLength
    ensures IsByte(r)
  {
    MagicCodeIsBytes();
    Mask(b, MagicCode[i], 0x12 + proMethod, PasswordMask)
  }

  lemma NormalizeUndoesObfuscation(b: int, i: int, proMethod: int)
    requires IsByte(b) && 0 <= i < MaxPasswordLength
    ensures NormalizeByte(ObfuscateByte(b, i, proMethod), i, proMethod) == b
  {
    MagicCodeIsBytes();
    UnmaskUndoesMask(b, MagicCode[i], 0x12 + proMethod, PasswordMask);
  }

  /** Adding and then subtracting `c` modulo 256 gives a byte back. */
  lemma ModShift(z: int, c: int)
    requires IsByte(z)
    ensures ((z + c) % 256 - c) % 256 == z
  {
    var q := (z + c) / 256;
    assert (z + c) % 256 - c == z - 256 * q;
  }

  function NormalizedPassword(stored: seq<int>, proMethod: int): (p: seq<int>)
    requires |stored| == MaxPasswordLength && AllBytes(stored)
    ensures |p| == MaxPasswordLength && AllBytes(p)
  {
    seq(MaxPasswordLength, i requires 0 <= i < MaxPasswordLength => NormalizeByte(stored[i], i, proMethod))
  }

  /** The password normalisation loop of decrypt, in place. */
  method NormalizePassword(password: array<int>, proMethod: int)
    requires password.Length == MaxPasswordLength && AllBytes(password[..])
    modifies password
    ensures password[..] == NormalizedPassword(old(password[..]), proMethod)
  {
    for i := 0 to MaxPasswordLength
      invariant forall k :: 0 <= k < i ==> password[k] == NormalizeByte(old(password[k]), k, proMethod)
      invariant forall k :: i <= k < MaxPasswordLength ==> password[k] == old(password[k])
    {
      password[i] := NormalizeByte(password[i], i, proMethod);
    }
  }

  /** strlen of a password buffer whose 16th byte is the terminator. */
  function StrLen(p: seq<int>): (n: int)
    ensures 0 <= n <= |p|
    ensures forall k :: 0 <= k < n ==> p[k] != 0
    ensures n < |p| ==> p[n] == 0
  {
    if |p| == 0 || p[0] == 0 then 0 else 1 + StrLen(p[1..])
  }

  /** The password with every byte from the first NUL on zeroed. */
  function ClearAfterNul(p: seq<int>): (q: seq<int>)
    ensures |q| == |p|
  {
    seq(|p|, i requires 0 <= i < |p| => if i < StrLen(p) then p[i] else 0)
  }

  /** One left roll of the key accumulator with the `^ 257` correction. */
  function Roll(work: int): int
  {
    if 2 * work > 255 then Xor(2 * work, 257) else 2 * work
  }

  /** Fold one password byte into the accumulator: added at odd indices,
      XORed at even ones, always as a signed char. */
  function KeyStep(work: int, i: int, b: int): int
    requires IsByte(b)
  {
    var rolled := Roll(work);
    if i % 2 == 1 then
      var sum := rolled + Signed8(b);
      if sum > 255 then Xor(sum, 257) else sum
    else
      Xor(rolled, Signed8(b))
  }

  function KeyFold(p: seq<int>, n: nat): int
    requires n <= |p| && AllBytes(p)
  {
    if n == 0 then 85 else KeyStep(KeyFold(p, n - 1), n - 1, p[n - 1])
  }

  /** get_pw_xor_code: the key a (normalised) password and protection
      method derive. Zero is never returned. */
  function PwXorCode(password: seq<int>, proMethod: int): (key: int)
    requires |password| == MaxPasswordLength && AllBytes(password)
    ensures key != 0
  {
    FinishKey(KeyFold(ClearAfterNul(password), MaxPasswordLength), proMethod)
  }

  /** The last steps of get_pw_xor_code: add the protection method, roll,
      and replace a zero key by 86. */
  function FinishKey(work: int, proMethod: int): (key: int)
    ensures key != 0
  {
    var withMethod := work + proMethod;
    var corrected := if withMethod > 255 then Xor(withMethod, 257) else withMethod;
    var rolled := Roll(corrected);
    if rolled == 0 then 86 else rolled
  }

  /** get_pw_xor_code, which also zeroes the caller's buffer after the first NUL. */
  method GetPwXorCode(password: array<int>, proMethod: int) returns (work: int)
    requires password.Length == MaxPasswordLength && AllBytes(password[..])
    modifies password
    ensures password[..] == ClearAfterNul(old(password[..]))
    ensures work == PwXorCode(old(password[..]), proMethod)
  {
    ClearPasswordTail(password);
    ghost var cleared := password[..];
    work := 85;
    var i := 0;
    while i < MaxPasswordLength
      invariant 0 <= i <= MaxPasswordLength
      invariant password[..] == cleared
      invariant work == KeyFold(cleared, i)
    {
      assert password[i] == cleared[i];
      work := FoldByte(work, i, password[i]);
      i := i + 1;
    }
    work := FinishWork(work, proMethod);
  }

  /** The first loop of get_pw_xor_code: every byte from the first NUL on
      is zeroed. */
  method ClearPasswordTail(password: array<int>)
    requires password.Length == MaxPasswordLength && AllBytes(password[..])
    modifies password
    ensures password[..] == ClearAfterNul(old(password[..]))
    ensures AllBytes(password[..])
  {
    ghost var original := password[..];
    var len := StrLen(password[..]);
    var i := len;
    while i < MaxPasswordLength
      invariant len <= i <= MaxPasswordLength
      invariant forall k :: 0 <= k < len ==> password[k] == original[k]
      invariant forall k :: len <= k < i ==> password[k] == 0
      invariant forall k :: i <= k < MaxPasswordLength ==> password[k] == original[k]
    {
      password[i] := 0;
      i := i + 1;
    }
    assert password[..] == ClearAfterNul(original);
  }

  /** One pass of the second loop: roll, then add or XOR the byte. */
  method FoldByte(work0: int, i: int, b: int) returns (work: int)
    requires IsByte(b)
    ensures work == KeyStep(work0, i, b)
  {
    work := work0 * 2;
    if work > 255 {
      work := Xor(work, 257);
    }
    if i % 2 == 1 {
      work := work + Signed8(b);
      if work > 255 {
        work := Xor(work, 257);
      }
    } else {
      work := Xor(work, Signed8(b));
    }
  }

  /** The statements after the second loop. */
  method FinishWork(work0: int, proMethod: int) returns (work: int)
    ensures work == FinishKey(work0, proMethod)
  {
    work := work0 + proMethod;
    if work > 255 {
      work := Xor(work, 257);
    }
    work := work * 2;
    if work > 255 {
      work := Xor(work, 257);
    }
    if work == 0 {
      work := 86;
    }
  }

  /** Only the bytes before the first NUL take part in the key. */
  lemma KeyDependsOnlyOnPrefix(p: seq<int>, q: seq<int>, proMethod: int)
    requires |p| == MaxPasswordLength && |q| == MaxPasswordLength
    requires AllBytes(p) && AllBytes(q)
    requires StrLen(p) == StrLen(q) && p[..StrLen(p)] == q[..StrLen(q)]
    ensures PwXorCode(p, proMethod) == PwXorCode(q, proMethod)
  {
    var n := StrLen(p);
    assert forall k :: 0 <= k < n ==> p[k] == p[..n][k] && q[k] == q[..n][k];
    assert ClearAfterNul(p) == ClearAfterNul(q);
  }

  /** XorNat unfolded one bit, for every pair of operands. */
  lemma XorNatBits(a: nat, b: nat)
    ensures XorNat(a, b) == 2 * XorNat(a / 2, b / 2) + (if a % 2 == b % 2 then 0 else 1)
  {
    if a == 0 {
      assert XorNat(0, b / 2) == b / 2;
    } else if b == 0 {
      assert XorNat(a / 2, 0) == a / 2;
    }
  }

  /** XorNat on operands given by their halves and low bits. */
  lemma XorNatStep(a: nat, b: nat, ha: nat, hb: nat, ra: nat, rb: nat)
    requires ra < 2 && rb < 2 && a == 2 * ha + ra && b == 2 * hb + rb
    ensures XorNat(a, b) == 2 * XorNat(ha, hb) + (if ra == rb then 0 else 1)
  {
    XorNatBits(a, b);
    assert a / 2 == ha && a % 2 == ra;
    assert b / 2 == hb && b % 2 == rb;
  }

  /** XOR with a power of two that is the top bit of the other operand
      clears that bit: `p` is 2 to the `k`. */
  lemma {:induction false} XorNatTopBit(c: nat, k: nat, p: nat)
    requires p == Pow2(k) && c < p
    ensures XorNat(c + p, p) == c
    decreases k
  {
    if k == 0 {
      assert c == 0 && p == 1;
      XorNatSelf(1);
    } else {
      var q := Pow2(k - 1);
      assert p == 2 * q;
      XorNatTopBit(c / 2, k - 1, q);
      XorNatStep(c + p, p, c / 2 + q, q, c % 2, 0);
    }
  }

  /** `x ^ 257` for x in 256..511 drops bit 8 and flips bit 0. */
  lemma Xor257(x: int)
    requires 256 <= x < 512
    ensures Xor(x, 257) == x - 255 - 2 * (x % 2)
  {
    var h := x / 2;
    assert Pow2(7) == 128 by {
      assert Pow2(4) == 16;
    }
    XorNatTopBit(h - 128, 7, 128);
    XorNatStep(x, 257, h, 128, x % 2, 1);
  }

  /** On an 8-bit accumulator the roll is a rotation left by one bit. */
  lemma RollRotatesByte(work: int)
    requires IsByte(work)
    ensures Roll(work) == (2 * work) % 256 + work / 128
  {
    if 2 * work > 255 {
      Xor257(2 * work);
      assert (2 * work) % 2 == 0;
      assert work / 128 == 1 && (2 * work) % 256 == 2 * work - 256;
    } else {
      assert work / 128 == 0 && (2 * work) % 256 == 2 * work;
    }
  }

  /** While the accumulator is a byte and the password bytes are below 128,
      every step keeps it a byte. */
  lemma KeyStepStaysByte(work: int, i: int, b: int)
    requires IsByte(work) && 0 <= b < 128
    ensures IsByte(KeyStep(work, i, b))
  {
    RollRotatesByte(work);
    var rolled := Roll(work);
    if i % 2 == 1 {
      var sum := rolled + b;
      if sum > 255 {
        Xor257(sum);
      }
    } else {
      XorByte(rolled, b);
    }
  }

  lemma {:induction false} KeyFoldStaysByte(p: seq<int>, n: nat)
    requires n <= |p| && AllBytes(p)
    requires forall k :: 0 <= k < |p| ==> p[k] < 128
    ensures IsByte(KeyFold(p, n))
  {
    if n > 0 {
      KeyFoldStaysByte(p, n - 1);
      KeyStepStaysByte(KeyFold(p, n - 1), n - 1, p[n - 1]);
    }
  }

  /** A password of bytes below 128 with protection method 0..3 yields a
      key in 1..255, so the word and double-word keys are replications. */
  lemma AsciiPasswordKeyIsByte(password: seq<int>, proMethod: int)
    requires |password| == MaxPasswordLength && AllBytes(password)
    requires forall k :: 0 <= k < MaxPasswordLength ==> password[k] < 128
    requires 0 <= proMethod <= 3
    ensures 1 <= PwXorCode(password, proMethod) <= 255
  {
    var cleared := ClearAfterNul(password);
    assert AllBytes(cleared) && forall k :: 0 <= k < |cleared| ==> cleared[k] < 128;
    KeyFoldStaysByte(cleared, MaxPasswordLength);
    FinishKeyOfByte(KeyFold(cleared, MaxPasswordLength), proMethod);
  }

  lemma FinishKeyOfByte(work: int, proMethod: int)
    requires IsByte(work) && 0 <= proMethod <= 3
    ensures 1 <= FinishKey(work, proMethod) <= 255
  {
    var withMethod := work + proMethod;
    if withMethod > 255 {
      Xor257(withMethod);
    }
    var corrected := if withMethod > 255 then Xor(withMethod, 257) else withMethod;
    RollRotatesByte(corrected);
  }

  // ---------------------------------------------------------------------
  // Word and double-word keys

  /** `xor_w = xor_val | (xor_val << 8)` with xor_val the key as unsigned int. */
  function WordKey(key: int): int
  {
    var u := key % 0x1_0000_0000;
    Wrap32(OrNat(u, (u * 0x100) % 0x1_0000_0000))
  }

  /** `xor_d = xor_val | xor_val << 8 | xor_val << 16 | xor_val << 24`. */
  function DwordKey(key: int): int
  {
    var u := key % 0x1_0000_0000;
    Wrap32(OrNat(OrNat(OrNat(u, (u * 0x100) % 0x1_0000_0000), (u * 0x1_0000) % 0x1_0000_0000),
      (u * 0x100_0000) % 0x1_0000_0000))
  }

  lemma {:induction false} Pow2Add(a: nat, b: nat)
    ensures Pow2(a + b) == Pow2(a) * Pow2(b)
    decreases a
  {
    if a > 0 {
      Pow2Add(a - 1, b);
    }
  }

  lemma Pow2Bytes()
    ensures Pow2(8) == 0x100 && Pow2(16) == 0x1_0000 && Pow2(24) == 0x100_0000
  {
    assert Pow2(4) == 16;
    Pow2Add(4, 4);
    Pow2Add(8, 8);
    Pow2Add(16, 8);
  }

  lemma WordKeyOfByte(key: int)
    requires 0 <= key < 256
    ensures WordKey(key) == key * 0x101
  {
    Pow2Bytes();
    assert key % 0x1_0000_0000 == key;
    var shifted := key * 0x100;
    assert shifted % 0x1_0000_0000 == shifted;
    OrNatDisjoint(key, key, 8);
    assert OrNat(key, shifted) == key * 0x101;
    Wrap32InRange(key * 0x101);
  }

  /** OR-ing in a copy of the key byte shifted `k` bits up, clear of `a`. */
  lemma OrShiftedByte(a: nat, key: nat, k: nat, shift: nat)
    requires a < Pow2(k) && shift == Pow2(k)
    ensures OrNat(a, key * shift) == a + key * shift
  {
    OrNatDisjoint(a, key, k);
  }

  lemma DwordKeyOfByte(key: int)
    requires 0 <= key < 256
    ensures DwordKey(key) % 0x1_0000_0000 == key * 0x101_0101
  {
    Pow2Bytes();
    assert key % 0x1_0000_0000 == key;
    var s8, s16, s24 := key * 0x100, key * 0x1_0000, key * 0x100_0000;
    assert s8 % 0x1_0000_0000 == s8;
    assert s16 % 0x1_0000_0000 == s16;
    assert s24 % 0x1_0000_0000 == s24;
    OrShiftedByte(key, key, 8, 0x100);
    var w := key * 0x101;
    assert OrNat(key, s8) == w;
    OrShiftedByte(w, key, 16, 0x1_0000);
    var t := key * 0x1_0101;
    assert OrNat(w, s16) == t;
    OrShiftedByte(t, key, 24, 0x100_0000);
    var d := key * 0x101_0101;
    assert OrNat(t, s24) == d;
    assert DwordKey(key) == Wrap32(d);
    Wrap32Unsigned(d);
  }

  lemma Wrap32Unsigned(x: int)
    requires 0 <= x < 0x1_0000_0000
    ensures Wrap32(x) % 0x1_0000_0000 == x
  {
  }

  lemma WordBytesOfReplicated(key: int)
    requires 0 <= key < 256
    ensures WordBytes(key * 0x101) == [key, key]
  {
    var w := key * 0x101;
    assert w == key + 256 * key;
    assert w % 256 == key;
    assert w / 256 == key;
  }

  /** Splitting `lo + 0x10000 * hi` back into its two halves. */
  lemma SplitDword(x: int, lo: int, hi: int)
    requires 0 <= lo < 0x1_0000 && x == lo + 0x1_0000 * hi
    ensures x % 0x1_0000 == lo && x / 0x1_0000 == hi
  {
  }

  lemma SplitReplicated(key: int)
    requires 0 <= key < 256
    ensures (key * 0x101_0101) % 0x1_0000 == key * 0x101
    ensures (key * 0x101_0101) / 0x1_0000 == key * 0x101
  {
    var w := key * 0x101;
    assert key * 0x101_0101 == w + 0x1_0000 * w;
    SplitDword(key * 0x101_0101, w, w);
  }

  /** For a byte key the word and double-word keys replicate it. */
  lemma KeyReplication(key: int)
    requires 0 <= key < 256
    ensures WordBytes(WordKey(key)) == [key, key]
    ensures DwordBytes(DwordKey(key)) == [key, key, key, key]
  {
    WordKeyOfByte(key);
    WordBytesOfReplicated(key);
    DwordKeyOfByte(key);
    SplitReplicated(key);
    var m := DwordKey(key) % 0x1_0000_0000;
    assert m == key * 0x101_0101;
    assert DwordBytes(DwordKey(key)) == WordBytes(m % 0x1_0000) + WordBytes(m / 0x1_0000);
  }

  // ---------------------------------------------------------------------
  // Offsets

  /** A stored offset after decryption: XOR with the double-word key, then
      moved back by the 15 password bytes the decrypted file no longer has. */
  function FixOffset(raw: int, xorD: int): int
  {
    Xor(raw, xorD) - MaxPasswordLength
  }

  /** The stored form FixOffset undoes. */
  function ProtectOffset(offset: int, xorD: int): int
  {
    Xor(offset + MaxPasswordLength, xorD)
  }

  lemma FixOffsetUndoesProtection(offset: int, xorD: int)
    ensures FixOffset(ProtectOffset(offset, xorD), xorD) == offset
  {
    XorSelfInverse(offset + MaxPasswordLength, xorD);
  }

  // ---------------------------------------------------------------------
  // Streaming decryption: specification

  /** How far a decryption step got: whether it completed, where the source
      position ended, and the bytes it wrote. */
  datatype Progress = Progress(ok: bool, pos: int, out: seq<int>)

  /** decrypt_block over `len` bytes of `data` from `pos`, in chunks of at
      most DecryptBufferSize. A chunk that cannot be read whole stops the
      block. */
  function BlockSpec(data: seq<int>, pos: int, len: int, key: int): (r: Progress)
    requires pos >= 0
    ensures r.pos >= pos
    ensures AllBytes(r.out)
    decreases len
  {
    if len <= 0 then Progress(true, pos, [])
    else
      var n := if len < DecryptBufferSize then len else DecryptBufferSize;
      if pos + n <= |data| then
        var rest := BlockSpec(data, pos + n, len - n, key);
        Progress(rest.ok, rest.pos, XorBytes(data[pos..pos + n], key) + rest.out)
      else
        Progress(false, ReadAt(data, pos, n).1, [])
  }

  /** Progress `r` preceded by the bytes `w` already written. */
  function Prepend(w: seq<int>, r: Progress): Progress
  {
    Progress(r.ok, r.pos, w + r.out)
  }

  lemma PrependTwice(w: seq<int>, c: seq<int>, r: Progress)
    ensures Prepend(w, Prepend(c, r)) == Prepend(w + c, r)
  {
    assert w + (c + r.out) == (w + c) + r.out;
  }

  lemma PrependNothing(w: seq<int>, pos: int)
    ensures Prepend(w, Progress(true, pos, [])) == Progress(true, pos, w)
  {
    assert w + [] == w;
  }

  /** One chunk of decrypt_block read whole. */
  lemma BlockSpecStep(data: seq<int>, pos: int, len: int, n: int, key: int)
    requires pos >= 0 && len > 0 && n == (if len < DecryptBufferSize then len else DecryptBufferSize)
    requires pos + n <= |data|
    ensures BlockSpec(data, pos, len, key) ==
      Prepend(XorBytes(data[pos..pos + n], key), BlockSpec(data, pos + n, len - n, key))
  {
  }

  /** Decrypting a slice is decrypting its two halves. */
  lemma XorSlices(data: seq<int>, i: int, j: int, k: int, key: int)
    requires 0 <= i <= j <= k <= |data|
    ensures XorBytes(data[i..k], key) == XorBytes(data[i..j], key) + XorBytes(data[j..k], key)
  {
    assert data[i..k] == data[i..j] + data[j..k];
    XorBytesAppend(data[i..j], data[j..k], key);
  }

  /** The progress of a block after one more whole chunk is read. */
  lemma BlockSpecAdvance(data: seq<int>, pos: int, len: int, n: int, key: int, written: seq<int>)
    requires pos >= 0 && len > 0 && n == (if len < DecryptBufferSize then len else DecryptBufferSize)
    requires pos + n <= |data|
    ensures Prepend(written, BlockSpec(data, pos, len, key)) ==
      Prepend(written + XorBytes(data[pos..pos + n], key), BlockSpec(data, pos + n, len - n, key))
  {
    var chunk := XorBytes(data[pos..pos + n], key);
    var rest := BlockSpec(data, pos + n, len - n, key);
    BlockSpecStep(data, pos, len, n, key);
    PrependTwice(written, chunk, rest);
  }

  /** A block that lies inside the file decrypts whole. */
  lemma {:induction false} BlockSpecInside(data: seq<int>, pos: int, len: int, key: int)
    requires 0 <= pos && 0 <= len && pos + len <= |data|
    ensures BlockSpec(data, pos, len, key) == Progress(true, pos + len, XorBytes(data[pos..pos + len], key))
    decreases len
  {
    if len > 0 {
      var n := if len < DecryptBufferSize then len else DecryptBufferSize;
      BlockSpecInside(data, pos + n, len - n, key);
      XorSlices(data, pos, pos + n, pos + len, key);
    }
  }

  lemma ChunkMultiple(m: int)
    requires m % DecryptBufferSize == 0
    ensures (DecryptBufferSize + m) % DecryptBufferSize == 0
  {
  }

  /** A block running past the end fails at the end of the file, having
      written only whole chunks. */
  lemma {:induction false} BlockSpecTruncated(data: seq<int>, pos: int, len: int, key: int)
    requires 0 <= pos <= |data| && pos + len > |data|
    ensures var r := BlockSpec(data, pos, len, key);
      !r.ok && r.pos == |data| && |r.out| % DecryptBufferSize == 0 && |r.out| <= |data| - pos
    decreases len
  {
    var n := if len < DecryptBufferSize then len else DecryptBufferSize;
    var r := BlockSpec(data, pos, len, key);
    if pos + n <= |data| {
      assert n == DecryptBufferSize;
      var rest := BlockSpec(data, pos + n, len - n, key);
      BlockSpecTruncated(data, pos + n, len - n, key);
      assert r == Progress(rest.ok, rest.pos, XorBytes(data[pos..pos + n], key) + rest.out);
      ChunkMultiple(|rest.out|);
    } else {
      assert r == Progress(false, |data|, []);
    }
  }

  /** What a truncated block wrote is the decryption of the bytes it read. */
  lemma {:induction false} BlockSpecTruncatedOutput(data: seq<int>, pos: int, len: int, key: int)
    requires 0 <= pos <= |data| && pos + len > |data|
    ensures var r := BlockSpec(data, pos, len, key);
      pos + |r.out| <= |data| && r.out == XorBytes(data[pos..pos + |r.out|], key)
    decreases len
  {
    var n := if len < DecryptBufferSize then len else DecryptBufferSize;
    var r := BlockSpec(data, pos, len, key);
    if pos + n <= |data| {
      var rest := BlockSpec(data, pos + n, len - n, key);
      BlockSpecTruncatedOutput(data, pos + n, len - n, key);
      var head := XorBytes(data[pos..pos + n], key);
      assert r.out == head + rest.out;
      var m := |rest.out|;
      assert |head| == n && |r.out| == n + m;
      XorSlices(data, pos, pos + n, pos + n + m, key);
    } else {
      assert r.out == [];
    }
  }

  /** decrypt_and_fix_offset: an unreadable offset (EOF) stops the decryption. */
  function FixOffsetSpec(data: seq<int>, pos: int, xorD: int): (r: Progress)
    requires AllBytes(data) && pos >= 0
    ensures r.pos >= pos
    ensures AllBytes(r.out)
  {
    var (raw, p) := GetDAt(data, pos);
    if raw == EOF then Progress(false, p, [])
    else Progress(true, p, DwordBytes(FixOffset(raw, xorD)))
  }

  /** One entry of the board table: the board length XORed with the
      double-word key, then its offset fixed. */
  function BoardEntrySpec(data: seq<int>, pos: int, xorD: int): (r: Progress)
    requires AllBytes(data) && pos >= 0
    ensures r.pos >= pos
    ensures AllBytes(r.out)
  {
    var (len, p1) := GetDAt(data, pos);
    var offset := FixOffsetSpec(data, p1, xorD);
    Progress(offset.ok, offset.pos, DwordBytes(Xor(len, xorD)) + offset.out)
  }

  /** The board length/offset table; an unreadable offset stops it. */
  function BoardTableSpec(data: seq<int>, pos: int, count: int, xorD: int): (r: Progress)
    requires AllBytes(data) && pos >= 0
    ensures r.pos >= pos
    ensures AllBytes(r.out)
    decreases if count > 0 then count else 0
  {
    if count <= 0 then Progress(true, pos, [])
    else
      var entry := BoardEntrySpec(data, pos, xorD);
      if !entry.ok then entry
      else Prepend(entry.out, BoardTableSpec(data, entry.pos, count - 1, xorD))
  }

  /** The board names, the length/offset table and the rest of the file. */
  function BoardsSpec(data: seq<int>, pos: int, numBoards: int, key: int): (r: seq<int>)
    requires AllBytes(data) && pos >= 0
    ensures AllBytes(r)
  {
    var names := BlockSpec(data, pos, LegacyBoardNameSize * numBoards, key);
    if !names.ok then names.out
    else names.out + TableAndRestSpec(data, names.pos, numBoards, key)
  }

  /** The board table, then everything after it as one block. */
  function TableAndRestSpec(data: seq<int>, pos: int, numBoards: int, key: int): (r: seq<int>)
    requires AllBytes(data) && pos >= 0
    ensures AllBytes(r)
  {
    AfterTable(data, BoardTableSpec(data, pos, numBoards, DwordKey(key)), key)
  }

  /** The board table's output and, when the table was read whole, the
      rest of the file decrypted as one block. */
  function AfterTable(data: seq<int>, table: Progress, key: int): (r: seq<int>)
    requires table.pos >= 0 && AllBytes(table.out)
    ensures AllBytes(r)
  {
    if !table.ok then table.out
    else table.out + BlockSpec(data, table.pos, |data| - table.pos, key).out
  }

  lemma AfterTableRead(data: seq<int>, table: Progress, key: int, i: int, left: int)
    requires table.pos >= 0 && AllBytes(table.out) && table.ok
    requires i == table.pos && left == |data| - i
    ensures AfterTable(data, table, key) == table.out + BlockSpec(data, i, left, key).out
  {
  }

  /** After a zero board count: the SFX length and table, then the real
      board count and the boards. */
  function SfxSpec(data: seq<int>, pos: int, key: int): (r: seq<int>)
    requires AllBytes(data) && pos >= 0
    ensures AllBytes(r)
  {
    var (w, p1) := GetWAt(data, pos);
    var sfxLength := Xor(w, WordKey(key));
    var sfx := BlockSpec(data, p1, sfxLength, key);
    if !sfx.ok then WordBytes(sfxLength) + sfx.out
    else
      var (c, p2) := GetCAt(data, sfx.pos);
      var numBoards := Xor(c, key);
      WordBytes(sfxLength) + sfx.out + [Low8(numBoards)] + BoardsSpec(data, p2, numBoards, key)
  }

  /** Everything from the board count on: the optional SFX table (present
      when the first count byte decrypts to zero), then the boards. */
  function TailSpec(data: seq<int>, pos: int, key: int): (r: seq<int>)
    requires AllBytes(data) && pos >= 0
    ensures AllBytes(r)
  {
    var (c, p1) := GetCAt(data, pos);
    var numBoards := Xor(c, key);
    if numBoards != 0 then [Low8(numBoards)] + BoardsSpec(data, p1, numBoards, key)
    else [Low8(numBoards)] + SfxSpec(data, p1, key)
  }

  /** The key a protected file's header derives. */
  function FileKey(file: seq<int>): int
    requires AllBytes(file) && |file| >= 44
  {
    var proMethod := Signed8(file[LegacyBoardNameSize]);
    PwXorCode(NormalizedPassword(file[26..41], proMethod), proMethod)
  }

  /** What decrypt() writes after the 44-byte header: the world blocks,
      the global robot offset, then the tail, each only if the one before
      could be read whole. */
  function BodySpec(data: seq<int>, pos: int, key: int): (r: seq<int>)
    requires AllBytes(data) && pos >= 0
    ensures AllBytes(r)
  {
    var block := BlockSpec(data, pos, WorldBlock1Size + WorldBlock2Size, key);
    if !block.ok then block.out
    else
      var global := FixOffsetSpec(data, block.pos, DwordKey(key));
      if !global.ok then block.out
      else block.out + global.out + TailSpec(data, global.pos, key)
  }

  /** The new contents of the world file after decrypt(): unchanged when no
      backup could be written or the file cannot be reopened for writing;
      empty when the header cannot be read; otherwise the title, a zero
      protection byte, the magic "M\x02\x11" and the decrypted remainder,
      as far as the source could be read. */
  function DecryptedFile(file: seq<int>, backupOk: bool, writable: bool): (r: seq<int>)
    requires AllBytes(file)
    ensures AllBytes(r)
  {
    if !backupOk || !writable then file
    else if |file| < 44 then []
    else file[..LegacyBoardNameSize] + [0, 'M' as int, 2, 0x11] + BodySpec(file, 44, FileKey(file))
  }

  /** A decryption that got past the 44-byte header leaves an unprotected
      file: same title, protection byte 0, and the magic of version 2.11. */
  lemma DecryptedFileIsUnprotected(file: seq<int>)
    requires AllBytes(file) && |file| >= 44
    ensures var out := DecryptedFile(file, true, true);
      |out| >= 29 && out[..25] == file[..25] && out[25] == 0 && out[26..29] == ['M' as int, 2, 0x11]
  {
  }

  // ---------------------------------------------------------------------
  // Streaming decryption: the imperative decryptor

  /** The state of decrypt(): the backup being read, the world file being
      written, the chunk buffer and the three keys. */
  class Decryption {
    const source: CFile
    const buffer: array<int>
    const xorVal: int
    const xorW: int
    const xorD: int
    var dest: seq<int>

    ghost predicate Valid()
      reads this, source
    {
      source.Valid() && buffer.Length == DecryptBufferSize
    }

    /** The decryptor of `src` under `key`, with the output holding `head`. */
    constructor (src: CFile, key: int, head: seq<int>)
      requires src.Valid()
      ensures Valid() && source == src && dest == head && fresh(buffer)
      ensures xorVal == key && xorW == WordKey(key) && xorD == DwordKey(key)
    {
      source := src;
      buffer := new int[DecryptBufferSize];
      xorVal := key;
      xorW := WordKey(key);
      xorD := DwordKey(key);
      dest := head;
    }

    /** XOR the first `len` buffer bytes with the key, in place. */
    method XorBuffer(len: int)
      requires Valid() && 0 <= len <= buffer.Length
      modifies buffer
      ensures buffer[..len] == XorBytes(old(buffer[..len]), xorVal)
    {
      XorBytesAt(buffer[..len], xorVal);
      for i := 0 to len
        invariant forall k :: 0 <= k < i ==> buffer[k] == XorKeyByte(old(buffer[k]), xorVal)
        invariant forall k :: i <= k < len ==> buffer[k] == old(buffer[k])
      {
        buffer[i] := XorKeyByte(buffer[i], xorVal);
      }
    }

    /** Read one chunk into the buffer, decrypt it and append it to the output. */
    method DecryptChunk(len: int) returns (ok: bool)
      requires Valid() && 0 < len <= DecryptBufferSize
      modifies this, source, buffer
      ensures Valid()
      ensures ok <==> old(source.pos) + len <= |source.data|
      ensures source.pos == ReadAt(source.data, old(source.pos), len).1
      ensures ok ==> dest == old(dest) + XorBytes(source.data[old(source.pos)..old(source.pos) + len], xorVal)
      ensures !ok ==> dest == old(dest)
    {
      var read, bytes := source.Read(len);
      if !read {
        return false;
      }
      forall k | 0 <= k < len {
        buffer[k] := bytes[k];
      }
      assert buffer[..len] == bytes;
      XorBuffer(len);
      dest := dest + buffer[..len];
      ok := true;
    }

    /** decrypt_block. */
    method DecryptBlock(blockLen: int) returns (ok: bool)
      requires Valid()
      modifies this, source, buffer
      ensures Valid()
      ensures var r := BlockSpec(source.data, old(source.pos), blockLen, xorVal);
        ok == r.ok && source.pos == r.pos && dest == old(dest) + r.out
    {
      var remaining := blockLen;
      ghost var written: seq<int> := [];
      ghost var spec := BlockSpec(source.data, source.pos, blockLen, xorVal);
      assert spec == Prepend(written, spec);
      while remaining > 0
        invariant Valid()
        invariant dest == old(dest) + written
        invariant spec == Prepend(written, BlockSpec(source.data, source.pos, remaining, xorVal))
        decreases remaining
      {
        var len := if remaining < DecryptBufferSize then remaining else DecryptBufferSize;
        ghost var before := source.pos;
        ok := DecryptChunk(len);
        if !ok {
          assert BlockSpec(source.data, before, remaining, xorVal) == Progress(false, source.pos, []);
          assert written + [] == written;
          return;
        }
        assert source.pos == before + len;
        ghost var chunk := XorBytes(source.data[before..before + len], xorVal);
        BlockSpecAdvance(source.data, before, remaining, len, xorVal, written);
        Assoc(old(dest), written, chunk);
        remaining := remaining - len;
        written := written + chunk;
      }
      PrependNothing(written, source.pos);
      ok := true;
    }

    /** decrypt_and_fix_offset. */
    method DecryptAndFixOffset() returns (ok: bool)
      requires Valid()
      modifies this, source
      ensures Valid()
      ensures var r := FixOffsetSpec(source.data, old(source.pos), xorD);
        ok == r.ok && source.pos == r.pos && dest == old(dest) + r.out
    {
      var offset := source.GetD();
      if offset == EOF {
        return false;
      }
      offset := Xor(offset, xorD);
      offset := offset - MaxPasswordLength;
      dest := dest + DwordBytes(offset);
      ok := true;
    }

    /** One board-table entry: the length, then the offset. */
    method DecryptBoardEntry() returns (ok: bool)
      requires Valid()
      modifies this, source
      ensures Valid()
      ensures var r := BoardEntrySpec(source.data, old(source.pos), xorD);
        ok == r.ok && source.pos == r.pos && dest == old(dest) + r.out
    {
      var boardLength := source.GetD();
      boardLength := Xor(boardLength, xorD);
      dest := dest + DwordBytes(boardLength);
      ok := DecryptAndFixOffset();
    }

    /** The loop over the board length/offset table. */
    method DecryptBoardTable(numBoards: int) returns (ok: bool)
      requires Valid()
      modifies this, source
      ensures Valid()
      ensures var r := BoardTableSpec(source.data, old(source.pos), numBoards, xorD);
        ok == r.ok && source.pos == r.pos && dest == old(dest) + r.out
    {
      var i := 0;
      ghost var written: seq<int> := [];
      ghost var spec := BoardTableSpec(source.data, source.pos, numBoards, xorD);
      assert spec == Prepend(written, spec);
      while i < numBoards
        invariant Valid()
        invariant dest == old(dest) + written
        invariant spec == Prepend(written, BoardTableSpec(source.data, source.pos, numBoards - i, xorD))
        decreases numBoards - i
      {
        ghost var entry := BoardEntrySpec(source.data, source.pos, xorD);
        ghost var table := BoardTableSpec(source.data, source.pos, numBoards - i, xorD);
        ok := DecryptBoardEntry();
        Assoc(old(dest), written, entry.out);
        if !ok {
          assert table == entry;
          return;
        }
        ghost var rest := BoardTableSpec(source.data, source.pos, numBoards - i - 1, xorD);
        assert table == Prepend(entry.out, rest);
        PrependTwice(written, entry.out, rest);
        written := written + entry.out;
        i := i + 1;
      }
      PrependNothing(written, source.pos);
      ok := true;
    }

    /** Board names, the board table and the rest of the file. */
    method DecryptBoards(numBoards: int)
      requires Valid() && xorD == DwordKey(xorVal)
      modifies this, source, buffer
      ensures Valid()
      ensures dest == old(dest) + BoardsSpec(source.data, old(source.pos), numBoards, xorVal)
    {
      ghost var d0 := dest;
      ghost var names := BlockSpec(source.data, source.pos, LegacyBoardNameSize * numBoards, xorVal);
      var ok := DecryptBlock(LegacyBoardNameSize * numBoards);
      if !ok {
        return;
      }
      ghost var rest := TableAndRestSpec(source.data, source.pos, numBoards, xorVal);
      DecryptTableAndRest(numBoards);
      Assoc(d0, names.out, rest);
    }

    /** The board table, then the rest of the file as one block. */
    method DecryptTableAndRest(numBoards: int)
      requires Valid() && xorD == DwordKey(xorVal)
      modifies this, source, buffer
      ensures Valid()
      ensures dest == old(dest) + TableAndRestSpec(source.data, old(source.pos), numBoards, xorVal)
    {
      ghost var d0 := dest;
      ghost var data := source.data;
      ghost var table := BoardTableSpec(data, source.pos, numBoards, xorD);
      ghost var spec := TableAndRestSpec(data, source.pos, numBoards, xorVal);
      assert spec == AfterTable(data, table, xorVal);
      var ok := DecryptBoardTable(numBoards);
      if !ok {
        return;
      }
      var i := source.pos;
      var left := |source.data| - i;
      ok := DecryptBlock(left);
      AfterTableRead(data, table, xorVal, i, left);
      Assoc(d0, table.out, BlockSpec(data, i, left, xorVal).out);
    }

    /** The SFX length and table, then the real board count and the boards. */
    method DecryptSfx()
      requires Valid() && xorW == WordKey(xorVal) && xorD == DwordKey(xorVal)
      modifies this, source, buffer
      ensures Valid()
      ensures dest == old(dest) + SfxSpec(source.data, old(source.pos), xorVal)
    {
      ghost var d0 := dest;
      var sfxLength := source.GetW();
      sfxLength := Xor(sfxLength, xorW);
      dest := dest + WordBytes(sfxLength);
      ghost var sfx := BlockSpec(source.data, source.pos, sfxLength, xorVal);
      var ok := DecryptBlock(sfxLength);
      Assoc(d0, WordBytes(sfxLength), sfx.out);
      if !ok {
        return;
      }
      var numBoards := source.GetC();
      numBoards := Xor(numBoards, xorVal);
      dest := dest + [Low8(numBoards)];
      ghost var boards := BoardsSpec(source.data, source.pos, numBoards, xorVal);
      DecryptBoards(numBoards);
      Assoc(d0, WordBytes(sfxLength) + sfx.out, [Low8(numBoards)]);
      Assoc(d0, WordBytes(sfxLength) + sfx.out + [Low8(numBoards)], boards);
    }

    /** Everything decrypt() writes after the header. */
    method DecryptBody()
      requires Valid() && xorW == WordKey(xorVal) && xorD == DwordKey(xorVal)
      modifies this, source, buffer
      ensures Valid()
      ensures dest == old(dest) + BodySpec(source.data, old(source.pos), xorVal)
    {
      ghost var d0 := dest;
      ghost var block := BlockSpec(source.data, source.pos, WorldBlock1Size + WorldBlock2Size, xorVal);
      var ok := DecryptBlock(WorldBlock1Size + WorldBlock2Size);
      if !ok {
        return;
      }
      ghost var global := FixOffsetSpec(source.data, source.pos, xorD);
      ok := DecryptAndFixOffset();
      if !ok {
        assert global.out == [];
        assert dest == d0 + block.out + [];
        return;
      }
      ghost var tail := TailSpec(source.data, source.pos, xorVal);
      DecryptTail();
      Assoc(d0, block.out, global.out);
      Assoc(d0, block.out + global.out, tail);
    }

    /** The board count, the optional SFX table, then the boards. */
    method DecryptTail()
      requires Valid() && xorW == WordKey(xorVal) && xorD == DwordKey(xorVal)
      modifies this, source, buffer
      ensures Valid()
      ensures dest == old(dest) + TailSpec(source.data, old(source.pos), xorVal)
    {
      ghost var d0 := dest;
      var numBoards := source.GetC();
      numBoards := Xor(numBoards, xorVal);
      dest := dest + [Low8(numBoards)];
      ghost var p1 := source.pos;
      if numBoards == 0 {
        DecryptSfx();
        Assoc(d0, [Low8(numBoards)], SfxSpec(source.data, p1, xorVal));
      } else {
        DecryptBoards(numBoards);
        Assoc(d0, [Low8(numBoards)], BoardsSpec(source.data, p1, numBoards, xorVal));
      }
    }
  }

  lemma Assoc(d: seq<int>, a: seq<int>, b: seq<int>)
    ensures d + a + b == d + (a + b)
  {
  }

  /** decrypt(): rewrite a protected world file from its backup.
      `backupOk` stands for writing the ".locked"/".LCK" backup and reopening
      it; `writable` for reopening the world file for writing. */
  method Decrypt(file: seq<int>, backupOk: bool, writable: bool) returns (newFile: seq<int>)
    requires AllBytes(file)
    ensures newFile == DecryptedFile(file, backupOk, writable)
  {
    if !backupOk || !writable {
      return file;
    }
    var source := new CFile.Open(file);
    var ok, header := source.Read(44);
    if !ok {
      return [];
    }
    assert header == file[..44];
    assert header[26..41] == file[26..41];
    var key := HeaderKey(header);
    var data := new Decryption(source, key, header[..LegacyBoardNameSize] + [0, 'M' as int, 2, 0x11]);
    data.DecryptBody();
    newFile := data.dest;
  }

  /** The password normalisation and get_pw_xor_code on a read header. */
  method HeaderKey(header: seq<int>) returns (key: int)
    requires |header| == 44 && AllBytes(header)
    ensures key == FileKey(header)
  {
    var proMethod := Signed8(header[LegacyBoardNameSize]);
    var password := new int[MaxPasswordLength](i requires 0 <= i < MaxPasswordLength => header[26 + i]);
    assert password[..] == header[26..41];
    NormalizePassword(password, proMethod);
    key := GetPwXorCode(password, proMethod);
  }
}
