/**
 * Bytes of the row image and the integer readings of byte runs: the
 * little-endian `uintNkorr` macros of the MySQL client headers, the
 * signed-`char` and signed-`short` loads, and big-endian folding.
 */
module Bytes {
  import opened Arith

  type byte = b: int | 0 <= b < 256

  /** Unsigned value of s read least significant byte first. */
  function LittleEndian(s: seq<byte>): nat
  {
    if s == [] then 0 else s[0] + 256 * LittleEndian(s[1..])
  }

  /** Unsigned value of s read most significant byte first. */
  function BigEndian(s: seq<byte>): nat
  {
    if s == [] then 0 else BigEndian(s[..|s| - 1]) * 256 + s[|s| - 1]
  }

  function Reversed(s: seq<byte>): (r: seq<byte>)
    ensures |r| == |s|
    ensures forall i :: 0 <= i < |s| ==> r[i] == s[|s| - 1 - i]
  {
    if s == [] then [] else Reversed(s[1..]) + [s[0]]
  }

  function Zeros(n: nat): (r: seq<byte>)
    ensures |r| == n && forall i :: 0 <= i < n ==> r[i] == 0
  {
    if n == 0 then [] else Zeros(n - 1) + [0]
  }

  /** The n-byte little-endian encoding of x (x mod 256^n). */
  function LittleEndianBytes(x: nat, n: nat): (r: seq<byte>)
    ensures |r| == n
  {
    if n == 0 then [] else [x % 256] + LittleEndianBytes(x / 256, n - 1)
  }

  /** The n-byte big-endian encoding of x (x mod 256^n). */
  function BigEndianBytes(x: nat, n: nat): (r: seq<byte>)
    ensures |r| == n
  {
    if n == 0 then [] else BigEndianBytes(x / 256, n - 1) + [x % 256]
  }

  // ---- the MySQL readers used by field.cpp ----

  /** uint2korr: two bytes, low byte first. */
  function Uint2Korr(b: seq<byte>): (r: nat)
    requires |b| >= 2
    ensures r < 0x1_0000
  {
    b[0] as int + b[1] as int * 0x100
  }

  /** uint3korr: three bytes, low byte first. */
  function Uint3Korr(b: seq<byte>): (r: nat)
    requires |b| >= 3
    ensures r < 0x100_0000
  {
    b[0] as int + b[1] as int * 0x100 + b[2] as int * 0x1_0000
  }

  /** uint4korr: four bytes, low byte first. */
  function Uint4Korr(b: seq<byte>): (r: nat)
    requires |b| >= 4
    ensures r < 0x1_0000_0000
  {
    b[0] as int + b[1] as int * 0x100 + b[2] as int * 0x1_0000 + b[3] as int * 0x100_0000
  }

  /** uint8korr: the low 32-bit word plus the high 32-bit word shifted by 32. */
  function Uint8Korr(b: seq<byte>): (r: nat)
    requires |b| >= 8
    ensures r < 0x1_0000_0000_0000_0000
  {
    Uint4Korr(b) + Uint4Korr(b[4..]) * 0x1_0000_0000
  }

  /** sint2korr: two bytes, low byte first, as a signed 16-bit value. */
  function SInt2Korr(b: seq<byte>): int
    requires |b| >= 2
  {
    SignedShort(Uint2Korr(b))
  }

  /** A `char` load on a platform where `char` is signed (two's complement). */
  function SignedChar(b: byte): int
  {
    if b < 0x80 then b else b - 0x100
  }

  /** A 16-bit pattern read as `short` (two's complement). */
  function SignedShort(u: nat): int
    requires u < 0x1_0000
  {
    if u < 0x8000 then u else u - 0x1_0000
  }

  /** Conversion to `unsigned short`. */
  function ToUnsignedShort(x: int): nat
  {
    x % 0x1_0000
  }

  // ---- properties ----

  lemma {:induction false} LittleEndianBound(s: seq<byte>)
    ensures LittleEndian(s) < Pow256(|s|)
  {
    if s != [] {
      LittleEndianBound(s[1..]);
    }
  }

  lemma {:induction false} BigEndianBound(s: seq<byte>)
    ensures BigEndian(s) < Pow256(|s|)
  {
    if s != [] {
      BigEndianBound(s[..|s| - 1]);
    }
  }

  /** At most eight bytes fit a `ulonglong`. */
  lemma BigEndianFitsWord(s: seq<byte>)
    requires |s| <= 8
    ensures BigEndian(s) < TWO_64
  {
    BigEndianBound(s);
    Pow256Monotone(|s|, 8);
    assert Pow256(8) == TWO_64;
  }

  /** Big-endian reading of a concatenation: the first part is the high part. */
  lemma {:induction false} BigEndianAppend(a: seq<byte>, b: seq<byte>)
    ensures BigEndian(a + b) == BigEndian(a) * Pow256(|b|) + BigEndian(b)
  {
    if b == [] {
      assert a + b == a;
    } else {
      var b' := b[..|b| - 1];
      assert (a + b)[..|a + b| - 1] == a + b';
      BigEndianAppend(a, b');
    }
  }

  /** Reading the reversed bytes little-endian is reading the bytes big-endian. */
  lemma {:induction false} LittleEndianOfReversed(s: seq<byte>)
    ensures LittleEndian(Reversed(s)) == BigEndian(s)
  {
    if s != [] {
      var init := s[..|s| - 1];
      assert Reversed(s) == [s[|s| - 1]] + Reversed(init);
      LittleEndianOfReversed(init);
      assert Reversed(s)[1..] == Reversed(init);
    }
  }

  /** High zero bytes do not change a little-endian value. */
  lemma {:induction false} LittleEndianZeroPad(s: seq<byte>, n: nat)
    ensures LittleEndian(s + Zeros(n)) == LittleEndian(s)
  {
    if s == [] {
      LittleEndianOfZeros(n);
      assert s + Zeros(n) == Zeros(n);
    } else {
      assert (s + Zeros(n))[1..] == s[1..] + Zeros(n);
      LittleEndianZeroPad(s[1..], n);
    }
  }

  lemma {:induction false} LittleEndianOfZeros(n: nat)
    ensures LittleEndian(Zeros(n)) == 0
  {
    if n > 0 {
      assert Zeros(n)[1..] == Zeros(n - 1);
      LittleEndianOfZeros(n - 1);
    }
  }

  /** Encoding then reading little-endian gives the value back. */
  lemma {:induction false} LittleEndianRoundTrip(x: nat, n: nat)
    requires x < Pow256(n)
    ensures LittleEndian(LittleEndianBytes(x, n)) == x
  {
    if n > 0 {
      assert LittleEndianBytes(x, n)[1..] == LittleEndianBytes(x / 256, n - 1);
      LittleEndianRoundTrip(x / 256, n - 1);
    }
  }

  /** Encoding then reading big-endian gives the value back. */
  lemma {:induction false} BigEndianRoundTrip(x: nat, n: nat)
    requires x < Pow256(n)
    ensures BigEndian(BigEndianBytes(x, n)) == x
  {
    if n > 0 {
      var s := BigEndianBytes(x, n);
      assert s[..|s| - 1] == BigEndianBytes(x / 256, n - 1);
      BigEndianRoundTrip(x / 256, n - 1);
    }
  }

  /** Reading bytes big-endian then encoding them at the same width gives the
      bytes back: every byte run is the encoding of its value. */
  lemma {:induction false} BigEndianBytesOfBigEndian(s: seq<byte>)
    ensures BigEndianBytes(BigEndian(s), |s|) == s
  {
    if s != [] {
      var init := s[..|s| - 1];
      DivModOfSum(BigEndian(init), s[|s| - 1], 256);
      BigEndianBytesOfBigEndian(init);
    }
  }

  /** The uintNkorr macros read exactly the little-endian value of their N bytes. */
  lemma KorrIsLittleEndian(b: seq<byte>)
    ensures |b| >= 2 ==> Uint2Korr(b) == LittleEndian(b[..2])
    ensures |b| >= 3 ==> Uint3Korr(b) == LittleEndian(b[..3])
    ensures |b| >= 4 ==> Uint4Korr(b) == LittleEndian(b[..4])
    ensures |b| >= 8 ==> Uint8Korr(b) == LittleEndian(b[..8])
  {
    if |b| >= 2 {
      var p := b[..2] + Zeros(2);
      Korr4(p);
      assert p[..4] == p;
      LittleEndianZeroPad(b[..2], 2);
    }
    if |b| >= 3 {
      var p := b[..3] + Zeros(1);
      Korr4(p);
      assert p[..4] == p;
      LittleEndianZeroPad(b[..3], 1);
    }
    if |b| >= 4 {
      Korr4(b);
    }
    if |b| >= 8 {
      Korr4(b);
      Korr4(b[4..]);
      assert b[4..][..4] == b[4..8];
      LittleEndianSplit(b[..8], 4);
      assert b[..8][..4] == b[..4];
      assert b[..8][4..] == b[4..8];
      assert Pow256(4) == 0x1_0000_0000;
    }
  }

  lemma Korr4(b: seq<byte>)
    requires |b| >= 4
    ensures Uint4Korr(b) == LittleEndian(b[..4])
  {
    LittleEndianPrefixStep(b, 1);
    LittleEndianPrefixStep(b, 2);
    LittleEndianPrefixStep(b, 3);
    LittleEndianPrefixStep(b, 4);
    assert b[..0] == [];
    assert Pow256(1) == 0x100 && Pow256(2) == 0x1_0000 && Pow256(3) == 0x100_0000;
  }

  /** Adding one more high byte to a little-endian prefix. */
  lemma LittleEndianPrefixStep(b: seq<byte>, k: nat)
    requires 1 <= k <= |b|
    ensures LittleEndian(b[..k]) == LittleEndian(b[..k - 1]) + Pow256(k - 1) * b[k - 1]
  {
    var s := b[..k];
    LittleEndianSplit(s, k - 1);
    assert s[..k - 1] == b[..k - 1];
    assert s[k - 1..] == [b[k - 1]];
    assert [b[k - 1]][1..] == [];
  }

  /** Little-endian reading of s split after k bytes. */
  lemma {:induction false} LittleEndianSplit(s: seq<byte>, k: nat)
    requires k <= |s|
    ensures LittleEndian(s) == LittleEndian(s[..k]) + Pow256(k) * LittleEndian(s[k..])
  {
    if k > 0 {
      var t := s[1..];
      assert t[..k - 1] == s[1..k];
      assert t[k - 1..] == s[k..];
      assert s[..k][1..] == s[1..k];
      LittleEndianSplit(t, k - 1);
      var lo, hi := LittleEndian(s[1..k]), LittleEndian(s[k..]);
      assert LittleEndian(s) == s[0] + 256 * (lo + Pow256(k - 1) * hi);
      assert LittleEndian(s[..k]) == s[0] + 256 * lo;
      Distribute(s[0], lo, hi, Pow256(k - 1));
    }
  }

  lemma Distribute(b: int, lo: int, hi: int, p: int)
    ensures b + 256 * (lo + p * hi) == (b + 256 * lo) + (256 * p) * hi
  {
  }

  /** The signed readings agree with the unsigned byte pattern modulo its width. */
  lemma TwosComplement(b: byte, u: nat)
    requires u < 0x1_0000
    ensures -0x80 <= SignedChar(b) < 0x80 && SignedChar(b) % 0x100 == b
    ensures -0x8000 <= SignedShort(u) < 0x8000 && SignedShort(u) % 0x1_0000 == u
  {
  }
}
