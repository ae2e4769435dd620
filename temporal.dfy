/**
 * The temporal layouts introduced by MySQL 5.6.4: how the fractional-seconds
 * precision sets the width, and how the decoders pull the hour, minute,
 * second, day and year-month fields out of the big-endian word.
 */
module Temporal {
  import opened Wrappers
  import opened Arith
  import opened Bytes

  /** The width switch of the 5.6 time, timestamp and datetime constructors:
      `base` bytes for whole seconds, plus 1, 2 or 3 bytes for 1-2, 3-4 or 5-6
      fractional digits; any other digit count is refused. */
  function FspLength(base: nat, digits: int): (r: Option<nat>)
    ensures r.Some? ==> base <= r.value <= base + 3
    ensures digits < 0 || digits > 6 ==> r.None?
  {
    if digits == 0 then Some(base)
    else if digits == 1 || digits == 2 then Some(base + 1)
    else if digits == 3 || digits == 4 then Some(base + 2)
    else if digits == 5 || digits == 6 then Some(base + 3)
    else None
  }

  /** The decimal reading of a packed time: seconds from bits 0-5, minutes from
      bits 6-11, hours from bits 12-21 of the top 24 bits of the n-byte word. It
      fits the `uint32` the source sums into. */
  function TimeDigits(buf: nat, n: nat): (r: nat)
    requires n >= 3
    ensures r < 0x1_0000_0000
  {
    Shr(buf, n * 8 - 24) % 64 * 1
    + Shr(buf, n * 8 - 18) % 64 * 100
    + Shr(buf, n * 8 - 12) % 1024 * 10000
  }

  /** The decimal reading of a packed datetime: seconds (6 bits), minutes (6),
      hours (5), day (5) and 13 * year + month (17) from the top 40 bits of the
      n-byte word. It fits the `ulonglong` the source sums into. */
  function DatetimeDigits(buf: nat, n: nat): (r: nat)
    requires n >= 5
    ensures r < TWO_64
  {
    var months := Shr(buf, n * 8 - 18) % 0x2_0000;
    Shr(buf, n * 8 - 40) % 64 * 1
    + Shr(buf, n * 8 - 34) % 64 * 100
    + Shr(buf, n * 8 - 28) % 32 * 10000
    + Shr(buf, n * 8 - 23) % 32 * 1000000
    + months % 13 * 100000000
    + months / 13 * 10000000000
  }

  /** HHMMSS as one number, the legacy TIME convention. */
  function TimeNumber(h: nat, m: nat, s: nat): nat
  {
    s + 100 * m + 10000 * h
  }

  /** YYYYMMDDHHMMSS as one number, the legacy DATETIME convention. */
  function DatetimeNumber(y: nat, mo: nat, d: nat, h: nat, mi: nat, s: nat): nat
  {
    s + 100 * mi + 10000 * h + 1000000 * d + 100000000 * mo + 10000000000 * y
  }

  /** The 24-bit header of a packed time: two flag bits, 10 bits of hours,
      6 of minutes, 6 of seconds. */
  function TimeHeader(flags: nat, h: nat, m: nat, s: nat): nat
  {
    ((flags * 1024 + h) * 64 + m) * 64 + s
  }

  /** The 40-bit header of a packed datetime: the sign bit, 17 bits of
      13 * year + month, 5 of day, 5 of hour, 6 of minute, 6 of second. */
  function DatetimeHeader(sign: nat, y: nat, mo: nat, d: nat, h: nat, mi: nat, s: nat): nat
  {
    ((((sign * 0x2_0000 + (y * 13 + mo)) * 32 + d) * 32 + h) * 64 + mi) * 64 + s
  }

  // ---- properties ----

  /** The switch gives base + ceil(digits / 2) bytes exactly for 0 <= digits <= 6. */
  lemma FspLengthIsHalfRoundedUp(base: nat, digits: int)
    ensures FspLength(base, digits).Some? <==> 0 <= digits <= 6
    ensures FspLength(base, digits).Some? ==> FspLength(base, digits).value == base + (digits + 1) / 2
  {
  }

  /** Shifting right past the |frac| trailing bytes leaves the leading header. */
  lemma ShrDropsTail(hdr: nat, k: nat, frac: seq<byte>)
    requires hdr < Pow256(k)
    ensures Shr(BigEndian(BigEndianBytes(hdr, k) + frac), 8 * |frac|) == hdr
  {
    ShrOfAppend(BigEndianBytes(hdr, k), frac);
    BigEndianRoundTrip(hdr, k);
  }

  /** The big-endian value of a + frac, shifted right past frac, is that of a. */
  lemma ShrOfAppend(a: seq<byte>, frac: seq<byte>)
    ensures Shr(BigEndian(a + frac), 8 * |frac|) == BigEndian(a)
  {
    BigEndianAppend(a, frac);
    BigEndianBound(frac);
    ShrOfSum(BigEndian(a), BigEndian(frac), |frac|);
  }

  /** Shifting right by 8n bits drops a low part below 256^n. */
  lemma ShrOfSum(hi: nat, lo: nat, n: nat)
    requires lo < Pow256(n)
    ensures Shr(hi * Pow256(n) + lo, 8 * n) == hi
  {
    Pow256IsPow2(n);
    DivModOfSum(hi, lo, Pow256(n));
  }

  /** A header shifted right by a, for the word that carries it in its top bytes. */
  lemma ShrOfWord(word: nat, hdr: nat, k: nat, a: nat)
    requires Shr(word, k) == hdr
    ensures Shr(word, k + a) == Shr(hdr, a)
  {
    ShrShr(word, k, a);
  }

  /** The time fields sit at bits 0, 6 and 12 of the header. */
  lemma TimeHeaderFields(flags: nat, h: nat, m: nat, s: nat)
    requires flags < 4 && h < 1024 && m < 64 && s < 64
    ensures TimeHeader(flags, h, m, s) < 0x100_0000
    ensures Shr(TimeHeader(flags, h, m, s), 0) % 64 == s
    ensures Shr(TimeHeader(flags, h, m, s), 6) % 64 == m
    ensures Shr(TimeHeader(flags, h, m, s), 12) % 1024 == h
  {
    var hdr := TimeHeader(flags, h, m, s);
    ShrShr(hdr, 6, 6);
    assert Pow2(0) == 1 && Pow2(6) == 64;
    DivModOfSum((flags * 1024 + h) * 64 + m, s, 64);
    DivModOfSum(flags * 1024 + h, m, 64);
    DivModOfSum(flags, h, 1024);
  }

  /** TimeDigits reads the fields of the header at the top of the word. */
  lemma TimeDigitsOfHeader(word: nat, hdr: nat, n: nat)
    requires n >= 3 && Shr(word, 8 * (n - 3)) == hdr
    ensures TimeDigits(word, n) == Shr(hdr, 0) % 64 + Shr(hdr, 6) % 64 * 100 + Shr(hdr, 12) % 1024 * 10000
  {
    var k := 8 * (n - 3);
    assert n * 8 - 24 == k && n * 8 - 18 == k + 6 && n * 8 - 12 == k + 12;
    ShrOfWord(word, hdr, k, 0);
    ShrOfWord(word, hdr, k, 6);
    ShrOfWord(word, hdr, k, 12);
  }

  /** Decoding a packed time whatever its flag bits and fractional bytes gives HHMMSS. */
  lemma TimeRoundTrip(flags: nat, h: nat, m: nat, s: nat, frac: seq<byte>)
    requires flags < 4 && h < 1024 && m < 64 && s < 64
    ensures TimeHeader(flags, h, m, s) < Pow256(3)
    ensures TimeDigits(BigEndian(BigEndianBytes(TimeHeader(flags, h, m, s), 3) + frac), 3 + |frac|)
            == TimeNumber(h, m, s)
  {
    var hdr := TimeHeader(flags, h, m, s);
    TimeHeaderFields(flags, h, m, s);
    assert Pow256(3) == 0x100_0000;
    ShrDropsTail(hdr, 3, frac);
    TimeDigitsOfHeader(BigEndian(BigEndianBytes(hdr, 3) + frac), hdr, 3 + |frac|);
  }

  /** The datetime fields sit at bits 0, 6, 12, 17 and 22 of the header. */
  lemma DatetimeHeaderFields(sign: nat, y: nat, mo: nat, d: nat, h: nat, mi: nat, s: nat)
    requires sign < 2 && y * 13 + mo < 0x2_0000 && mo < 13 && d < 32 && h < 32 && mi < 64 && s < 64
    ensures DatetimeHeader(sign, y, mo, d, h, mi, s) < 0x100_0000_0000
    ensures Shr(DatetimeHeader(sign, y, mo, d, h, mi, s), 0) % 64 == s
    ensures Shr(DatetimeHeader(sign, y, mo, d, h, mi, s), 6) % 64 == mi
    ensures Shr(DatetimeHeader(sign, y, mo, d, h, mi, s), 12) % 32 == h
    ensures Shr(DatetimeHeader(sign, y, mo, d, h, mi, s), 17) % 32 == d
    ensures Shr(DatetimeHeader(sign, y, mo, d, h, mi, s), 22) % 0x2_0000 == y * 13 + mo
  {
    var ym := y * 13 + mo;
    var hdr := DatetimeHeader(sign, y, mo, d, h, mi, s);
    var q22 := sign * 0x2_0000 + ym;
    var q17 := q22 * 32 + d;
    var q12 := q17 * 32 + h;
    var q6 := q12 * 64 + mi;
    assert q22 < 0x4_0000 && q17 < 0x80_0000 && q12 < 0x1000_0000 && q6 < 0x4_0000_0000;
    assert hdr == q6 * 64 + s;
    assert Pow2(0) == 1 && Pow2(5) == 32 && Pow2(6) == 64;
    assert Shr(hdr, 6) == q6 by { ShrStep(hdr, q6, s, 6); }
    assert Shr(hdr, 12) == q12 by { ShrShr(hdr, 6, 6); ShrStep(q6, q12, mi, 6); }
    assert Shr(hdr, 17) == q17 by { ShrShr(hdr, 12, 5); ShrStep(q12, q17, h, 5); }
    assert Shr(hdr, 22) == q22 by { ShrShr(hdr, 17, 5); ShrStep(q17, q22, d, 5); }
    assert hdr % 64 == s by { DivModOfSum(q6, s, 64); }
    assert q6 % 64 == mi by { DivModOfSum(q12, mi, 64); }
    assert q12 % 32 == h by { DivModOfSum(q17, h, 32); }
    assert q17 % 32 == d by { DivModOfSum(q22, d, 32); }
    assert q22 % 0x2_0000 == ym by { DivModOfSum(sign, ym, 0x2_0000); }
  }

  /** Shifting q * 2^k + r right by k bits, for r below 2^k, gives q. */
  lemma ShrStep(x: nat, q: nat, r: nat, k: nat)
    requires r < Pow2(k) && x == q * Pow2(k) + r
    ensures Shr(x, k) == q
  {
    DivModOfSum(q, r, Pow2(k));
  }

  /** DatetimeDigits of an n-byte word reads the same fields as DatetimeDigits
      of the 5-byte header at its top. */
  lemma DatetimeDigitsOfHeader(word: nat, hdr: nat, n: nat)
    requires n >= 5 && Shr(word, 8 * (n - 5)) == hdr
    ensures DatetimeDigits(word, n) == DatetimeDigits(hdr, 5)
  {
    var k := 8 * (n - 5);
    assert n * 8 - 40 == k && n * 8 - 34 == k + 6 && n * 8 - 28 == k + 12;
    assert n * 8 - 23 == k + 17 && n * 8 - 18 == k + 22;
    ShrOfWord(word, hdr, k, 0);
    ShrOfWord(word, hdr, k, 6);
    ShrOfWord(word, hdr, k, 12);
    ShrOfWord(word, hdr, k, 17);
    ShrOfWord(word, hdr, k, 22);
  }

  /** Every 24-bit word is a time header with fields in TimeRoundTrip's ranges. */
  lemma EveryTimeHeaderIsCovered(x: nat)
    requires x < 0x100_0000
    ensures var s, m, h, flags := x % 64, x / 64 % 64, x / 64 / 64 % 1024, x / 64 / 64 / 1024;
            flags < 4 && h < 1024 && m < 64 && s < 64 && x == TimeHeader(flags, h, m, s)
  {
    var q1 := x / 64;
    var q2 := q1 / 64;
    assert x == q1 * 64 + x % 64;
    assert q1 == q2 * 64 + q1 % 64;
    assert q2 == q2 / 1024 * 1024 + q2 % 1024;
  }

  /** Every 40-bit word is a datetime header with fields in DatetimeRoundTrip's ranges. */
  lemma EveryDatetimeHeaderIsCovered(x: nat)
    requires x < 0x100_0000_0000
    ensures var s, mi := x % 64, x / 64 % 64;
            var h, d := x / 64 / 64 % 32, x / 64 / 64 / 32 % 32;
            var ym := x / 64 / 64 / 32 / 32 % 0x2_0000;
            var sign := x / 64 / 64 / 32 / 32 / 0x2_0000;
            && sign < 2 && ym / 13 * 13 + ym % 13 < 0x2_0000 && ym % 13 < 13
            && d < 32 && h < 32 && mi < 64 && s < 64
            && x == DatetimeHeader(sign, ym / 13, ym % 13, d, h, mi, s)
  {
    var q1 := x / 64;
    var q2 := q1 / 64;
    var q3 := q2 / 32;
    var q4 := q3 / 32;
    var ym := q4 % 0x2_0000;
    assert x == q1 * 64 + x % 64;
    assert q1 == q2 * 64 + q1 % 64;
    assert q2 == q3 * 32 + q2 % 32;
    assert q3 == q4 * 32 + q3 % 32;
    assert q4 == q4 / 0x2_0000 * 0x2_0000 + ym;
    assert ym == ym / 13 * 13 + ym % 13;
  }

  /** Every image of at least n bytes is the n-byte big-endian encoding of an
      n-byte header followed by its remaining bytes, so the round trips, with
      the two coverage lemmas above, speak about every image. */
  lemma EveryImageIsAnEncodedHeader(img: seq<byte>, n: nat)
    requires n <= |img|
    ensures BigEndian(img[..n]) < Pow256(n)
    ensures img == BigEndianBytes(BigEndian(img[..n]), n) + img[n..]
  {
    BigEndianBound(img[..n]);
    BigEndianBytesOfBigEndian(img[..n]);
  }

  /** Decoding a packed datetime whatever its sign bit and fractional bytes gives
      YYYYMMDDHHMMSS. */
  lemma DatetimeRoundTrip(sign: nat, y: nat, mo: nat, d: nat, h: nat, mi: nat, s: nat, frac: seq<byte>)
    requires sign < 2 && y * 13 + mo < 0x2_0000 && mo < 13 && d < 32 && h < 32 && mi < 64 && s < 64
    ensures DatetimeHeader(sign, y, mo, d, h, mi, s) < Pow256(5)
    ensures DatetimeDigits(BigEndian(BigEndianBytes(DatetimeHeader(sign, y, mo, d, h, mi, s), 5) + frac), 5 + |frac|)
            == DatetimeNumber(y, mo, d, h, mi, s)
  {
    var hdr := DatetimeHeader(sign, y, mo, d, h, mi, s);
    DatetimeHeaderFields(sign, y, mo, d, h, mi, s);
    assert Pow256(5) == 0x100_0000_0000;
    DatetimeOfFields(hdr, frac, y, mo, d, h, mi, s);
  }

  lemma DatetimeOfFields(hdr: nat, frac: seq<byte>, y: nat, mo: nat, d: nat, h: nat, mi: nat, s: nat)
    requires hdr < Pow256(5) && mo < 13
    requires Shr(hdr, 0) % 64 == s && Shr(hdr, 6) % 64 == mi && Shr(hdr, 12) % 32 == h
    requires Shr(hdr, 17) % 32 == d && Shr(hdr, 22) % 0x2_0000 == y * 13 + mo
    ensures DatetimeDigits(BigEndian(BigEndianBytes(hdr, 5) + frac), 5 + |frac|) == DatetimeNumber(y, mo, d, h, mi, s)
  {
    var word := BigEndian(BigEndianBytes(hdr, 5) + frac);
    var n := 5 + |frac|;
    assert Shr(word, 8 * (n - 5)) == hdr by { ShrDropsTail(hdr, 5, frac); }
    DatetimeDigitsOfHeader(word, hdr, n);
    DatetimeDigitsOfFields(hdr, y, mo, d, h, mi, s);
  }

  /** The 5-byte header's fields, read as YYYYMMDDHHMMSS. */
  lemma DatetimeDigitsOfFields(hdr: nat, y: nat, mo: nat, d: nat, h: nat, mi: nat, s: nat)
    requires mo < 13
    requires Shr(hdr, 0) % 64 == s && Shr(hdr, 6) % 64 == mi && Shr(hdr, 12) % 32 == h
    requires Shr(hdr, 17) % 32 == d && Shr(hdr, 22) % 0x2_0000 == y * 13 + mo
    ensures DatetimeDigits(hdr, 5) == DatetimeNumber(y, mo, d, h, mi, s)
  {
    var ym := Shr(hdr, 22) % 0x2_0000;
    assert ym % 13 == mo && ym / 13 == y by { DivModOfSum(y, mo, 13); }
  }
}
