/**
 * What the decoders and constructors promise: the bytes each unpack reads and
 * consumes, the value it derives from them, round trips against independent
 * encoders, and the sizing each constructor derives from a type string.
 */
module FieldProperties {
  import opened Wrappers
  import opened Arith
  import opened Bytes
  import opened Temporal
  import opened Fields

  // ---- reads stay inside the column ----

  lemma ReadShift(prefix: seq<byte>, buf: seq<byte>, at: nat, n: nat)
    ensures Read(prefix + buf, |prefix| + at, n) == Read(buf, at, n)
  {
    if at + n <= |buf| {
      assert (prefix + buf)[|prefix| + at..|prefix| + at + n] == buf[at..at + n];
    }
  }

  lemma ReadWithin(buf: seq<byte>, m: nat, at: nat, n: nat)
    requires at + n <= m <= |buf|
    ensures Read(buf[..m], at, n) == Read(buf, at, n)
  {
    assert buf[..m][at..at + n] == buf[at..at + n];
  }

  /** Shifting the buffer shifts the cursor and changes nothing else. */
  function Shifted(r: Result<Decoded, DecodeError>, offset: nat): Result<Decoded, DecodeError>
  {
    match r
    case Ok(d) => Ok(Decoded(d.value, d.next + offset))
    case Err(e) => Err(e)
  }

  /** A decoder sees only the bytes from its cursor on: bytes before it move the
      result by their number and change nothing else. */
  lemma DecodeIsPositionIndependent(k: Kind, prefix: seq<byte>, buf: seq<byte>, from: nat)
    ensures Decode(k, prefix + buf, |prefix| + from) == Shifted(Decode(k, buf, from), |prefix|)
  {
    if k.Varstring? {
      VarstringShift(k.lengthBytes, prefix, buf, from);
    } else if k.Blob? {
      BlobShift(k.packLength, prefix, buf, from);
    } else {
      ReadShift(prefix, buf, from, Extent(k));
    }
  }

  lemma VarstringShift(lengthBytes: nat, prefix: seq<byte>, buf: seq<byte>, from: nat)
    ensures DecodeVarstring(lengthBytes, prefix + buf, |prefix| + from)
            == Shifted(DecodeVarstring(lengthBytes, buf, from), |prefix|)
  {
    if lengthBytes == 1 {
      ReadShift(prefix, buf, from, 1);
      if from + 1 <= |buf| {
        ReadShift(prefix, buf, from + 1, buf[from]);
      }
    } else {
      ReadShift(prefix, buf, from, 2);
      if from + 2 <= |buf| {
        ReadShift(prefix, buf, from + 2, Uint2Korr(buf[from..from + 2]));
      }
    }
  }

  lemma BlobShift(packLength: nat, prefix: seq<byte>, buf: seq<byte>, from: nat)
    ensures DecodeBlob(packLength, prefix + buf, |prefix| + from)
            == Shifted(DecodeBlob(packLength, buf, from), |prefix|)
  {
    ReadShift(prefix, buf, from, packLength);
    var g := GetLength(packLength, buf, from);
    assert GetLength(packLength, prefix + buf, |prefix| + from) == g;
    if g.Ok? {
      ReadShift(prefix, buf, from + packLength, g.value);
    }
  }

  /** Kinds whose unpack reads no byte beyond the ones it steps over: all but an
      Enum whose pack length is not 1 or 2 and a Set whose pack length is not
      1, 2, 3, 4 or 8, the values field.h derives from the element count. */
  predicate ReadsOnlyWhatItConsumes(k: Kind)
  {
    && (k.Enum? ==> k.packLength == 1 || k.packLength == 2)
    && (k.Set? ==> k.packLength in {1, 2, 3, 4, 8})
  }

  /** An unpack that succeeds reads nothing past the cursor it returns: cutting
      the buffer there gives the same value and cursor. */
  lemma DecodeReadsOnlyItsOwnBytes(k: Kind, buf: seq<byte>, from: nat)
    requires ReadsOnlyWhatItConsumes(k)
    ensures Decode(k, buf, from).Ok? ==>
              Decode(k, buf[..Decode(k, buf, from).value.next], from) == Decode(k, buf, from)
  {
    var r := Decode(k, buf, from);
    if r.Ok? {
      if k.Varstring? {
        VarstringReadsOnlyItsOwnBytes(k.lengthBytes, buf, from);
      } else if k.Blob? {
        BlobReadsOnlyItsOwnBytes(k.packLength, buf, from);
      } else {
        assert Extent(k) == PackLength(k);
        FixedReadsOnlyItsOwnBytes(k, buf, from);
      }
    }
  }

  lemma FixedReadsOnlyItsOwnBytes(k: Kind, buf: seq<byte>, from: nat)
    requires !IsVariable(k) && Extent(k) == PackLength(k) && from + Extent(k) <= |buf|
    ensures DecodeFixed(k, buf[..from + Extent(k)], from) == DecodeFixed(k, buf, from)
  {
    ReadWithin(buf, from + Extent(k), from, Extent(k));
  }

  lemma VarstringReadsOnlyItsOwnBytes(lengthBytes: nat, buf: seq<byte>, from: nat)
    requires DecodeVarstring(lengthBytes, buf, from).Ok?
    ensures var m := DecodeVarstring(lengthBytes, buf, from).value.next;
            DecodeVarstring(lengthBytes, buf[..m], from) == DecodeVarstring(lengthBytes, buf, from)
  {
    var m := DecodeVarstring(lengthBytes, buf, from).value.next;
    if lengthBytes == 1 {
      ReadWithin(buf, m, from, 1);
      ReadWithin(buf, m, from + 1, buf[from]);
    } else {
      ReadWithin(buf, m, from, 2);
      ReadWithin(buf, m, from + 2, Uint2Korr(buf[from..from + 2]));
    }
  }

  lemma BlobReadsOnlyItsOwnBytes(packLength: nat, buf: seq<byte>, from: nat)
    requires DecodeBlob(packLength, buf, from).Ok?
    ensures var m := DecodeBlob(packLength, buf, from).value.next;
            DecodeBlob(packLength, buf[..m], from) == DecodeBlob(packLength, buf, from)
  {
    var m := DecodeBlob(packLength, buf, from).value.next;
    ReadWithin(buf, m, from, packLength);
    var g := GetLength(packLength, buf, from);
    ReadWithin(buf, m, from + packLength, g.value);
  }

  lemma ReadExtended(buf: seq<byte>, extra: seq<byte>, at: nat, n: nat)
    requires at + n <= |buf|
    ensures Read(buf + extra, at, n) == Read(buf, at, n)
  {
    assert (buf + extra)[at..at + n] == buf[at..at + n];
  }

  /** Slicing a concatenation back into its parts. */
  lemma PartsOfConcat(a: seq<byte>, b: seq<byte>, c: seq<byte>)
    ensures (a + b + c)[0..|a|] == a
    ensures (a + b + c)[|a|..|a| + |b|] == b
    ensures (a + b + c)[0..|a| + |b|] == a + b
  {
  }

  /** A fixed-width unpack with its bytes present stores FixedValue of them. */
  lemma DecodeFixedPresent(k: Kind, buf: seq<byte>, from: nat)
    requires !IsVariable(k) && from + Extent(k) <= |buf|
    ensures Decode(k, buf, from) == Ok(Decoded(FixedValue(k, buf[from..from + Extent(k)]), from + PackLength(k)))
  {
  }

  /** and one whose bytes are not all there fails. */
  lemma DecodeFixedAbsent(k: Kind, buf: seq<byte>, from: nat)
    requires !IsVariable(k) && from + Extent(k) > |buf|
    ensures Decode(k, buf, from).Err?
  {
  }

  /** Bytes after the buffer's end do not change a successful unpack. */
  lemma DecodeIgnoresWhatFollows(k: Kind, buf: seq<byte>, extra: seq<byte>, from: nat)
    ensures Decode(k, buf, from).Ok? ==> Decode(k, buf + extra, from) == Decode(k, buf, from)
  {
    if Decode(k, buf, from).Ok? {
      if k.Varstring? {
        VarstringIgnoresWhatFollows(k.lengthBytes, buf, extra, from);
      } else if k.Blob? {
        BlobIgnoresWhatFollows(k.packLength, buf, extra, from);
      } else {
        ReadExtended(buf, extra, from, Extent(k));
      }
    }
  }

  lemma VarstringIgnoresWhatFollows(lengthBytes: nat, buf: seq<byte>, extra: seq<byte>, from: nat)
    requires DecodeVarstring(lengthBytes, buf, from).Ok?
    ensures DecodeVarstring(lengthBytes, buf + extra, from) == DecodeVarstring(lengthBytes, buf, from)
  {
    if lengthBytes == 1 {
      ReadExtended(buf, extra, from, 1);
      ReadExtended(buf, extra, from + 1, buf[from]);
    } else {
      ReadExtended(buf, extra, from, 2);
      ReadExtended(buf, extra, from + 2, Uint2Korr(buf[from..from + 2]));
    }
  }

  lemma BlobIgnoresWhatFollows(packLength: nat, buf: seq<byte>, extra: seq<byte>, from: nat)
    requires DecodeBlob(packLength, buf, from).Ok?
    ensures DecodeBlob(packLength, buf + extra, from) == DecodeBlob(packLength, buf, from)
  {
    ReadExtended(buf, extra, from, packLength);
    var g := GetLength(packLength, buf, from);
    ReadExtended(buf, extra, from + packLength, g.value);
  }

  // ---- fixed-width integers and the legacy temporal types ----

  /** short, medium, long and longlong: the little-endian unsigned value of
      2, 3, 4 or 8 bytes, and the cursor moved by that width. */
  lemma IntegerDecodersAreLittleEndian(k: Kind, w: nat, buf: seq<byte>, from: nat)
    requires (k, w) in {(Short, 2), (Medium, 3), (Long, 4), (LongLong, 8)}
    ensures Decode(k, buf, from).Ok? <==> from + w <= |buf|
    ensures Decode(k, buf, from).Ok? ==>
              Decode(k, buf, from).value == Decoded(Unsigned(LittleEndian(buf[from..from + w])), from + w)
  {
    if from + w <= |buf| {
      assert Extent(k) == w && PackLength(k) == w;
      DecodeFixedPresent(k, buf, from);
      KorrValueIsLittleEndian(k, w, buf[from..from + w]);
    }
  }

  /** The korr readers of the fixed-width integer kinds store the
      little-endian value of their bytes. */
  lemma KorrValueIsLittleEndian(k: Kind, w: nat, b: seq<byte>)
    requires (k, w) in {(Short, 2), (Medium, 3), (Long, 4), (LongLong, 8),
                        (Date, 3), (Time55, 3), (Timestamp55, 4), (Datetime55, 8)}
    requires |b| == w
    ensures FixedValue(k, b) == Unsigned(LittleEndian(b))
  {
    KorrIsLittleEndian(b);
    assert b[..w] == b;
  }

  /** date, and the time, timestamp and datetime of before 5.6.4: the
      little-endian unsigned value of 3, 3, 4 or 8 bytes. */
  lemma LegacyTemporalDecodersAreLittleEndian(k: Kind, w: nat, buf: seq<byte>, from: nat)
    requires (k, w) in {(Date, 3), (Time55, 3), (Timestamp55, 4), (Datetime55, 8)}
    ensures Decode(k, buf, from).Ok? <==> from + w <= |buf|
    ensures Decode(k, buf, from).Ok? ==>
              Decode(k, buf, from).value == Decoded(Unsigned(LittleEndian(buf[from..from + w])), from + w)
  {
    if from + w <= |buf| {
      assert Extent(k) == w && PackLength(k) == w;
      DecodeFixedPresent(k, buf, from);
      KorrValueIsLittleEndian(k, w, buf[from..from + w]);
    }
  }

  /** tiny (and year): one byte read as a signed char. */
  lemma TinyDecoderIsSignedByte(buf: seq<byte>, from: nat)
    ensures Decode(Tiny, buf, from).Ok? <==> from < |buf|
    ensures Decode(Tiny, buf, from).Ok? ==>
              var d := Decode(Tiny, buf, from).value;
              d.next == from + 1 && d.value.Signed?
              && -0x80 <= d.value.i < 0x80 && d.value.i % 0x100 == buf[from]
  {
    if from < |buf| {
      TwosComplement(buf[from], 0);
    }
  }

  /** enum: a signed char when the pack length is 1, otherwise a native
      (little-endian) signed short; the cursor moves by the pack length. */
  lemma EnumDecoderIsSignedIndex(elements: nat, packLength: nat, buf: seq<byte>, from: nat)
    ensures var w := if packLength == 1 then 1 else 2;
            var e := if packLength < w then w else packLength;
            && (Decode(Enum(elements, packLength), buf, from).Ok? <==> from + e <= |buf|)
            && (Decode(Enum(elements, packLength), buf, from).Ok? ==>
                  var d := Decode(Enum(elements, packLength), buf, from).value;
                  d.next == from + packLength && d.value.Signed?
                  && -(Pow256(w) as int / 2) <= d.value.i < Pow256(w) / 2
                  && d.value.i % Pow256(w) == LittleEndian(buf[from..from + w]))
  {
    var w := if packLength == 1 then 1 else 2;
    var e := if packLength < w then w else packLength;
    assert Pow256(1) == 0x100 && Pow256(2) == 0x1_0000;
    if from + e <= |buf| {
      var b := buf[from..from + e];
      KorrIsLittleEndian(b);
      assert b[..w] == buf[from..from + w];
      if w == 1 {
        assert LittleEndian(b[..1]) == b[0] by { assert b[..1][1..] == []; }
        TwosComplement(b[0], 0);
      } else {
        TwosComplement(b[0], Uint2Korr(b));
      }
    }
  }

  /** The corrected Field_set switch: the little-endian unsigned value of the
      bytes it reads, below 256 to the power of their number. */
  lemma SetMaskIsLittleEndian(packLength: nat, b: seq<byte>)
    requires |b| >= ReadWidth(Set(0, packLength))
    ensures var w := ReadWidth(Set(0, packLength));
            SetMask(packLength, b) == LittleEndian(b[..w]) && SetMask(packLength, b) < Pow256(w)
  {
    var w := ReadWidth(Set(0, packLength));
    KorrIsLittleEndian(b);
    if w == 1 {
      assert LittleEndian(b[..1]) == b[0] by { assert b[..1][1..] == []; }
    }
    LittleEndianBound(b[..w]);
  }

  /** set: the little-endian unsigned value of 1, 2, 3 or 4 bytes, or of 8 bytes
      for any other pack length; below 256^width, one bit per member. The
      cursor moves by the pack length. */
  lemma SetDecoderIsBitMask(elements: nat, packLength: nat, buf: seq<byte>, from: nat)
    ensures var w := if 1 <= packLength <= 4 then packLength else 8;
            var e := if packLength < w then w else packLength;
            && (Decode(Set(elements, packLength), buf, from).Ok? <==> from + e <= |buf|)
            && (Decode(Set(elements, packLength), buf, from).Ok? ==>
                  var d := Decode(Set(elements, packLength), buf, from).value;
                  d.next == from + packLength
                  && d.value == Unsigned(LittleEndian(buf[from..from + w]))
                  && d.value.n < Pow256(w))
  {
    var k := Set(elements, packLength);
    var w := if 1 <= packLength <= 4 then packLength else 8;
    var e := if packLength < w then w else packLength;
    assert ReadWidth(k) == w && Extent(k) == e;
    if from + e <= |buf| {
      SetDecodePresent(elements, packLength, buf, from);
    } else {
      DecodeFixedAbsent(k, buf, from);
    }
  }

  lemma SetDecodePresent(elements: nat, packLength: nat, buf: seq<byte>, from: nat)
    requires from + Extent(Set(elements, packLength)) <= |buf|
    ensures var w := ReadWidth(Set(elements, packLength));
            && Decode(Set(elements, packLength), buf, from)
               == Ok(Decoded(Unsigned(LittleEndian(buf[from..from + w])), from + packLength))
            && LittleEndian(buf[from..from + w]) < Pow256(w)
  {
    var k := Set(elements, packLength);
    var w := ReadWidth(k);
    var b := buf[from..from + Extent(k)];
    DecodeFixedPresent(k, buf, from);
    assert ReadWidth(Set(0, packLength)) == w;
    SetValueIsLittleEndian(elements, packLength, b);
    assert b[..w] == buf[from..from + w];
  }

  lemma SetValueIsLittleEndian(elements: nat, packLength: nat, b: seq<byte>)
    requires |b| >= ReadWidth(Set(0, packLength))
    ensures var w := ReadWidth(Set(0, packLength));
            && FixedValue(Set(elements, packLength), b) == Unsigned(LittleEndian(b[..w]))
            && LittleEndian(b[..w]) < Pow256(w)
  {
    SetMaskIsLittleEndian(packLength, b);
  }

  /** Finding: as written, the 1-byte set case sign-extends through `char`, so a
      set with its eighth member present decodes to a 64-bit value with the top
      56 bits set instead of 128. */
  lemma SetMaskAsWrittenSignExtends()
    ensures SetMaskAsWritten(1, [0x80]) == 0xFFFF_FFFF_FFFF_FF80
    ensures SetMask(1, [0x80]) == 0x80
    ensures forall b: byte :: b >= 0x80 ==> SetMaskAsWritten(1, [b]) >= TWO_64 - 0x80
  {
  }

  // ---- varchar and blob ----

  /** varchar: a 1-byte prefix, or a 2-byte little-endian one, gives L; the
      value is exactly the L bytes after the prefix and the cursor moves past them. */
  lemma VarstringDecoderTakesPrefixedBytes(lengthBytes: nat, symbols: int, buf: seq<byte>, from: nat)
    ensures var p := if lengthBytes == 1 then 1 else 2;
            var k := Varstring(lengthBytes, symbols);
            && (Decode(k, buf, from).Ok? <==>
                  from + p <= |buf| && from + p + LittleEndian(buf[from..from + p]) <= |buf|)
            && (Decode(k, buf, from).Ok? ==>
                  var l := LittleEndian(buf[from..from + p]);
                  Decode(k, buf, from).value == Decoded(Text(buf[from + p..from + p + l]), from + p + l))
  {
    var p := if lengthBytes == 1 then 1 else 2;
    if from + p <= |buf| {
      var b := buf[from..from + p];
      if p == 1 {
        assert LittleEndian(b) == b[0] by { assert b[1..] == []; }
      } else {
        KorrIsLittleEndian(b);
        assert b[..2] == b;
      }
    }
  }

  /** Writing a string behind its length prefix and decoding it gives the
      string back and the cursor just after it. */
  lemma VarstringRoundTrip(lengthBytes: nat, symbols: int, s: seq<byte>, rest: seq<byte>)
    requires |s| < (if lengthBytes == 1 then 0x100 else 0x1_0000)
    ensures var p := if lengthBytes == 1 then 1 else 2;
            Decode(Varstring(lengthBytes, symbols), LittleEndianBytes(|s|, p) + s + rest, 0)
            == Ok(Decoded(Text(s), p + |s|))
  {
    var p := if lengthBytes == 1 then 1 else 2;
    var buf := LittleEndianBytes(|s|, p) + s + rest;
    assert Pow256(1) == 0x100 && Pow256(2) == 0x1_0000;
    LittleEndianRoundTrip(|s|, p);
    PartsOfConcat(LittleEndianBytes(|s|, p), s, rest);
    VarstringDecoderTakesPrefixedBytes(lengthBytes, symbols, buf, 0);
  }

  /** get_length: the little-endian unsigned value of the 1 to 4 prefix bytes;
      any other width is an error. */
  lemma BlobLengthIsLittleEndian(packLength: nat, buf: seq<byte>, at: nat)
    ensures GetLength(packLength, buf, at) == Err(WrongPackLength) <==> !(1 <= packLength <= 4)
    ensures 1 <= packLength <= 4 ==>
              (GetLength(packLength, buf, at).Ok? <==> at + packLength <= |buf|)
    ensures GetLength(packLength, buf, at).Ok? ==>
              GetLength(packLength, buf, at).value == LittleEndian(buf[at..at + packLength])
  {
    if 1 <= packLength <= 4 && at + packLength <= |buf| {
      var b := buf[at..at + packLength];
      KorrIsLittleEndian(b);
      assert b[..packLength] == b;
      if packLength == 1 {
        assert LittleEndian(b) == b[0] by { assert b[1..] == []; }
      }
    }
  }

  /** tinyblob, blob, mediumblob and longblob take a 1, 2, 3 and 4-byte prefix. */
  lemma BlobFamilyWidths()
    ensures NewBlob(TinyBlob) == Blob(1) && NewBlob(PlainBlob) == Blob(2)
    ensures NewBlob(MediumBlob) == Blob(3) && NewBlob(LongBlob) == Blob(4)
  {
  }

  /** blob: a prefix of the pack length gives L; the value is exactly the L
      bytes after it and the cursor moves past them. */
  lemma BlobDecoderTakesPrefixedBytes(p: nat, buf: seq<byte>, from: nat)
    requires 1 <= p <= 4
    ensures Decode(Blob(p), buf, from).Ok? <==>
              from + p <= |buf| && from + p + LittleEndian(buf[from..from + p]) <= |buf|
    ensures Decode(Blob(p), buf, from).Ok? ==>
              var l := LittleEndian(buf[from..from + p]);
              Decode(Blob(p), buf, from).value == Decoded(Text(buf[from + p..from + p + l]), from + p + l)
  {
    assert Decode(Blob(p), buf, from) == DecodeBlob(p, buf, from);
    BlobLengthIsLittleEndian(p, buf, from);
  }

  /** Writing a byte string behind a blob prefix and decoding it gives it back. */
  lemma BlobRoundTrip(p: nat, s: seq<byte>, rest: seq<byte>)
    requires 1 <= p <= 4 && |s| < Pow256(p)
    ensures Decode(Blob(p), LittleEndianBytes(|s|, p) + s + rest, 0) == Ok(Decoded(Text(s), p + |s|))
  {
    var pre := LittleEndianBytes(|s|, p);
    var buf := pre + s + rest;
    assert LittleEndian(buf[0..p]) == |s| && buf[p..p + |s|] == s by {
      LittleEndianRoundTrip(|s|, p);
      PartsOfConcat(pre, s, rest);
    }
    assert GetLength(p, buf, 0) == Ok(|s|) by {
      BlobLengthIsLittleEndian(p, buf, 0);
    }
    assert Read(buf, p, |s|) == Ok(s);
    assert Decode(Blob(p), buf, 0) == DecodeBlob(p, buf, 0);
  }

  // ---- bit ----

  /** bit: the pack-length bytes folded most significant first, a value below
      256^pack length, and the cursor moved by the pack length. */
  lemma BitDecoderIsBigEndian(n: BitBytes, buf: seq<byte>, from: nat)
    ensures Decode(Bit(n), buf, from).Ok? <==> from + n <= |buf|
    ensures Decode(Bit(n), buf, from).Ok? ==>
              var d := Decode(Bit(n), buf, from).value;
              d == Decoded(Unsigned(BigEndian(buf[from..from + n])), from + n) && d.value.n < Pow256(n)
  {
    var r := Decode(Bit(n), buf, from);
    if from + n <= |buf| {
      var b := buf[from..from + n];
      assert r == Ok(Decoded(FixedValue(Bit(n), b), from + n)) by {
        assert Extent(Bit(n)) == n && PackLength(Bit(n)) == n;
        DecodeFixedPresent(Bit(n), buf, from);
      }
      assert FixedValue(Bit(n), b) == Unsigned(BigEndian(b)) by { assert b[..n] == b; }
      BigEndianBound(b);
    } else {
      DecodeFixedAbsent(Bit(n), buf, from);
    }
  }

  /** Writing a value big-endian in n bytes and decoding it as bit gives it back. */
  lemma BitRoundTrip(n: BitBytes, x: nat, rest: seq<byte>)
    requires x < Pow256(n)
    ensures Decode(Bit(n), BigEndianBytes(x, n) + rest, 0) == Ok(Decoded(Unsigned(x), n))
  {
    var buf := BigEndianBytes(x, n) + rest;
    assert buf[0..n] == BigEndianBytes(x, n);
    BigEndianRoundTrip(x, n);
    BitDecoderIsBigEndian(n, buf, 0);
  }

  // ---- the 5.6 temporal types ----

  /** time(F): a packed time and any fractional bytes decode to HHMMSS, and
      the cursor moves by the whole pack length. */
  lemma Time56RoundTrip(n: TimeBytes, flags: nat, h: nat, m: nat, s: nat, frac: seq<byte>, rest: seq<byte>)
    requires flags < 4 && h < 1024 && m < 64 && s < 64 && |frac| == n - 3
    ensures Decode(Time56(n), BigEndianBytes(TimeHeader(flags, h, m, s), 3) + frac + rest, 0)
            == Ok(Decoded(Unsigned(TimeNumber(h, m, s)), n))
  {
    var header := BigEndianBytes(TimeHeader(flags, h, m, s), 3);
    var buf := header + frac + rest;
    PartsOfConcat(header, frac, rest);
    assert Extent(Time56(n)) == n && PackLength(Time56(n)) == n;
    DecodeFixedPresent(Time56(n), buf, 0);
    var b := buf[0..n];
    assert b[..n] == header + frac;
    assert FixedValue(Time56(n), b) == Unsigned(TimeDigits(BigEndian(header + frac), n));
    TimeRoundTrip(flags, h, m, s, frac);
  }

  /** datetime(F): a packed datetime and any fractional bytes decode to
      YYYYMMDDHHMMSS, and the cursor moves by the whole pack length. */
  lemma Datetime56RoundTrip(n: DatetimeBytes, sign: nat, y: nat, mo: nat, d: nat, h: nat, mi: nat, s: nat,
                            frac: seq<byte>, rest: seq<byte>)
    requires sign < 2 && y * 13 + mo < 0x2_0000 && mo < 13 && d < 32 && h < 32 && mi < 64 && s < 64
    requires |frac| == n - 5
    ensures Decode(Datetime56(n), BigEndianBytes(DatetimeHeader(sign, y, mo, d, h, mi, s), 5) + frac + rest, 0)
            == Ok(Decoded(Unsigned(DatetimeNumber(y, mo, d, h, mi, s)), n))
  {
    var header := BigEndianBytes(DatetimeHeader(sign, y, mo, d, h, mi, s), 5);
    var buf := header + frac + rest;
    PartsOfConcat(header, frac, rest);
    assert Extent(Datetime56(n)) == n && PackLength(Datetime56(n)) == n;
    DecodeFixedPresent(Datetime56(n), buf, 0);
    var b := buf[0..n];
    assert b[..n] == header + frac;
    assert FixedValue(Datetime56(n), b) == Unsigned(DatetimeDigits(BigEndian(header + frac), n));
    DatetimeRoundTrip(sign, y, mo, d, h, mi, s, frac);
  }

  /** timestamp(F): the big-endian seconds of the first 4 bytes; the fractional
      bytes are stepped over but play no part in the value. */
  lemma Timestamp56RoundTrip(n: TimestampBytes, seconds: nat, frac: seq<byte>, rest: seq<byte>)
    requires seconds < 0x1_0000_0000 && |frac| == n - 4
    ensures Decode(Timestamp56(n), BigEndianBytes(seconds, 4) + frac + rest, 0)
            == Ok(Decoded(Unsigned(seconds), n))
  {
    var buf := BigEndianBytes(seconds, 4) + frac + rest;
    assert buf[0..n][..4] == BigEndianBytes(seconds, 4);
    assert Pow256(4) == 0x1_0000_0000;
    BigEndianRoundTrip(seconds, 4);
  }

  /** The two generations agree: a legacy 3-byte time holding HHMMSS and a 5.6
      time of the same hours, minutes and seconds decode to the same number. */
  lemma TimeGenerationsAgree(n: TimeBytes, h: nat, m: nat, s: nat)
    requires h < 1024 && m < 64 && s < 64
    ensures Decode(Time55, LittleEndianBytes(TimeNumber(h, m, s), 3), 0).Ok?
    ensures Decode(Time55, LittleEndianBytes(TimeNumber(h, m, s), 3), 0).value.value
            == Decode(Time56(n), BigEndianBytes(TimeHeader(2, h, m, s), 3) + Zeros(n - 3), 0).value.value
  {
    var legacy := LittleEndianBytes(TimeNumber(h, m, s), 3);
    assert Pow256(3) == 0x100_0000;
    LittleEndianRoundTrip(TimeNumber(h, m, s), 3);
    LegacyTemporalDecodersAreLittleEndian(Time55, 3, legacy, 0);
    assert legacy[0..3] == legacy;
    Time56RoundTrip(n, 2, h, m, s, Zeros(n - 3), []);
    assert BigEndianBytes(TimeHeader(2, h, m, s), 3) + Zeros(n - 3) + []
        == BigEndianBytes(TimeHeader(2, h, m, s), 3) + Zeros(n - 3);
  }

  /** The two generations agree: a legacy 8-byte datetime holding YYYYMMDDHHMMSS
      and a 5.6 datetime of the same fields decode to the same number. */
  lemma DatetimeGenerationsAgree(n: DatetimeBytes, y: nat, mo: nat, d: nat, h: nat, mi: nat, s: nat)
    requires y * 13 + mo < 0x2_0000 && mo < 13 && d < 32 && h < 32 && mi < 64 && s < 64
    ensures Decode(Datetime55, LittleEndianBytes(DatetimeNumber(y, mo, d, h, mi, s), 8), 0).Ok?
    ensures Decode(Datetime55, LittleEndianBytes(DatetimeNumber(y, mo, d, h, mi, s), 8), 0).value.value
            == Decode(Datetime56(n), BigEndianBytes(DatetimeHeader(1, y, mo, d, h, mi, s), 5) + Zeros(n - 5), 0).value.value
  {
    var number := DatetimeNumber(y, mo, d, h, mi, s);
    var legacy := LittleEndianBytes(number, 8);
    assert Pow256(8) == TWO_64;
    assert y < 0x2_0000;
    assert number < TWO_64;
    LittleEndianRoundTrip(number, 8);
    LegacyTemporalDecodersAreLittleEndian(Datetime55, 8, legacy, 0);
    assert legacy[0..8] == legacy;
    Datetime56RoundTrip(n, 1, y, mo, d, h, mi, s, Zeros(n - 5), []);
    assert BigEndianBytes(DatetimeHeader(1, y, mo, d, h, mi, s), 5) + Zeros(n - 5) + []
        == BigEndianBytes(DatetimeHeader(1, y, mo, d, h, mi, s), 5) + Zeros(n - 5);
  }
}
