/**
 * The column decoders of the row image: what each constructor derives from
 * the declared type string, and what each `unpack` reads from the buffer,
 * stores as the field's value and returns as the new cursor.
 */
module Fields {
  import opened Wrappers
  import opened Arith
  import opened Bytes
  import opened TypeString
  import opened Temporal

  type TimeBytes = n: nat | 3 <= n <= 6 witness 3
  type TimestampBytes = n: nat | 4 <= n <= 7 witness 4
  type DatetimeBytes = n: nat | 5 <= n <= 8 witness 5
  type BitBytes = n: nat | 1 <= n <= 8 witness 1

  /** Errors a constructor raises (the source throws `std::runtime_error`). */
  datatype ConstructError = MalformedType | UnsupportedPrecision | InvalidPackLength

  /** Errors of decoding: a read past the end of the buffer, and the throw of
      `Field_blob::get_length` for a prefix width other than 1 to 4. */
  datatype DecodeError = OutOfBounds | WrongPackLength

  /** One decoder per column class, carrying the metadata its constructor
      computed. `Tiny` also stands for `Field_year`, which inherits its unpack. */
  datatype Kind =
    | Tiny
    | Short
    | Medium
    | Long
    | LongLong
    | Date
    | Enum(elements: nat, packLength: nat)
    | Set(elements: nat, packLength: nat)
    | Varstring(lengthBytes: nat, symbols: int)
    | Blob(packLength: nat)
    | Decimal(intg: nat, frac: nat, fieldLength: nat)
    | Bit(bitBytes: BitBytes)
    | Time55
    | Timestamp55
    | Datetime55
    | Time56(timeBytes: TimeBytes)
    | Timestamp56(timestampBytes: TimestampBytes)
    | Datetime56(datetimeBytes: DatetimeBytes)

  /** The `field_data` an unpack stores. A decimal keeps its packed image and
      digit counts; its conversion to `double` is not modelled. */
  datatype Value =
    | Unset
    | Signed(i: int)
    | Unsigned(n: nat)
    | Text(bytes: seq<byte>)
    | PackedDecimal(intg: nat, frac: nat, image: seq<byte>)

  /** The value decoded and the cursor after it. */
  datatype Decoded = Decoded(value: Value, next: nat)

  datatype BlobFamily = TinyBlob | PlainBlob | MediumBlob | LongBlob

  // ---- construction ----

  /** Field_varstring: the width in symbols between the parentheses, and a
      1-byte length prefix when symbols * maxlen bytes stay below 256. */
  function NewVarstring(t: string, maxlen: int): (r: Result<Kind, ConstructError>)
    ensures r.Ok? <==> '(' in t && ')' in t
    ensures r.Ok? ==> r.value.Varstring? && (r.value.lengthBytes == 1 || r.value.lengthBytes == 2)
  {
    match (Find(t, '('), Find(t, ')'))
    case (Some(b), Some(e)) => Ok(SizeVarstring(AtoI(Between(t, b, e)), maxlen))
    case _ => Err(MalformedType)
  }

  /** A 1-byte length prefix when symbols * maxlen bytes stay below 256, else 2. */
  function SizeVarstring(symbols: int, maxlen: int): (k: Kind)
    ensures k.Varstring? && k.symbols == symbols
    ensures k.lengthBytes == 1 || k.lengthBytes == 2
  {
    var bytes := symbols * maxlen;
    Varstring(if bytes < 256 then 1 else 2, symbols)
  }

  /** The blob classes fix the width of their length prefix. */
  function NewBlob(f: BlobFamily): (k: Kind)
    ensures k.Blob? && 1 <= k.packLength <= 4
  {
    Blob(match f
      case TinyBlob => 1
      case PlainBlob => 2
      case MediumBlob => 3
      case LongBlob => 4)
  }

  /** Bytes for the leftover digits of a group of nine, from the source's table. */
  const Dig2Bytes: seq<nat> := [0, 1, 1, 2, 2, 3, 3, 4, 4, 4]

  /** Pack length of a binary decimal: 4 bytes per full group of nine digits,
      and the table for the rest, for the integer and the fractional part. */
  function DecimalWidth(intg: nat, frac: nat): (w: nat)
    ensures intg + frac >= 1 ==> w >= 1
  {
    (intg / 9) * 4 + Dig2Bytes[intg % 9] + (frac / 9) * 4 + Dig2Bytes[frac % 9]
  }

  /** The guard of field.cpp: precision positive and not below the scale. */
  predicate DecimalGuardAsWritten(m: int, d: int): (ok: bool)
    ensures ok ==> m >= 1 && m - d >= 0
  {
    m > 0 && m >= d
  }

  /** The guard with the negative scale also refused (see the findings). */
  predicate DecimalGuard(m: int, d: int): (ok: bool)
    ensures ok ==> 1 <= m && 0 <= d <= m
  {
    DecimalGuardAsWritten(m, d) && d >= 0
  }

  /** Field_decimal: parse `(M,D)` after the first `(` and size the packed image. */
  function NewDecimal(t: string): (r: Result<Kind, ConstructError>)
    ensures Find(t, '(').None? ==> r == Err(MalformedType)
    ensures Find(t, '(').Some? && ScanPrecisionScale(t[Find(t, '(').value..]).None? ==> r == Err(MalformedType)
    ensures r.Ok? ==> '(' in t && r.value.Decimal? && r.value.intg + r.value.frac >= 1
    ensures r.Ok? ==> r.value.fieldLength >= 1
  {
    match Find(t, '(')
    case None => Err(MalformedType)
    case Some(b) =>
      match ScanPrecisionScale(t[b..])
      case None => Err(MalformedType)
      case Some(md) => SizeDecimal(md.0, md.1)
  }

  /** The guard on precision m and scale d, then m - d integer and d
      fractional digits in DecimalWidth bytes. */
  function SizeDecimal(m: int, d: int): (r: Result<Kind, ConstructError>)
    ensures r.Ok? <==> DecimalGuard(m, d)
    ensures !DecimalGuard(m, d) ==> r == Err(MalformedType)
    ensures r.Ok? ==> r.value.Decimal? && r.value.intg + r.value.frac == m && r.value.frac == d
    ensures r.Ok? ==> r.value.fieldLength >= 1
  {
    if !DecimalGuard(m, d) then Err(MalformedType)
    else Ok(Decimal(m - d, d, DecimalWidth(m - d, d)))
  }

  /** `(N + 7) / 8` in C, stored in the `unsigned` pack length, so a negative
      quotient wraps to a large value. */
  function BitPackLength(width: int): (r: nat)
    ensures r < 0x1_0000_0000
    ensures 0 <= width <= 0x7FFF_FFF8 ==> r == (width + 7) / 8
  {
    ToUnsigned32(CDiv(width + 7, 8))
  }

  /** Field_bit: the width between the parentheses, sized by SizeBit. */
  function NewBit(t: string): (r: Result<Kind, ConstructError>)
    ensures r.Ok? ==> '(' in t && ')' in t && r.value.Bit?
  {
    match (Find(t, '('), Find(t, ')'))
    case (Some(b), Some(e)) => SizeBit(AtoI(Between(t, b, e)))
    case _ => Err(MalformedType)
  }

  /** BitPackLength bytes for a width of N bits, refused unless 1 to 8. */
  function SizeBit(width: int): (r: Result<Kind, ConstructError>)
    ensures r.Ok? <==> 1 <= BitPackLength(width) <= 8
    ensures r.Ok? ==> r == Ok(Bit(BitPackLength(width)))
  {
    var packLength := BitPackLength(width);
    if packLength == 0 || packLength > 8 then Err(InvalidPackLength) else Ok(Bit(packLength))
  }

  /** `sscanf(t, "<keyword>(%d)", &digits)` with digits preset to 0. */
  function FspDigits(t: string, keyword: string): (r: int)
    ensures !(keyword + "(" <= t) ==> r == 0
  {
    match ScanAfter(t, keyword + "(")
    case Some(d) => d
    case None => 0
  }

  /** Field_time_5_6: 3 bytes plus the fractional bytes. */
  function NewTime56(t: string): (r: Result<Kind, ConstructError>)
    ensures r.Ok? ==> r.value.Time56?
  {
    match FspLength(3, FspDigits(t, "time"))
    case None => Err(UnsupportedPrecision)
    case Some(n) => Ok(Time56(n))
  }

  /** Field_timestamp_5_6: 4 bytes plus the fractional bytes. */
  function NewTimestamp56(t: string): (r: Result<Kind, ConstructError>)
    ensures r.Ok? ==> r.value.Timestamp56?
  {
    match FspLength(4, FspDigits(t, "timestamp"))
    case None => Err(UnsupportedPrecision)
    case Some(n) => Ok(Timestamp56(n))
  }

  /** Field_datetime_5_6: 5 bytes plus the fractional bytes. */
  function NewDatetime56(t: string): (r: Result<Kind, ConstructError>)
    ensures r.Ok? ==> r.value.Datetime56?
  {
    match FspLength(5, FspDigits(t, "datetime"))
    case None => Err(UnsupportedPrecision)
    case Some(n) => Ok(Datetime56(n))
  }

  /** Field_enum: count the elements of the declaration. */
  method NewEnum(t: string, packLength: nat) returns (k: Kind)
    ensures k.Enum? && k.elements == Commas(t) + 1 && k.packLength == packLength
  {
    var count := CountElements(t);
    k := Enum(count, packLength);
  }

  /** Field_set: count the elements of the declaration. */
  method NewSet(t: string, packLength: nat) returns (k: Kind)
    ensures k.Set? && k.elements == Commas(t) + 1 && k.packLength == packLength
  {
    var count := CountElements(t);
    k := Set(count, packLength);
  }

  // ---- widths ----

  predicate IsVariable(k: Kind)
  {
    k.Varstring? || k.Blob?
  }

  /** `pack_length()`: how far a fixed-width unpack moves the cursor. */
  function PackLength(k: Kind): nat
  {
    match k
    case Tiny => 1
    case Short => 2
    case Medium => 3
    case Long => 4
    case LongLong => 8
    case Date => 3
    case Enum(_, n) => n
    case Set(_, n) => n
    case Decimal(_, _, n) => n
    case Bit(n) => n
    case Time55 => 3
    case Timestamp55 => 4
    case Datetime55 => 8
    case Time56(n) => n
    case Timestamp56(n) => n
    case Datetime56(n) => n
    case Varstring(_, _) => 0
    case Blob(_) => 0
  }

  /** How many bytes a fixed-width unpack reads. */
  function ReadWidth(k: Kind): nat
  {
    match k
    case Enum(_, n) => if n == 1 then 1 else 2
    case Set(_, n) => if 1 <= n <= 4 then n else 8
    case Timestamp56(_) => 4
    case _ => PackLength(k)
  }

  /** Bytes that must be present: those read, and those stepped over. */
  function Extent(k: Kind): nat
  {
    if ReadWidth(k) < PackLength(k) then PackLength(k) else ReadWidth(k)
  }

  // ---- decoding ----

  /** A checked read of n bytes at position at. */
  function Read(buf: seq<byte>, at: nat, n: nat): (r: Result<seq<byte>, DecodeError>)
    ensures r.Err? <==> at + n > |buf|
    ensures r.Ok? ==> r.value == buf[at..at + n]
    ensures r.Ok? ==> |r.value| == n
  {
    if at + n <= |buf| then Ok(buf[at..at + n]) else Err(OutOfBounds)
  }

  /** Field_set's switch on the pack length, with the 1-byte case read as an
      unsigned byte, as a bit mask needs. */
  function SetMask(packLength: nat, b: seq<byte>): (r: nat)
    requires |b| >= ReadWidth(Set(0, packLength))
    ensures packLength == 1 ==> r < 0x100
    ensures r < TWO_64
  {
    if packLength == 1 then b[0]
    else if packLength == 2 then Uint2Korr(b)
    else if packLength == 3 then Uint3Korr(b)
    else if packLength == 4 then Uint4Korr(b)
    else Uint8Korr(b)
  }

  /** Field_set's switch as written: `ulonglong(char)` sign-extends the 1-byte case. */
  function SetMaskAsWritten(packLength: nat, b: seq<byte>): (r: nat)
    requires |b| >= ReadWidth(Set(0, packLength))
    ensures r < TWO_64
    ensures packLength == 1 && b[0] < 0x80 ==> r == b[0]
    ensures packLength == 1 && b[0] >= 0x80 ==> r == TWO_64 - 0x100 + b[0]
    ensures packLength != 1 ==> r == SetMask(packLength, b)
  {
    if packLength == 1 then SignedChar(b[0]) % TWO_64 else SetMask(packLength, b)
  }

  /** The value a fixed-width unpack stores, from the bytes it may read. */
  function FixedValue(k: Kind, b: seq<byte>): (v: Value)
    requires !IsVariable(k) && |b| >= ReadWidth(k)
    ensures v.Unsigned? ==> v.n < TWO_64
    ensures v.Signed? ==> (k.Tiny? || k.Enum?) && -0x8000 <= v.i < 0x8000
    ensures v.PackedDecimal? <==> k.Decimal?
    ensures k.Decimal? ==> v.image == b[..k.fieldLength]
  {
    match k
    case Tiny => Signed(SignedChar(b[0]))
    case Short => Unsigned(Uint2Korr(b))
    case Medium => Unsigned(Uint3Korr(b))
    case Long => Unsigned(Uint4Korr(b))
    case LongLong => Unsigned(Uint8Korr(b))
    case Date => Unsigned(Uint3Korr(b))
    case Enum(_, n) =>
      if n == 1 then Signed(SignedChar(b[0])) else Signed(SignedShort(Uint2Korr(b)))
    case Set(_, n) => Unsigned(SetMask(n, b))
    case Decimal(i, f, n) => PackedDecimal(i, f, b[..n])
    case Bit(n) => BigEndianFitsWord(b[..n]); Unsigned(BigEndian(b[..n]))
    case Time55 => Unsigned(Uint3Korr(b))
    case Timestamp55 => Unsigned(Uint4Korr(b))
    case Datetime55 => Unsigned(Uint8Korr(b))
    case Time56(n) => Unsigned(TimeDigits(BigEndian(b[..n]), n))
    case Timestamp56(_) => BigEndianFitsWord(b[..4]); Unsigned(BigEndian(b[..4]))
    case Datetime56(n) => Unsigned(DatetimeDigits(BigEndian(b[..n]), n))
  }

  /** Field_blob::get_length: the length prefix of 1 to 4 bytes, little-endian. */
  function GetLength(packLength: nat, buf: seq<byte>, at: nat): (r: Result<nat, DecodeError>)
    ensures r == Err(WrongPackLength) <==> !(1 <= packLength <= 4)
    ensures 1 <= packLength <= 4 ==> (r.Ok? <==> at + packLength <= |buf|)
    ensures r.Ok? ==> r.value < 0x1_0000_0000
  {
    if packLength < 1 || packLength > 4 then Err(WrongPackLength)
    else
      var p :- Read(buf, at, packLength);
      Ok(if packLength == 1 then p[0]
         else if packLength == 2 then ToUnsignedShort(SInt2Korr(p))
         else if packLength == 3 then Uint3Korr(p)
         else Uint4Korr(p))
  }

  /** What `unpack(from)` does for a column of kind k: the value it stores and
      the cursor it returns, or the reason it cannot. */
  function Decode(k: Kind, buf: seq<byte>, from: nat): (r: Result<Decoded, DecodeError>)
    ensures r.Ok? ==> from <= r.value.next <= |buf|
  {
    if k.Varstring? then DecodeVarstring(k.lengthBytes, buf, from)
    else if k.Blob? then DecodeBlob(k.packLength, buf, from)
    else DecodeFixed(k, buf, from)
  }

  /** Field_varstring::unpack: the length prefix, then that many bytes. */
  function DecodeVarstring(lengthBytes: nat, buf: seq<byte>, from: nat): (r: Result<Decoded, DecodeError>)
    ensures r.Ok? ==> from <= r.value.next <= |buf|
  {
    if lengthBytes == 1 then
      var p :- Read(buf, from, 1);
      var s :- Read(buf, from + 1, p[0]);
      Ok(Decoded(Text(s), from + 1 + p[0]))
    else
      var p :- Read(buf, from, 2);
      var s :- Read(buf, from + 2, Uint2Korr(p));
      Ok(Decoded(Text(s), from + 2 + Uint2Korr(p)))
  }

  /** Field_blob::unpack: get_length, then that many bytes after the prefix. */
  function DecodeBlob(packLength: nat, buf: seq<byte>, from: nat): (r: Result<Decoded, DecodeError>)
    ensures r.Ok? ==> from <= r.value.next <= |buf|
  {
    var length :- GetLength(packLength, buf, from);
    var s :- Read(buf, from + packLength, length);
    Ok(Decoded(Text(s), from + packLength + length))
  }

  /** The fixed-width unpacks: read, store, advance by the pack length. */
  function DecodeFixed(k: Kind, buf: seq<byte>, from: nat): (r: Result<Decoded, DecodeError>)
    requires !IsVariable(k)
    ensures r.Ok? ==> from <= r.value.next <= |buf|
  {
    var b :- Read(buf, from, Extent(k));
    Ok(Decoded(FixedValue(k, b), from + PackLength(k)))
  }

  /** Field_bit::unpack's loop: shift the 64-bit accumulator left by a byte and
      put the next byte into its (now zero) low byte. */
  method FoldBigEndian(bytes: seq<byte>) returns (value: nat)
    requires |bytes| <= 8
    ensures value == BigEndian(bytes) && value < Pow256(|bytes|)
  {
    value := 0;
    var i := 0;
    while i < |bytes|
      invariant 0 <= i <= |bytes|
      invariant value == BigEndian(bytes[..i]) && value < Pow256(i)
    {
      assert bytes[..i + 1][..i] == bytes[..i];
      Pow256Monotone(i + 1, 8);
      assert Pow256(8) == TWO_64;
      value := (value * 256) % TWO_64;
      value := value + bytes[i];
      i := i + 1;
    }
    assert bytes[..i] == bytes;
  }

  /** The 5.6 decoders' loop: byte i of the input goes to byte n-1-i of a
      zeroed 8-byte `ulonglong`, which the little-endian host then reads. */
  method ReverseToWord(bytes: seq<byte>) returns (word: nat)
    requires |bytes| <= 8
    ensures word == BigEndian(bytes)
  {
    var n := |bytes|;
    var mem := new byte[8](_ => 0);
    var i := 0;
    while i < n
      invariant 0 <= i <= n
      invariant forall j :: 0 <= j < 8 ==> mem[j] == if n - i <= j < n then bytes[n - 1 - j] else 0
    {
      mem[n - 1 - i] := bytes[i];
      i := i + 1;
    }
    assert mem[..] == Reversed(bytes) + Zeros(8 - n);
    LittleEndianZeroPad(Reversed(bytes), 8 - n);
    LittleEndianOfReversed(bytes);
    word := LittleEndian(mem[..]);
  }

  /** A column of a table: its decoder and the value its last unpack stored. */
  class Field {
    const name: string
    const kind: Kind
    var data: Value

    constructor (name: string, kind: Kind)
      ensures this.name == name && this.kind == kind && data == Unset
    {
      this.name := name;
      this.kind := kind;
      data := Unset;
    }

    /** `unpack(from)`: decode one value at from, store it, return the cursor after it. */
    method Unpack(buf: seq<byte>, from: nat) returns (r: Result<nat, DecodeError>)
      modifies this
      ensures Decode(kind, buf, from).Ok? ==>
                r == Ok(Decode(kind, buf, from).value.next) && data == Decode(kind, buf, from).value.value
      ensures Decode(kind, buf, from).Err? ==> r == Err(Decode(kind, buf, from).error) && data == old(data)
    {
      if kind.Varstring? {
        r := UnpackVarstring(buf, from);
      } else if kind.Blob? {
        r := UnpackBlob(buf, from);
      } else {
        r := UnpackFixed(buf, from);
      }
    }

    method UnpackVarstring(buf: seq<byte>, from: nat) returns (r: Result<nat, DecodeError>)
      requires kind.Varstring?
      modifies this
      ensures Decode(kind, buf, from).Ok? ==>
                r == Ok(Decode(kind, buf, from).value.next) && data == Decode(kind, buf, from).value.value
      ensures Decode(kind, buf, from).Err? ==> r == Err(Decode(kind, buf, from).error) && data == old(data)
    {
      var at := from;
      var length: nat;
      if kind.lengthBytes == 1 {
        if at + 1 > |buf| { return Err(OutOfBounds); }
        length := buf[at];
        at := at + 1;
      } else {
        if at + 2 > |buf| { return Err(OutOfBounds); }
        length := Uint2Korr(buf[at..at + 2]);
        at := at + 1;
        at := at + 1;
      }
      if at + length > |buf| { return Err(OutOfBounds); }
      data := Text(buf[at..at + length]);
      r := Ok(at + length);
    }

    method UnpackBlob(buf: seq<byte>, from: nat) returns (r: Result<nat, DecodeError>)
      requires kind.Blob?
      modifies this
      ensures Decode(kind, buf, from).Ok? ==>
                r == Ok(Decode(kind, buf, from).value.next) && data == Decode(kind, buf, from).value.value
      ensures Decode(kind, buf, from).Err? ==> r == Err(Decode(kind, buf, from).error) && data == old(data)
    {
      var length := GetLength(kind.packLength, buf, from);
      if length.Err? { return Err(length.error); }
      var at := from + kind.packLength;
      if at + length.value > |buf| { return Err(OutOfBounds); }
      data := Text(buf[at..at + length.value]);
      r := Ok(at + length.value);
    }

    method UnpackFixed(buf: seq<byte>, from: nat) returns (r: Result<nat, DecodeError>)
      requires !IsVariable(kind)
      modifies this
      ensures Decode(kind, buf, from).Ok? ==>
                r == Ok(Decode(kind, buf, from).value.next) && data == Decode(kind, buf, from).value.value
      ensures Decode(kind, buf, from).Err? ==> r == Err(Decode(kind, buf, from).error) && data == old(data)
    {
      if from + Extent(kind) > |buf| { return Err(OutOfBounds); }
      var bytes := buf[from..from + Extent(kind)];
      if kind.Bit? {
        var v := FoldBigEndian(bytes[..kind.bitBytes]);
        data := Unsigned(v);
      } else if kind.Time56? {
        var word := ReverseToWord(bytes[..kind.timeBytes]);
        data := Unsigned(TimeDigits(word, kind.timeBytes));
      } else if kind.Timestamp56? {
        var word := ReverseToWord(bytes[..4]);
        data := Unsigned(word);
      } else if kind.Datetime56? {
        var word := ReverseToWord(bytes[..kind.datetimeBytes]);
        data := Unsigned(DatetimeDigits(word, kind.datetimeBytes));
      } else {
        data := FixedValue(kind, bytes);
      }
      r := Ok(from + PackLength(kind));
    }
  }
}
