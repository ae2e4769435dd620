/**
 * What each constructor derives from a well-formed type string such as
 * `varchar(300)`, `decimal(5,2)`, `bit(13)` or `time(3)`, and which strings
 * it refuses.
 */
module ConstructorProperties {
  import opened Wrappers
  import opened Arith
  import opened TypeString
  import opened Temporal
  import opened Fields

  /** A type string with one width argument, as the server writes it. */
  function Declared(keyword: string, n: nat): string
  {
    keyword + "(" + Digits(n) + ")"
  }

  // ---- varchar ----

  /** `varchar(N)` with maxlen bytes per symbol: N symbols, and a 1-byte length
      prefix exactly when N * maxlen is below 256 (the keyword itself is not
      looked at). */
  lemma VarcharSizing(keyword: string, n: nat, maxlen: int)
    requires '(' !in keyword && ')' !in keyword
    requires n < 0x8000_0000
    ensures NewVarstring(Declared(keyword, n), maxlen)
            == Ok(Varstring(if n * maxlen < 256 then 1 else 2, n))
  {
    DigitsHaveNoPunctuation(n);
    DigitsLength(n);
    NewVarstringOfParenthesized(keyword, Digits(n), maxlen);
    AtoIOfDigits(n);
  }

  /** `keyword(D)`: the symbol count is whatever `atoi` makes of D. */
  lemma NewVarstringOfParenthesized(keyword: string, d: string, maxlen: int)
    requires '(' !in keyword && ')' !in keyword && '(' !in d && ')' !in d
    requires |d| < TWO_64
    ensures NewVarstring(keyword + "(" + d + ")", maxlen) == Ok(SizeVarstring(AtoI(d), maxlen))
  {
    ParenthesizedParts(keyword, d);
  }

  /** The prefix the constructor picks can hold the longest value the column
      allows (65,535 bytes at most), and a single byte would not when it picks two. */
  lemma VarcharPrefixFitsLongestValue(keyword: string, n: nat, maxlen: nat)
    requires '(' !in keyword && ')' !in keyword
    requires n < 0x8000_0000 && n * maxlen < 0x1_0000
    ensures var k := NewVarstring(Declared(keyword, n), maxlen).value;
            && n * maxlen < Pow256(k.lengthBytes)
            && (k.lengthBytes == 2 ==> n * maxlen >= Pow256(1))
  {
    VarcharSizing(keyword, n, maxlen);
    assert Pow256(1) == 0x100 && Pow256(2) == 0x1_0000;
  }

  // ---- decimal ----

  /** A type string with a precision and a scale argument. */
  function DeclaredPair(keyword: string, m: nat, scale: string): string
  {
    keyword + "(" + Digits(m) + "," + scale + ")"
  }

  /** NewDecimal once the opening parenthesis and the two numbers are known. */
  lemma NewDecimalOfParts(t: string, b: nat, m: int, d: int)
    requires Find(t, '(') == Some(b) && ScanPrecisionScale(t[b..]) == Some((m, d))
    ensures NewDecimal(t) == SizeDecimal(m, d)
  {
  }

  /** In `keyword(M,scale)` the `(` after the keyword is found, and `(%d,%d)`
      reads M and then a `%d` from the scale. */
  lemma DeclaredPairParts(keyword: string, m: nat, scale: string)
    requires '(' !in keyword
    ensures var t := DeclaredPair(keyword, m, scale);
            && Find(t, '(') == Some(|keyword|)
            && ScanPrecisionScale(t[|keyword|..])
               == match ScanInt(scale + ")") case None => None case Some(p) => Some((m as int, p.0))
  {
    var t := DeclaredPair(keyword, m, scale);
    assert t[..|keyword|] == keyword;
    FindFirst(t, '(', |keyword|);
    assert t[|keyword|..] == "(" + Digits(m) + "," + (scale + ")");
    ScanPrecisionScaleOf(m, scale + ")");
  }

  /** `decimal(M,D)`: M - D integer and D fractional digits, sized by
      DecimalWidth, when M is positive and not below D; refused otherwise.
      The constructor reads only what follows the first `(`, so this holds
      whatever the keyword before it. */
  lemma DecimalSizing(keyword: string, m: nat, d: nat)
    requires '(' !in keyword
    requires m < 0x8000_0000 && d < 0x8000_0000
    ensures m > 0 && m >= d ==>
              NewDecimal(DeclaredPair(keyword, m, Digits(d))) == Ok(Decimal(m - d, d, DecimalWidth(m - d, d)))
    ensures !(m > 0 && m >= d) ==>
              NewDecimal(DeclaredPair(keyword, m, Digits(d))) == Err(MalformedType)
  {
    DeclaredPairParts(keyword, m, Digits(d));
    ScanIntOfDigits(d, ")");
    NewDecimalOfParts(DeclaredPair(keyword, m, Digits(d)), |keyword|, m, d);
  }

  /** `keyword(M)`: `(%d,%d)` converts M but finds `)` where the comma should
      be, so the constructor refuses the declaration. */
  lemma DecimalWithoutScale(keyword: string, m: nat)
    requires '(' !in keyword
    requires m < 0x8000_0000
    ensures NewDecimal(Declared(keyword, m)) == Err(MalformedType)
  {
    var t := Declared(keyword, m);
    assert t[..|keyword|] == keyword;
    FindFirst(t, '(', |keyword|);
    var s := t[|keyword|..];
    assert s[1..] == Digits(m) + ")";
    ScanIntOfDigits(m, ")");
    assert s[1..][|Digits(m)|..] == ")";
  }

  /** `keyword(M,scale)` where the scale does not start a `%d`: the second
      conversion fails and the constructor refuses the declaration. */
  lemma DecimalWithoutNumericScale(keyword: string, m: nat, scale: string)
    requires '(' !in keyword
    requires m < 0x8000_0000
    requires ScanInt(scale + ")").None?
    ensures NewDecimal(DeclaredPair(keyword, m, scale)) == Err(MalformedType)
  {
    DeclaredPairParts(keyword, m, scale);
  }

  /** Finding: a negative scale passes the guard as written. `decimal(M,-D)`
      with M positive scans to (M, -D), the guard accepts it, and the C
      remainder of -D by 9 is negative, an index before the start of the
      dig2bytes table. The corrected constructor refuses it. */
  lemma NegativeScalePassesGuardAsWritten(keyword: string, m: nat, d: nat)
    requires '(' !in keyword
    requires 1 <= m < 0x8000_0000 && 1 <= d < 9
    ensures var t := DeclaredPair(keyword, m, "-" + Digits(d));
            ScanPrecisionScale(t[|keyword|..]) == Some((m as int, -(d as int)))
    ensures DecimalGuardAsWritten(m, -(d as int))
    ensures CRem(-(d as int), 9) == -(d as int)
    ensures NewDecimal(DeclaredPair(keyword, m, "-" + Digits(d))) == Err(MalformedType)
  {
    NegativeScaleScan(keyword, m, d);
    NewDecimalOfParts(DeclaredPair(keyword, m, "-" + Digits(d)), |keyword|, m, -(d as int));
    NegativeRemainder(d);
  }

  /** The C remainder of a small negative scale by 9 is the scale itself. */
  lemma NegativeRemainder(d: nat)
    requires 1 <= d < 9
    ensures CRem(-(d as int), 9) == -(d as int)
  {
    assert CDiv(-(d as int), 9) == 0;
  }

  /** decimal(5,-9) as written: the guard lets it through, C's `/` and `%` keep
      both table indices in range, and the sizing gives 3 bytes. The corrected
      constructor refuses it with every other negative scale. */
  lemma NegativeMultipleOfNineAsWritten()
    ensures DecimalGuardAsWritten(5, -9)
    ensures CRem(5 - -9, 9) == 5 && CRem(-9, 9) == 0
    ensures CDiv(5 - -9, 9) * 4 + Dig2Bytes[5] + CDiv(-9, 9) * 4 + Dig2Bytes[0] == 3
    ensures SizeDecimal(5, -9) == Err(MalformedType)
  {
  }

  /** `(%d,%d)` reads `(M,-D)` as M and -D. */
  lemma NegativeScaleScan(keyword: string, m: nat, d: nat)
    requires '(' !in keyword
    ensures var t := DeclaredPair(keyword, m, "-" + Digits(d));
            && Find(t, '(') == Some(|keyword|)
            && ScanPrecisionScale(t[|keyword|..]) == Some((m as int, -(d as int)))
  {
    DeclaredPairParts(keyword, m, "-" + Digits(d));
    ScanIntOfNegative(d, ")");
  }

  /** The table gives the fewest bytes that hold r leftover digits with the
      top bit kept for the sign: 10^r - 1 is below half of 256^Dig2Bytes[r]
      and not below half of one byte fewer; a full group of nine digits fits
      its 4 bytes the same way. */
  lemma Dig2BytesIsMinimal(r: nat)
    requires r < 9
    ensures r == 0 ==> Dig2Bytes[r] == 0
    ensures r > 0 ==> Pow10(r) <= Pow256(Dig2Bytes[r]) / 2
    ensures r > 0 ==> Pow256(Dig2Bytes[r] - 1) / 2 < Pow10(r)
    ensures Pow10(9) <= Pow256(4) / 2
  {
    assert Pow256(0) == 1 && Pow256(1) == 0x100 && Pow256(2) == 0x1_0000;
    assert Pow256(3) == 0x100_0000 && Pow256(4) == 0x1_0000_0000;
    assert Pow10(1) == 10 && Pow10(2) == 100 && Pow10(3) == 1000;
    assert Pow10(4) == 10000 && Pow10(5) == 100000 && Pow10(6) == 1000000;
    assert Pow10(7) == 10000000 && Pow10(8) == 100000000 && Pow10(9) == 1000000000;
    if r == 0 {
    } else if r <= 2 {
      assert Dig2Bytes[r] == 1;
    } else if r <= 4 {
      assert Dig2Bytes[r] == 2;
    } else if r <= 6 {
      assert Dig2Bytes[r] == 3;
    } else {
      assert Dig2Bytes[r] == 4;
    }
  }

  // ---- bit ----

  /** For a width of N bits that is not negative and leaves room for the
      `+ 7` in `int`, BitPackLength is the fewest whole bytes that hold N bits. */
  lemma BitPackLengthIsBytesForBits(n: nat)
    requires n <= 0x7FFF_FFF8
    ensures 8 * BitPackLength(n) >= n
    ensures BitPackLength(n) > 0 ==> 8 * (BitPackLength(n) - 1) < n
  {
    assert CDiv(n + 7, 8) == (n + 7) / 8;
  }

  /** For a declared width up to 2^31 - 8, where `N + 7` still fits an `int`,
      BitPackLength is (N + 7) / 8, and it lies in the accepted range 1 to 8
      exactly when N lies in 1 to 64. */
  lemma BitPackLengthOfWidth(n: nat)
    requires n <= 0x7FFF_FFF8
    ensures BitPackLength(n) == (n + 7) / 8
    ensures 1 <= BitPackLength(n) <= 8 <==> 1 <= n <= 64
  {
    assert CDiv(n + 7, 8) == (n + 7) / 8;
    assert (n + 7) / 8 < 0x1_0000_0000;
  }

  /** A negative width gives pack length 0, or, wrapping through the unsigned
      pack length, a value above 8. */
  lemma BitPackLengthOfNegative(w: int)
    requires -0x8000_0000 <= w < 0
    ensures BitPackLength(w) == 0 || BitPackLength(w) > 8
  {
  }

  /** NewBit once both parentheses are found. */
  lemma NewBitOfParts(t: string, b: nat, e: nat)
    requires Find(t, '(') == Some(b) && Find(t, ')') == Some(e)
    ensures b < |t| && NewBit(t) == SizeBit(AtoI(Between(t, b, e)))
  {
  }

  /** `keyword(D)`: the width is whatever `atoi` makes of D. */
  lemma NewBitOfParenthesized(keyword: string, d: string)
    requires '(' !in keyword && ')' !in keyword && '(' !in d && ')' !in d
    requires |d| < TWO_64
    ensures NewBit(keyword + "(" + d + ")") == SizeBit(AtoI(d))
  {
    var t := keyword + "(" + d + ")";
    var b, e := |keyword|, |keyword| + 1 + |d|;
    assert Find(t, '(') == Some(b) && Find(t, ')') == Some(e) && Between(t, b, e) == d by {
      ParenthesizedParts(keyword, d);
    }
    NewBitOfParts(t, b, e);
  }

  /** `bit(N)`: (N + 7) / 8 bytes for N from 1 to 64; 0 and widths above 64,
      up to 2^31 - 8, are refused. The constructor reads only what lies
      between the parentheses, so this holds whatever the keyword before them. */
  lemma BitSizing(keyword: string, n: nat)
    requires '(' !in keyword && ')' !in keyword
    requires n <= 0x7FFF_FFF8
    ensures 1 <= n <= 64 ==> NewBit(Declared(keyword, n)) == Ok(Bit((n + 7) / 8))
    ensures !(1 <= n <= 64) ==> NewBit(Declared(keyword, n)) == Err(InvalidPackLength)
  {
    DigitsHaveNoPunctuation(n);
    DigitsLength(n);
    NewBitOfParenthesized(keyword, Digits(n));
    AtoIOfDigits(n);
    BitPackLengthOfWidth(n);
  }

  /** `bit(-N)` is refused. */
  lemma BitRefusesNegativeWidth(keyword: string, n: nat)
    requires '(' !in keyword && ')' !in keyword
    requires 1 <= n <= 0x8000_0000
    ensures NewBit(keyword + "(" + ("-" + Digits(n)) + ")") == Err(InvalidPackLength)
  {
    var d := "-" + Digits(n);
    DigitsHaveNoPunctuation(n);
    DigitsLength(n);
    NewBitOfParenthesized(keyword, d);
    assert AtoI(d) == -(n as int) by {
      ScanIntOfNegative(n, []);
      assert d + [] == d;
    }
    BitPackLengthOfNegative(-(n as int));
  }

  // ---- the 5.6 temporal types ----

  lemma FspOfDeclared(keyword: string, f: nat)
    requires f < 0x8000_0000
    ensures FspDigits(Declared(keyword, f), keyword) == f
  {
    var t := Declared(keyword, f);
    var prefix := keyword + "(";
    assert prefix <= t;
    assert t[|prefix|..] == Digits(f) + ")";
    ScanIntOfDigits(f, ")");
  }

  /** `time(F)`: 3 bytes plus (F + 1) / 2 fractional ones for F up to 6;
      plain `time` is `time(0)`; any other F is refused. */
  lemma TimeSizing(f: nat)
    requires f < 0x8000_0000
    ensures NewTime56(Declared("time", f))
            == if f <= 6 then Ok(Time56(3 + (f + 1) / 2)) else Err(UnsupportedPrecision)
    ensures NewTime56("time") == Ok(Time56(3))
  {
    FspOfDeclared("time", f);
    FspLengthIsHalfRoundedUp(3, f);
    assert !("time(" <= "time");
  }

  /** `timestamp(F)`: 4 bytes plus (F + 1) / 2; plain `timestamp` is 4 bytes. */
  lemma TimestampSizing(f: nat)
    requires f < 0x8000_0000
    ensures NewTimestamp56(Declared("timestamp", f))
            == if f <= 6 then Ok(Timestamp56(4 + (f + 1) / 2)) else Err(UnsupportedPrecision)
    ensures NewTimestamp56("timestamp") == Ok(Timestamp56(4))
  {
    FspOfDeclared("timestamp", f);
    FspLengthIsHalfRoundedUp(4, f);
    assert !("timestamp(" <= "timestamp");
  }

  /** `datetime(F)`: 5 bytes plus (F + 1) / 2; plain `datetime` is 5 bytes. */
  lemma DatetimeSizing(f: nat)
    requires f < 0x8000_0000
    ensures NewDatetime56(Declared("datetime", f))
            == if f <= 6 then Ok(Datetime56(5 + (f + 1) / 2)) else Err(UnsupportedPrecision)
    ensures NewDatetime56("datetime") == Ok(Datetime56(5))
  {
    FspOfDeclared("datetime", f);
    FspLengthIsHalfRoundedUp(5, f);
    assert !("datetime(" <= "datetime");
  }

  // ---- enum and set ----

  /** An `enum(...)` or `set(...)` declaration of k values without commas in
      them has k elements by the constructors' count. */
  lemma ElementCountOfDeclaration(keyword: string, vs: seq<string>)
    requires ',' !in keyword && |vs| >= 1
    requires forall i :: 0 <= i < |vs| ==> ',' !in vs[i]
    ensures Commas(keyword + "(" + JoinCommas(vs) + ")") + 1 == |vs|
  {
    CommasOfJoin(vs);
    CommasAppend(keyword + "(" + JoinCommas(vs), ")");
    CommasAppend(keyword + "(", JoinCommas(vs));
    CommasNone(keyword + "(");
    CommasNone(")");
  }
}
