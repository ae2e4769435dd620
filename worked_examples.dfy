/**
 * Concrete declarations and row images, each worked through the general
 * lemmas.
 */
module WorkedExamples {
  import opened Wrappers
  import opened Bytes
  import opened TypeString
  import opened Temporal
  import opened Fields
  import opened FieldProperties
  import opened ConstructorProperties

  /** A short column holding 0x2C 0x01 is 300. */
  lemma ShortExample()
    ensures Decode(Short, [0x2C, 0x01], 0) == Ok(Decoded(Unsigned(300), 2))
  {
    IntegerDecodersAreLittleEndian(Short, 2, [0x2C, 0x01], 0);
    assert [0x2C, 0x01][0..2] == [0x2C, 0x01];
  }

  /** The declarations below, as the server writes them. */
  lemma VarcharRenderings()
    ensures Declared("varchar", 100) == "varchar(100)"
    ensures Declared("varchar", 300) == "varchar(300)"
  {
    assert Digits(100) == "100" && Digits(300) == "300";
  }

  lemma DecimalRendering()
    ensures DeclaredPair("decimal", 5, Digits(2)) == "decimal(5,2)"
  {
    assert Digits(5) == "5" && Digits(2) == "2";
  }

  lemma DecimalRefusedRenderings()
    ensures Declared("decimal", 5) == "decimal(5)"
    ensures DeclaredPair("decimal", 5, "x") == "decimal(5,x)"
  {
    assert Digits(5) == "5";
  }

  lemma BitRenderings()
    ensures Declared("bit", 13) == "bit(13)"
    ensures Declared("bit", 0) == "bit(0)"
    ensures Declared("bit", 65) == "bit(65)"
  {
    assert Digits(13) == "13" && Digits(0) == "0" && Digits(65) == "65";
  }

  /** varchar(100) of a 1-byte collation takes a 1-byte prefix, varchar(300)
      a 2-byte one. */
  lemma VarcharExamples()
    ensures NewVarstring(Declared("varchar", 100), 1) == Ok(Varstring(1, 100))
    ensures NewVarstring(Declared("varchar", 300), 1) == Ok(Varstring(2, 300))
  {
    VarcharSizing("varchar", 100, 1);
    VarcharSizing("varchar", 300, 1);
  }

  /** A varchar declaration without parentheses is refused. */
  lemma VarcharWithoutWidth()
    ensures NewVarstring("varchar", 1) == Err(MalformedType)
  {
    assert Find("varchar", '(') == None by { assert '(' !in "varchar"; }
  }

  /** decimal(5,2) has 3 integer and 2 fractional digits in 3 bytes. */
  lemma DecimalExample()
    ensures NewDecimal(DeclaredPair("decimal", 5, Digits(2))).Ok?
    ensures NewDecimal(DeclaredPair("decimal", 5, Digits(2))).value == Decimal(3, 2, 3)
  {
    DecimalSizing("decimal", 5, 2);
    DecimalWidthExample();
  }

  /** decimal(5) and decimal(5,x) are refused: `(%d,%d)` converts only 5. */
  lemma DecimalRefusedExamples()
    ensures NewDecimal(Declared("decimal", 5)) == Err(MalformedType)
    ensures NewDecimal(DeclaredPair("decimal", 5, "x")) == Err(MalformedType)
  {
    DecimalWithoutScale("decimal", 5);
    assert ScanInt("x" + ")").None? by {
      assert LeadingSpaces("x)") == 0;
      assert DigitRun("x)") == 0;
    }
    DecimalWithoutNumericScale("decimal", 5, "x");
  }

  lemma DecimalWidthExample()
    ensures DecimalWidth(3, 2) == 3
  {
    assert Dig2Bytes[3] == 2 && Dig2Bytes[2] == 1;
  }

  /** bit(13) takes 2 bytes. */
  lemma BitExample()
    ensures NewBit(Declared("bit", 13)).Ok? && NewBit(Declared("bit", 13)).value.bitBytes == 2
  {
    BitSizing("bit", 13);
  }

  /** bit(0) and bit(65) are refused. */
  lemma BitRefusedExamples()
    ensures NewBit(Declared("bit", 0)).Err? && NewBit(Declared("bit", 65)).Err?
  {
    BitSizing("bit", 0);
    BitSizing("bit", 65);
  }

  /** time(3) takes 5 bytes, and 10:15:30 with any milliseconds decodes to
      101530. */
  lemma TimeExample(frac: seq<byte>)
    requires |frac| == 2
    ensures NewTime56("time(3)") == Ok(Time56(5))
    ensures Decode(Time56(5), BigEndianBytes(TimeHeader(2, 10, 15, 30), 3) + frac, 0)
            == Ok(Decoded(Unsigned(101530), 5))
  {
    TimeSizing(3);
    assert Declared("time", 3) == "time(3)";
    Time56RoundTrip(5, 2, 10, 15, 30, frac, []);
    assert BigEndianBytes(TimeHeader(2, 10, 15, 30), 3) + frac + []
        == BigEndianBytes(TimeHeader(2, 10, 15, 30), 3) + frac;
  }

  /** A datetime column holding 2023-06-15 09:05:00 decodes to 20230615090500. */
  lemma DatetimeExample()
    ensures NewDatetime56("datetime") == Ok(Datetime56(5))
    ensures Decode(Datetime56(5), BigEndianBytes(DatetimeHeader(1, 2023, 6, 15, 9, 5, 0), 5), 0)
            == Ok(Decoded(Unsigned(20230615090500), 5))
  {
    DatetimeSizing(0);
    Datetime56RoundTrip(5, 1, 2023, 6, 15, 9, 5, 0, [], []);
    assert BigEndianBytes(DatetimeHeader(1, 2023, 6, 15, 9, 5, 0), 5) + [] + []
        == BigEndianBytes(DatetimeHeader(1, 2023, 6, 15, 9, 5, 0), 5);
  }

  /** enum('a','b','c') has 3 elements. */
  lemma EnumExample()
    ensures Commas("enum('a','b','c')") + 1 == 3
  {
    var vs := ["'a'", "'b'", "'c'"];
    ElementCountOfDeclaration("enum", vs);
    assert vs[..2][..1] == ["'a'"];
    assert JoinCommas(vs[..2]) == "'a','b'";
    assert JoinCommas(vs) == "'a','b','c'";
    assert "enum" + "(" + JoinCommas(vs) + ")" == "enum('a','b','c')";
  }

  /** A blob prefix of 5 bytes is refused. */
  lemma BlobExample(buf: seq<byte>)
    ensures GetLength(5, buf, 0) == Err(WrongPackLength)
  {
  }
}
