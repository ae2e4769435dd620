/**
 * The little text processing the column constructors do on a declared type
 * string: `std::string::find`, the substring constructor, `atoi`, the `%d`
 * conversion of `sscanf`, and the comma count of the enum and set
 * constructors.
 */
module TypeString {
  import opened Wrappers
  import opened Arith

  /** `t.find(c, 0)`: the first index holding c, or None for `npos`. */
  function Find(t: string, c: char): (r: Option<nat>)
    ensures r.Some? <==> c in t
    ensures r.Some? ==> r.value < |t| && t[r.value] == c && c !in t[..r.value]
  {
    if t == [] then None
    else if t[0] == c then Some(0)
    else match Find(t[1..], c)
      case None => None
      case Some(i) => (assert t[..i + 1] == [t[0]] + t[1..][..i]; Some(i + 1))
  }

  /** `std::string(t, pos, count)`: at most count characters from pos on. */
  function Substring(t: string, pos: nat, count: nat): string
    requires pos <= |t|
  {
    t[pos..if count < |t| - pos then pos + count else |t|]
  }

  /** The text strictly between `b` and `e`, as `std::string(t, b+1, e-b-1)`
      computes it: `e-b-1` is a `size_t`, so when e comes before b the count
      wraps around and the text runs to the end of t. */
  function Between(t: string, b: nat, e: nat): (r: string)
    requires b < |t|
    ensures b < e <= |t| <= TWO_64 ==> r == t[b + 1..e]
    ensures e <= b && |t| <= TWO_64 ==> r == t[b + 1..]
  {
    Substring(t, b + 1, (e - b - 1) % TWO_64)
  }

  predicate IsSpace(c: char)
  {
    c == ' ' || c == '\t' || c == '\n' || c == '\r' || c == '\U{B}' || c == '\U{C}'
  }

  predicate IsDigit(c: char)
  {
    '0' <= c <= '9'
  }

  predicate AllDigits(s: string)
  {
    forall i :: 0 <= i < |s| ==> IsDigit(s[i])
  }

  /** Number of leading white-space characters. */
  function LeadingSpaces(s: string): (n: nat)
    ensures n <= |s|
  {
    if s != [] && IsSpace(s[0]) then 1 + LeadingSpaces(s[1..]) else 0
  }

  /** Length of the run of decimal digits at the start of s. */
  function DigitRun(s: string): (n: nat)
    ensures n <= |s| && AllDigits(s[..n])
    ensures n < |s| ==> !IsDigit(s[n])
  {
    if s != [] && IsDigit(s[0]) then
      var n := 1 + DigitRun(s[1..]);
      assert s[..n] == [s[0]] + s[1..][..n - 1];
      n
    else 0
  }

  /** Value of a digit string, accumulated left to right as `atoi` does. */
  function DigitsValue(s: string): nat
    requires AllDigits(s)
  {
    if s == [] then 0 else DigitsValue(s[..|s| - 1]) * 10 + (s[|s| - 1] as int - '0' as int)
  }

  /** A run of at least one digit at the start of s: its value and length. */
  function ScanDigits(s: string): (r: Option<(nat, nat)>)
    ensures r.Some? ==> 1 <= r.value.1 <= |s|
  {
    var n := DigitRun(s);
    if n == 0 then None else Some((DigitsValue(s[..n]), n))
  }

  /** The `%d` conversion: skip white space, an optional sign, then at least one
      digit. Gives the value and the index just after the digits. */
  function ScanInt(s: string): (r: Option<(int, nat)>)
    ensures r.Some? ==> 1 <= r.value.1 <= |s|
  {
    var i := LeadingSpaces(s);
    var signed := i < |s| && (s[i] == '-' || s[i] == '+');
    var j := if signed then i + 1 else i;
    match ScanDigits(s[j..])
    case None => None
    case Some(p) => Some((if signed && s[i] == '-' then -(p.0 as int) else p.0, j + p.1))
  }

  /** `atoi`: the `%d` value, or 0 when there is none. */
  function AtoI(s: string): (r: int)
    ensures (forall i :: 0 <= i < |s| ==> !IsDigit(s[i])) ==> r == 0
  {
    match ScanInt(s)
    case Some(p) => p.0
    case None => 0
  }

  /** `sscanf(s, "(%d,%d)", &m, &d) == 2`: the opening parenthesis, a `%d`, a
      comma with nothing before it, a second `%d`. The closing parenthesis is
      not needed for two conversions. */
  function ScanPrecisionScale(s: string): (r: Option<(int, int)>)
    ensures r.Some? ==> |s| >= 1 && s[0] == '(' && ',' in s
  {
    if s == [] || s[0] != '(' then None
    else match ScanInt(s[1..])
      case None => None
      case Some(first) =>
        var rest := s[1..][first.1..];
        if rest == [] || rest[0] != ',' then None
        else match ScanInt(rest[1..])
          case None => None
          case Some(second) => Some((first.0, second.0))
  }

  /** `sscanf(t, "<prefix>%d", &x)` for a prefix without white space or `%`:
      the prefix must match literally, then one `%d`. */
  function ScanAfter(t: string, prefix: string): (r: Option<int>)
    ensures r.Some? ==> prefix <= t && |prefix| < |t|
  {
    if prefix <= t then
      match ScanInt(t[|prefix|..])
      case Some(p) => Some(p.0)
      case None => None
    else None
  }

  /** The decimal rendering of n, as a type string writes a width. */
  function Digits(n: nat): (r: string)
    ensures |r| >= 1 && AllDigits(r)
  {
    var d := ['0' + (n % 10) as char];
    if n < 10 then d else Digits(n / 10) + d
  }

  /** Number of `,` characters in s. */
  function Commas(s: string): nat
  {
    if s == [] then 0 else Commas(s[..|s| - 1]) + (if s[|s| - 1] == ',' then 1 else 0)
  }

  /** The loop of the enum and set constructors: one more than the number of commas. */
  method CountElements(t: string) returns (count: nat)
    ensures count == Commas(t) + 1
  {
    count := 1;
    var i := 0;
    while i < |t|
      invariant 0 <= i <= |t|
      invariant count == Commas(t[..i]) + 1
    {
      assert t[..i + 1][..i] == t[..i];
      if t[i] == ',' {
        count := count + 1;
      }
      i := i + 1;
    }
    assert t[..i] == t;
  }

  /** Values separated by commas, as an enum or set declaration lists them. */
  function JoinCommas(vs: seq<string>): string
    requires |vs| >= 1
  {
    if |vs| == 1 then vs[0] else JoinCommas(vs[..|vs| - 1]) + "," + vs[|vs| - 1]
  }

  // ---- properties ----

  lemma {:induction false} CommasAppend(a: string, b: string)
    ensures Commas(a + b) == Commas(a) + Commas(b)
  {
    if b == [] {
      assert a + b == a;
    } else {
      assert (a + b)[..|a + b| - 1] == a + b[..|b| - 1];
      CommasAppend(a, b[..|b| - 1]);
    }
  }

  lemma {:induction false} CommasNone(s: string)
    requires ',' !in s
    ensures Commas(s) == 0
  {
    if s != [] {
      assert s[|s| - 1] in s;
      assert forall c :: c in s[..|s| - 1] ==> c in s;
      CommasNone(s[..|s| - 1]);
    }
  }

  /** Listing k comma-free values gives k - 1 commas. */
  lemma {:induction false} CommasOfJoin(vs: seq<string>)
    requires |vs| >= 1
    requires forall i :: 0 <= i < |vs| ==> ',' !in vs[i]
    ensures Commas(JoinCommas(vs)) == |vs| - 1
  {
    if |vs| == 1 {
      CommasNone(vs[0]);
    } else {
      var init := vs[..|vs| - 1];
      CommasOfJoin(init);
      CommasAppend(JoinCommas(init) + ",", vs[|vs| - 1]);
      CommasAppend(JoinCommas(init), ",");
      CommasNone(vs[|vs| - 1]);
      assert Commas(",") == 1 by {
        assert ","[..0] == [];
      }
    }
  }

  lemma {:induction false} DigitRunOfDigits(d: string, rest: string)
    requires AllDigits(d)
    requires rest == [] || !IsDigit(rest[0])
    ensures DigitRun(d + rest) == |d|
  {
    if d != [] {
      assert (d + rest)[1..] == d[1..] + rest;
      DigitRunOfDigits(d[1..], rest);
    } else {
      assert d + rest == rest;
    }
  }

  /** Reading back the decimal rendering of n gives n. */
  lemma {:induction false} DigitsValueOfDigits(n: nat)
    ensures DigitsValue(Digits(n)) == n
  {
    if n >= 10 {
      var s := Digits(n);
      assert s[..|s| - 1] == Digits(n / 10);
      DigitsValueOfDigits(n / 10);
    }
  }

  /** The digit run of `Digits(n) + rest` is the rendering of n, worth n. */
  lemma ScanDigitsOfDigits(n: nat, rest: string)
    requires rest == [] || !IsDigit(rest[0])
    ensures ScanDigits(Digits(n) + rest) == Some((n, |Digits(n)|))
  {
    var d := Digits(n);
    DigitRunOfDigits(d, rest);
    assert (d + rest)[..|d|] == d;
    DigitsValueOfDigits(n);
  }

  /** `%d` reads exactly the rendering of n and stops at the next non-digit. */
  lemma ScanIntOfDigits(n: nat, rest: string)
    requires rest == [] || !IsDigit(rest[0])
    ensures ScanInt(Digits(n) + rest) == Some((n as int, |Digits(n)|))
  {
    var s := Digits(n) + rest;
    assert IsDigit(s[0]);
    assert LeadingSpaces(s) == 0;
    assert s[0..] == s;
    ScanDigitsOfDigits(n, rest);
  }

  /** `atoi` of the rendering of n is n. */
  lemma AtoIOfDigits(n: nat)
    ensures AtoI(Digits(n)) == n
  {
    ScanIntOfDigits(n, []);
    assert Digits(n) + [] == Digits(n);
  }

  /** `find` gives the first occurrence, whichever index that is. */
  lemma FindFirst(t: string, c: char, j: nat)
    requires j < |t| && t[j] == c && c !in t[..j]
    ensures Find(t, c) == Some(j)
  {
    assert c in t;
  }

  lemma DigitsHaveNoPunctuation(n: nat)
    ensures '(' !in Digits(n) && ')' !in Digits(n) && ',' !in Digits(n)
    ensures '-' !in Digits(n) && ' ' !in Digits(n)
  {
    var d := Digits(n);
    forall c | c in d
      ensures '0' <= c <= '9'
    {
      var i :| 0 <= i < |d| && d[i] == c;
      assert IsDigit(d[i]);
    }
  }

  lemma {:induction false} DigitsLength(n: nat)
    ensures |Digits(n)| <= n + 1
  {
    if n >= 10 {
      DigitsLength(n / 10);
    }
  }

  /** In `keyword(d)` the parentheses are found around d, and the text between
      them is d. */
  lemma ParenthesizedParts(keyword: string, d: string)
    requires '(' !in keyword && ')' !in keyword && '(' !in d && ')' !in d
    requires |d| < TWO_64
    ensures var t := keyword + "(" + d + ")";
            var b := |keyword|;
            var e := |keyword| + 1 + |d|;
            && Find(t, '(') == Some(b) && Find(t, ')') == Some(e)
            && b < |t| && Between(t, b, e) == d
  {
    var t := keyword + "(" + d + ")";
    var b := |keyword|;
    var e := b + 1 + |d|;
    assert t[..b] == keyword;
    FindFirst(t, '(', b);
    assert t[..e] == keyword + "(" + d;
    assert ')' !in keyword + "(" + d;
    FindFirst(t, ')', e);
    assert (e - b - 1) % TWO_64 == |d|;
    assert t[b + 1..b + 1 + |d|] == d;
  }

  /** `%d` reads a minus sign and the rendering of n as -n. */
  lemma ScanIntOfNegative(n: nat, rest: string)
    requires rest == [] || !IsDigit(rest[0])
    ensures ScanInt("-" + Digits(n) + rest) == Some((-(n as int), 1 + |Digits(n)|))
  {
    var s := "-" + Digits(n) + rest;
    assert LeadingSpaces(s) == 0 by {
      assert s[0] == '-';
    }
    assert s[1..] == Digits(n) + rest;
    ScanDigitsOfDigits(n, rest);
  }

  /** `(%d,%d)` reads `(M,` and then a second `%d` from what follows the comma. */
  lemma ScanPrecisionScaleOf(m: nat, second: string)
    ensures ScanPrecisionScale("(" + Digits(m) + "," + second)
            == match ScanInt(second) case None => None case Some(p) => Some((m as int, p.0))
  {
    var s := "(" + Digits(m) + "," + second;
    assert s[1..] == Digits(m) + ("," + second);
    ScanIntOfDigits(m, "," + second);
    var rest := s[1..][|Digits(m)|..];
    assert rest == "," + second;
    assert rest[1..] == second;
  }

}
