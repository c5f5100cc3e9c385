/** Decimal numbers: printing as `%d`, `%zu` and `PRIu32` do, and the strict parsers built
    on `strtol` and `strtoumax` (sections 7.20.1.4 and 7.8.2.3 of ISO/IEC 9899:1999). */
module Decimal {
  import opened Text
  import opened Bits

  predicate IsDigit(c: char) {
    '0' <= c <= '9'
  }

  predicate AllDigits(s: string) {
    forall i :: 0 <= i < |s| ==> IsDigit(s[i])
  }

  /** White space of the C locale, which the library functions skip. */
  predicate IsSpace(c: char) {
    c == ' ' || '\t' <= c <= '\r'
  }

  predicate AllSpaces(s: string) {
    forall i :: 0 <= i < |s| ==> IsSpace(s[i])
  }

  predicate IsSign(s: string) {
    s == "" || s == "+" || s == "-"
  }

  function DigitChar(d: nat): char
    requires d < 10
  {
    ('0' as int + d) as char
  }

  function Dec(n: nat): (s: string)
    ensures |s| >= 1
  {
    if n < 10 then [DigitChar(n)] else Dec(n / 10) + [DigitChar(n % 10)]
  }

  function DecInt(n: int): string {
    if n < 0 then "-" + Dec(-n) else Dec(n)
  }

  /** The value of a run of digits; other characters are never asked about. */
  function Value(s: string): nat
    requires AllDigits(s)
  {
    if s == "" then 0 else Value(s[..|s| - 1]) * 10 + (s[|s| - 1] as int - '0' as int)
  }

  lemma {:induction false} DecIsDigits(n: nat)
    ensures AllDigits(Dec(n)) && Value(Dec(n)) == n
  {
    if n >= 10 {
      DecIsDigits(n / 10);
      assert Dec(n)[..|Dec(n)| - 1] == Dec(n / 10);
    } else {
      assert Value("") == 0;
      assert Dec(n)[..0] == "";
    }
  }

  /** How every number is printed. */
  lemma PrintedDigits(n: nat, d: nat)
    requires d < 10
    ensures Dec(d) == ["0123456789"[d]]
    ensures n > 0 ==> Dec(10 * n + d) == Dec(n) + ["0123456789"[d]] && DecInt(-(n as int)) == "-" + Dec(n)
    ensures DecInt(n) == Dec(n)
  {
    assert DigitChar(d) == "0123456789"[d];
    assert (10 * n + d) / 10 == n && (10 * n + d) % 10 == d;
  }

  function Pow10(k: nat): (p: nat)
    ensures p >= 1
  {
    if k == 0 then 1 else 10 * Pow10(k - 1)
  }

  /** A number prints in at most k digits exactly when it is below the k-th power of ten. */
  lemma {:induction false} DecLength(n: nat, k: nat)
    requires k > 0
    ensures |Dec(n)| <= k <==> n < Pow10(k)
  {
    if k == 1 {
      assert Pow10(1) == 10;
    } else if n >= 10 {
      DecLength(n / 10, k - 1);
    } else {
      assert Pow10(k) == 100 * Pow10(k - 2);
      PowPositive(k - 2);
    }
  }

  lemma {:induction false} PowPositive(k: nat)
    ensures Pow10(k) >= 1
  {
    if k > 0 {
      PowPositive(k - 1);
    }
  }

  lemma WordLengths()
    ensures Pow10(19) <= SIZE_MAX < Pow10(20) && Pow10(9) <= UINT32_MAX < Pow10(10)
  {
    assert Pow10(5) == 100_000;
    assert Pow10(10) == 100_000 * Pow10(5);
    assert Pow10(15) == 100_000 * Pow10(10);
    assert Pow10(20) == 100_000 * Pow10(15);
  }

  /** What is left of a number when its last j digits are lost. */
  function Shortened(n: UInt32, j: nat): (r: UInt32)
    ensures r <= n && (j > 0 && n > 0 ==> r < n) && (j == 0 ==> r == n)
  {
    DivShrinks(n, Pow10(j));
    assert j > 0 ==> Pow10(j) >= 10;
    n / Pow10(j)
  }

  lemma DivShrinks(n: nat, p: nat)
    requires p >= 1
    ensures 0 <= n / p <= n
    ensures p > 1 && n > 0 ==> n / p < n
    ensures p == 1 ==> n / p == n
  {
    var q, r := n / p, n % p;
    assert n == q * p + r;
    if q > 0 {
      assert q * p == q + q * (p - 1);
      MultipleBounds(q, p - 1);
    }
  }

  lemma DivByTens(n: nat, p: nat)
    requires p >= 1
    ensures n / 10 / p == n / (10 * p)
  {
    var a, r := n / 10, n % 10;
    var q, s := a / p, a % p;
    assert a == q * p + s;
    assert q * (10 * p) == 10 * (q * p);
    ModUnique(n, 10 * p, q, 10 * s + r);
  }

  /** The digits in front of the last j spell the number without them. */
  lemma {:induction false} FrontOfNumber(n: nat, j: nat)
    requires j < |Dec(n)|
    ensures var front := Dec(n)[..|Dec(n)| - j];
            AllDigits(front) && front != "" && Value(front) == n / Pow10(j)
  {
    DecIsDigits(n);
    var digits := Dec(n);
    if j == 0 {
      assert digits[..|digits|] == digits;
      DivShrinks(n, 1);
    } else {
      assert n >= 10 && digits[..|digits| - 1] == Dec(n / 10);
      assert digits[..|digits| - j] == Dec(n / 10)[..|Dec(n / 10)| - (j - 1)];
      FrontOfNumber(n / 10, j - 1);
      DivByTens(n, Pow10(j - 1));
    }
  }

  // ---------------------------------------------------------------------------------
  // The library scanners
  // ---------------------------------------------------------------------------------

  function SpaceRun(s: string): (k: nat)
    ensures k <= |s| && AllSpaces(s[..k]) && (k < |s| ==> !IsSpace(s[k]))
  {
    if s == "" || !IsSpace(s[0]) then 0
    else
      var k := SpaceRun(s[1..]);
      assert s[1..][..k] == s[1..k + 1];
      1 + k
  }

  function DigitRun(s: string): (k: nat)
    ensures k <= |s| && AllDigits(s[..k]) && (k < |s| ==> !IsDigit(s[k]))
  {
    if s == "" || !IsDigit(s[0]) then 0
    else
      var k := DigitRun(s[1..]);
      assert s[1..][..k] == s[1..k + 1];
      1 + k
  }

  /** What a scan of white space, an optional sign and digits finds: the sign, the magnitude
      and how many characters were used, which is 0 when there was no digit at all. */
  datatype Scan = Scan(negative: bool, magnitude: nat, end: nat)

  function ScanSigned(t: string): Scan {
    var g := if t != "" && (t[0] == '+' || t[0] == '-') then 1 else 0;
    var d := DigitRun(t[g..]);
    if d == 0 then Scan(false, 0, 0) else Scan(g == 1 && t[0] == '-', Value(t[g..][..d]), g + d)
  }

  function ScanNumber(s: string): Scan {
    var w := SpaceRun(s);
    var scan := ScanSigned(s[w..]);
    if scan.end == 0 then scan else scan.(end := w + scan.end)
  }

  /** `strtoumax`: None is ERANGE; a minus sign negates modulo 2^64. */
  function StrToUMax(s: string): Option<Word> {
    var scan := ScanNumber(s);
    if scan.magnitude > SIZE_MAX then None
    else if scan.negative && scan.magnitude > 0 then Some(SIZE_MAX + 1 - scan.magnitude)
    else Some(scan.magnitude)
  }

  /** `strtol` with a 64-bit long: None is ERANGE. */
  function StrToL(s: string): Option<int> {
    var scan := ScanNumber(s);
    var v := if scan.negative then -(scan.magnitude as int) else scan.magnitude;
    if -0x8000_0000_0000_0000 <= v <= 0x7FFF_FFFF_FFFF_FFFF then Some(v) else None
  }

  /** The test that precedes both scanners: not empty and no sign up front. */
  predicate Screened(s: string) {
    s != "" && s[0] != '+' && s[0] != '-'
  }

  function ParseUIntMaxStrict(s: string): Option<Word> {
    if !Screened(s) then None
    else
      var parsed :- StrToUMax(s);
      if ScanNumber(s).end != |s| then None else Some(parsed)
  }

  function ParseSizeStrict(s: string): Option<Word> {
    var parsed :- ParseUIntMaxStrict(s);
    if parsed > SIZE_MAX then None else Some(parsed)
  }

  function ParseU32Strict(s: string): Option<UInt32> {
    var parsed :- ParseUIntMaxStrict(s);
    if parsed > UINT32_MAX then None else Some(parsed)
  }

  function ParseIntStrict(s: string): Option<Int32> {
    if !Screened(s) then None
    else
      var parsed :- StrToL(s);
      if ScanNumber(s).end != |s| then None
      else if -INT_MAX - 1 <= parsed <= INT_MAX then Some(parsed) else None
  }

  // ---------------------------------------------------------------------------------
  // Exactly which texts the strict parsers accept
  // ---------------------------------------------------------------------------------

  /** s is white space, then a sign, then digits; a sign needs white space before it. */
  ghost predicate Spells(s: string, space: string, sign: string, digits: string) {
    && s == space + sign + digits
    && AllSpaces(space) && IsSign(sign) && AllDigits(digits) && digits != ""
    && (sign != "" ==> space != "")
  }

  lemma {:induction false} SpaceRunOf(space: string, rest: string)
    requires AllSpaces(space) && (rest != "" ==> !IsSpace(rest[0]))
    ensures SpaceRun(space + rest) == |space|
  {
    if space == "" {
      assert space + rest == rest;
    } else {
      assert (space + rest)[1..] == space[1..] + rest;
      SpaceRunOf(space[1..], rest);
    }
  }

  lemma {:induction false} DigitRunOf(digits: string)
    requires AllDigits(digits)
    ensures DigitRun(digits) == |digits|
  {
    if digits != "" {
      DigitRunOf(digits[1..]);
    }
  }

  lemma ScanSignedOf(sign: string, digits: string)
    requires IsSign(sign) && AllDigits(digits) && digits != ""
    ensures ScanSigned(sign + digits) == Scan(sign == "-", Value(digits), |sign + digits|)
  {
    var t := sign + digits;
    DigitRunOf(digits);
    assert digits[..|digits|] == digits;
    if sign == "" {
      assert t == digits && t[0..] == digits && IsDigit(t[0]);
    } else {
      assert t[0] == sign[0] && t[1..] == digits;
    }
  }

  lemma ScanOfSpelled(s: string, space: string, sign: string, digits: string)
    requires Spells(s, space, sign, digits)
    ensures ScanNumber(s) == Scan(sign == "-", Value(digits), |s|)
    ensures Screened(s)
  {
    var rest := sign + digits;
    assert s == space + rest && s[|space|..] == rest;
    assert rest[0] == if sign == "" then digits[0] else sign[0];
    SpaceRunOf(space, rest);
    ScanSignedOf(sign, digits);
    assert s[0] == if space == "" then digits[0] else space[0];
  }

  lemma SignedIfScanned(t: string) returns (sign: string, digits: string)
    requires t != "" && ScanSigned(t).end == |t|
    ensures t == sign + digits && IsSign(sign) && AllDigits(digits) && digits != ""
  {
    var g := if t[0] == '+' || t[0] == '-' then 1 else 0;
    sign, digits := t[..g], t[g..];
    assert digits[..DigitRun(digits)] == digits;
    assert g == 1 ==> sign == [t[0]];
  }

  lemma ScannedTail(s: string) returns (space: string, t: string)
    requires s != "" && ScanNumber(s).end == |s|
    ensures s == space + t && AllSpaces(space) && t != "" && ScanSigned(t).end == |t|
  {
    var w := SpaceRun(s);
    space, t := s[..w], s[w..];
  }

  lemma SpelledParts(s: string, space: string, sign: string, digits: string)
    requires s == space + (sign + digits) && Screened(s)
    requires AllSpaces(space) && IsSign(sign) && AllDigits(digits) && digits != ""
    ensures Spells(s, space, sign, digits)
  {
    assert s == space + sign + digits;
    assert s[0] == (space + sign + digits)[0];
  }

  lemma SpelledIfScanned(s: string) returns (space: string, sign: string, digits: string)
    requires Screened(s) && ScanNumber(s).end == |s|
    ensures Spells(s, space, sign, digits)
  {
    var t;
    space, t := ScannedTail(s);
    sign, digits := SignedIfScanned(t);
    SpelledParts(s, space, sign, digits);
  }

  /** s stands for the unsigned number n; behind white space a minus sign wraps. */
  ghost predicate SpellsUInt(s: string, n: Word) {
    exists space, sign, digits ::
      && Spells(s, space, sign, digits)
      && Value(digits) <= SIZE_MAX
      && n == if sign == "-" && Value(digits) > 0 then SIZE_MAX + 1 - Value(digits) else Value(digits)
  }

  /** s stands for the signed number n. */
  ghost predicate SpellsInt(s: string, n: Int32) {
    exists space, sign, digits ::
      Spells(s, space, sign, digits) && n == if sign == "-" then -(Value(digits) as int) else Value(digits)
  }

  /** An unsigned field is accepted, with value n, exactly when it spells n in range. */
  lemma UIntAccepts(s: string, n: Word)
    ensures ParseUIntMaxStrict(s) == Some(n) <==> SpellsUInt(s, n)
  {
    hide ScanNumber, Screened;
    if Screened(s) && ScanNumber(s).end == |s| {
      var space, sign, digits := SpelledIfScanned(s);
      ScanOfSpelled(s, space, sign, digits);
    }
    forall space, sign, digits | Spells(s, space, sign, digits)
      ensures Screened(s) && ScanNumber(s) == Scan(sign == "-", Value(digits), |s|)
    {
      ScanOfSpelled(s, space, sign, digits);
    }
  }

  lemma IntAccepts(s: string, n: Int32)
    ensures ParseIntStrict(s) == Some(n) <==> SpellsInt(s, n)
  {
    hide ScanNumber, Screened;
    if Screened(s) && ScanNumber(s).end == |s| {
      var space, sign, digits := SpelledIfScanned(s);
      ScanOfSpelled(s, space, sign, digits);
    }
    forall space, sign, digits | Spells(s, space, sign, digits)
      ensures Screened(s) && ScanNumber(s) == Scan(sign == "-", Value(digits), |s|)
    {
      ScanOfSpelled(s, space, sign, digits);
    }
  }

  /** The promised strictness, that a number field is nothing but digits, holds exactly for
      accepted fields that start with a digit; so for the unsigned parsers as for the signed. */
  lemma StrictExactlyWhenDigitFirst(s: string)
    requires ParseUIntMaxStrict(s).Some? || ParseIntStrict(s).Some?
    ensures AllDigits(s) <==> IsDigit(s[0])
  {
    var space, sign, digits := SpelledIfScanned(s);
    if space != "" {
      assert s[0] == space[0];
    } else {
      assert s == digits;
    }
  }

  /** A leading blank hides the sign from the screen: " -1" is read as 2^64 - 1, or as -1. */
  lemma BlankDefeatsSignScreen()
    ensures ParseUIntMaxStrict("-1") == None && ParseIntStrict("-1") == None
    ensures ParseUIntMaxStrict(" -1") == Some(SIZE_MAX) && ParseIntStrict(" -1") == Some(-1)
  {
    assert " -1" == " " + "-" + "1";
    assert Spells(" -1", " ", "-", "1");
    ScanOfSpelled(" -1", " ", "-", "1");
    assert "1"[..0] == "";
    assert Value("1") == Value("") * 10 + 1;
  }

  lemma ParseDigits(s: string)
    requires AllDigits(s) && s != ""
    ensures Screened(s) && ScanNumber(s) == Scan(false, Value(s), |s|)
  {
    assert s == "" + "" + s;
    ScanOfSpelled(s, "", "", s);
  }

  lemma ParseDec(n: nat)
    ensures n <= SIZE_MAX ==> ParseSizeStrict(Dec(n)) == Some(n)
    ensures n <= UINT32_MAX ==> ParseU32Strict(Dec(n)) == Some(n)
    ensures n <= INT_MAX ==> ParseIntStrict(Dec(n)) == Some(n)
  {
    DecIsDigits(n);
    ParseDigits(Dec(n));
  }

  /** The ranges of the three parsers. */
  lemma NumberLimits()
    ensures ParseIntStrict(Dec(2147483647)) == Some(2147483647) && ParseIntStrict(Dec(2147483648)) == None
    ensures ParseU32Strict(Dec(4294967295)) == Some(4294967295) && ParseU32Strict(Dec(4294967296)) == None
    ensures ParseSizeStrict(Dec(18446744073709551615)) == Some(18446744073709551615)
    ensures ParseSizeStrict(Dec(18446744073709551616)) == None
  {
    DecParses(2147483647);
    DecParses(2147483648);
    DecParses(4294967295);
    DecParses(4294967296);
    DecParses(18446744073709551615);
    DecParses(18446744073709551616);
  }

  lemma DecParses(n: nat)
    ensures ParseUIntMaxStrict(Dec(n)) == if n <= 18446744073709551615 then Some(n) else None
    ensures ParseIntStrict(Dec(n)) == if n <= 2147483647 then Some(n) else None
  {
    hide Dec, ScanNumber, Screened;
    DecIsDigits(n);
    ParseDigits(Dec(n));
  }

  /** What may stand before a number: one of six blanks, and no other character that is no digit. */
  lemma SixBlanks(c: char, n: Word)
    requires !('0' <= c <= '9')
    ensures ParseUIntMaxStrict([c] + Dec(n)) ==
            if c in [' ', '\t', '\n', '\U{0B}', '\U{0C}', '\r'] then Some(n) else None
  {
    hide Dec, Value, ScanNumber;
    var s := [c] + Dec(n);
    DecIsDigits(n);
    if IsSpace(c) {
      assert s == [c] + "" + Dec(n);
      ScanOfSpelled(s, [c], "", Dec(n));
    } else if Screened(s) {
      NothingScanned(s);
    }
  }

  lemma NothingScanned(s: string)
    requires Screened(s) && !IsSpace(s[0]) && !IsDigit(s[0])
    ensures ScanNumber(s) == Scan(false, 0, 0)
  {
    hide Value;
    assert s[0..] == s && DigitRun(s) == 0;
  }
}
