/** The numbers of a bookmarks file: what %d, %u and %lu print, and what atoi() and sscanf("%lx") make
    of a token, on a machine with 32-bit int and 64-bit long. */
module BookmarkNumbers {
  import opened Basics
  import opened BookmarkText

  const TWO_31 := 0x8000_0000
  const TWO_32 := 0x1_0000_0000
  const TWO_63 := 0x8000_0000_0000_0000
  const TWO_64 := 0x1_0000_0000_0000_0000

  // ---- printing ----

  function Digits(n: nat): (ds: text)
    ensures ds != ""
  {
    if n < 10 then [HexDigit(n)] else Digits(n / 10) + [HexDigit(n % 10)]
  }

  /** The digits of a number from the last. */
  lemma DigitsSpelled(n: nat)
    ensures Digits(n) == (if n < 10 then "" else Digits(n / 10)) + ["0123456789"[n % 10]]
  {
    DigitValues(n % 10, '0');
    assert "0123456789"[n % 10] == "0123456789abcdef"[n % 10];
  }

  /** %d */
  function Signed(n: int): text {
    if n < 0 then "-" + Digits(-n) else Digits(n)
  }

  /** %lu of a long. */
  function Unsigned(n: int): text
    requires -TWO_63 <= n < TWO_63
  {
    Digits(if n < 0 then n + TWO_64 else n)
  }

  // ---- reading ----

  predicate IsDigit(base: nat, c: char) {
    0 <= HexCharToNibble(c) < base
  }

  function Leading(base: nat, s: string): string {
    if s == "" || !IsDigit(base, s[0]) then "" else [s[0]] + Leading(base, s[1..])
  }

  function Nibble(c: char): nat {
    if HexCharToNibble(c) < 0 then 0 else HexCharToNibble(c)
  }

  function Value(base: nat, ds: string): nat {
    if ds == "" then 0 else Value(base, ds[..|ds| - 1]) * base + Nibble(ds[|ds| - 1])
  }

  predicate White(c: char) {
    c == ' ' || 9 <= c as int <= 13
  }

  function SkipWhite(s: string): string {
    if s != "" && White(s[0]) then SkipWhite(s[1..]) else s
  }

  /** A sign before a number is optional. */
  function SkipSign(s: string): string {
    if s != "" && (s[0] == '-' || s[0] == '+') then s[1..] else s
  }

  /** So is 0x before a hexadecimal one. */
  function SkipRadix(base: nat, s: string): string {
    if base == 16 && |s| > 2 && s[0] == '0' && (s[1] == 'x' || s[1] == 'X') && IsDigit(16, s[2]) then s[2..] else s
  }

  /** The number at the front of a token, if there is one. */
  function Number(base: nat, tok: string): Option<int> {
    var t := SkipWhite(tok);
    var ds := Leading(base, SkipRadix(base, SkipSign(t)));
    if ds == "" then None
    else
      var v: int := Value(base, ds);
      Some(if t[0] == '-' then -v else v)
  }

  /** Out of range, strtol() stops at the last number there is; a long becomes an int by its low bits. */
  function Atoi(tok: string): (n: int)
    ensures -TWO_31 <= n < TWO_31
  {
    match Number(10, tok)
    case None => 0
    case Some(v) =>
      var l := if v < -TWO_63 then -TWO_63 else if v >= TWO_63 then TWO_63 - 1 else v;
      (l + TWO_31) % TWO_32 - TWO_31
  }

  /** (unsigned int) atoi(tok) */
  function AtoU(tok: string): (n: nat)
    ensures n < TWO_32
  {
    Atoi(tok) % TWO_32
  }

  /** sscanf(tok, "%lx", &l): without a number, `l` keeps what was in it. */
  function ReadHex(tok: string, l: int): int {
    match Number(16, tok)
    case None => l
    case Some(v) => AsLong(v)
  }

  /** strtoul() into a long. */
  function AsLong(v: int): int {
    var u := if v <= -TWO_64 || v >= TWO_64 then TWO_64 - 1 else v % TWO_64;
    if u >= TWO_63 then u - TWO_64 else u
  }

  // ---- decimal numbers come back ----

  lemma {:induction false} LeadingSnoc(base: nat, s: string, c: char)
    requires Leading(base, s) == s && IsDigit(base, c)
    ensures Leading(base, s + [c]) == s + [c]
  {
    if s == "" {
      assert s + [c] == [c];
      assert [c][1..] == "";
    } else {
      assert s == [s[0]] + s[1..];
      LeadingSnoc(base, s[1..], c);
      assert (s + [c])[1..] == s[1..] + [c];
    }
  }

  /** In either base the digits are read to their end; no sign, blank or radix mark is in the way. */
  lemma {:induction false} DigitsAreRead(base: nat, n: nat)
    requires base >= 10
    ensures Leading(base, Digits(n)) == Digits(n)
    ensures '0' <= Digits(n)[0] <= '9' && (|Digits(n)| > 1 ==> '0' <= Digits(n)[1] <= '9')
  {
    if n < 10 {
      NibbleOfHexDigit(n);
      LeadingSnoc(base, "", HexDigit(n));
      assert "" + [HexDigit(n)] == [HexDigit(n)];
    } else {
      DigitsAreRead(base, n / 10);
      NibbleOfHexDigit(n % 10);
      LeadingSnoc(base, Digits(n / 10), HexDigit(n % 10));
    }
  }

  lemma NumberOfDigits(base: nat, n: nat)
    requires base >= 10
    ensures Number(base, Digits(n)) == Some(Value(base, Digits(n)))
  {
    DigitsAreRead(base, n);
    var ds := Digits(n);
    assert SkipWhite(ds) == ds && SkipSign(ds) == ds && SkipRadix(base, ds) == ds;
  }

  lemma AfterMinus(ds: string)
    ensures SkipWhite("-" + ds) == "-" + ds && SkipSign("-" + ds) == ds && ("-" + ds)[0] == '-'
  {
    assert ("-" + ds)[1..] == ds;
  }

  lemma NumberOfNegative(base: nat, n: nat)
    requires base >= 10
    ensures Number(base, "-" + Digits(n)) == Some(-(Value(base, Digits(n)) as int))
  {
    DigitsAreRead(base, n);
    var ds := Digits(n);
    AfterMinus(ds);
    assert SkipRadix(base, ds) == ds;
  }

  lemma {:induction false} DecimalValue(n: nat)
    ensures Value(10, Digits(n)) == n
  {
    if n < 10 {
      assert [HexDigit(n)][..0] == "";
    } else {
      DecimalValue(n / 10);
      assert Digits(n)[..|Digits(n)| - 1] == Digits(n / 10);
    }
  }

  /** atoi() undoes %d for every int. */
  lemma AtoiOfSigned(n: int)
    requires -TWO_31 <= n < TWO_31
    ensures Atoi(Signed(n)) == n
  {
    NumberOfSigned(n);
    AtoiOfNumber(Signed(n), n);
  }

  lemma NumberOfSigned(n: int)
    ensures Number(10, Signed(n)) == Some(n)
  {
    if n < 0 {
      DecimalNegative(-n);
    } else {
      DecimalNumber(n);
    }
  }

  lemma DecimalNumber(n: nat)
    ensures Number(10, Digits(n)) == Some(n)
  {
    NumberOfDigits(10, n);
    DecimalValue(n);
  }

  lemma DecimalNegative(n: nat)
    ensures Number(10, "-" + Digits(n)) == Some(-(n as int))
  {
    NumberOfNegative(10, n);
    DecimalValue(n);
  }

  lemma AtoiOfNumber(tok: string, n: int)
    requires -TWO_31 <= n < TWO_31 && Number(10, tok) == Some(n)
    ensures Atoi(tok) == n
  {
    InRangeStays(n);
  }

  lemma InRangeStays(l: int)
    requires -TWO_31 <= l < TWO_31
    ensures (l + TWO_31) % TWO_32 - TWO_31 == l
  {
  }

  /** And, with the cast, %u for every unsigned int. */
  lemma AtoUOfDigits(n: nat)
    requires n < TWO_32
    ensures AtoU(Digits(n)) == n
  {
    DecimalNumber(n);
    LowBits(n);
  }

  lemma LowBits(n: nat)
    requires n < TWO_32
    ensures ((n + TWO_31) % TWO_32 - TWO_31) % TWO_32 == n
  {
    if n < TWO_31 {
      assert (n + TWO_31) % TWO_32 == n + TWO_31;
    } else {
      assert (n + TWO_31) % TWO_32 == n - TWO_31;
    }
  }

  // ---- a decimal number read as a hexadecimal one ----

  lemma {:induction false} HexExceedsDecimal(n: nat)
    ensures Value(16, Digits(n)) >= n
    ensures Value(16, Digits(n)) == n <==> n < 10
  {
    if n < 10 {
      assert [HexDigit(n)][..0] == "";
    } else {
      HexExceedsDecimal(n / 10);
      assert Digits(n)[..|Digits(n)| - 1] == Digits(n / 10);
    }
  }

  function Pow(b: nat, k: nat): nat {
    if k == 0 then 1 else Pow(b, k - 1) * b
  }

  lemma {:induction false} HexGrows(n: nat, k: nat)
    requires n >= Pow(10, k)
    ensures Value(16, Digits(n)) >= Pow(16, k)
    decreases k
  {
    if k == 0 {
      HexExceedsDecimal(n);
    } else {
      PowPositive(k - 1);
      assert n / 10 >= Pow(10, k - 1);
      HexGrows(n / 10, k - 1);
      assert n >= 10;
      assert Digits(n)[..|Digits(n)| - 1] == Digits(n / 10);
    }
  }

  lemma PowPositive(k: nat)
    ensures Pow(10, k) >= 1
  {
  }

  lemma Powers()
    ensures Pow(10, 18) == 1_000_000_000_000_000_000 && Pow(16, 18) == 0x100_0000 * 0x1_0000_0000_0000
  {
    assert Pow(10, 6) == 1_000_000;
    assert Pow(16, 6) == 0x100_0000;
    assert Pow(10, 12) == 1_000_000_000_000;
    assert Pow(16, 12) == 0x1_0000_0000_0000;
  }

  /** A time printed with %lu and read with %lx comes back in exactly two cases: it has one digit, or it
      is -1, which prints as a number too large for the reader. */
  lemma LastCallSurvives(n: int, l: int)
    requires -TWO_63 <= n < TWO_63
    ensures ReadHex(Unsigned(n), l) == n <==> 0 <= n < 10 || n == -1
  {
    if n < 0 {
      ReadNegative(n, l);
    } else {
      ReadPositive(n, l);
    }
  }

  lemma ReadPositive(n: nat, l: int)
    requires n < TWO_63
    ensures ReadHex(Digits(n), l) == n <==> n < 10
  {
    NumberOfDigits(16, n);
    HexExceedsDecimal(n);
    LongOfLarger(n, Value(16, Digits(n)));
  }

  lemma LongOfLarger(n: nat, v: nat)
    requires n < TWO_63 && n <= v
    ensures AsLong(v) == n <==> v == n
  {
  }

  lemma ReadNegative(n: int, l: int)
    requires -TWO_63 <= n < 0
    ensures ReadHex(Digits(n + TWO_64), l) == -1
  {
    NumberOfDigits(16, n + TWO_64);
    TooLarge(n + TWO_64);
  }

  lemma TooLarge(u: nat)
    requires u >= TWO_63
    ensures Value(16, Digits(u)) >= TWO_64
  {
    Powers();
    HexGrows(u, 18);
  }

  /** Ten seconds after the epoch becomes sixteen. */
  lemma TenBecomesSixteen(l: int)
    ensures Unsigned(10) == "10" && ReadHex("10", l) == 16
  {
    assert Digits(1) == ['1'] && Digits(10) == Digits(1) + ['0'] == "10";
    NumberOfDigits(16, 10);
    NibbleOfHexDigit(0);
    NibbleOfHexDigit(1);
    assert Digits(10)[..1] == Digits(1) && Digits(1)[..0] == "";
  }

  // ---- the texts of numbers ----

  lemma {:induction false} DigitsPlain(n: nat)
    ensures Plain(Digits(n))
  {
    if n >= 10 {
      DigitsPlain(n / 10);
    }
  }

  lemma {:induction false} DigitsShort(n: nat, k: nat)
    requires k > 0 && n < Pow(10, k)
    ensures |Digits(n)| <= k
    decreases k
  {
    if n >= 10 {
      assert k > 1 && n / 10 < Pow(10, k - 1);
      DigitsShort(n / 10, k - 1);
    }
  }

  lemma NumbersShort(n: nat)
    requires n < TWO_64
    ensures |Digits(n)| <= 20
  {
    Powers();
    assert Pow(10, 20) == Pow(10, 18) * 10 * 10;
    DigitsShort(n, 20);
  }
}
