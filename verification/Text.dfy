/**
 Numbers as text: decimal printing, and the string-to-number functions the readers of the
 lease file and of the result cache share. `long` has 64 bits, `int` has 32.
 */
module Text {

  predicate IsDigit(c: char) {
    '0' <= c <= '9'
  }

  predicate AllDigits(s: string) {
    forall i :: 0 <= i < |s| ==> IsDigit(s[i])
  }

  predicate Lacks(s: string, c: char) {
    forall i :: 0 <= i < |s| ==> s[i] != c
  }

  function DigitChar(d: nat): (c: char)
    requires d < 10
    ensures IsDigit(c)
  {
    ('0' as int + d) as char
  }

  /** `%llu`: decimal digits, most significant first. */
  function Digits(n: nat): (s: string)
    ensures |s| > 0 && AllDigits(s)
  {
    if n < 10 then [DigitChar(n)] else Digits(n / 10) + [DigitChar(n % 10)]
  }

  /** `%d`, `%lld` and `std::to_string`. */
  function Show(i: int): (s: string)
    ensures |s| > 0 && (s[0] == '-' || IsDigit(s[0])) && AllDigits(s[1..])
  {
    if i < 0 then "-" + Digits(-i) else Digits(i)
  }

  function Value(s: string): nat
    requires AllDigits(s)
  {
    if s == "" then 0 else 10 * Value(s[..|s| - 1]) + (s[|s| - 1] as int - '0' as int)
  }

  /** The digits at the head of a text. */
  function LeadingDigits(s: string): (r: string)
    ensures AllDigits(r) && |r| <= |s| && r == s[..|r|]
    ensures |r| < |s| ==> !IsDigit(s[|r|])
  {
    if s == "" || !IsDigit(s[0]) then "" else [s[0]] + LeadingDigits(s[1..])
  }

  lemma {:induction false} DigitsValue(n: nat)
    ensures Value(Digits(n)) == n
  {
    if n >= 10 {
      DigitsValue(n / 10);
      assert Digits(n)[..|Digits(n)| - 1] == Digits(n / 10);
    } else {
      assert Digits(n)[..0] == "";
    }
  }

  lemma {:induction false} LeadingOf(ds: string, rest: string)
    requires AllDigits(ds) && (rest == "" || !IsDigit(rest[0]))
    ensures LeadingDigits(ds + rest) == ds
  {
    if ds == "" {
      assert ds + rest == rest;
    } else {
      LeadingOf(ds[1..], rest);
      assert (ds + rest)[1..] == ds[1..] + rest;
    }
  }

  function Pow10(k: nat): (r: nat)
    ensures r >= 1
  {
    if k == 0 then 1 else 10 * Pow10(k - 1)
  }

  lemma {:induction false} DigitsLength(n: nat, k: nat)
    requires n < Pow10(k) && k > 0
    ensures |Digits(n)| <= k
  {
    if n >= 10 {
      DigitsLength(n / 10, k - 1);
    }
  }

  // ----- strtol and strtoull -----

  predicate IsBlank(c: char) {
    c == ' ' || 9 <= c as int <= 13
  }

  function SkipBlanks(s: string): string {
    if s != "" && IsBlank(s[0]) then SkipBlanks(s[1..]) else s
  }

  function Signed(s: string): int {
    if s != "" && s[0] == '-' then 0 - Value(LeadingDigits(s[1..]))
    else if s != "" && s[0] == '+' then Value(LeadingDigits(s[1..]))
    else Value(LeadingDigits(s))
  }

  /** The number at the head of a text, with its sign; 0 when there is none. */
  function Number(s: string): int {
    Signed(SkipBlanks(s))
  }

  const TWO31: int := 0x8000_0000
  const TWO32: int := 0x1_0000_0000
  const TWO63: int := 0x8000_0000_0000_0000
  const TWO64: int := 0x1_0000_0000_0000_0000

  /** Conversion to a 32-bit signed number. */
  function ToInt32(n: int): int {
    (n + TWO31) % TWO32 - TWO31
  }

  function CheckDataToUint64(s: string): (r: int)
    ensures 0 <= r < TWO64
  {
    if Number(s) <= -TWO64 || Number(s) >= TWO64 then 0 else Number(s) % TWO64
  }

  function CheckDataLegal(s: string): int {
    if Number(s) < -TWO63 || Number(s) >= TWO63 then 0 else ToInt32(Number(s))
  }

  lemma {:induction false} DigitsNumber(n: nat, rest: string)
    requires rest == "" || !IsDigit(rest[0])
    ensures Signed(Digits(n) + rest) == n && Signed("-" + (Digits(n) + rest)) == 0 - n
  {
    var s := Digits(n) + rest;
    DigitsValue(n);
    LeadingOf(Digits(n), rest);
    hide Digits, Value, LeadingDigits;
    assert IsDigit(s[0]) && ("-" + s)[1..] == s;
  }

  lemma NothingToSkip(s: string)
    requires s != "" && (IsDigit(s[0]) || s[0] == '-')
    ensures Number(s) == Signed(s)
  {
    hide Signed;
  }

  /** What was printed is read back, also when something other than a digit follows. */
  lemma ShowNumber(i: int, rest: string)
    requires rest == "" || !IsDigit(rest[0])
    ensures Number(Show(i) + rest) == i
  {
    hide Digits, Number, Signed;
    NothingToSkip(Show(i) + rest);
    if i < 0 {
      DigitsNumber(-i, rest);
      assert Show(i) + rest == "-" + (Digits(-i) + rest);
    } else {
      DigitsNumber(i, rest);
    }
  }

  /** Reading through `CheckDataLegal` is exact on the numbers an `int` holds, and only on those. */
  lemma LegalIsExact(i: int)
    requires -TWO63 <= i < TWO63
    ensures CheckDataLegal(Show(i)) == ToInt32(i)
    ensures CheckDataLegal(Show(i)) == i <==> -TWO31 <= i < TWO31
  {
    ShowNumber(i, "");
    hide Show, Number;
    assert Show(i) + "" == Show(i);
  }

  lemma {:induction false} Uint64IsExact(n: nat)
    requires n < TWO64
    ensures CheckDataToUint64(Digits(n)) == n
  {
    hide Digits, Number, Signed;
    NothingToSkip(Digits(n));
    DigitsNumber(n, "");
    assert Digits(n) + "" == Digits(n);
  }
}
