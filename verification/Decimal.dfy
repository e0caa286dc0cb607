/** Decimal printing (`%d`) and the two parsers that read it back: strconv.Atoi, which wants the
    whole text, and fmt.Sscanf with `%d`, which takes a numeric prefix. */
module Decimal {
  import opened Outcomes
  import opened Bits

  /** Go's int on a 64-bit platform. */
  type GoInt = x: int | -0x8000_0000_0000_0000 <= x < 0x8000_0000_0000_0000

  predicate IsDigit(c: char) {
    '0' <= c <= '9'
  }

  predicate AllDigits(s: string) {
    forall c | c in s :: IsDigit(c)
  }

  function DigitChar(d: nat): (c: char)
    requires d < 10
    ensures IsDigit(c) && c as int - '0' as int == d
  {
    ('0' as int + d) as char
  }

  function FormatNat(n: nat): (s: string)
    ensures s != [] && AllDigits(s)
  {
    if n < 10 then [DigitChar(n)] else FormatNat(n / 10) + [DigitChar(n % 10)]
  }

  function Format(n: int): string {
    if n < 0 then "-" + FormatNat(-n) else FormatNat(n)
  }

  function NatValue(s: string): nat
    requires AllDigits(s)
  {
    if s == [] then 0
    else
      assert s[|s| - 1] in s;
      NatValue(s[..|s| - 1]) * 10 + (s[|s| - 1] as int - '0' as int)
  }

  /** The longest prefix made of digits. */
  function DigitPrefix(s: string): (p: string)
    ensures p <= s && AllDigits(p)
    ensures |p| < |s| ==> !IsDigit(s[|p|])
  {
    if s != [] && IsDigit(s[0]) then [s[0]] + DigitPrefix(s[1..]) else []
  }

  predicate IsSign(s: string) {
    s != [] && (s[0] == '-' || s[0] == '+')
  }

  function Unsigned(s: string): string {
    if IsSign(s) then s[1..] else s
  }

  function Signed(s: string, magnitude: nat): int {
    if s != [] && s[0] == '-' then 0 - magnitude else magnitude
  }

  function InGoInt(n: int): Option<GoInt> {
    if -0x8000_0000_0000_0000 <= n < 0x8000_0000_0000_0000 then Some(n) else None
  }

  /** strconv.Atoi: an optional sign, then digits and nothing else, within range. */
  function Atoi(s: string): Option<GoInt> {
    var body := Unsigned(s);
    if body == [] || !AllDigits(body) then None else InGoInt(Signed(s, NatValue(body)))
  }

  /** fmt.Sscanf(s, "%d", &n) on a text without leading space: an optional sign and the longest
      run of digits; whatever follows is left unread. */
  function Sscanf(s: string): Option<GoInt> {
    var digits := DigitPrefix(Unsigned(s));
    if digits == [] then None else InGoInt(Signed(s, NatValue(digits)))
  }

  lemma {:induction false} NatRoundTrip(n: nat)
    ensures NatValue(FormatNat(n)) == n
  {
    if n >= 10 {
      NatRoundTrip(n / 10);
      var s := FormatNat(n);
      assert s[..|s| - 1] == FormatNat(n / 10);
    }
  }

  lemma FormatInjective(m: nat, n: nat)
    requires FormatNat(m) == FormatNat(n)
    ensures m == n
  {
    NatRoundTrip(m);
    NatRoundTrip(n);
  }

  lemma {:induction false} DigitPrefixOf(s: string, rest: string)
    requires AllDigits(s)
    requires rest == [] || !IsDigit(rest[0])
    ensures DigitPrefix(s + rest) == s
  {
    if s == [] {
      assert s + rest == rest;
    } else {
      assert (s + rest)[1..] == s[1..] + rest;
      DigitPrefixOf(s[1..], rest);
      assert s == [s[0]] + s[1..];
    }
  }

  lemma FormatShape(n: int)
    ensures Format(n) != [] && (IsDigit(Format(n)[0]) || Format(n)[0] == '-')
    ensures IsDigit(Format(n)[|Format(n)| - 1])
    ensures forall c | c in Format(n) :: IsDigit(c) || c == '-'
    ensures var body := Unsigned(Format(n));
            && body != [] && AllDigits(body)
            && Signed(Format(n), NatValue(body)) == n
  {
    var m: nat := if n < 0 then -n else n;
    NatRoundTrip(m);
    var s := FormatNat(m);
    assert s[0] in s && s[|s| - 1] in s;
    if n < 0 {
      assert Format(n)[1..] == s;
      assert Unsigned(Format(n)) == s;
    }
  }

  /** Printing and reading back, with either parser; the scanner also with text behind the number. */
  lemma PrintParse(n: GoInt, rest: string)
    requires rest == [] || !IsDigit(rest[0])
    ensures Atoi(Format(n)) == Some(n)
    ensures Sscanf(Format(n) + rest) == Some(n)
  {
    FormatShape(n);
    var s := Format(n);
    var body := Unsigned(s);
    assert Unsigned(s + rest) == body + rest;
    DigitPrefixOf(body, rest);
  }

  /** Exactly how the parsers differ: Atoi is the scanner restricted to texts that it reads to
      the end. */
  lemma AtoiIsFullScan(s: string)
    ensures Atoi(s) == if DigitPrefix(Unsigned(s)) == Unsigned(s) then Sscanf(s) else None
  {
    var body := Unsigned(s);
    if AllDigits(body) {
      DigitPrefixOf(body, []);
      assert body + [] == body;
    }
  }

  // ---------- base ten, from the other end ----------

  const DIGITS := "0123456789"

  function Pow10(k: nat): (r: nat)
    ensures r >= 1
  {
    if k == 0 then 1 else 10 * Pow10(k - 1)
  }

  lemma DivByTen(n: nat, k: nat)
    ensures n / 10 / Pow10(k) == n / Pow10(k + 1)
  {
    DivDiv(n, 10, Pow10(k));
  }

  /** No leading zero is printed. */
  lemma {:induction false} LengthExactly(n: nat)
    ensures n < Pow10(|FormatNat(n)|)
    ensures |FormatNat(n)| > 1 ==> n >= Pow10(|FormatNat(n)| - 1)
  {
    assert Pow10(1) == 10 * Pow10(0);
    if n >= 10 {
      LengthExactly(n / 10);
      assert |FormatNat(n)| == |FormatNat(n / 10)| + 1;
    }
  }

  /** The digits that are printed: the one for 10^k stands k places before the last. */
  lemma {:induction false} DigitsExactly(n: nat, k: nat)
    requires k < |FormatNat(n)|
    ensures FormatNat(n)[|FormatNat(n)| - 1 - k] == DIGITS[n / Pow10(k) % 10]
    decreases n
  {
    if k == 0 {
      DigitIs(n % 10);
    } else {
      var s, front := FormatNat(n), FormatNat(n / 10);
      DigitsExactly(n / 10, k - 1);
      DivByTen(n, k - 1);
      assert s[|s| - 1 - k] == front[|front| - 1 - (k - 1)];
    }
  }

  lemma DigitIs(d: nat)
    requires d < 10
    ensures DigitChar(d) == DIGITS[d]
  {
  }

  lemma TenTimes(d: nat, p: nat)
    ensures 10 * (d * p) == d * (10 * p)
  {
  }

  /** What a text of digits is worth: its first digit counts as often as the others can be told apart. */
  lemma {:induction false} LeadingDigit(d: nat, s: string)
    requires d < 10 && AllDigits(s)
    ensures AllDigits([DIGITS[d]] + s)
    ensures NatValue([DIGITS[d]] + s) == d * Pow10(|s|) + NatValue(s)
  {
    var all := [DIGITS[d]] + s;
    if s == [] {
      assert all[..0] == [];
    } else {
      var front := s[..|s| - 1];
      assert all[..|all| - 1] == [DIGITS[d]] + front;
      assert s[|s| - 1] in s;
      LeadingDigit(d, front);
      TenTimes(d, Pow10(|front|));
    }
  }

  /** A numeral: an optional sign and digits. */
  predicate IsNumeral(sign: string, digits: string) {
    sign in {"", "+", "-"} && digits != "" && forall c | c in digits :: c in DIGITS
  }

  function Worth(sign: string, digits: string): int
    requires IsNumeral(sign, digits)
  {
    NumeralDigits(sign, digits);
    if sign == "-" then 0 - NatValue(digits) else NatValue(digits)
  }

  lemma NumeralDigits(sign: string, digits: string)
    requires IsNumeral(sign, digits)
    ensures AllDigits(digits)
  {
    forall c | c in digits ensures IsDigit(c) {
      DigitsAre(c);
    }
  }

  lemma DigitsAre(c: char)
    ensures IsDigit(c) <==> c in DIGITS
  {
    if IsDigit(c) {
      assert DIGITS[c as int - '0' as int] == c;
    }
  }

  ghost predicate ReadsAs(s: string, sign: string, digits: string, n: GoInt) {
    && IsNumeral(sign, digits) && sign + digits <= s
    && (|sign + digits| < |s| ==> s[|sign + digits|] !in DIGITS)
    && Worth(sign, digits) == n
  }

  /** Which texts the scanner reads, and as what: those that start with a numeral, up to the first
      character that is no digit, if it is worth a number in range. */
  lemma ScansExactly(s: string, n: GoInt)
    ensures Sscanf(s) == Some(n) <==> exists sign, digits :: ReadsAs(s, sign, digits, n)
  {
    hide Sscanf, Worth;
    if Sscanf(s) == Some(n) {
      ReadsPrefix(s, n);
    }
    if sign, digits :| ReadsAs(s, sign, digits, n) {
      var rest := s[|sign + digits|..];
      assert s == sign + digits + rest;
      if rest != [] {
        DigitsAre(rest[0]);
      }
      ScansNumeral(sign, digits, rest);
    }
  }

  lemma ReadsPrefix(s: string, n: GoInt)
    requires Sscanf(s) == Some(n)
    ensures exists sign, digits :: ReadsAs(s, sign, digits, n)
  {
    hide NatValue;
    var sign, digits := if IsSign(s) then s[..1] else "", DigitPrefix(Unsigned(s));
    assert sign == (if !IsSign(s) then "" else if s[0] == '-' then "-" else "+");
    forall c | c in digits ensures c in DIGITS {
      DigitsAre(c);
    }
    assert IsNumeral(sign, digits);
    assert s == sign + Unsigned(s);
    assert sign + digits <= s;
    if |sign + digits| < |s| {
      assert s[|sign + digits|] == Unsigned(s)[|digits|];
      DigitsAre(s[|sign + digits|]);
    }
    assert Signed(s, NatValue(digits)) == Worth(sign, digits);
    assert ReadsAs(s, sign, digits, n);
  }

  lemma ScansNumeral(sign: string, digits: string, rest: string)
    requires IsNumeral(sign, digits) && (rest == [] || !IsDigit(rest[0]))
    ensures Sscanf(sign + digits + rest) == InGoInt(Worth(sign, digits))
  {
    hide NatValue, InGoInt, DigitPrefix;
    NumeralDigits(sign, digits);
    assert digits[0] in digits;
    SignOf(sign, digits, rest);
    DigitPrefixOf(digits, rest);
  }

  lemma SignOf(sign: string, digits: string, rest: string)
    requires sign in {"", "+", "-"} && digits != "" && IsDigit(digits[0])
    ensures var s := sign + digits + rest;
            Unsigned(s) == digits + rest && (s[0] == '-' <==> sign == "-")
  {
    var s := sign + digits + rest;
    if sign == "" {
      assert s == digits + rest;
    } else {
      assert s[1..] == digits + rest;
    }
  }
}
