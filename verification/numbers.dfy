/** Integer widths and numeric-literal parsing: a model of the C library's
    `std::stoll` over the characters it accepts, and of `parseNumber`
    (main.cpp), which picks the radix from a `0b`/`0x` prefix. */
module Numbers {
  import opened Wrappers

  const Int64Min: int := -0x8000_0000_0000_0000
  const Int64Max: int := 0x7FFF_FFFF_FFFF_FFFF
  const Int32Min: int := -0x8000_0000
  const Int32Max: int := 0x7FFF_FFFF

  function Pow2(n: nat): (r: nat)
    ensures r >= 1
  {
    if n == 0 then 1 else 2 * Pow2(n - 1)
  }

  /** `static_cast<int>` of a 64-bit value: keep the low 32 bits, read them
      as two's complement. */
  function Int32Wrap(x: int): (r: int)
    ensures Int32Min <= r <= Int32Max
    ensures (r - x) % 0x1_0000_0000 == 0
    ensures Int32Min <= x <= Int32Max ==> r == x
  {
    var low := x % 0x1_0000_0000;
    if low > Int32Max then low - 0x1_0000_0000 else low
  }

  // ---------------------------------------------------------------------
  // Digits
  // ---------------------------------------------------------------------

  /** The value of a character read as a digit in radix up to 36; 36 for a
      character that is no digit at all. */
  function DigitValue(c: char): (d: nat)
    ensures d <= 36
  {
    if '0' <= c <= '9' then (c as int) - ('0' as int)
    else if 'a' <= c <= 'z' then (c as int) - ('a' as int) + 10
    else if 'A' <= c <= 'Z' then (c as int) - ('A' as int) + 10
    else 36
  }

  /** The lower-case digit character for d. */
  function DigitChar(d: nat): (c: char)
    requires d < 16
    ensures DigitValue(c) == d
  {
    "0123456789abcdef"[d]
  }

  predicate IsSpace(c: char)
  {
    c == ' ' || c == '\t' || c == '\n' || c == '\r' || c as int == 11 || c as int == 12
  }

  /** Number of leading white-space characters. */
  function LeadingSpaces(s: string): (n: nat)
    ensures n <= |s|
    ensures forall i :: 0 <= i < n ==> IsSpace(s[i])
    ensures n < |s| ==> !IsSpace(s[n])
  {
    if |s| == 0 || !IsSpace(s[0]) then 0 else 1 + LeadingSpaces(s[1..])
  }

  /** Length of the longest prefix of s made of digits of the radix. */
  function DigitRun(s: string, radix: nat): (n: nat)
    ensures n <= |s|
    ensures forall i :: 0 <= i < n ==> DigitValue(s[i]) < radix
    ensures n < |s| ==> DigitValue(s[n]) >= radix
  {
    if |s| == 0 || DigitValue(s[0]) >= radix then 0 else 1 + DigitRun(s[1..], radix)
  }

  /** The value of a digit string, most significant digit first. */
  function DigitsValue(s: string, radix: nat): nat
  {
    if |s| == 0 then 0
    else DigitsValue(s[..|s| - 1], radix) * radix + DigitValue(s[|s| - 1])
  }

  // ---------------------------------------------------------------------
  // std::stoll
  // ---------------------------------------------------------------------

  /** The radix stoll settles on for the text after the sign, and where its
      digits start: base 0 or 16 skips a `0x`/`0X` that is followed by a hex
      digit; base 0 otherwise reads a leading `0` as octal and anything else
      as decimal. */
  function RadixAndDigits(u: string, base: nat): (r: (nat, string))
    requires base == 0 || 2 <= base <= 36
    ensures 2 <= r.0 <= 36
  {
    var hexPrefix := (base == 0 || base == 16) && |u| >= 3 && u[0] == '0'
                     && (u[1] == 'x' || u[1] == 'X') && DigitValue(u[2]) < 16;
    if hexPrefix then (16, u[2..])
    else if base == 0 then (if |u| > 0 && u[0] == '0' then 8 else 10, u)
    else (base, u)
  }

  /** The unsigned value of the longest digit run; None if there is none. */
  function Magnitude(u: string, base: nat): (r: Option<nat>)
    requires base == 0 || 2 <= base <= 36
  {
    var (radix, digits) := RadixAndDigits(u, base);
    var n := DigitRun(digits, radix);
    if n == 0 then None else Some(DigitsValue(digits[..n], radix))
  }

  /** Splits an optional leading sign off. */
  function SplitSign(t: string): (r: (bool, string))
    ensures |r.1| <= |t|
  {
    if |t| > 0 && (t[0] == '-' || t[0] == '+') then (t[0] == '-', t[1..]) else (false, t)
  }

  /** `std::stoll(s, nullptr, base)` for base 0 or 2..36: skip white space,
      take an optional sign, then read the magnitude. Parsing stops at the
      first non-digit. None stands for the exceptions: no digit at all, or a
      value outside the 64-bit range. */
  function Stoll(s: string, base: nat): (r: Option<int>)
    requires base == 0 || 2 <= base <= 36
    ensures r.Some? ==> Int64Min <= r.value <= Int64Max
    ensures r.Some? && r.value < 0 ==> LeadingSpaces(s) < |s| && s[LeadingSpaces(s)] == '-'
  {
    var (negative, u) := SplitSign(s[LeadingSpaces(s)..]);
    match Magnitude(u, base)
    case None => None
    case Some(m) =>
      var v: int := if negative then -(m as int) else m;
      if v < Int64Min || v > Int64Max then None else Some(v)
  }

  predicate HasPrefix(s: string, p: string)
  {
    |s| >= |p| && s[..|p|] == p
  }

  /** parseNumber (main.cpp): `0b`/`0B` selects binary, `0x`/`0X` hex, and
      anything else goes to stoll with base 0. A value lies in the 64-bit
      range, and only a minus sign in the text makes it negative (stoll
      takes a sign after the prefix too). */
  function ParseNumber(s: string): (r: Option<int>)
    ensures r.Some? ==> Int64Min <= r.value <= Int64Max
    ensures r.Some? && r.value < 0 ==> '-' in s
  {
    if HasPrefix(s, "0b") || HasPrefix(s, "0B") then SignAfterPrefix(s, 2); Stoll(s[2..], 2)
    else if HasPrefix(s, "0x") || HasPrefix(s, "0X") then SignAfterPrefix(s, 16); Stoll(s[2..], 16)
    else Stoll(s, 0)
  }

  /** A minus sign stoll finds after a two-character prefix is in the text. */
  lemma SignAfterPrefix(s: string, radix: nat)
    requires |s| >= 2 && 2 <= radix <= 36
    ensures Stoll(s[2..], radix).Some? && Stoll(s[2..], radix).value < 0 ==> '-' in s
  {
    var t := s[2..];
    if Stoll(t, radix).Some? && Stoll(t, radix).value < 0 {
      assert s[2 + LeadingSpaces(t)] == t[LeadingSpaces(t)];
    }
  }

  // ---------------------------------------------------------------------
  // Rendering, the partner of parsing
  // ---------------------------------------------------------------------

  /** The digits of n in the radix, without leading zeros ("0" for zero). */
  function Render(n: nat, radix: nat): (s: string)
    requires 2 <= radix <= 16
    ensures |s| >= 1
    ensures forall i :: 0 <= i < |s| ==> DigitValue(s[i]) < radix
    decreases n
  {
    if n < radix then [DigitChar(n)]
    else
      var prefix := Render(n / radix, radix);
      var last := DigitChar(n % radix);
      assert forall i :: 0 <= i < |prefix| ==> (prefix + [last])[i] == prefix[i];
      prefix + [last]
  }

  lemma DivMod(n: nat, b: nat)
    requires b > 0
    ensures (n / b) * b + n % b == n
  {
  }

  /** Dividing a number at least the divisor (at least 2) leaves a
      positive, strictly smaller quotient. */
  lemma QuotientBounds(n: nat, b: nat)
    requires 2 <= b <= n
    ensures 1 <= n / b < n
  {
    DivMod(n, b);
    var q := n / b;
    if q >= 1 {
      MulAtLeast(b - 1, q);
      assert (b - 1) * q + q == q * b;
    }
  }

  lemma MulAtLeast(k: int, m: int)
    requires k >= 1 && m > 0
    ensures k * m >= m
  {
  }

  /** Quotient and remainder are unique: a * m + b with 0 <= b < m divides
      back into a and b. */
  lemma DivModUnique(a: int, b: int, m: int)
    requires m > 0 && 0 <= b < m
    ensures (a * m + b) / m == a && (a * m + b) % m == b
  {
    var q, r := (a * m + b) / m, (a * m + b) % m;
    assert q * m + r == a * m + b;
    assert (q - a) * m == b - r;
    if q > a {
      MulAtLeast(q - a, m);
    } else if q < a {
      MulAtLeast(a - q, m);
    }
  }

  lemma DigitsValueSnoc(a: string, c: char, radix: nat)
    ensures DigitsValue(a + [c], radix) == DigitsValue(a, radix) * radix + DigitValue(c)
  {
    assert (a + [c])[..|a|] == a;
  }

  /** The last digit of a rendered number is its remainder. */
  lemma RenderStep(n: nat, radix: nat)
    requires 2 <= radix <= 16 && n >= radix
    ensures DigitsValue(Render(n, radix), radix)
            == DigitsValue(Render(n / radix, radix), radix) * radix + n % radix
  {
    DigitsValueSnoc(Render(n / radix, radix), DigitChar(n % radix), radix);
  }

  /** Appending a digit: the rendering of n * radix + d is n's followed
      by d. */
  lemma RenderSnoc(n: nat, d: nat, radix: nat)
    requires 2 <= radix <= 16 && n >= 1 && d < radix
    ensures Render(n * radix + d, radix) == Render(n, radix) + [DigitChar(d)]
  {
    var m := n * radix + d;
    MulAtLeast(n, radix);
    DivModUnique(n, d, radix);
    assert m / radix == n && m % radix == d;
  }

  lemma Recombine(v: nat, n: nat, radix: nat)
    requires radix > 0 && v == n / radix
    ensures v * radix + n % radix == n
  {
    DivMod(n, radix);
  }

  lemma RenderSingle(n: nat, radix: nat)
    requires 2 <= radix <= 16 && n < radix
    ensures DigitsValue(Render(n, radix), radix) == n
  {
    var s := Render(n, radix);
    assert s == [DigitChar(n)];
    assert s[..0] == [];
    assert DigitsValue(s, radix) == DigitsValue(s[..0], radix) * radix + DigitValue(s[0]);
  }

  lemma {:induction false} RenderValue(n: nat, radix: nat)
    requires 2 <= radix <= 16
    ensures DigitsValue(Render(n, radix), radix) == n
    decreases n
  {
    if n >= radix {
      RenderValue(n / radix, radix);
      RenderStep(n, radix);
      Recombine(DigitsValue(Render(n / radix, radix), radix), n, radix);
    } else {
      RenderSingle(n, radix);
    }
  }

  lemma {:induction false} RenderLeadingDigit(n: nat, radix: nat)
    requires 2 <= radix <= 16 && n >= 1
    ensures Render(n, radix)[0] != '0'
    decreases n
  {
    assert DigitValue('0') == 0;
    if n < radix {
      assert Render(n, radix) == [DigitChar(n)];
    } else {
      var q := n / radix;
      QuotientBounds(n, radix);
      RenderLeadingDigit(q, radix);
      assert Render(n, radix)[0] == Render(q, radix)[0];
    }
  }

  lemma {:induction false} DigitRunAll(s: string, radix: nat)
    requires forall i :: 0 <= i < |s| ==> DigitValue(s[i]) < radix
    ensures DigitRun(s, radix) == |s|
    decreases |s|
  {
    if |s| > 0 {
      DigitRunAll(s[1..], radix);
    }
  }

  lemma {:induction false} LeadingZeroValue(s: string, radix: nat)
    ensures DigitsValue("0" + s, radix) == DigitsValue(s, radix)
    decreases |s|
  {
    if |s| > 0 {
      var t := "0" + s;
      assert t[..|t| - 1] == "0" + s[..|s| - 1];
      LeadingZeroValue(s[..|s| - 1], radix);
    }
  }

  /** A rendered natural number never starts with white space or a sign. */
  lemma RenderStart(n: nat, radix: nat)
    requires 2 <= radix <= 16
    ensures !IsSpace(Render(n, radix)[0])
    ensures Render(n, radix)[0] != '-' && Render(n, radix)[0] != '+'
    ensures LeadingSpaces(Render(n, radix)) == 0
  {
    var s := Render(n, radix);
    assert DigitValue(s[0]) < radix;
  }

  /** A run of digits of the radix is read back as its value. */
  lemma MagnitudeAll(s: string, radix: nat)
    requires 2 <= radix <= 36 && |s| >= 1
    requires forall i :: 0 <= i < |s| ==> DigitValue(s[i]) < radix
    ensures RadixAndDigits(s, radix) == (radix, s)
    ensures Magnitude(s, radix) == Some(DigitsValue(s, radix))
  {
    if radix == 16 && |s| >= 3 {
      assert DigitValue(s[1]) < 16;
    }
    DigitRunAll(s, radix);
    assert s[..|s|] == s;
  }

  /** stoll of text that is all digits and starts with no sign. */
  lemma StollUnsigned(s: string, base: nat, m: nat)
    requires base == 0 || 2 <= base <= 36
    requires |s| >= 1 && !IsSpace(s[0]) && s[0] != '-' && s[0] != '+'
    requires Magnitude(s, base) == Some(m) && m <= Int64Max
    ensures Stoll(s, base) == Some(m)
  {
    assert LeadingSpaces(s) == 0;
    assert s[0..] == s;
    assert SplitSign(s) == (false, s);
  }

  /** stoll of a rendered number in the matching base reads it back. */
  lemma StollRender(n: nat, radix: nat)
    requires radix == 2 || radix == 16
    requires n <= Int64Max
    ensures Stoll(Render(n, radix), radix) == Some(n)
  {
    var s := Render(n, radix);
    RenderStart(n, radix);
    MagnitudeAll(s, radix);
    RenderValue(n, radix);
    StollUnsigned(s, radix, n);
  }

  /** Round trip through parseNumber for `0x` hex text. */
  lemma {:induction false} ParseNumberHex(n: nat)
    requires n <= Int64Max
    ensures ParseNumber("0x" + Render(n, 16)) == Some(n)
  {
    var s := "0x" + Render(n, 16);
    assert !HasPrefix(s, "0b") && !HasPrefix(s, "0B");
    assert HasPrefix(s, "0x");
    assert s[2..] == Render(n, 16);
    StollRender(n, 16);
  }

  /** Round trip through parseNumber for `0b` binary text. */
  lemma {:induction false} ParseNumberBinary(n: nat)
    requires n <= Int64Max
    ensures ParseNumber("0b" + Render(n, 2)) == Some(n)
  {
    var s := "0b" + Render(n, 2);
    assert HasPrefix(s, "0b");
    assert s[2..] == Render(n, 2);
    StollRender(n, 2);
  }

  /** Text whose second character is a decimal digit has no radix prefix
      and goes to stoll in base 0. */
  lemma NoPrefix(s: string)
    requires |s| >= 2 && DigitValue(s[1]) < 10
    ensures ParseNumber(s) == Stoll(s, 0)
  {
    assert !HasPrefix(s, "0b") && !HasPrefix(s, "0B") && !HasPrefix(s, "0x") && !HasPrefix(s, "0X");
  }

  /** Base 0 reads a rendered positive number as decimal. */
  lemma MagnitudeDecimal(n: nat)
    requires n >= 1
    ensures Magnitude(Render(n, 10), 0) == Some(n)
  {
    var s := Render(n, 10);
    RenderLeadingDigit(n, 10);
    MagnitudeAll(s, 10);
    assert RadixAndDigits(s, 0) == (10, s);
    RenderValue(n, 10);
  }

  lemma OctalDigits(r: string)
    requires forall i :: 0 <= i < |r| ==> DigitValue(r[i]) < 8
    ensures var s := "0" + r; forall i :: 0 <= i < |s| ==> DigitValue(s[i]) < 8
  {
    var s := "0" + r;
    forall i | 0 <= i < |s| ensures DigitValue(s[i]) < 8 {
      if i > 0 { assert s[i] == r[i - 1]; }
    }
  }

  /** Base 0 reads a zero followed by a rendered positive number as octal. */
  lemma MagnitudeOctal(n: nat)
    requires n >= 1
    ensures Magnitude("0" + Render(n, 8), 0) == Some(n)
  {
    var r := Render(n, 8);
    var s := "0" + r;
    OctalDigits(r);
    MagnitudeAll(s, 8);
    assert RadixAndDigits(s, 0) == (8, s);
    LeadingZeroValue(r, 8);
    RenderValue(n, 8);
  }

  /** "0" is zero: base 0 sees a leading zero and reads it in octal. */
  lemma ParseNumberZero()
    ensures ParseNumber("0") == Some(0)
  {
    var s := "0";
    assert !HasPrefix(s, "0b") && !HasPrefix(s, "0B") && !HasPrefix(s, "0x") && !HasPrefix(s, "0X");
    assert RadixAndDigits(s, 0) == (8, s);
    assert DigitRun(s, 8) == 1;
    assert s[..1] == s;
    DigitsValueSnoc([], '0', 8);
    assert [] + ['0'] == s;
    assert Magnitude(s, 0) == Some(0);
    StollUnsigned(s, 0, 0);
  }

  /** Round trip for plain decimal text: a number without a leading zero is
      read in base 10, and "0" is zero. */
  lemma {:induction false} ParseNumberDecimal(n: nat)
    requires n <= Int64Max
    ensures ParseNumber(Render(n, 10)) == Some(n)
  {
    var s := Render(n, 10);
    RenderStart(n, 10);
    if n == 0 {
      assert s == "0";
      ParseNumberZero();
    } else {
      if |s| >= 2 {
        NoPrefix(s);
      } else {
        assert !HasPrefix(s, "0b") && !HasPrefix(s, "0B") && !HasPrefix(s, "0x") && !HasPrefix(s, "0X");
      }
      MagnitudeDecimal(n);
      StollUnsigned(s, 0, n);
    }
  }

  /** stoll of a minus sign followed by unsigned digits. */
  lemma StollNegative(r: string, m: nat)
    requires |r| >= 1 && Magnitude(r, 0) == Some(m) && m <= -Int64Min
    ensures Stoll("-" + r, 0) == Some(-(m as int))
  {
    var s := "-" + r;
    assert !IsSpace(s[0]);
    assert LeadingSpaces(s) == 0;
    assert s[0..] == s;
    assert s[1..] == r;
    assert SplitSign(s) == (true, r);
  }

  /** Round trip for negative decimal text. */
  lemma {:induction false} ParseNumberNegative(n: nat)
    requires 1 <= n <= -Int64Min
    ensures ParseNumber("-" + Render(n, 10)) == Some(-(n as int))
  {
    var s := "-" + Render(n, 10);
    assert s[0] == '-';
    assert !HasPrefix(s, "0b") && !HasPrefix(s, "0B") && !HasPrefix(s, "0x") && !HasPrefix(s, "0X");
    MagnitudeDecimal(n);
    StollNegative(Render(n, 10), n);
  }

  /** A leading zero makes base-0 stoll read octal: `017` is fifteen. */
  lemma {:induction false} ParseNumberOctal(n: nat)
    requires 1 <= n <= Int64Max
    ensures ParseNumber("0" + Render(n, 8)) == Some(n)
  {
    var s := "0" + Render(n, 8);
    assert DigitValue(s[1]) < 8;
    NoPrefix(s);
    MagnitudeOctal(n);
    StollUnsigned(s, 0, n);
  }

  /** Text with no digit where one is needed is rejected. */
  lemma ParseNumberNoDigits()
    ensures ParseNumber("") == None
    ensures ParseNumber("0x") == None
    ensures ParseNumber("-") == None
    ensures ParseNumber("abc") == None
  {
    NoDigitsPrefix();
    NoDigitsSign();
    NoDigitsLetters();
  }

  lemma NoDigitsPrefix()
    ensures ParseNumber("") == None
    ensures ParseNumber("0x") == None
  {
    assert DigitRun("", 10) == 0;
    assert Stoll("", 16) == None;
  }

  lemma NoDigitsSign()
    ensures ParseNumber("-") == None
  {
    assert LeadingSpaces("-") == 0 && "-"[0..] == "-";
    assert SplitSign("-") == (true, "");
  }

  lemma NoDigitsLetters()
    ensures ParseNumber("abc") == None
  {
    assert LeadingSpaces("abc") == 0 && "abc"[0..] == "abc";
    assert DigitValue('a') >= 10;
  }
}
