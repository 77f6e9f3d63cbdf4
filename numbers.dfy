/** Numbers as the C++ code sees them: `int` cells are 32-bit, parsed with std::stoi and written
    with operator<<; `float` cells are parsed with std::stof. */
module Numbers {
  import opened Wrappers
  import opened Text

  /** The C++ `int` of a cell. */
  newtype int32 = x: int | -0x8000_0000 <= x < 0x8000_0000

  predicate IsDigit(c: char) {
    '0' <= c <= '9'
  }

  predicate AllDigits(s: string) {
    forall i :: 0 <= i < |s| ==> IsDigit(s[i])
  }

  function DigitChar(d: nat): (c: char)
    requires d < 10
    ensures IsDigit(c)
  {
    ('0' as int + d) as char
  }

  /** The value of a decimal digit string (leading zeros allowed, "" is 0). */
  function DigitsValue(s: string): nat
    requires AllDigits(s)
  {
    if s == [] then 0
    else DigitsValue(s[..|s| - 1]) * 10 + (s[|s| - 1] as int - '0' as int)
  }

  /** The shortest decimal digit string of n. */
  function NatDigits(n: nat): (s: string)
    ensures |s| >= 1 && AllDigits(s)
    decreases n
  {
    if n < 10 then [DigitChar(n)] else NatDigits(n / 10) + [DigitChar(n % 10)]
  }

  /** Reading back the digits written for n gives n. */
  lemma {:induction false} NatDigitsValue(n: nat)
    ensures DigitsValue(NatDigits(n)) == n
  {
    if n >= 10 {
      var s := NatDigits(n);
      NatDigitsValue(n / 10);
      assert s[..|s| - 1] == NatDigits(n / 10);
    }
  }

  /** The whitespace strtol and strtof skip before the number. */
  function SkipSpace(s: string): (r: string)
    ensures |r| <= |s| && r == s[|s| - |r|..]
    ensures r == [] || !IsSpace(r[0])
  {
    if s != [] && IsSpace(s[0]) then SkipSpace(s[1..]) else s
  }

  /** The longest run of digits s starts with. */
  function DigitPrefix(s: string): (d: string)
    ensures |d| <= |s| && d == s[..|d|] && AllDigits(d)
    ensures |d| < |s| ==> !IsDigit(s[|d|])
  {
    if s == [] || !IsDigit(s[0]) then [] else [s[0]] + DigitPrefix(s[1..])
  }

  lemma {:induction false} DigitPrefixOf(ds: string, rest: string)
    requires AllDigits(ds)
    requires rest == [] || !IsDigit(rest[0])
    ensures DigitPrefix(ds + rest) == ds
  {
    if ds != [] {
      assert (ds + rest)[0] == ds[0];
      assert (ds + rest)[1..] == ds[1..] + rest;
      DigitPrefixOf(ds[1..], rest);
    }
  }

  /** The sign strtol reads after the whitespace: true when there is one. */
  predicate Signed(t: string) {
    |t| > 0 && (t[0] == '-' || t[0] == '+')
  }

  /** std::stoi: leading whitespace is skipped, an optional sign and the longest run of digits
      are read and whatever follows is ignored. No digit at all throws invalid_argument, a value
      outside the 32-bit int throws out_of_range; both are None here. */
  function Stoi(s: string): (r: Option<int32>)
    ensures r.Some? ==> HasDigit(s)
  {
    var t := SkipSpace(s);
    var ds := DigitPrefix(if Signed(t) then t[1..] else t);
    if ds == [] then None
    else
      assert IsDigit(s[|s| - |t| + (if Signed(t) then 1 else 0)]);
      var v: int := if Signed(t) && t[0] == '-' then -(DigitsValue(ds) as int) else DigitsValue(ds) as int;
      if -0x8000_0000 <= v < 0x8000_0000 then Some(v as int32) else None
  }

  /** Some character of the text is a decimal digit. */
  predicate HasDigit(s: string) {
    exists i :: 0 <= i < |s| && IsDigit(s[i])
  }

  /** stoi stops at the first character after the digits: "12abc" reads as 12. */
  lemma StoiIgnoresTail(ds: string, rest: string)
    requires ds != [] && AllDigits(ds)
    requires rest == [] || !IsDigit(rest[0])
    ensures Stoi(ds + rest) == Stoi(ds)
  {
    assert (ds + rest)[0] == ds[0];
    StoiOfDigit(ds + rest);
    StoiOfDigit(ds);
    DigitPrefixOf(ds, rest);
    DigitPrefixOf(ds, []);
    assert ds + [] == ds;
  }

  /** A text that starts with a digit is read from its first character, without sign. */
  lemma StoiOfDigit(t: string)
    requires t != [] && IsDigit(t[0])
    ensures var v := DigitsValue(DigitPrefix(t)) as int;
      Stoi(t) == if -0x8000_0000 <= v < 0x8000_0000 then Some(v as int32) else None
  {
    assert SkipSpace(t) == t && !Signed(t);
  }

  /** stoi rejects a token with no digit after the optional sign: "abc", "-", "". */
  lemma StoiNeedsDigit(s: string)
    requires var t := SkipSpace(s); var b := if Signed(t) then t[1..] else t; b == [] || !IsDigit(b[0])
    ensures Stoi(s) == None
  {
  }

  /** stoi throws out_of_range on a run of digits whose value does not fit the 32-bit int,
      with or without a minus sign: "2147483648" and "-2147483649" both give None. */
  lemma StoiOverflows(ds: string)
    requires ds != [] && AllDigits(ds)
    ensures DigitsValue(ds) >= 0x8000_0000 ==> Stoi(ds) == None
    ensures DigitsValue(ds) > 0x8000_0000 ==> Stoi("-" + ds) == None
  {
    DigitPrefixOf(ds, []);
    assert ds + [] == ds;
    StoiOfDigit(ds);
    if DigitsValue(ds) > 0x8000_0000 {
      StoiOfNegative(ds);
    }
  }

  /** A minus sign followed by digits below the 32-bit range is out of range. */
  lemma StoiOfNegative(ds: string)
    requires ds != [] && AllDigits(ds) && DigitPrefix(ds) == ds
    requires DigitsValue(ds) > 0x8000_0000
    ensures Stoi("-" + ds) == None
  {
    var t := "-" + ds;
    assert !IsSpace(t[0]);
    assert SkipSpace(t) == t;
    assert Signed(t) && t[0] == '-';
    assert t[1..] == ds;
  }

  /** operator<< on an int: optional '-', then the digits. */
  function RenderInt(i: int32): string {
    if i < 0 then "-" + NatDigits(-(i as int)) else NatDigits(i as int)
  }

  /** What is written for an int reads back as that int. */
  lemma ParseRenderInt(i: int32)
    ensures Stoi(RenderInt(i)) == Some(i)
  {
    var s := RenderInt(i);
    var n: nat := if i < 0 then -(i as int) else i as int;
    var ds := NatDigits(n);
    assert IsDigit(ds[0]);
    assert !IsSpace(s[0]);
    assert SkipSpace(s) == s;
    assert Signed(s) <==> i < 0;
    assert (if Signed(s) then s[1..] else s) == ds;
    DigitPrefixOf(ds, []);
    assert ds + [] == ds;
    NatDigitsValue(n);
  }

  /** The text of an int has no character that the codec or the INSERT splitter treats
      specially. */
  lemma RenderIntShape(i: int32)
    ensures var s := RenderInt(i);
      s != [] && s[0] != ' ' && s[0] != '\t' && s[0] != '"' &&
      s[|s| - 1] != ' ' && s[|s| - 1] != '\t' && s[|s| - 1] != '"' &&
      ',' !in s && '.' !in s && s != "true" && s != "false"
  {
    var s := RenderInt(i);
    RenderIntChars(i);
    assert s[|s| - 1] != '-';
  }

  /** The text of an int is a minus sign and digits. */
  lemma RenderIntChars(i: int32)
    ensures forall k :: 0 <= k < |RenderInt(i)| ==> RenderInt(i)[k] == '-' || IsDigit(RenderInt(i)[k])
  {
    assert AllDigits(NatDigits(if i < 0 then -(i as int) else i as int));
  }

  // ---------------------------------------------------------------- float stand-in

  function Pow10(n: nat): (p: nat)
    ensures p >= 1
  {
    if n == 0 then 1 else 10 * Pow10(n - 1)
  }

  /** A float cell stands for the decimal mantissa / 10^scale, kept without trailing zeros in
      the mantissa so that equal numbers are equal values. */
  datatype Decimal = Decimal(mantissa: int, scale: nat)

  /** A decimal kept without trailing zeros in the mantissa, as Normalize leaves it. */
  predicate Normalized(d: Decimal) {
    d.scale > 0 ==> d.mantissa % 10 != 0
  }

  function Normalize(m: int, scale: nat): (d: Decimal)
    ensures Normalized(d)
    ensures d.scale <= scale
    ensures d.mantissa * Pow10(scale - d.scale) == m
    decreases scale
  {
    if scale > 0 && m % 10 == 0 then
      var d := Normalize(m / 10, scale - 1);
      assert Pow10(scale - d.scale) == 10 * Pow10(scale - 1 - d.scale);
      d
    else Decimal(m, scale)
  }

  /** std::stof on the decimal forms: leading whitespace skipped, an optional sign, the longest
      run of digits, and after a '.' a second run of digits; whatever follows is ignored. At
      least one digit is needed ("." alone throws invalid_argument). Exponents, hexadecimal
      forms, inf and nan are not part of this model. */
  function ParseDecimal(s: string): (r: Option<Decimal>)
    ensures r.Some? ==> Normalized(r.value)
    ensures var t := SkipSpace(s); r.None? <==> !StartsNumber(if Signed(t) then t[1..] else t)
  {
    var t := SkipSpace(s);
    if Signed(t) then ParseMagnitude(t[0] == '-', t[1..]) else ParseMagnitude(false, t)
  }

  /** A number starts here: a digit, or a '.' and a digit. */
  predicate StartsNumber(body: string) {
    (|body| > 0 && IsDigit(body[0])) || (|body| > 1 && body[0] == '.' && IsDigit(body[1]))
  }

  /** stof after the sign: the whole digits, then after a '.' the fraction digits. */
  function ParseMagnitude(negative: bool, body: string): (r: Option<Decimal>)
    ensures r.Some? ==> Normalized(r.value)
    ensures r.None? <==> !StartsNumber(body)
  {
    var whole := DigitPrefix(body);
    var rest := body[|whole|..];
    var frac := if rest != [] && rest[0] == '.' then DigitPrefix(rest[1..]) else "";
    if |whole| + |frac| == 0 then None
    else Some(DecimalOf(negative, whole, frac))
  }

  /** The decimal the digits before and after the '.' stand for, signed and normalized. */
  function DecimalOf(negative: bool, whole: string, frac: string): Decimal
    requires AllDigits(whole) && AllDigits(frac)
  {
    var m := DigitsValue(whole) * Pow10(|frac|) + DigitsValue(frac);
    Normalize(if negative then -m else m, |frac|)
  }

  /** n written with at least width digits (leading zeros). */
  function ZeroPadded(n: nat, width: nat): string {
    var ds := NatDigits(n);
    if |ds| < width then seq(width - |ds|, _ => '0') + ds else ds
  }

  /** Writes mantissa / 10^scale exactly, with a '.' when the scale is positive. */
  function RenderDecimal(d: Decimal): string {
    var a: nat := if d.mantissa < 0 then -d.mantissa else d.mantissa;
    var (whole, frac) := DivMod(a, Pow10(d.scale));
    DecimalText(d.mantissa < 0, NatDigits(whole), if d.scale == 0 then "" else ZeroPadded(frac, d.scale))
  }

  function DivMod(a: nat, p: nat): (r: (nat, nat))
    requires p >= 1
    ensures r.0 * p + r.1 == a && r.1 < p
  {
    (a / p, a % p)
  }

  /** What RenderDecimal writes for a normalized decimal is read back by ParseDecimal as that
      same decimal. */
  lemma ParseRenderDecimal(d: Decimal)
    requires Normalized(d)
    ensures ParseDecimal(RenderDecimal(d)) == Some(d)
  {
    var a: nat := if d.mantissa < 0 then -d.mantissa else d.mantissa;
    var r := DivMod(a, Pow10(d.scale));
    var frac := if d.scale == 0 then "" else ZeroPadded(r.1, d.scale);
    var text := DecimalText(d.mantissa < 0, NatDigits(r.0), frac);
    assert RenderDecimal(d) == text;
    if d.scale > 0 {
      ZeroPaddedValue(r.1, d.scale);
    }
    ParseDecimalText(d.mantissa < 0, NatDigits(r.0), frac);
    NatDigitsValue(r.0);
    DecimalOfParts(d, NatDigits(r.0), frac);
  }

  /** Digits worth the mantissa's magnitude, d.scale of them after the point, stand for d. */
  lemma DecimalOfParts(d: Decimal, whole: string, frac: string)
    requires Normalized(d) && AllDigits(whole) && AllDigits(frac) && |frac| == d.scale
    requires DigitsValue(whole) * Pow10(d.scale) + DigitsValue(frac) ==
      if d.mantissa < 0 then -d.mantissa else d.mantissa
    ensures DecimalOf(d.mantissa < 0, whole, frac) == d
  {
  }

  /** A sign, a run of whole digits and, when there are any, a '.' and the fraction digits. */
  function DecimalText(negative: bool, whole: string, frac: string): string {
    (if negative then "-" else "") + (whole + (if frac == [] then "" else "." + frac))
  }

  /** ParseDecimal reads such a text as the digits' value over 10^|frac|, signed. */
  lemma ParseDecimalText(negative: bool, whole: string, frac: string)
    requires whole != [] && AllDigits(whole) && AllDigits(frac)
    ensures ParseDecimal(DecimalText(negative, whole, frac)) == Some(DecimalOf(negative, whole, frac))
  {
    var tail := if frac == [] then "" else "." + frac;
    DecimalTextSign(negative, whole, tail);
    ParseMagnitudeOf(negative, whole, frac);
  }

  lemma ParseMagnitudeOf(negative: bool, whole: string, frac: string)
    requires whole != [] && AllDigits(whole) && AllDigits(frac)
    ensures var tail := if frac == [] then "" else "." + frac;
      ParseMagnitude(negative, whole + tail) == Some(DecimalOf(negative, whole, frac))
  {
    var tail := if frac == [] then "" else "." + frac;
    DigitPrefixOf(whole, tail);
    assert (whole + tail)[|whole|..] == tail;
    FractionOf(tail, frac);
  }

  /** The text starts with no whitespace, and what follows its optional sign is the digits. */
  lemma DecimalTextSign(negative: bool, whole: string, tail: string)
    requires whole != [] && AllDigits(whole)
    ensures var s := (if negative then "-" else "") + (whole + tail);
      SkipSpace(s) == s && (Signed(s) && s[0] == '-' <==> negative) &&
      (if Signed(s) then s[1..] else s) == whole + tail
  {
    assert IsDigit(whole[0]);
  }

  /** After the whole digits, the '.' and the fraction digits are read as the fraction. */
  lemma FractionOf(tail: string, frac: string)
    requires AllDigits(frac) && tail == if frac == [] then "" else "." + frac
    ensures (if tail != [] && tail[0] == '.' then DigitPrefix(tail[1..]) else "") == frac
  {
    if frac != [] {
      assert tail[1..] == frac + [];
      DigitPrefixOf(frac, []);
    }
  }

  /** f written with scale digits, leading zeros included, reads back as f. */
  lemma ZeroPaddedValue(f: nat, scale: nat)
    requires scale >= 1 && f < Pow10(scale)
    ensures var z := ZeroPadded(f, scale); |z| == scale && AllDigits(z) && DigitsValue(z) == f
  {
    var ds := NatDigits(f);
    NatDigitsLength(f, scale);
    NatDigitsValue(f);
    if |ds| < scale {
      LeadingZeros(seq(scale - |ds|, _ => '0'), ds);
    }
  }

  /** Zeros written in front of digits change neither that they are digits nor their value. */
  lemma LeadingZeros(zeros: string, ds: string)
    requires forall i :: 0 <= i < |zeros| ==> zeros[i] == '0'
    requires AllDigits(ds)
    ensures AllDigits(zeros + ds) && DigitsValue(zeros + ds) == DigitsValue(ds)
  {
    ZerosValue(zeros);
    DigitsValueAppend(zeros, ds);
  }

  /** The digits of a number below 10^k are at most k. */
  lemma {:induction false} NatDigitsLength(n: nat, k: nat)
    requires k >= 1 && n < Pow10(k)
    ensures |NatDigits(n)| <= k
    decreases n
  {
    if n >= 10 {
      assert Pow10(1) == 10;
      assert k >= 2;
      assert n / 10 < Pow10(k - 1);
      NatDigitsLength(n / 10, k - 1);
    }
  }

  /** Digits written after a first run multiply its value by a power of ten. */
  lemma {:induction false} DigitsValueAppend(a: string, b: string)
    requires AllDigits(a) && AllDigits(b)
    ensures AllDigits(a + b)
    ensures DigitsValue(a + b) == DigitsValue(a) * Pow10(|b|) + DigitsValue(b)
    decreases |b|
  {
    if b == [] {
      assert a + b == a;
    } else {
      var b' := b[..|b| - 1];
      assert (a + b)[..|a + b| - 1] == a + b';
      DigitsValueAppend(a, b');
      var c := b[|b| - 1] as int - '0' as int;
      assert DigitsValue(a + b) == DigitsValue(a + b') * 10 + c;
      assert DigitsValue(b) == DigitsValue(b') * 10 + c;
      assert Pow10(|b|) == 10 * Pow10(|b'|);
      ShiftDigit(DigitsValue(a), Pow10(|b'|), DigitsValue(b'), c);
    }
  }

  lemma ShiftDigit(x: int, p: int, y: int, c: int)
    ensures (x * p + y) * 10 + c == x * (10 * p) + (y * 10 + c)
  {
  }

  /** A run of zeros is worth 0. */
  lemma {:induction false} ZerosValue(z: string)
    requires forall i :: 0 <= i < |z| ==> z[i] == '0'
    ensures AllDigits(z) && DigitsValue(z) == 0
  {
    if z != [] {
      ZerosValue(z[..|z| - 1]);
    }
  }

  /** The sign of a - b, the two numbers brought to a common scale. */
  function CompareDecimal(a: Decimal, b: Decimal): int {
    var x := a.mantissa * Pow10(b.scale);
    var y := b.mantissa * Pow10(a.scale);
    if x < y then -1 else if x == y then 0 else 1
  }

  function CompareInt(a: int, b: int): int {
    if a < b then -1 else if a == b then 0 else 1
  }
}
