/** Numbers as they travel on the wire. A Python float is a finite binary fraction and hence a
    finite decimal fraction; the model keeps it exactly, as `units / 10^scale`, so that its text
    form can be produced and read back without loss. */
module Numbers {
  import opened Wrappers
  import opened Text

  /** The number `units / 10^scale`. */
  datatype Decimal = Decimal(units: int, scale: nat) {
    function Value(): real {
      units as real / Pow10(scale) as real
    }
  }

  /** Zero, the authority's offset before its first reference sync. */
  const Zero: Decimal := Decimal(0, 0)

  function Pow10(n: nat): (p: nat)
    ensures p >= 1
  {
    if n == 0 then 1 else 10 * Pow10(n - 1)
  }

  lemma {:induction false} Pow10Add(a: nat, b: nat)
    ensures Pow10(a + b) == Pow10(a) * Pow10(b)
  {
    if b > 0 {
      Pow10Add(a, b - 1);
      assert Pow10(a + b) == 10 * Pow10(a + b - 1);
    }
  }

  predicate IsDigit(c: char) {
    '0' <= c <= '9'
  }

  predicate AllDigits(s: string) {
    forall i :: 0 <= i < |s| ==> IsDigit(s[i])
  }

  function DigitChar(d: nat): (c: char)
    requires d < 10
    ensures IsDigit(c) && c as int - '0' as int == d
  {
    ('0' as int + d) as char
  }

  /** The number a non-empty or empty run of decimal digits spells (the empty run spells 0). */
  function DigitsValue(s: string): nat
    requires AllDigits(s)
  {
    if s == [] then 0 else 10 * DigitsValue(s[..|s| - 1]) + (s[|s| - 1] as int - '0' as int)
  }

  /** Appending digits shifts what is already there by one power of ten per digit. */
  lemma {:induction false} DigitsValueAppend(a: string, b: string)
    requires AllDigits(a) && AllDigits(b)
    ensures AllDigits(a + b)
    ensures DigitsValue(a + b) == DigitsValue(a) * Pow10(|b|) + DigitsValue(b)
  {
    assert AllDigits(a + b);
    if b != [] {
      var b' := b[..|b| - 1];
      var last := b[|b| - 1] as int - '0' as int;
      assert (a + b)[..|a + b| - 1] == a + b';
      DigitsValueAppend(a, b');
      var va, vb', p' := DigitsValue(a), DigitsValue(b'), Pow10(|b'|);
      assert DigitsValue(a + b) == 10 * DigitsValue(a + b') + last;
      assert DigitsValue(a + b') == va * p' + vb';
      assert DigitsValue(b) == 10 * vb' + last;
      assert Pow10(|b|) == 10 * p';
      MulStep(va, p', vb', last);
    } else {
      assert a + b == a;
    }
  }

  lemma MulStep(va: int, p: int, vb: int, last: int)
    ensures 10 * (va * p + vb) + last == va * (10 * p) + (10 * vb + last)
  {}

  /** The shortest decimal numeral of `n` (at least one digit). */
  function NaturalDigits(n: nat): (s: string)
    ensures |s| >= 1 && AllDigits(s) && DigitsValue(s) == n
    decreases n
  {
    if n < 10 then [DigitChar(n)]
    else
      var s := NaturalDigits(n / 10) + [DigitChar(n % 10)];
      assert s[..|s| - 1] == NaturalDigits(n / 10);
      s
  }

  /** The whole part of `m / 10^e`. */
  function WholePart(m: nat, e: nat): nat {
    if e == 0 then m else WholePart(m / 10, e - 1)
  }

  /** The last `e` decimal digits of `m`, leading zeros included. */
  function LowDigits(m: nat, e: nat): (s: string)
    ensures |s| == e && AllDigits(s)
  {
    if e == 0 then [] else LowDigits(m / 10, e - 1) + [DigitChar(m % 10)]
  }

  /** The whole part's numeral followed by the last `e` digits spells `m` again. */
  lemma {:induction false} WholeAndLowDigits(m: nat, e: nat)
    ensures AllDigits(NaturalDigits(WholePart(m, e)) + LowDigits(m, e))
    ensures DigitsValue(NaturalDigits(WholePart(m, e)) + LowDigits(m, e)) == m
  {
    if e > 0 {
      WholeAndLowDigits(m / 10, e - 1);
      var prefix := NaturalDigits(WholePart(m / 10, e - 1)) + LowDigits(m / 10, e - 1);
      var s := NaturalDigits(WholePart(m, e)) + LowDigits(m, e);
      assert s == prefix + [DigitChar(m % 10)];
      assert s[..|s| - 1] == prefix;
    } else {
      assert NaturalDigits(WholePart(m, e)) + LowDigits(m, e) == NaturalDigits(m);
    }
  }

  /** The unsigned text of `m / 10^e`: the whole part, and when `e` is positive a point
      followed by exactly `e` fraction digits. */
  function UnsignedText(m: nat, e: nat): (s: string)
    ensures |s| >= 1 && IsDigit(s[0])
    ensures forall i :: 0 <= i < |s| ==> IsDigit(s[i]) || s[i] == '.'
  {
    var whole := NaturalDigits(WholePart(m, e));
    if e == 0 then whole else whole + "." + LowDigits(m, e)
  }

  /** The text form of `d`: an optional minus sign and the unsigned text of its magnitude. */
  function Encode(d: Decimal): (s: string)
    ensures forall i :: 0 <= i < |s| ==> IsDigit(s[i]) || s[i] == '-' || s[i] == '.'
  {
    var magnitude: nat := if d.units < 0 then -d.units else d.units;
    (if d.units < 0 then "-" else "") + UnsignedText(magnitude, d.scale)
  }

  /** Reads an unsigned numeral: digits with at most one point and at least one digit. */
  function DecodeUnsigned(s: string): (r: Option<Decimal>)
    ensures r.Some? ==> r.value.units >= 0 && |s| >= 1
  {
    match IndexOf(s, '.')
    case None =>
      if s != [] && AllDigits(s) then Some(Decimal(DigitsValue(s), 0)) else None
    case Some(k) =>
      var whole, fraction := s[..k], s[k + 1..];
      if |whole| + |fraction| > 0 && AllDigits(whole) && AllDigits(fraction) then
        DigitsValueAppend(whole, fraction);
        Some(Decimal(DigitsValue(whole + fraction), |fraction|))
      else None
  }

  /** Reads a numeral with an optional leading `+` or `-`; `None` when the text is not one. */
  function Decode(s: string): (r: Option<Decimal>)
    ensures r.Some? ==> |s| >= 1
  {
    if |s| > 0 && s[0] == '-' then
      match DecodeUnsigned(s[1..])
      case None => None
      case Some(d) => Some(Decimal(-d.units, d.scale))
    else if |s| > 0 && s[0] == '+' then DecodeUnsigned(s[1..])
    else DecodeUnsigned(s)
  }

  /** Reading back the unsigned text of `m / 10^e` gives exactly `m` and `e`. */
  lemma DecodeUnsignedText(m: nat, e: nat)
    ensures DecodeUnsigned(UnsignedText(m, e)) == Some(Decimal(m, e))
  {
    var whole := NaturalDigits(WholePart(m, e));
    var u := UnsignedText(m, e);
    WholeAndLowDigits(m, e);
    if e == 0 {
      assert IndexOf(u, '.').None?;
      assert u == whole + LowDigits(m, e);
    } else {
      var fraction := LowDigits(m, e);
      assert u == whole + "." + fraction;
      assert u[|whole|] == '.';
      assert IndexOf(u, '.') == Some(|whole|);
      assert u[..|whole|] == whole;
      assert u[|whole| + 1..] == fraction;
    }
  }

  /** Reading back the text form of a number gives that number, exactly. */
  lemma DecodeEncode(d: Decimal)
    ensures Decode(Encode(d)) == Some(d)
  {
    var magnitude: nat := if d.units < 0 then -d.units else d.units;
    var u := UnsignedText(magnitude, d.scale);
    DecodeUnsignedText(magnitude, d.scale);
    if d.units < 0 {
      assert Encode(d) == "-" + u;
      DecodeNegated(u, Decimal(magnitude, d.scale));
    } else {
      assert Encode(d) == u;
      DecodeWithoutSign(u, d);
    }
  }

  /** A minus sign before an unsigned numeral negates what it reads as. */
  lemma DecodeNegated(u: string, d: Decimal)
    requires DecodeUnsigned(u) == Some(d)
    ensures Decode("-" + u) == Some(Decimal(-d.units, d.scale))
  {
    var s := "-" + u;
    assert s[0] == '-' && s[1..] == u;
  }

  /** An unsigned numeral starting with a digit reads the same without a sign. */
  lemma DecodeWithoutSign(u: string, d: Decimal)
    requires DecodeUnsigned(u) == Some(d) && IsDigit(u[0])
    ensures Decode(u) == Some(d)
  {
  }

  /** The sum of two decimals, on the finer of their two scales. */
  function Add(a: Decimal, b: Decimal): Decimal {
    var s := if a.scale < b.scale then b.scale else a.scale;
    Decimal(Shift(a.units, s - a.scale) + Shift(b.units, s - b.scale), s)
  }

  /** `u` followed by `k` zeros: `u * 10^k`. */
  function Shift(u: int, k: nat): int {
    if k == 0 then u else 10 * Shift(u, k - 1)
  }

  lemma {:induction false} ShiftIsProduct(u: int, k: nat)
    ensures Shift(u, k) == u * Pow10(k)
  {
    if k > 0 {
      ShiftIsProduct(u, k - 1);
      assert u * Pow10(k) == 10 * (u * Pow10(k - 1));
    }
  }

  /** The sum is exact. */
  lemma AddValue(a: Decimal, b: Decimal)
    ensures Add(a, b).Value() == a.Value() + b.Value()
  {
    var s := Add(a, b).scale;
    var ka, kb := s - a.scale, s - b.scale;
    var ua, ub := Shift(a.units, ka), Shift(b.units, kb);
    assert Add(a, b).units == ua + ub;
    ShiftIsProduct(a.units, ka);
    ShiftIsProduct(b.units, kb);
    Rescale(a.units, ka, a.scale);
    Rescale(b.units, kb, b.scale);
    assert ka + a.scale == s && kb + b.scale == s;
    SumOverCommonDenominator(ua as real, ub as real, Pow10(s) as real);
  }

  lemma SumOverCommonDenominator(x: real, y: real, d: real)
    requires d > 0.0
    ensures (x + y) / d == x / d + y / d
  {}

  lemma CancelFactor(x: real, a: real, b: real)
    requires a > 0.0 && b > 0.0
    ensures (x * a) / (a * b) == x / b
  {
    var q := x / b;
    assert q * b == x;
    assert q * (a * b) == x * a;
  }

  lemma ProductAsReal(x: int, y: int)
    ensures (x * y) as real == x as real * y as real
  {}

  /** Multiplying numerator and denominator by the same power of ten keeps the value. */
  lemma Rescale(u: int, k: nat, e: nat)
    ensures (u * Pow10(k)) as real / Pow10(k + e) as real == u as real / Pow10(e) as real
  {
    Pow10Add(k, e);
    ProductAsReal(Pow10(k), Pow10(e));
    ProductAsReal(u, Pow10(k));
    CancelFactor(u as real, Pow10(k) as real, Pow10(e) as real);
  }
}
