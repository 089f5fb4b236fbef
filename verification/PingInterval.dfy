/** The ping interval argument: seconds with an optional decimal fraction, kept as 32-bit milliseconds. */
module PingInterval {
  import opened Base
  import opened Numbers
  import opened Arithmetic

  const SECOND: nat := 1000

  // ---------- Meaning of the text ----------

  /** The index of the first dot, or the length of the text. */
  function DotIndex(s: string): (k: nat)
    ensures k <= |s| && (k < |s| ==> s[k] == '.')
    ensures forall j :: 0 <= j < k ==> s[j] != '.'
  {
    if s == "" || s[0] == '.' then 0
    else
      var k := DotIndex(s[1..]);
      assert forall j :: 0 < j < |s| ==> s[j] == s[1..][j - 1];
      k + 1
  }

  function Whole(s: string): string {
    s[..DotIndex(s)]
  }

  function Fraction(s: string): string {
    if DotIndex(s) < |s| then s[DotIndex(s) + 1..] else ""
  }

  /** Digits with at most one dot; either side of the dot may be empty. */
  predicate IsInterval(s: string) {
    Value(Whole(s), Decimal).Some? && Value(Fraction(s), Decimal).Some?
  }

  function Pow10(n: nat): (p: nat)
    ensures p > 0
  {
    if n == 0 then 1 else 10 * Pow10(n - 1)
  }

  /** The milliseconds that the decimal number denotes, rounded down: floor(1000 * (whole + fraction / 10^n)). */
  function Milliseconds(s: string): int
    requires IsInterval(s)
  {
    var scale := Pow10(|Fraction(s)|);
    SECOND * (Value(Whole(s), Decimal).value * scale + Value(Fraction(s), Decimal).value) / scale
  }

  // ---------- The parser's view of the fraction ----------

  /** The weight of the digit after `n` others: 100, 10, 1, and nothing from the fourth on. */
  function Weight(n: nat): nat {
    if n == 0 then 100 else if n == 1 then 10 else if n == 2 then 1 else 0
  }

  function Weighted(digits: string): nat
    requires Value(digits, Decimal).Some?
  {
    if digits == "" then 0
    else Weighted(digits[..|digits| - 1]) + Digit(digits[|digits| - 1], Decimal).value * Weight(|digits| - 1)
  }

  lemma {:induction false} WeightedShort(f: string)
    requires Value(f, Decimal).Some? && |f| <= 3
    ensures Weighted(f) * Pow10(|f|) == Value(f, Decimal).value * 1000
  {
    assert Pow10(0) == 1 && Pow10(1) == 10 && Pow10(2) == 100 && Pow10(3) == 1000;
    if f != "" {
      WeightedShort(f[..|f| - 1]);
    }
  }

  lemma Times10(w: nat, v: nat, p: nat, d: nat)
    requires w * p <= v < (w + 1) * p && d < 10
    ensures w * (10 * p) <= 10 * v + d < (w + 1) * (10 * p)
  {
    assert w * (10 * p) == 10 * (w * p) && (w + 1) * (10 * p) == 10 * ((w + 1) * p);
  }

  /** The weighted digits are the first three decimals, whatever follows them. */
  lemma {:induction false} WeightedLong(f: string)
    requires Value(f, Decimal).Some? && |f| >= 3
    ensures Weighted(f) * Pow10(|f| - 3) <= Value(f, Decimal).value < (Weighted(f) + 1) * Pow10(|f| - 3)
  {
    if |f| == 3 {
      WeightedShort(f);
      assert Pow10(0) == 1 && Pow10(1) == 10 && Pow10(2) == 100 && Pow10(3) == 1000;
    } else {
      var init := f[..|f| - 1];
      WeightedLong(init);
      Times10(Weighted(init), Value(init, Decimal).value, Pow10(|f| - 4), Digit(f[|f| - 1], Decimal).value);
      assert Pow10(|f| - 3) == 10 * Pow10(|f| - 4);
      assert Weight(|f| - 1) == 0;
    }
  }

  lemma Pow10Thousand(n: nat)
    requires n >= 3
    ensures Pow10(n) == 1000 * Pow10(n - 3)
  {
    assert Pow10(n) == 10 * Pow10(n - 1) && Pow10(n - 1) == 10 * Pow10(n - 2) && Pow10(n - 2) == 10 * Pow10(n - 3);
  }

  lemma WeightedIsFloor(f: string)
    requires Value(f, Decimal).Some?
    ensures 1000 * Value(f, Decimal).value / Pow10(|f|) == Weighted(f)
  {
    hide Value, Weighted, Pow10;
    var v, w := Value(f, Decimal).value, Weighted(f);
    if |f| <= 3 {
      WeightedShort(f);
      Divide(1000 * v, w, Pow10(|f|));
    } else {
      var q := Pow10(|f| - 3);
      WeightedLong(f);
      Pow10Thousand(|f|);
      assert w * (1000 * q) == 1000 * (w * q) && (w + 1) * (1000 * q) == 1000 * ((w + 1) * q);
      Divide(1000 * v, w, 1000 * q);
    }
  }

  /** Whole seconds and weighted decimals together are the rounded milliseconds. */
  lemma MillisecondsSplit(s: string)
    requires IsInterval(s)
    ensures Milliseconds(s) == SECOND * Value(Whole(s), Decimal).value + Weighted(Fraction(s))
  {
    var w, f, p := Value(Whole(s), Decimal).value, Value(Fraction(s), Decimal).value, Pow10(|Fraction(s)|);
    WeightedIsFloor(Fraction(s));
    assert SECOND * (w * p + f) == (SECOND * w) * p + SECOND * f;
    DivideSum(SECOND * w, SECOND * f, p);
  }

  // ---------- The parser ----------

  lemma WrapTimesTen(x: nat, y: nat)
    ensures Wrap32(Wrap32(10 * Wrap32(x)) + y) == Wrap32(10 * x + y)
  {
    var q, w := x / UINT32_MODULUS, Wrap32(x);
    assert x == q * UINT32_MODULUS + w;
    hide Wrap32;
    WrapAdd(10 * w, y);
    WrapShift(10 * q, 10 * w + y);
  }

  lemma WrapShift(k: nat, x: nat)
    ensures Wrap32(k * UINT32_MODULUS + x) == Wrap32(x)
  {
  }

  lemma WrapAdd(x: nat, y: nat)
    ensures Wrap32(Wrap32(x) + y) == Wrap32(x + y)
  {
  }

  /** `s[..k]` has been read; `factor` is 1000 until a dot is seen, then the weight of the next digit. */
  ghost predicate Parsed(s: string, k: nat, factor: nat, interval: nat) {
    var dot := DotIndex(s);
    k <= |s| &&
    if k <= dot then
      && factor == SECOND && Value(s[..k], Decimal).Some?
      && interval == Wrap32(SECOND * Value(s[..k], Decimal).value)
    else
      && Value(s[..dot], Decimal).Some? && Value(s[dot + 1..k], Decimal).Some?
      && factor == Weight(k - dot - 1)
      && interval == Wrap32(SECOND * Value(s[..dot], Decimal).value + Weighted(s[dot + 1..k]))
  }

  method ParsePingInterval(s: string) returns (error: Error, interval: Uint32)
    ensures error == if IsInterval(s) then NoError else InvalidArgs
    ensures IsInterval(s) ==> interval == Wrap32(Milliseconds(s))
  {
    hide Parsed, IsInterval, Milliseconds, DotIndex;
    var factor: nat := SECOND;
    interval := 0;
    ReadNothing(s);
    for k := 0 to |s|
      invariant Parsed(s, k, factor, interval)
    {
      var digit := Digit(s[k], Decimal);
      if digit.Some? {
        ReadDigit(s, k, factor, interval);
        if factor == SECOND {
          interval := Wrap32(interval * 10);
        }
        interval := Wrap32(interval + digit.value * factor);
        if factor != SECOND {
          factor := factor / 10;
        }
      } else if s[k] == '.' {
        ReadDot(s, k, factor, interval);
        if factor != SECOND {
          return InvalidArgs, interval;
        }
        factor := factor / 10;
      } else {
        ReadOther(s, k, factor, interval);
        return InvalidArgs, interval;
      }
    }
    ReadAll(s, factor, interval);
    error := NoError;
  }

  lemma ReadNothing(s: string)
    ensures Parsed(s, 0, SECOND, 0)
  {
    assert s[..0] == "";
  }

  lemma ReadDigit(s: string, k: nat, factor: nat, interval: Uint32)
    requires k < |s| && Parsed(s, k, factor, interval) && Digit(s[k], Decimal).Some?
    ensures var d := Digit(s[k], Decimal).value;
            if factor == SECOND then Parsed(s, k + 1, SECOND, Wrap32(Wrap32(interval * 10) + d * SECOND))
            else Parsed(s, k + 1, factor / 10, Wrap32(interval + d * factor))
  {
    if k < DotIndex(s) {
      ReadWholeDigit(s, k, interval);
    } else {
      ReadDecimal(s, k, interval);
    }
  }

  lemma ReadWholeDigit(s: string, k: nat, interval: Uint32)
    requires k < DotIndex(s) && Parsed(s, k, SECOND, interval) && Digit(s[k], Decimal).Some?
    ensures Parsed(s, k + 1, SECOND, Wrap32(Wrap32(interval * 10) + Digit(s[k], Decimal).value * SECOND))
  {
    hide Wrap32, Value, DotIndex;
    assert s[..k + 1] == s[..k] + [s[k]];
    ValueSnoc(s[..k], s[k], Decimal);
    WrapTimesTen(SECOND * Value(s[..k], Decimal).value, Digit(s[k], Decimal).value * SECOND);
  }

  lemma ReadDecimal(s: string, k: nat, interval: Uint32)
    requires DotIndex(s) < k < |s| && Parsed(s, k, Weight(k - DotIndex(s) - 1), interval)
    requires Digit(s[k], Decimal).Some?
    ensures var factor := Weight(k - DotIndex(s) - 1);
            Parsed(s, k + 1, factor / 10, Wrap32(interval + Digit(s[k], Decimal).value * factor))
  {
    hide Wrap32, Value, Weighted, DotIndex;
    var dot := DotIndex(s);
    var f := s[dot + 1..k];
    assert s[dot + 1..k + 1] == f + [s[k]];
    ValueSnoc(f, s[k], Decimal);
    WeightedSnoc(f, s[k]);
    WrapAdd(SECOND * Value(s[..dot], Decimal).value + Weighted(f),
            Digit(s[k], Decimal).value * Weight(k - dot - 1));
  }

  lemma WeightedSnoc(f: string, c: char)
    requires Value(f, Decimal).Some? && Value(f + [c], Decimal).Some?
    ensures Digit(c, Decimal).Some?
    ensures Weighted(f + [c]) == Weighted(f) + Digit(c, Decimal).value * Weight(|f|)
  {
    assert (f + [c])[..|f|] == f;
  }

  /** A second dot is refused; the first one starts the fraction. */
  lemma ReadDot(s: string, k: nat, factor: nat, interval: Uint32)
    requires k < |s| && Parsed(s, k, factor, interval) && s[k] == '.'
    ensures factor == SECOND ==> Parsed(s, k + 1, factor / 10, interval)
    ensures factor != SECOND ==> !IsInterval(s)
  {
    var dot := DotIndex(s);
    if k == dot {
      assert s[dot + 1..k + 1] == "";
    } else {
      ReadOther(s, k, factor, interval);
    }
  }

  lemma ReadOther(s: string, k: nat, factor: nat, interval: Uint32)
    requires k < |s| && Parsed(s, k, factor, interval)
    requires Digit(s[k], Decimal).None? && k != DotIndex(s)
    ensures !IsInterval(s)
  {
    var dot := DotIndex(s);
    var text, at := if k < dot then Whole(s) else Fraction(s), if k < dot then k else k - dot - 1;
    assert text[at] == s[k];
    NotADigit(text, at);
  }

  lemma NotADigit(s: string, k: nat)
    requires k < |s| && Digit(s[k], Decimal).None?
    ensures Value(s, Decimal).None?
  {
    assert s[..k + 1] == s[..k] + [s[k]];
    ValueSnoc(s[..k], s[k], Decimal);
    if Value(s, Decimal).Some? {
      ValueMonotone(s, k + 1, Decimal);
    }
  }

  lemma ReadAll(s: string, factor: nat, interval: Uint32)
    requires Parsed(s, |s|, factor, interval)
    ensures IsInterval(s) && interval == Wrap32(Milliseconds(s))
  {
    var dot := DotIndex(s);
    if dot == |s| {
      assert s[..|s|] == s && Whole(s) == s;
    } else {
      assert s[dot + 1..|s|] == Fraction(s);
    }
    MillisecondsSplit(s);
  }

  // ---------- Laws ----------

  /** Three zero-padded digits. */
  function Padded3(n: nat): string
    requires n < 1000
  {
    [DigitChar(n / 100), DigitChar(n / 10 % 10), DigitChar(n % 10)]
  }

  /** Decimals past the third never matter. */
  lemma {:induction false} ExtraDecimalsIgnored(s: string, extra: string)
    requires IsInterval(s) && |Fraction(s)| >= 3 && Value(extra, Decimal).Some?
    ensures IsInterval(s + extra) && Milliseconds(s + extra) == Milliseconds(s)
    decreases |extra|
  {
    hide Milliseconds, Whole, Fraction, DotIndex;
    if extra == "" {
      assert s + extra == s;
    } else {
      var init, c := extra[..|extra| - 1], extra[|extra| - 1];
      assert Value(init, Decimal).Some?;
      ExtraDecimalsIgnored(s, init);
      assert s + extra == (s + init) + [c];
      FractionGrows(s, init);
      OneMoreDecimal(s + init, c);
    }
  }

  lemma DotKept(s: string, t: string)
    requires DotIndex(s) < |s|
    ensures DotIndex(s + t) == DotIndex(s)
  {
    var k, m := DotIndex(s), DotIndex(s + t);
    assert (s + t)[k] == '.';
    if m < k {
      assert (s + t)[m] == s[m];
    }
  }

  lemma FractionGrows(s: string, t: string)
    requires |Fraction(s)| > 0
    ensures Whole(s + t) == Whole(s) && Fraction(s + t) == Fraction(s) + t
  {
    DotKept(s, t);
  }

  lemma OneMoreDecimal(s: string, c: char)
    requires IsInterval(s) && |Fraction(s)| >= 3 && Digit(c, Decimal).Some?
    ensures IsInterval(s + [c]) && Milliseconds(s + [c]) == Milliseconds(s)
  {
    FractionGrows(s, [c]);
    ValueSnoc(Fraction(s), c, Decimal);
    MillisecondsSplit(s);
    MillisecondsSplit(s + [c]);
    assert (Fraction(s) + [c])[..|Fraction(s)|] == Fraction(s);
  }

  /** Every number of milliseconds has a spelling, `q.rrr`, that is read back exactly. */
  lemma SpellingReadsBack(v: nat)
    ensures var s := Text(v / 1000, Decimal) + "." + Padded3(v % 1000);
            IsInterval(s) && Milliseconds(s) == v
  {
    var q, r := Text(v / 1000, Decimal), Padded3(v % 1000);
    var s := q + "." + r;
    ValueOfText(v / 1000, Decimal);
    forall k | 0 <= k < |q| ensures s[k] != '.' {
      TextDigits(v / 1000, Decimal, k);
    }
    assert s[|q|] == '.';
    assert DotIndex(s) == |q|;
    assert Whole(s) == q && Fraction(s) == r;
    ThreeDigits(v % 1000);
    MillisecondsSplit(s);
  }

  lemma ThreeDigits(n: nat)
    requires n < 1000
    ensures Value(Padded3(n), Decimal).Some? && Weighted(Padded3(n)) == n
  {
    var a, b, c := DigitChar(n / 100), DigitChar(n / 10 % 10), DigitChar(n % 10);
    assert Value("", Decimal) == Some(0) && Weighted("") == 0;
    assert Weight(0) == 100 && Weight(1) == 10 && Weight(2) == 1;
    hide Value, Weighted, DigitChar, Digit, Weight;
    assert "" + [a] == [a] && [a] + [b] == [a, b] && [a, b] + [c] == [a, b, c];
    ValueSnoc("", a, Decimal);
    ValueSnoc([a], b, Decimal);
    ValueSnoc([a, b], c, Decimal);
    WeightedSnoc("", a);
    WeightedSnoc([a], b);
    WeightedSnoc([a, b], c);
    ThreeParts(n);
  }

  lemma ThreeParts(n: nat)
    ensures n / 100 * 100 + n / 10 % 10 * 10 + n % 10 == n
  {
    assert n / 100 == n / 10 / 10;
  }
}
