/** Numbers in text: the argument parsers of the command line and the `%d`, `%x` and `%02x` formats. */
module Numbers {
  import opened Base

  datatype Radix = Decimal | Hex {
    function Base(): nat {
      if Decimal? then 10 else 16
    }

    /** `n` times the base. */
    function Times(n: nat): nat {
      if Decimal? then 10 * n else 16 * n
    }

    function Div(n: nat): (q: nat)
      ensures n >= Base() ==> q < n
    {
      if Decimal? then n / 10 else n / 16
    }

    function Mod(n: nat): (r: nat)
      ensures r < Base() && n == Times(Div(n)) + r
    {
      if Decimal? then n % 10 else n % 16
    }

    function Max64(): nat {
      if Decimal? then UINT64_MAX / 10 else UINT64_MAX / 16
    }
  }

  function Digit(c: char, radix: Radix): (d: Option<nat>)
    ensures d.Some? ==> d.value < radix.Base()
  {
    if '0' <= c <= '9' then Some(c as int - '0' as int)
    else if radix.Hex? && 'A' <= c <= 'F' then Some(c as int - 'A' as int + 10)
    else if radix.Hex? && 'a' <= c <= 'f' then Some(c as int - 'a' as int + 10)
    else None
  }

  /** The digits are the usual ones, and for hexadecimal numbers the first six letters in either case. */
  lemma DigitIs(c: char, d: nat)
    requires d < 16
    ensures Digit(c, Hex) == Some(d) <==> c == "0123456789abcdef"[d] || c == "0123456789ABCDEF"[d]
    ensures Digit(c, Decimal) == Some(d) <==> d < 10 && c == "0123456789abcdef"[d]
  {
    var lower, upper := "0123456789abcdef", "0123456789ABCDEF";
    assert forall k :: 0 <= k < 10 ==> lower[k] as int == '0' as int + k && upper[k] == lower[k];
    assert forall k :: 10 <= k < 16 ==> lower[k] as int == 'a' as int + k - 10;
    assert forall k :: 10 <= k < 16 ==> upper[k] as int == 'A' as int + k - 10;
  }

  /** The number that a string of digits denotes, without any bound on its size. */
  function Value(s: string, radix: Radix): Option<nat> {
    if s == "" then Some(0)
    else
      var head := Value(s[..|s| - 1], radix);
      var digit := Digit(s[|s| - 1], radix);
      if head.None? || digit.None? then None else Some(radix.Times(head.value) + digit.value)
  }

  lemma ValueSnoc(s: string, c: char, radix: Radix)
    ensures Value(s + [c], radix) ==
            var head, digit := Value(s, radix), Digit(c, radix);
            if head.None? || digit.None? then None else Some(radix.Times(head.value) + digit.value)
  {
    assert (s + [c])[..|s|] == s;
  }

  /** A longer string of digits denotes no smaller a number. */
  lemma {:induction false} ValueMonotone(s: string, k: nat, radix: Radix)
    requires k <= |s| && Value(s, radix).Some?
    ensures Value(s[..k], radix).Some? && Value(s[..k], radix).value <= Value(s, radix).value
    ensures k < |s| ==> radix.Times(Value(s[..k], radix).value) <= Value(s, radix).value
    decreases |s|
  {
    if k == |s| {
      assert s[..k] == s;
    } else {
      var init := s[..|s| - 1];
      ValueMonotone(init, k, radix);
      assert init[..k] == s[..k];
    }
  }

  predicate HasHexPrefix(s: string) {
    |s| >= 2 && s[0] == '0' && (s[1] == 'x' || s[1] == 'X')
  }

  function RadixOf(s: string): Radix {
    if HasHexPrefix(s) then Hex else Decimal
  }

  function DigitsOf(s: string): string {
    if HasHexPrefix(s) then s[2..] else s
  }

  /** The number that an argument denotes: decimal, or hexadecimal after `0x`. */
  function Number(s: string): Option<nat> {
    if DigitsOf(s) == "" then None else Value(DigitsOf(s), RadixOf(s))
  }

  /** The result of `ParseAsUint8`, `ParseAsUint16` and so on, where `max` is the largest value of the type. */
  function ParseUint(s: string, max: nat): (r: Result<nat>)
    ensures r.Ok? ==> r.value <= max
    ensures r.Err? ==> r.error == InvalidArgs
  {
    if Number(s).Some? && Number(s).value <= max then Ok(Number(s).value) else Err(InvalidArgs)
  }

  const UINT8_MAX: nat := 0xff
  const UINT16_MAX: nat := 0xffff
  const UINT32_MAX: nat := 0xffff_ffff
  const UINT64_MAX: nat := 0xffff_ffff_ffff_ffff

  /** The digits of `s[start..end]` have been read and denote `value`. */
  ghost predicate Reads(s: string, start: nat, end: nat, radix: Radix, value: nat) {
    start <= end <= |s| && Value(s[start..end], radix) == Some(value)
  }

  lemma ReadsOne(s: string, start: nat, end: nat, radix: Radix, value: nat)
    requires Reads(s, start, end, radix, value) && end < |s|
    ensures Value(s[start..end + 1], radix) ==
            if Digit(s[end], radix).None? then None else Some(radix.Times(value) + Digit(s[end], radix).value)
  {
    hide Value, Digit;
    assert s[start..end + 1] == s[start..end] + [s[end]];
    ValueSnoc(s[start..end], s[end], radix);
  }

  /** Reading on never makes the number smaller, and fails for good at a character that is no digit. */
  lemma ReadsMore(s: string, start: nat, end: nat, more: nat, radix: Radix)
    requires start <= end <= more <= |s| && Value(s[start..more], radix).Some?
    ensures Value(s[start..end], radix).Some?
    ensures Value(s[start..end], radix).value <= Value(s[start..more], radix).value
    ensures end < more ==> radix.Times(Value(s[start..end], radix).value) <= Value(s[start..more], radix).value
  {
    ValueMonotone(s[start..more], end - start, radix);
    assert s[start..more][..end - start] == s[start..end];
  }

  /** A digit that overflows, or is none, spoils the whole number. */
  lemma Overflows(s: string, start: nat, cur: nat, radix: Radix, value: nat, max: nat)
    requires Reads(s, start, cur, radix, value) && cur < |s|
    requires radix.Times(value) > max || Digit(s[cur], radix).None? ||
             radix.Times(value) + Digit(s[cur], radix).value > max
    ensures Value(s[start..], radix).Some? ==> Value(s[start..], radix).value > max
  {
    ReadsOne(s, start, cur, radix, value);
    assert s[start..|s|] == s[start..];
    if Value(s[start..], radix).Some? {
      ReadsMore(s, start, cur, |s|, radix);
      ReadsMore(s, start, cur + 1, |s|, radix);
    }
  }

  /**
   * Exact: accepts every number below 2^64 and nothing else, although it computes modulo 2^64. A number may
   * be written in decimal, or in hexadecimal after `0x` or `0X`; the prefix alone is no number.
   */
  method ParseAsUint64(s: string) returns (result: Result<nat>)
    ensures result == ParseUint(s, UINT64_MAX)
    ensures forall n: nat :: s == Text(n, Decimal) || s == "0x" + Text(n, Hex) || s == "0X" + Text(n, Hex) ==>
        result == if n < 0x1_0000_0000_0000_0000 then Ok(n) else Err(InvalidArgs)
    ensures s == "0x" || s == "0X" ==> result == Err(InvalidArgs)
  {
    hide Value, Text, Digit;
    WrittenNumbers(s);
    NothingRead(s);
    var cur, value: nat, radix := 0, 0, Decimal;
    if |s| >= 2 && s[0] == '0' && (s[1] == 'x' || s[1] == 'X') {
      cur, radix := 2, Hex;
    }
    ghost var start := cur;
    assert DigitsOf(s) == s[start..] && RadixOf(s) == radix;
    if cur == |s| {
      return Err(InvalidArgs);
    }
    while cur < |s|
      invariant Reads(s, start, cur, radix, value) && value <= UINT64_MAX
    {
      var digit := Digit(s[cur], radix);
      if digit.None? || value > radix.Max64() {
        Overflows(s, start, cur, radix, value, UINT64_MAX);
        return Err(InvalidArgs);
      }
      var shifted := radix.Times(value);
      var newValue := Wrap64(shifted + digit.value);
      if newValue < shifted {
        Overflows(s, start, cur, radix, value, UINT64_MAX);
        return Err(InvalidArgs);
      }
      ReadsOne(s, start, cur, radix, value);
      value := newValue;
      cur := cur + 1;
    }
    assert s[start..cur] == s[start..];
    result := Ok(value);
  }

  lemma NothingRead(s: string)
    ensures Reads(s, 0, 0, Decimal, 0) && (|s| >= 2 ==> Reads(s, 2, 2, Hex, 0))
  {
    assert s[0..0] == "";
  }

  /** The value of an unsigned 64-bit sum; a sum that wraps comes out smaller than its first term. */
  function Wrap64(x: nat): (w: nat)
    ensures x <= UINT64_MAX ==> w == x
    ensures UINT64_MAX < x <= 2 * UINT64_MAX + 1 ==> w == x - UINT64_MAX - 1
  {
    x % (UINT64_MAX + 1)
  }

  // ---------- Numbers inside a longer text ----------

  /** The end of the run of digits that starts at `pos`. */
  function RunEnd(s: string, pos: nat, radix: Radix): (end: nat)
    requires pos <= |s|
    ensures pos <= end <= |s|
    decreases |s| - pos
  {
    if pos == |s| || Digit(s[pos], radix).None? then pos else RunEnd(s, pos + 1, radix)
  }

  datatype Scanned = Scanned(end: nat, value: nat)

  /** The number at `pos`: the whole run of digits there, which must not be empty or denote more than `max`. */
  function NumberAt(s: string, pos: nat, radix: Radix, max: nat): (n: Option<Scanned>)
    requires pos <= |s|
    ensures n.Some? ==> pos < n.value.end <= |s| && n.value.value <= max
  {
    var end := RunEnd(s, pos, radix);
    var value := Value(s[pos..end], radix);
    if pos < end && value.Some? && value.value <= max then Some(Scanned(end, value.value)) else None
  }

  /** The run of digits ends at the first character that is no digit. */
  lemma {:induction false} RunEndIs(s: string, pos: nat, end: nat, radix: Radix)
    requires pos <= end <= |s|
    requires forall k :: pos <= k < end ==> Digit(s[k], radix).Some?
    ensures RunEnd(s, pos, radix) >= end
    ensures end == |s| || Digit(s[end], radix).None? ==> RunEnd(s, pos, radix) == end
    decreases end - pos
  {
    if pos < end {
      RunEndIs(s, pos + 1, end, radix);
    }
  }

  lemma RunExceeds(s: string, pos: nat, end: nat, radix: Radix, value: nat)
    requires Reads(s, pos, end, radix, value)
    requires forall k :: pos <= k < end ==> Digit(s[k], radix).Some?
    ensures var v := Value(s[pos..RunEnd(s, pos, radix)], radix);
            v.None? || v.value >= value
  {
    var n := RunEnd(s, pos, radix);
    RunEndIs(s, pos, end, radix);
    if Value(s[pos..n], radix).Some? {
      ReadsMore(s, pos, end, n, radix);
    }
  }

  /** The loops that read one number: they stop at the first character that is no digit, and fail above `max`. */
  method ScanNumber(s: string, pos: nat, radix: Radix, max: nat) returns (n: Option<Scanned>)
    requires pos <= |s|
    ensures n == NumberAt(s, pos, radix, max)
  {
    var end, value: nat := pos, 0;
    while end < |s| && Digit(s[end], radix).Some?
      invariant Reads(s, pos, end, radix, value) && value <= max
      invariant forall k :: pos <= k < end ==> Digit(s[k], radix).Some?
    {
      ReadsOne(s, pos, end, radix, value);
      value := radix.Times(value) + Digit(s[end], radix).value;
      end := end + 1;
      if value > max {
        RunExceeds(s, pos, end, radix, value);
        return None;
      }
    }
    RunEndIs(s, pos, end, radix);
    n := if end == pos then None else Some(Scanned(end, value));
  }

  // ---------- Printing ----------

  function DigitChar(d: nat): (c: char)
    requires d < 16
    ensures Digit(c, Hex) == Some(d)
    ensures d < 10 ==> Digit(c, Decimal) == Some(d)
    ensures c != ':' && c != '.' && c != '*'
    ensures '0' <= c <= '9' || 'a' <= c <= 'f'
  {
    if d < 10 then ('0' as int + d) as char else ('a' as int + d - 10) as char
  }

  /** The formats `%u` and `%x`. */
  function Text(n: nat, radix: Radix): (s: string)
    ensures s != ""
  {
    if n < radix.Base() then [DigitChar(n)]
    else Text(radix.Div(n), radix) + [DigitChar(radix.Mod(n))]
  }

  /** Printed numbers read back. */
  lemma {:induction false} ValueOfText(n: nat, radix: Radix)
    ensures Value(Text(n, radix), radix) == Some(n)
  {
    if n < radix.Base() {
      ValueSnoc("", DigitChar(n), radix);
      assert "" + [DigitChar(n)] == [DigitChar(n)];
    } else {
      ValueOfText(radix.Div(n), radix);
      ValueSnoc(Text(radix.Div(n), radix), DigitChar(radix.Mod(n)), radix);
    }
  }

  lemma {:induction false} TextDigits(n: nat, radix: Radix, k: nat)
    requires k < |Text(n, radix)|
    ensures Digit(Text(n, radix)[k], radix).Some?
    ensures '0' <= Text(n, radix)[k] <= '9' || 'a' <= Text(n, radix)[k] <= 'f'
  {
    if n >= radix.Base() && k < |Text(n, radix)| - 1 {
      TextDigits(radix.Div(n), radix, k);
    }
  }

  /** A number below the base to the power `k` prints in at most `k` digits. */
  lemma {:induction false} TextLength(n: nat, radix: Radix, k: nat)
    requires n < Power(radix, k) && k > 0
    ensures |Text(n, radix)| <= k
  {
    if n >= radix.Base() {
      TextLength(radix.Div(n), radix, k - 1);
    }
  }

  function Power(radix: Radix, k: nat): nat {
    if k == 0 then 1 else radix.Times(Power(radix, k - 1))
  }

  lemma NumberOfText(n: nat)
    ensures Number(Text(n, Decimal)) == Some(n)
  {
    ValueOfText(n, Decimal);
    var s := Text(n, Decimal);
    if |s| >= 2 {
      TextDigits(n, Decimal, 1);
    }
  }

  /** Hexadecimal digits after `0x` or `0X` read back. */
  lemma PrefixedNumberOfText(n: nat)
    ensures Number("0x" + Text(n, Hex)) == Some(n) == Number("0X" + Text(n, Hex))
  {
    hide Value, Text;
    var digits := Text(n, Hex);
    ValueOfText(n, Hex);
    assert ("0x" + digits)[2..] == digits == ("0X" + digits)[2..];
  }

  lemma WrittenNumbers(s: string)
    ensures forall n: nat :: s == Text(n, Decimal) || s == "0x" + Text(n, Hex) || s == "0X" + Text(n, Hex) ==>
        Number(s) == Some(n)
    ensures s == "0x" || s == "0X" ==> Number(s).None?
  {
    hide Value, Text;
    forall n: nat | s == Text(n, Decimal) || s == "0x" + Text(n, Hex) || s == "0X" + Text(n, Hex)
      ensures Number(s) == Some(n)
    {
      NumberOfText(n);
      PrefixedNumberOfText(n);
    }
  }
}
