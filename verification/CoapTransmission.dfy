/** CoAP transmission parameters: their validation and the retransmissions they allow (section 4.2 of RFC 7252). */
module CoapTransmission {
  import opened Base
  import opened Arithmetic

  const MIN_ACK_TIMEOUT: nat := 1000
  const MAX_RETRANSMIT: nat := 20
  const MAX_LATENCY: nat := 100_000

  datatype TxParameters = TxParameters(
    ackTimeout: Uint32,
    randomNumerator: Byte,
    randomDenominator: Byte,
    maxRetransmit: Byte)

  function Pow2(n: nat): (p: nat)
    ensures p > 0
  {
    if n == 0 then 1 else 2 * Pow2(n - 1)
  }

  lemma {:induction false} Pow2Bound(n: nat, m: nat)
    requires n <= m
    ensures Pow2(n) <= Pow2(m)
    decreases m - n
  {
    if n < m {
      Pow2Bound(n + 1, m);
    }
  }

  /** The number of initial timeouts that pass in `n` doublings: 1 + 2 + ... + 2^(n-1). */
  function Steps(n: nat): (k: nat)
  {
    Pow2(n) - 1
  }

  // ---------- As computed, in 32 bits ----------

  /** The product, or 0 if it does not fit in 32 bits. */
  function Multiply(a: Uint32, b: Uint32): (r: Uint32)
    ensures r == if a * b < UINT32_MODULUS then a * b else 0
  {
    if a == 0 then 0
    else
      var r := Wrap32(a * b);
      MultiplyExact(a, b);
      if r / a == b then r else 0
  }

  /** Dividing back detects every overflow. */
  lemma MultiplyExact(a: Uint32, b: Uint32)
    requires a > 0
    ensures Wrap32(a * b) / a == b <==> a * b < UINT32_MODULUS
  {
    var r := Wrap32(a * b);
    DivideBack(a, b);
    assert (r / a) * a <= r;
    assert a * b >= UINT32_MODULUS ==> r < b * a;
  }

  function Quotient(a: Uint32, d: Byte): (q: Uint32)
    requires d > 0
    ensures q == a / d
  {
    DivideAtMost(a, d);
    a / d
  }

  predicate IsValid(p: TxParameters) {
    && p.randomDenominator > 0
    && p.randomNumerator >= p.randomDenominator
    && p.ackTimeout >= MIN_ACK_TIMEOUT
    && p.maxRetransmit <= MAX_RETRANSMIT
    && (var longest := Longest32(p);
        longest != 0 && Wrap32(Wrap32(longest + p.ackTimeout) + 2 * MAX_LATENCY) > longest)
  }

  /** The time to all retransmissions as validation computes it, 0 for an overflow. */
  function Longest32(p: TxParameters): Uint32
    requires p.randomDenominator > 0
  {
    var all := Multiply(p.ackTimeout, Wrap32(Steps(p.maxRetransmit + 1)));
    Quotient(Multiply(all, p.randomNumerator), p.randomDenominator)
  }

  /** `CalculateSpan`, with every intermediate result cut to 32 bits. */
  function Span32(p: TxParameters, n: nat): Uint32
    requires p.randomDenominator > 0
  {
    Wrap32(Quotient(Wrap32(p.ackTimeout * Wrap32(Steps(n))), p.randomDenominator) * p.randomNumerator)
  }

  /** `CalculateMaxTransmitWait`. */
  function MaxTransmitWait(p: TxParameters): Uint32
    requires p.randomDenominator > 0
  {
    Span32(p, p.maxRetransmit + 1)
  }

  /** `CalculateExchangeLifetime`. */
  function ExchangeLifetime32(p: TxParameters): Uint32
    requires p.randomDenominator > 0
  {
    Wrap32(Wrap32(Span32(p, p.maxRetransmit) + 2 * MAX_LATENCY) + p.ackTimeout)
  }

  // ---------- As documented, without bounds ----------

  /** The longest time to all retransmissions, which the parameters must keep within 32 bits. */
  function Longest(p: TxParameters): nat
    requires p.randomDenominator > 0
  {
    Scaled(p.ackTimeout, Steps(p.maxRetransmit + 1), p.randomNumerator, p.randomDenominator)
  }

  function Scaled(a: nat, m: nat, n: nat, d: nat): (q: nat)
    requires d > 0
    ensures q == a * m * n / d
  {
    MulMonotone(0, m, a);
    assert m * a == a * m;
    MulMonotone(0, n, a * m);
    assert n * (a * m) == a * m * n;
    DivideAtMost(a * m * n, d);
    a * m * n / d
  }

  function Span(p: TxParameters, n: nat): int
    requires p.randomDenominator > 0
  {
    p.ackTimeout * Steps(n) / p.randomDenominator * p.randomNumerator
  }

  function ExchangeLifetime(p: TxParameters): int
    requires p.randomDenominator > 0
  {
    Span(p, p.maxRetransmit) + 2 * MAX_LATENCY + p.ackTimeout
  }

  // ---------- What validation guarantees ----------

  /** Parameters whose overflowing sum wraps all the way past its first term. */
  predicate WrapsAround(p: TxParameters) {
    && p.maxRetransmit == 0 && p.randomNumerator == 1 && p.randomDenominator == 1
    && UINT32_MODULUS - 2 * MAX_LATENCY < p.ackTimeout < UINT32_MODULUS - MAX_LATENCY
  }

  lemma StepsBounds(n: nat)
    requires n <= MAX_RETRANSMIT + 1
    ensures Steps(n) < 0x20_0000
    ensures n >= 1 ==> Steps(n) >= 1
    ensures n >= 2 ==> Steps(n) >= 3
  {
    assert Pow2(1) == 2 && Pow2(2) == 4 && Pow2(7) == 128 && Pow2(14) == 16384 && Pow2(21) == 0x20_0000;
    Pow2Bound(n, 21);
    if n >= 1 {
      Pow2Bound(1, n);
    }
    if n >= 2 {
      Pow2Bound(2, n);
    }
  }

  /** Everything the first four tests and the two products establish. */
  predicate Fits(p: TxParameters) {
    && 0 < p.randomDenominator <= p.randomNumerator
    && p.ackTimeout >= MIN_ACK_TIMEOUT
    && p.maxRetransmit <= MAX_RETRANSMIT
    && p.ackTimeout * Steps(p.maxRetransmit + 1) * p.randomNumerator < UINT32_MODULUS
  }

  /** The longest wait is at least the acknowledgement timeout, whose multiple it is. */
  lemma LongestBounds(p: TxParameters)
    requires Fits(p)
    ensures p.ackTimeout <= p.ackTimeout * Steps(p.maxRetransmit + 1) <= Longest(p) < UINT32_MODULUS
  {
    var a, m, n, d := p.ackTimeout, Steps(p.maxRetransmit + 1), p.randomNumerator, p.randomDenominator;
    StepsBounds(p.maxRetransmit + 1);
    MulMonotone(1, m, a);
    assert m * a == a * m;
    MulMonotone(d, n, a * m);
    assert d * (a * m) == (a * m) * d && n * (a * m) == a * m * n;
    DivideMonotone(d * (a * m), a * m * n, d);
    DivideBack(d, a * m);
    DivideAtMost(a * m * n, d);
  }

  lemma SumComparison(longest: Uint32, a: Uint32)
    ensures Wrap32(Wrap32(longest + a) + 2 * MAX_LATENCY) > longest <==>
            || longest + a + 2 * MAX_LATENCY < UINT32_MODULUS
            || (a + 2 * MAX_LATENCY > UINT32_MODULUS && longest + a + 2 * MAX_LATENCY < 2 * UINT32_MODULUS)
  {
  }

  lemma ProductsDetectOverflow(p: TxParameters)
    requires 0 < p.randomDenominator <= p.randomNumerator && p.maxRetransmit <= MAX_RETRANSMIT
    ensures var m := Steps(p.maxRetransmit + 1);
            Multiply(Multiply(p.ackTimeout, Wrap32(m)), p.randomNumerator) ==
            if p.ackTimeout * m * p.randomNumerator < UINT32_MODULUS then p.ackTimeout * m * p.randomNumerator else 0
  {
    var m := Steps(p.maxRetransmit + 1);
    StepsBounds(p.maxRetransmit + 1);
    hide Steps;
    MulMonotone(1, p.randomNumerator, p.ackTimeout * m);
  }

  lemma OverflowGivesZero(p: TxParameters)
    requires 0 < p.randomDenominator <= p.randomNumerator && p.maxRetransmit <= MAX_RETRANSMIT
    ensures Longest32(p) ==
            if p.ackTimeout * Steps(p.maxRetransmit + 1) * p.randomNumerator < UINT32_MODULUS then Longest(p) else 0
  {
    ProductsDetectOverflow(p);
    hide Steps, Multiply;
  }

  /** A timeout so large leaves no room for retransmissions or a random factor. */
  lemma HugeTimeout(p: TxParameters)
    requires Fits(p) && 2 * p.ackTimeout >= UINT32_MODULUS
    ensures p.maxRetransmit == 0 && p.randomNumerator == 1 && p.randomDenominator == 1
    ensures Longest(p) == p.ackTimeout
  {
    StepsBounds(p.maxRetransmit + 1);
    hide Steps;
    FactorsAreOne(p.ackTimeout, Steps(p.maxRetransmit + 1), p.randomNumerator, UINT32_MODULUS);
  }

  lemma FactorsAreOne(a: nat, m: nat, n: nat, limit: nat)
    requires m >= 1 && n >= 1 && a * m * n < limit <= 2 * a
    ensures m == 1 && n == 1
  {
    if m >= 2 || n >= 2 {
      TwiceAtLeast(a, m, n);
    }
  }

  lemma TwiceAtLeast(a: nat, m: nat, n: nat)
    requires m >= 1 && n >= 1 && (m >= 2 || n >= 2)
    ensures a * m * n >= 2 * a
  {
    if m >= 2 {
      MulMonotone(2, m, a);
      MulMonotone(1, n, a * m);
      assert m * a == a * m && n * (a * m) == a * m * n;
    } else {
      MulMonotone(2, n, a);
      assert a * m == a && n * a == a * n;
    }
  }

  /** Exactly which parameters pass validation. */
  lemma IsValidIff(p: TxParameters)
    ensures IsValid(p) <==>
            Fits(p) && (Longest(p) + p.ackTimeout + 2 * MAX_LATENCY < UINT32_MODULUS || WrapsAround(p))
  {
    hide Steps, Pow2, Longest, Longest32;
    if 0 < p.randomDenominator <= p.randomNumerator && p.maxRetransmit <= MAX_RETRANSMIT {
      OverflowGivesZero(p);
      if Fits(p) {
        LongestBounds(p);
        SumComparison(Longest(p), p.ackTimeout);
        if 2 * p.ackTimeout >= UINT32_MODULUS {
          HugeTimeout(p);
        }
      }
    }
  }

  /** Spans are computed exactly for valid parameters. */
  lemma SpanExact(p: TxParameters, n: nat)
    requires Fits(p) && n <= p.maxRetransmit + 1
    ensures Span32(p, n) == Span(p, n) && 0 <= Span(p, n) <= Longest(p)
  {
    StepsBounds(n);
    ProductBound(p, n);
    LongestBounds(p);
    SpanBound(p, n);
    hide Steps, Fits, Longest, Span32, Span;
    SpanWithoutWrap(p, n);
  }

  lemma SpanWithoutWrap(p: TxParameters, n: nat)
    requires p.randomDenominator > 0 && 0 <= Steps(n) < UINT32_MODULUS
    requires 0 <= p.ackTimeout * Steps(n) < UINT32_MODULUS && 0 <= Span(p, n) < UINT32_MODULUS
    ensures Span32(p, n) == Span(p, n)
  {
    hide Steps, Wrap32;
    assert Wrap32(Steps(n)) == Steps(n);
    assert Wrap32(p.ackTimeout * Steps(n)) == p.ackTimeout * Steps(n);
  }

  lemma ProductBound(p: TxParameters, n: nat)
    requires n <= p.maxRetransmit + 1
    ensures 0 <= p.ackTimeout * Steps(n) <= p.ackTimeout * Steps(p.maxRetransmit + 1)
  {
    Pow2Bound(n, p.maxRetransmit + 1);
    hide Pow2;
    MulMonotone(Steps(n), Steps(p.maxRetransmit + 1), p.ackTimeout);
  }

  lemma SpanBound(p: TxParameters, n: nat)
    requires p.randomDenominator > 0 && n <= p.maxRetransmit + 1
    ensures 0 <= Span(p, n) <= Longest(p)
  {
    ProductBound(p, n);
    hide Steps;
    QuotientTimes(p.ackTimeout * Steps(n), p.ackTimeout * Steps(p.maxRetransmit + 1), p.randomNumerator,
                  p.randomDenominator);
  }

  lemma QuotientTimes(x: nat, y: nat, n: nat, d: nat)
    requires x <= y && d > 0
    ensures 0 <= x / d && 0 <= x / d * n <= y * n / d
  {
    DivideAtMost(x, d);
    DivideFirst(x, n, d);
    MulMonotone(x, y, n);
    DivideMonotone(x * n, y * n, d);
    MulMonotone(0, x / d, n);
  }

  /**
   * The documentation asks that the exchange lifetime fit in 32 bits. For parameters that pass
   * validation this holds exactly when the acknowledgement timeout leaves room for the latency.
   */
  lemma LifetimeFitsIff(p: TxParameters)
    requires IsValid(p)
    ensures ExchangeLifetime(p) < UINT32_MODULUS <==> p.ackTimeout + 2 * MAX_LATENCY < UINT32_MODULUS
    ensures ExchangeLifetime(p) == ExchangeLifetime32(p) <==> ExchangeLifetime(p) < UINT32_MODULUS
  {
    IsValidIff(p);
    SpanExact(p, p.maxRetransmit);
    LongestBounds(p);
  }

  /** Parameters that pass validation although their exchange lifetime overflows. */
  lemma LifetimeOverflowAccepted()
    ensures var p := TxParameters(4_294_800_000, 1, 1, 0);
            IsValid(p) && ExchangeLifetime(p) >= UINT32_MODULUS && ExchangeLifetime32(p) == 32_704
  {
    var p := TxParameters(4_294_800_000, 1, 1, 0);
    WrappingParameters(p);
    hide IsValid, Fits, WrapsAround, Span, Span32, Longest;
    IsValidIff(p);
    SpanExact(p, 0);
  }

  lemma WrappingParameters(p: TxParameters)
    requires p == TxParameters(4_294_800_000, 1, 1, 0)
    ensures Fits(p) && WrapsAround(p) && Span(p, 0) == 0
  {
    assert Steps(1) == 1 && Steps(0) == 0;
  }

  /** What the documentation demands of the parameters, apart from the least timeout. */
  predicate Documented(p: TxParameters) {
    && 0 < p.randomDenominator <= p.randomNumerator && p.maxRetransmit <= MAX_RETRANSMIT
    && Longest(p) < UINT32_MODULUS && ExchangeLifetime(p) < UINT32_MODULUS
  }

  /**
   * The other direction: documented parameters are accepted exactly when also the product before the
   * division and the sum that validation forms fit in 32 bits.
   */
  lemma DocumentedAcceptedIff(p: TxParameters)
    requires Documented(p)
    ensures IsValid(p) <==>
            && p.ackTimeout >= MIN_ACK_TIMEOUT
            && p.ackTimeout * Steps(p.maxRetransmit + 1) * p.randomNumerator < UINT32_MODULUS
            && Longest(p) + p.ackTimeout + 2 * MAX_LATENCY < UINT32_MODULUS
  {
    IsValidIff(p);
    hide IsValid, Longest;
  }

  /** Parameters that meet every documented condition and are rejected. */
  lemma DocumentedRejected()
    ensures var p := TxParameters(80_000, 3, 2, 14); Documented(p) && !IsValid(p)
  {
    var p := TxParameters(80_000, 3, 2, 14);
    assert Pow2(7) == 128 && Pow2(14) == 16_384 && Pow2(15) == 32_768;
    assert Longest(p) == 3_932_040_000 && Span(p, 14) == 1_965_960_000;
    DocumentedAcceptedIff(p);
  }

  // ---------- Retransmissions ----------

  /** A confirmable request that waits: `shot` is when its timer fires next, counted from the first transmission. */
  datatype Exchange = Exchange(remaining: nat, timeout: Uint32, shot: nat)

  function Start(p: TxParameters, initial: Uint32): Exchange {
    Exchange(p.maxRetransmit, initial, initial)
  }

  /** The timer fires while retransmissions remain: the timeout doubles, in 32 bits. */
  function Retransmit(x: Exchange): Exchange
    requires x.remaining > 0
  {
    var timeout := Wrap32(2 * x.timeout);
    Exchange(x.remaining - 1, timeout, x.shot + timeout)
  }

  function After(x: Exchange, k: nat): (y: Exchange)
    requires k <= x.remaining
    ensures y.remaining == x.remaining - k
  {
    if k == 0 then x else Retransmit(After(x, k - 1))
  }

  /** When the request is given up without a response. */
  function GiveUpTime(x: Exchange): nat {
    After(x, x.remaining).shot
  }

  /** The largest initial timeout, as computed in 32 bits. */
  function LargestInitial(p: TxParameters): Uint32
    requires p.randomDenominator > 0
  {
    Quotient(Wrap32(p.ackTimeout * p.randomNumerator), p.randomDenominator)
  }

  predicate IsInitial(p: TxParameters, t: Uint32)
    requires p.randomDenominator > 0
  {
    p.ackTimeout <= t <= LargestInitial(p)
  }

  lemma InitialBound(p: TxParameters)
    requires Fits(p)
    ensures LargestInitial(p) == p.ackTimeout * p.randomNumerator / p.randomDenominator
    ensures p.ackTimeout <= LargestInitial(p)
    ensures LargestInitial(p) * Steps(p.maxRetransmit + 1) <= Longest(p)
  {
    StepsBounds(p.maxRetransmit + 1);
    ScaledTimeout(p.ackTimeout, Steps(p.maxRetransmit + 1), p.randomNumerator, p.randomDenominator);
  }

  lemma ScaledTimeout(a: nat, m: nat, n: nat, d: nat)
    requires m >= 1 && 0 < d <= n
    ensures 0 <= a * n <= a * m * n
    ensures a <= a * n / d
    ensures (a * n / d) * m <= a * m * n / d
  {
    var x := a * n;
    assert a * m * n == x * m;
    MulMonotone(1, m, x);
    assert m * x == x * m;
    DivideFirst(x, m, d);
    MulMonotone(d, n, a);
    assert n * a == x;
    DivideMonotone(d * a, x, d);
    DivideBack(d, a);
  }

  /** The documented constraint, and an initial timeout of at most the least one times the random factor. */
  predicate Within(p: TxParameters, t: Uint32) {
    && p.randomDenominator > 0 && Longest(p) < UINT32_MODULUS
    && t * p.randomDenominator <= p.ackTimeout * p.randomNumerator
  }

  /** The run of an exchange: no doubling ever leaves 32 bits, and the waits add up. */
  lemma {:induction false} RunOfExchange(p: TxParameters, t: Uint32, k: nat)
    requires Within(p, t) && k <= p.maxRetransmit
    ensures var x := After(Start(p, t), k);
            x.remaining == p.maxRetransmit - k && x.timeout == t * Pow2(k) && x.shot == t * Steps(k + 1)
    ensures t * Steps(k + 1) <= Longest(p)
  {
    hide Longest;
    StepsWithin(p, t, k);
    if k > 0 {
      RunOfExchange(p, t, k - 1);
      OneDoubling(t, k);
    } else {
      assert Pow2(1) == 2 * Pow2(0) == 2;
      assert t * Pow2(0) == t && t * Steps(1) == t;
    }
  }

  lemma OneDoubling(t: nat, k: nat)
    requires k > 0
    ensures t * Pow2(k) == 2 * (t * Pow2(k - 1))
    ensures t * Steps(k + 1) == t * Steps(k) + t * Pow2(k)
  {
    var q := Pow2(k - 1);
    assert Pow2(k) == 2 * q && Pow2(k + 1) == 4 * q;
    Distribute(t, q);
  }

  lemma Distribute(t: nat, q: nat)
    ensures t * (2 * q) == 2 * (t * q)
    ensures t * (4 * q - 1) == t * (2 * q - 1) + t * (2 * q)
  {
  }

  lemma StepsWithin(p: TxParameters, t: Uint32, k: nat)
    requires Within(p, t) && k <= p.maxRetransmit
    ensures t * Pow2(k) <= t * Steps(k + 1) <= Longest(p)
  {
    var m := Steps(p.maxRetransmit + 1);
    TimesWithin(t, p.ackTimeout, m, p.randomNumerator, p.randomDenominator);
    Pow2Bound(k + 1, p.maxRetransmit + 1);
    assert Pow2(k + 1) == 2 * Pow2(k);
    hide Pow2, Longest;
    MulMonotone(Steps(k + 1), m, t);
    MulMonotone(Pow2(k), Steps(k + 1), t);
    assert Pow2(k) * t == t * Pow2(k) && Steps(k + 1) * t == t * Steps(k + 1) && m * t == t * m;
  }

  lemma TimesWithin(t: nat, a: nat, m: nat, n: nat, d: nat)
    requires d > 0 && t * d <= a * n
    ensures t * m <= a * m * n / d
  {
    MulMonotone(t * d, a * n, m);
    Regroup(t, d, m);
    Regroup(a, n, m);
    DivideMonotone(d * (t * m), a * m * n, d);
    DivideBack(d, t * m);
  }

  lemma Regroup(x: nat, y: nat, z: nat)
    ensures x * y * z == y * (x * z) == x * z * y
  {
    assert x * y * z == x * (y * z);
    assert x * z * y == x * (z * y);
  }

  /** Every request of documented parameters is given up within 32 bits of milliseconds. */
  lemma TotalWait(p: TxParameters, t: Uint32)
    requires Within(p, t)
    ensures GiveUpTime(Start(p, t)) == t * Steps(p.maxRetransmit + 1) <= Longest(p) < UINT32_MODULUS
  {
    RunOfExchange(p, t, p.maxRetransmit);
  }

  /** In particular every request that is sent with validated parameters. */
  lemma ValidExchange(p: TxParameters, t: Uint32, k: nat)
    requires IsValid(p) && IsInitial(p, t) && k <= p.maxRetransmit
    ensures After(Start(p, t), k).timeout == t * Pow2(k) && After(Start(p, t), k).shot == t * Steps(k + 1)
  {
    ValidWithin(p, t);
    hide IsValid, IsInitial, Within, Pow2, Steps;
    RunOfExchange(p, t, k);
  }

  lemma ValidWithin(p: TxParameters, t: Uint32)
    requires IsValid(p) && IsInitial(p, t)
    ensures Within(p, t)
  {
    IsValidIff(p);
    hide IsValid, Fits;
    FitsWithin(p, t);
  }

  lemma FitsWithin(p: TxParameters, t: Uint32)
    requires Fits(p) && IsInitial(p, t)
    ensures Within(p, t)
  {
    hide Longest, LargestInitial, Steps;
    LongestBounds(p);
    InitialBound(p);
    hide Fits;
    QuotientBack(t, p.ackTimeout * p.randomNumerator, p.randomDenominator);
  }

  lemma QuotientBack(t: nat, x: nat, d: nat)
    requires d > 0 && t <= x / d
    ensures t * d <= x
  {
    MulMonotone(t, x / d, d);
  }

  /**
   * `CalculateMaxTransmitWait` divides before it multiplies. It bounds the wait of every request
   * exactly when the rounding of the two quotients goes the right way.
   */
  lemma MaxTransmitWaitBoundsIff(p: TxParameters)
    requires IsValid(p)
    ensures var m, n, d := Steps(p.maxRetransmit + 1), p.randomNumerator, p.randomDenominator;
            (forall t: Uint32 :: IsInitial(p, t) ==> GiveUpTime(Start(p, t)) <= MaxTransmitWait(p))
            <==> p.ackTimeout * m % d * n <= p.ackTimeout * n % d * m
  {
    var m, largest: nat := Steps(p.maxRetransmit + 1), LargestInitial(p);
    LargestWaitIff(p);
    hide IsValid, Steps, MaxTransmitWait, LargestInitial;
    ValidExchange(p, largest, p.maxRetransmit);
    assert GiveUpTime(Start(p, largest)) == largest * m;
    if largest * m <= MaxTransmitWait(p) {
      forall t: Uint32 | IsInitial(p, t) ensures GiveUpTime(Start(p, t)) <= MaxTransmitWait(p) {
        ValidExchange(p, t, p.maxRetransmit);
        MulMonotone(t, largest, m);
      }
    }
  }

  lemma LargestWaitIff(p: TxParameters)
    requires IsValid(p)
    ensures var m, n, d := Steps(p.maxRetransmit + 1), p.randomNumerator, p.randomDenominator;
            LargestInitial(p) * m <= MaxTransmitWait(p) <==> p.ackTimeout * m % d * n <= p.ackTimeout * n % d * m
    ensures p.ackTimeout <= LargestInitial(p)
  {
    IsValidIff(p);
    SpanExact(p, p.maxRetransmit + 1);
    InitialBound(p);
    hide IsValid, Steps, Fits, LargestInitial, Longest, Span32;
    RoundingComparison(p.ackTimeout, Steps(p.maxRetransmit + 1), p.randomNumerator, p.randomDenominator);
  }

  lemma RoundingComparison(a: nat, m: nat, n: nat, d: nat)
    requires d > 0
    ensures (a * n / d) * m <= (a * m / d) * n <==> a * m % d * n <= a * n % d * m
  {
    var x, y := a * n, a * m;
    ScaledQuotient(x, m, d);
    ScaledQuotient(y, n, d);
    assert x * m == y * n;
    var p, q := x / d * m, y / d * n;
    if p <= q {
      MulMonotone(p, q, d);
    } else {
      MulMonotone(q + 1, p, d);
      assert (q + 1) * d == q * d + d;
    }
  }

  lemma ScaledQuotient(x: nat, m: nat, d: nat)
    requires d > 0
    ensures (x / d * m) * d == x * m - x % d * m
  {
    var q, r := x / d, x % d;
    assert x == q * d + r;
    assert (q * m) * d == (q * d) * m;
    assert (q * d) * m == (x - r) * m == x * m - r * m;
  }

  /** With an odd timeout and a factor of 3/2 the bound fails. */
  lemma MaxTransmitWaitTooShort()
    ensures var p := TxParameters(1001, 3, 2, 0);
            IsValid(p) && IsInitial(p, 1501) && GiveUpTime(Start(p, 1501)) == 1501 && MaxTransmitWait(p) == 1500
  {
    var p := TxParameters(1001, 3, 2, 0);
    assert Steps(1) == 1;
    assert Fits(p) && Longest(p) == 1501;
    IsValidIff(p);
    SpanExact(p, 1);
    InitialBound(p);
  }

  const MAX_DELAY: nat := 0x7fff_ffff

  /**
   * Timers take delays of at most 2^31 - 1. Validation does not ensure it; it holds for every timeout of
   * every exchange exactly when the largest initial timeout, doubled for the last time, is within it.
   */
  lemma TimerDelaysFitIff(p: TxParameters)
    requires IsValid(p)
    ensures (forall t: Uint32, k: nat :: IsInitial(p, t) && k <= p.maxRetransmit ==>
               After(Start(p, t), k).timeout <= MAX_DELAY)
            <==> LargestInitial(p) * Pow2(p.maxRetransmit) <= MAX_DELAY
  {
    IsValidIff(p);
    InitialBound(p);
    var largest, r: nat := LargestInitial(p), p.maxRetransmit;
    hide IsValid, Steps, Fits;
    ValidExchange(p, largest, r);
    if largest * Pow2(r) <= MAX_DELAY {
      forall t: Uint32, k: nat | IsInitial(p, t) && k <= r ensures After(Start(p, t), k).timeout <= MAX_DELAY {
        ValidExchange(p, t, k);
        Pow2Bound(k, r);
        MulMonotone(Pow2(k), Pow2(r), t);
        MulMonotone(t, largest, Pow2(r));
        assert Pow2(k) * t == t * Pow2(k) && Pow2(r) * t == t * Pow2(r);
      }
    } else {
      assert After(Start(p, largest), r).timeout > MAX_DELAY;
    }
  }

  /** Valid parameters with an initial timeout that no timer takes. */
  lemma TimerDelayExceeded()
    ensures var p := TxParameters(10_000_000, 255, 1, 0);
            IsValid(p) && IsInitial(p, 2_550_000_000) && Start(p, 2_550_000_000).timeout > MAX_DELAY
  {
    var p := TxParameters(10_000_000, 255, 1, 0);
    assert Steps(1) == 1;
    assert Fits(p) && Longest(p) == 2_550_000_000;
    IsValidIff(p);
    InitialBound(p);
  }
}
