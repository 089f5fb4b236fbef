/** Ping statistics: how replies are summed up and what the summary line shows. */
module PingStatistics {
  import opened Base
  import opened Arithmetic

  /** The summary of the replies to a series of requests. */
  class Statistics {
    var sentCount: Uint16
    var receivedCount: Uint16
    var totalRoundTripTime: Uint32
    var minRoundTripTime: Uint16
    var maxRoundTripTime: Uint16

    /** The fields hold the summary of `times`; the count and the total are kept modulo their width. */
    ghost predicate Summarises(times: seq<Uint16>)
      reads this
    {
      && receivedCount == |times| % 0x1_0000
      && totalRoundTripTime == Wrap32(Sum(times))
      && (forall k :: 0 <= k < |times| ==> minRoundTripTime <= times[k] <= maxRoundTripTime)
      && (times == [] ==> minRoundTripTime == 0xffff && maxRoundTripTime == 0)
      && (times != [] ==> minRoundTripTime in times && maxRoundTripTime in times)
    }

    constructor ()
      ensures Summarises([]) && sentCount == 0
    {
      sentCount, receivedCount, totalRoundTripTime := 0, 0, 0;
      minRoundTripTime, maxRoundTripTime := 0xffff, 0;
    }

    /** One reply. */
    method HandleReply(time: Uint16, ghost times: seq<Uint16>)
      requires Summarises(times)
      modifies this
      ensures Summarises(times + [time]) && sentCount == old(sentCount)
    {
      SumSnoc(times, time);
      hide Sum;
      assert forall k :: 0 <= k < |times| ==> (times + [time])[k] == times[k];
      receivedCount := (receivedCount + 1) % 0x1_0000;
      totalRoundTripTime := Wrap32(totalRoundTripTime + time);
      maxRoundTripTime := if maxRoundTripTime < time then time else maxRoundTripTime;
      minRoundTripTime := if time < minRoundTripTime then time else minRoundTripTime;
    }
  }

  function Sum(times: seq<Uint16>): nat {
    if times == [] then 0 else Sum(times[..|times| - 1]) + times[|times| - 1]
  }

  lemma SumSnoc(times: seq<Uint16>, time: Uint16)
    ensures Sum(times + [time]) == Sum(times) + time
    ensures Wrap32(Wrap32(Sum(times)) + time) == Wrap32(Sum(times + [time]))
  {
    assert (times + [time])[..|times|] == times;
  }

  /** As long as the 16-bit count does not wrap, neither does the 32-bit total. */
  lemma {:induction false} SumBound(times: seq<Uint16>)
    ensures Sum(times) <= 0xffff * |times|
    ensures |times| <= 0xffff ==> Wrap32(Sum(times)) == Sum(times)
  {
    if times != [] {
      SumBound(times[..|times| - 1]);
    }
  }

  lemma {:induction false} SumBetween(times: seq<Uint16>, low: nat, high: nat)
    requires forall k :: 0 <= k < |times| ==> low <= times[k] <= high
    ensures low * |times| <= Sum(times) <= high * |times|
  {
    if times != [] {
      var init := times[..|times| - 1];
      SumBetween(init, low, high);
      assert low * |times| == low * |init| + low && high * |times| == high * |init| + high;
    }
  }

  /** The average in microseconds, as computed in 32 bits. */
  function Average32(total: Uint32, count: Uint16): int
    requires count > 0
  {
    Wrap32(1000 * total) / count
  }

  /** The printed average is the true one exactly when 1000 times the total fits in 32 bits. */
  lemma AverageExactIff(total: Uint32, count: Uint16)
    requires count > 0
    ensures Average32(total, count) == 1000 * total / count <==> 1000 * total < UINT32_MODULUS
  {
    if 1000 * total >= UINT32_MODULUS {
      var x := 1000 * total;
      var w := Wrap32(x);
      assert w <= x - UINT32_MODULUS <= x - count;
      DivideMonotone(w, -1 * count + x, count);
      DivideSum(-1, x, count);
    }
  }

  /** A total of 72 minutes of round-trip time is enough for a wrong average. */
  lemma AverageWraps()
    ensures Average32(4_294_968, 65_535) == 0 && 1000 * 4_294_968 / 65_535 == 65_537
  {
  }

  /** An exact average lies between the shortest and the longest time. */
  lemma AverageBetween(times: seq<Uint16>, low: Uint16, high: Uint16)
    requires times != [] && |times| <= 0xffff
    requires forall k :: 0 <= k < |times| ==> low <= times[k] <= high
    requires 1000 * Sum(times) < UINT32_MODULUS
    ensures 1000 * low <= Average32(Sum(times), |times|) <= 1000 * high
  {
    var n, sum := |times|, Sum(times);
    SumBetween(times, low, high);
    hide Sum;
    QuotientBetween(sum, n, low, high);
  }

  lemma QuotientBetween(sum: nat, n: nat, low: nat, high: nat)
    requires n > 0 && low * n <= sum <= high * n
    ensures 1000 * low <= 1000 * sum / n <= 1000 * high
  {
    Thousandfold(n, low);
    Thousandfold(n, high);
    DivideMonotone(n * (1000 * low), 1000 * sum, n);
    DivideMonotone(1000 * sum, n * (1000 * high), n);
    DivideBack(n, 1000 * low);
    DivideBack(n, 1000 * high);
  }

  lemma Thousandfold(n: nat, x: nat)
    ensures n * (1000 * x) == 1000 * (x * n)
  {
  }

  /**
   * The summary of any series of fewer than 2^16 replies: if 1000 times the total fits in 32 bits, the
   * average printed is the exact one and lies between the minimum and the maximum printed.
   */
  lemma SummaryIsConsistent(s: Statistics, times: seq<Uint16>)
    requires s.Summarises(times) && 0 < |times| < 0x1_0000 && 1000 * Sum(times) < UINT32_MODULUS
    ensures s.receivedCount == |times| && s.totalRoundTripTime == Sum(times)
    ensures var average := Average32(s.totalRoundTripTime, s.receivedCount);
            && average == 1000 * Sum(times) / |times|
            && 1000 * s.minRoundTripTime <= average <= 1000 * s.maxRoundTripTime
  {
    SumBound(times);
    AverageExactIff(Sum(times), |times|);
    AverageBetween(times, s.minRoundTripTime, s.maxRoundTripTime);
  }

  /** The C quotient truncates toward zero. */
  function Truncated(x: int, d: int): int
    requires d > 0
  {
    if x >= 0 then x / d else -(-x / d)
  }

  /** The loss in tenths of a percent: the difference of the counts is signed, the result unsigned. */
  function Loss32(sent: Uint16, received: Uint16): Uint32
    requires sent > 0
  {
    Wrap32(Truncated(1000 * (sent - received), sent))
  }

  /** Loss lies between 0 and 1000 exactly when replies do not outnumber requests by a thousandth or more. */
  lemma LossInRangeIff(sent: Uint16, received: Uint16)
    requires sent > 0
    ensures Loss32(sent, received) <= 1000 <==> 1000 * (received - sent) < sent
  {
    var x := 1000 * (sent - received);
    if x >= 0 {
      DivideMonotone(x, sent * 1000, sent);
      DivideBack(sent, 1000);
      DivideMonotone(0, x, sent);
      DivideBack(sent, 0);
    } else {
      var y := -x;
      var q := y / sent;
      assert y <= 1000 * 0xffff;
      DivideAtMost(y, sent);
      if y < sent {
        Divide(y, 0, sent);
      } else {
        DivideMonotone(sent * 1, y, sent);
        DivideBack(sent, 1);
      }
    }
  }

  /** One request that is answered twice "loses" 429496629.6 percent. */
  lemma DuplicateReplyLoss()
    ensures Loss32(1, 2) == 4_294_966_296
  {
    assert Truncated(-1000, 1) == -1000;
  }

  /** With no duplicate replies, loss falls as replies arrive and is total only without any. */
  lemma LossMonotone(sent: Uint16, fewer: Uint16, more: Uint16)
    requires 0 < sent && fewer <= more <= sent
    ensures Loss32(sent, more) <= Loss32(sent, fewer) <= 1000
    ensures Loss32(sent, fewer) == 1000 <==> fewer == 0
  {
    LossInRangeIff(sent, fewer);
    LossInRangeIff(sent, more);
    var x, y := 1000 * (sent - more), 1000 * (sent - fewer);
    DivideMonotone(x, y, sent);
    DivideMonotone(0, x, sent);
    DivideBack(sent, 0);
    DivideMonotone(y, sent * 1000, sent);
    DivideBack(sent, 1000);
    if fewer > 0 {
      assert (y / sent) * sent <= y;
    }
  }

  /** With no duplicate replies, the loss is the exact ratio rounded down to a tenth of a percent. */
  lemma LossExact(sent: Uint16, received: Uint16)
    requires 0 < sent && received <= sent
    ensures var loss := Loss32(sent, received); loss * sent <= 1000 * (sent - received) < (loss + 1) * sent
  {
    LossInRangeIff(sent, received);
    QuotientEncloses(1000 * (sent - received), sent);
    LossIsQuotient(sent, received);
  }

  lemma LossIsQuotient(sent: Uint16, received: Uint16)
    requires 0 < sent && received <= sent
    ensures Loss32(sent, received) == 1000 * (sent - received) / sent
  {
    var x := 1000 * (sent - received);
    DivideAtMost(x, sent);
    assert x <= 1000 * 0xffff;
  }

  lemma QuotientEncloses(x: nat, p: nat)
    requires p > 0
    ensures x / p * p <= x < (x / p + 1) * p
  {
  }
}
