/** ReconstructFullTimestamp of CanAbs.c: absolute arrival times from a capture counter that wraps. */
module Timestamp {
  import opened Wire

  const TWO_63 := 0x8000_0000_0000_0000
  const TWO_64 := 0x1_0000_0000_0000_0000

  /** Unsigned 64-bit wrap-around. */
  function U64(x: int): nat {
    if 0 <= x < TWO_64 then x else x % TWO_64
  }

  /** The conversion to a signed 64-bit integer. */
  function S64(x: nat): int
    requires x < TWO_64
  {
    if x < TWO_63 then x else x - TWO_64
  }

  /** The epoch the capture is put in: that of the service time, the one before or the one after. */
  function Epoch(period: nat, captured: nat, now: nat): int
    requires 0 < period && captured < TWO_64 && now < TWO_64
  {
    var diff := S64(captured) - S64(now % period);
    if diff > period / 2 then now / period - 1
    else if diff < -(period / 2) then now / period + 1
    else now / period
  }

  function Raw(period: nat, captured: nat, now: nat): nat
    requires 0 < period && captured < TWO_64 && now < TWO_64
  {
    U64(U64(Epoch(period, captured, now)) * period + captured)
  }

  /** The last value is taken into account only if there is one and it is at most two periods old. */
  predicate IsRecent(period: nat, now: nat, last: nat) {
    last != 0 && last <= now && now - last <= U64(2 * period)
  }

  function Corrected(period: nat, raw: nat, last: nat): nat
    requires 0 < period
  {
    if last > U64(raw + period / 2) then
      var delta := last - U64(raw + period / 2);
      U64(raw + U64(U64(delta + period - 1) / period * period))
    else raw
  }

  function Reconstructed(period: nat, captured: nat, now: nat, last: nat): nat
    requires captured < TWO_64 && now < TWO_64
  {
    if period == 0 then captured
    else if IsRecent(period, now, last) then Corrected(period, Raw(period, captured, now), last)
    else Raw(period, captured, now)
  }

  method ReconstructFullTimestamp(captured: nat, now: nat, last: nat, period: nat) returns (r: nat, last': nat)
    requires captured < TWO_64 && now < TWO_64
    ensures r == Reconstructed(period, captured, now, last) && (period == 0 ==> r == captured)
    ensures last' == if period == 0 then last else r
  {
    if period == 0 {
      return captured, last;
    }
    var current := now % period;
    var epoch := now / period;
    var diff := S64(captured) - S64(current);
    if diff > period / 2 {
      epoch := U64(epoch - 1);
    } else if diff < -(period / 2) {
      epoch := U64(epoch + 1);
    } else {
      epoch := U64(epoch);
    }
    r := U64(epoch * period + captured);
    if last != 0 && last <= now && now - last <= U64(2 * period) {
      if last > U64(r + period / 2) {
        var delta := last - U64(r + period / 2);
        r := U64(r + U64(U64(delta + period - 1) / period * period));
      }
    }
    last' := r;
  }

  /** What a counter of that period shows at a time. */
  function Capture(at: nat, period: nat): (c: nat)
    requires 0 < period
    ensures c < period
  {
    at % period
  }

  function Distance(a: nat, b: nat): nat {
    if a <= b then b - a else a - b
  }

  /** The counter's period fits a signed number. */
  predicate InRange(period: nat, now: nat) {
    0 < period <= TWO_63 && now < TWO_64
  }

  /** The time with that capture nearest to the service time; it may lie before the start of the clock or after its wrap. */
  function Nearest(period: nat, captured: nat, now: nat): int
    requires 0 < period && captured < TWO_64 && now < TWO_64
  {
    Epoch(period, captured, now) * period + captured
  }

  lemma DivMod(a: nat, b: nat)
    requires 0 < b
    ensures a == a / b * b + a % b
  {
  }

  lemma SameClass(k: int, j: int, period: nat)
    requires 0 < period && k * period < j * period + period && j * period < k * period + period
    ensures k == j
  {
    if k > j {
      assert (k - j) * period == k * period - j * period;
      MulGrows(k - j, period);
    } else if k < j {
      assert (j - k) * period == j * period - k * period;
      MulGrows(j - k, period);
    }
  }

  lemma MulGrows(n: nat, period: nat)
    requires 0 < period
    ensures n <= n * period && (0 < n ==> period <= n * period)
  {
  }

  lemma Doubles(n: nat, period: nat)
    requires 2 <= period
    ensures 2 * n <= n * period
  {
    assert n * period == 2 * n + n * (period - 2);
  }

  lemma FewEpochs(period: nat, now: nat)
    requires 2 <= period && now < TWO_64
    ensures now / period + 1 < TWO_64
  {
    DivMod(now, period);
    Doubles(now / period, period);
  }

  /** With a period of one tick there is nothing to put right. */
  lemma OneTick(captured: nat, now: nat)
    requires captured < 1 && now < TWO_64
    ensures Epoch(1, captured, now) == now
  {
  }

  lemma NextEpochs(period: nat, captured: nat, now: nat)
    requires 0 < period && captured < TWO_64 && now < TWO_64
    ensures Epoch(period, captured, now) in {now / period - 1, now / period, now / period + 1}
  {
  }

  lemma EpochFits(period: nat, captured: nat, now: nat)
    requires InRange(period, now) && captured < period
    ensures -1 <= Epoch(period, captured, now) < TWO_64
  {
    if period == 1 {
      OneTick(captured, now);
    } else {
      FewEpochs(period, now);
      NextEpochs(period, captured, now);
      assert 0 <= now / period;
    }
  }

  lemma WrapsBelowZero(period: nat, captured: nat)
    requires 0 < period <= TWO_63 && captured < period
    ensures U64((TWO_64 - 1) * period + captured) == U64(captured - period)
  {
    assert (TWO_64 - 1) * period + captured == (captured - period + TWO_64) + (period - 1) * TWO_64;
    DivUnique((TWO_64 - 1) * period + captured, TWO_64, period - 1, captured - period + TWO_64);
  }

  /** The wrap-around of the intermediate steps comes to one wrap-around of the result. */
  lemma RawIs(period: nat, captured: nat, now: nat)
    requires InRange(period, now) && captured < period
    ensures Raw(period, captured, now) == U64(Nearest(period, captured, now))
  {
    EpochFits(period, captured, now);
    EpochWraps(Epoch(period, captured, now), period, captured);
  }

  lemma EpochWraps(k: int, period: nat, captured: nat)
    requires -1 <= k < TWO_64 && 0 < period <= TWO_63 && captured < period
    ensures U64(U64(k) * period + captured) == U64(k * period + captured)
  {
    if k < 0 {
      WrapsBelowZero(period, captured);
      assert U64(k) == TWO_64 - 1 && k * period == 0 - period;
    } else {
      assert U64(k) == k;
    }
  }

  /**
   * Whatever the service time, the result is congruent to the capture and within half a period of the service time,
   * modulo 2^64; it is that very time exactly when that lies on the clock. It does for a clock that shows a period or
   * more, or a capture that is not ahead of it, unless the clock is about to wrap. A capture half a period away, rounded
   * down, is still put in the epoch of the service time.
   */
  lemma RawIsNearest(period: nat, captured: nat, now: nat)
    requires InRange(period, now) && captured < period
    ensures var x := Nearest(period, captured, now);
            && 2 * now - period <= 2 * x <= 2 * now + period
            && Raw(period, captured, now) == U64(x) && (Raw(period, captured, now) == x <==> 0 <= x < TWO_64)
            && (0 <= x <==> period <= now || captured <= now + period / 2)
            && (0 <= x < TWO_64 ==> Raw(period, captured, now) % period == captured)
            && (Distance(captured, now % period) <= period / 2 <==> x - captured == now - now % period)
  {
    RawIs(period, captured, now);
    NearestBounds(period, captured, now);
    SameEpoch(period, captured, now);
    var k := Epoch(period, captured, now);
    if 0 <= k {
      DivUnique(k * period + captured, period, k, captured);
    }
  }

  lemma NearestBounds(period: nat, captured: nat, now: nat)
    requires InRange(period, now) && captured < period
    ensures var x := Nearest(period, captured, now);
            && 2 * now - period <= 2 * x <= 2 * now + period
            && (0 <= x <==> period <= now || captured <= now + period / 2)
            && (0 <= x ==> 0 <= Epoch(period, captured, now))
  {
    NearestIs(period, captured, now);
    var e := now / period;
    if now < period {
      DivUnique(now, period, 0, now);
    } else {
      DivMod(now, period);
      MulGrows(e, period);
    }
  }

  /** The nearest time as an offset from the service time. */
  lemma NearestIs(period: nat, captured: nat, now: nat)
    requires InRange(period, now) && captured < period
    ensures var diff := captured - now % period;
            Nearest(period, captured, now) == now + diff + if diff > period / 2 then 0 - period else if diff < -(period / 2) then period else 0
    ensures var diff := captured - now % period;
            Epoch(period, captured, now) == now / period + if diff > period / 2 then -1 else if diff < -(period / 2) then 1 else 0
  {
    var e := now / period;
    DivMod(now, period);
    assert (e - 1) * period == e * period - period && (e + 1) * period == e * period + period;
  }

  lemma SameEpoch(period: nat, captured: nat, now: nat)
    requires InRange(period, now) && captured < period
    ensures Distance(captured, now % period) <= period / 2 <==> Nearest(period, captured, now) - captured == now - now % period
  {
    NearestIs(period, captured, now);
  }

  /** A frame serviced less than half a period away from its arrival gets its arrival time. */
  lemma RawIsExact(period: nat, arrived: nat, now: nat)
    requires InRange(period, now) && arrived < TWO_64 && 2 * Distance(arrived, now) < period
    ensures Raw(period, Capture(arrived, period), now) == arrived
  {
    var c := Capture(arrived, period);
    DivMod(arrived, period);
    RawIsNearest(period, c, now);
    SameClass(Epoch(period, c, now), arrived / period, period);
  }

  // ---------------------------------------------------------------- runs

  datatype Arrival = Arrival(at: nat, served: nat)

  /** Serviced less than half a period away, and arrived half a period or more before the clock wraps. */
  predicate Prompt(period: nat, a: Arrival) {
    InRange(period, a.served) && a.at + period / 2 < TWO_64 && 2 * Distance(a.at, a.served) < period
  }

  /** The times reported for a run of frames on one channel. */
  function Reported(period: nat, run: seq<Arrival>, last: nat): (r: seq<nat>)
    requires 0 < period && forall i :: 0 <= i < |run| ==> Prompt(period, run[i])
    ensures |r| == |run|
  {
    if run == [] then []
    else
      assert Prompt(period, run[0]);
      var t := Reconstructed(period, Capture(run[0].at, period), run[0].served, last);
      [t] + Reported(period, run[1..], t)
  }

  /**
   * The correction that is meant to keep the reported times from going back never does anything: what is put nearest to
   * the service time is never more than half a period behind a last value that is not after the service time.
   */
  lemma CorrectionNeverFires(period: nat, captured: nat, now: nat, last: nat)
    requires InRange(period, now) && captured < period && now + period < TWO_64
    ensures Reconstructed(period, captured, now, last) == Raw(period, captured, now)
  {
    RawIsNearest(period, captured, now);
    var x := Nearest(period, captured, now);
    if x < 0 {
      BelowZero(x, period / 2);
    }
  }

  lemma BelowZero(x: int, half: nat)
    requires -TWO_63 <= x < 0 <= x + half < TWO_64
    ensures U64(U64(x) + half) == x + half
  {
    DivUnique(x + TWO_64 + half, TWO_64, 1, x + half);
    assert U64(x) == x + TWO_64;
  }

  lemma PromptIsExact(period: nat, a: Arrival, last: nat)
    requires Prompt(period, a)
    ensures Reconstructed(period, Capture(a.at, period), a.served, last) == a.at
  {
    RawIsExact(period, a.at, a.served);
  }

  /** Frames each serviced within half a period are all reported at the very time they arrived, also one that arrived
      before the one reported last. */
  lemma {:induction false} RunsAreExact(period: nat, run: seq<Arrival>, last: nat)
    requires 0 < period && forall i :: 0 <= i < |run| ==> Prompt(period, run[i])
    ensures forall i :: 0 <= i < |run| ==> Reported(period, run, last)[i] == run[i].at
  {
    if run != [] {
      PromptIsExact(period, run[0], last);
      RunsAreExact(period, run[1..], run[0].at);
    }
  }

  lemma Ceiling(delta: nat, period: nat)
    requires 0 < period && 0 < delta
    ensures var n := (delta + period - 1) / period; delta <= n * period < delta + period
  {
    var x := delta + period - 1;
    DivMod(x, period);
  }

  lemma AddedPeriods(raw: nat, n: nat, period: nat)
    requires 0 < period
    ensures (raw + n * period) % period == raw % period
  {
    DivMod(raw, period);
    assert raw + n * period == (raw / period + n) * period + raw % period;
    DivUnique(raw + n * period, period, raw / period + n, raw % period);
  }

  /**
   * The correction adds the least number of periods that brings the result to half a period before the last
   * one; it adds none if the result is there already.
   */
  lemma CorrectionIsLeast(period: nat, raw: nat, last: nat)
    requires 0 < period && raw + period / 2 < TWO_64 && last + (period + 1) / 2 <= TWO_64
    ensures var r := Corrected(period, raw, last);
            && r % period == raw % period && raw <= r && last <= r + period / 2
            && (r != raw ==> raw + period <= r && r - period + period / 2 < last)
  {
    if last > raw + period / 2 {
      var delta := last - (raw + period / 2);
      var n := (delta + period - 1) / period;
      Ceiling(delta, period);
      AddedPeriods(raw, n, period);
      MulGrows(n, period);
    }
  }

  /** What is reported in general: the capture's class, and never more than half a period behind a recent last value. */
  lemma ReportedInGeneral(period: nat, captured: nat, now: nat, last: nat)
    requires InRange(period, now) && captured < period <= now && now + period < TWO_64
    ensures var r := Reconstructed(period, captured, now, last);
            && r % period == captured
            && r == Raw(period, captured, now) && 2 * Distance(r, now) <= period
            && (0 < last <= now <= last + 2 * period ==> last <= r + period / 2)
  {
    RawIsNearest(period, captured, now);
    CorrectionNeverFires(period, captured, now, last);
  }
}
