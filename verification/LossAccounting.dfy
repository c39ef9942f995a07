/** The poll loop's count of lost frames per channel, against the frames the interrupt numbered. */
module LossAccounting {
  import opened Wire
  import opened SequenceChecker

  /** A frame as the logger sees it: its channel and the 32-bit number the interrupt gave it. */
  datatype Rx = Rx(channel: nat, sequence: nat)

  function Ids(frames: seq<Rx>, channel: nat): seq<nat> {
    if frames == [] then []
    else (if frames[0].channel == channel then [frames[0].sequence] else []) + Ids(frames[1..], channel)
  }

  lemma {:induction false} IdsSnoc(frames: seq<Rx>, f: Rx, channel: nat)
    ensures Ids(frames + [f], channel)
         == if f.channel == channel then Ids(frames, channel) + [f.sequence] else Ids(frames, channel)
  {
    if frames == [] {
      assert frames + [f] == [f] && [f][1..] == [];
    } else {
      assert (frames + [f])[1..] == frames[1..] + [f];
      IdsSnoc(frames[1..], f, channel);
    }
  }

  predicate Is32(ids: seq<nat>) {
    forall i :: 0 <= i < |ids| ==> ids[i] <= UINT32_MAX
  }

  function LastId(prev: nat, ids: seq<nat>): nat {
    if ids == [] then prev else ids[|ids| - 1]
  }

  /** The numbers skipped along `ids`, before any saturation. */
  function Skipped(prev: nat, ids: seq<nat>): nat
    requires prev <= UINT32_MAX && Is32(ids)
  {
    if ids == [] then 0
    else Skipped(prev, ids[..|ids| - 1]) + Gap(LastId(prev, ids[..|ids| - 1]), ids[|ids| - 1], UINT32_MAX)
  }

  lemma SkippedSnoc(prev: nat, ids: seq<nat>, n: nat)
    requires prev <= UINT32_MAX && Is32(ids) && n <= UINT32_MAX
    ensures Is32(ids + [n]) && LastId(prev, ids + [n]) == n
    ensures Skipped(prev, ids + [n]) == Skipped(prev, ids) + Gap(LastId(prev, ids), n, UINT32_MAX)
  {
    assert (ids + [n])[..|ids|] == ids;
  }

  class Channel {
    const number: nat
    const checker: Checker
    var sequenceIndex: nat
    var receivedFrames: nat
    var missingTotal: nat

    ghost predicate Valid()
      reads this, checker
    {
      checker.Valid() && checker.initialized && checker.wrapIndex == UINT32_MAX
      && sequenceIndex == checker.previousId && checker.missingCount == 0
    }

    constructor (number: nat)
      ensures Valid() && fresh(checker)
      ensures this.number == number && sequenceIndex == 0 && receivedFrames == 0 && missingTotal == 0
    {
      var c := new Checker();
      var _ := c.Init(0, UINT32_MAX);
      this.number, checker := number, c;
      sequenceIndex, receivedFrames, missingTotal := 0, 0, 0;
    }
  }

  /** The frames of one poll, as far as sequence accounting goes. */
  method Poll(frames: seq<Rx>, can1: Channel, can2: Channel)
    requires can1.Valid() && can2.Valid() && can1.checker != can2.checker && can1 != can2
    requires can1.number == 1 && can2.number == 2
    requires forall f :: f in frames ==> f.sequence <= UINT32_MAX
    modifies can1, can2, can1.checker, can2.checker
    ensures can1.Valid() && can2.Valid()
    ensures Is32(Ids(frames, 1)) && Is32(Ids(frames, 2))
    ensures can1.sequenceIndex == LastId(old(can1.sequenceIndex), Ids(frames, 1))
    ensures can2.sequenceIndex == LastId(old(can2.sequenceIndex), Ids(frames, 2))
    ensures can1.receivedFrames == old(can1.receivedFrames) + |Ids(frames, 1)|
    ensures can2.receivedFrames == old(can2.receivedFrames) + |Ids(frames, 2)|
    ensures can1.missingTotal == old(can1.missingTotal) + Min(Skipped(old(can1.sequenceIndex), Ids(frames, 1)), UINT32_MAX)
    ensures can2.missingTotal == old(can2.missingTotal) + Min(Skipped(old(can2.sequenceIndex), Ids(frames, 2)), UINT32_MAX)
  {
    var i := 0;
    assert frames[..0] == [];
    while i < |frames|
      invariant 0 <= i <= |frames|
      invariant Seen(can1, frames[..i], old(can1.sequenceIndex), old(can1.receivedFrames))
      invariant Seen(can2, frames[..i], old(can2.sequenceIndex), old(can2.receivedFrames))
      invariant can1.missingTotal == old(can1.missingTotal) && can2.missingTotal == old(can2.missingTotal)
    {
      var f := frames[i];
      assert f in frames;
      assert frames[..i + 1] == frames[..i] + [f];
      SeeFrame(can1, frames[..i], f, old(can1.sequenceIndex), old(can1.receivedFrames));
      SeeFrame(can2, frames[..i], f, old(can2.sequenceIndex), old(can2.receivedFrames));
      i := i + 1;
    }
    assert frames[..|frames|] == frames;
    Collect(can1);
    Collect(can2);
  }

  /** The channel after the frames seen so far in this poll. */
  ghost predicate Seen(c: Channel, frames: seq<Rx>, start: nat, received: nat)
    reads c, c.checker
  {
    var ids := Ids(frames, c.number);
    && c.checker.Valid() && c.checker.initialized && c.checker.wrapIndex == UINT32_MAX
    && Is32(ids) && start <= UINT32_MAX
    && c.sequenceIndex == c.checker.previousId == LastId(start, ids)
    && c.receivedFrames == received + |ids|
    && c.checker.missingCount == Min(Skipped(start, ids), UINT32_MAX)
  }

  /** One frame, if it is of this channel. */
  method SeeFrame(c: Channel, ghost before: seq<Rx>, f: Rx, ghost start: nat, ghost received: nat)
    requires f.sequence <= UINT32_MAX
    requires Seen(c, before, start, received)
    modifies c`receivedFrames, c`sequenceIndex, c.checker
    ensures Seen(c, before + [f], start, received)
    ensures c.checker.Valid()
  {
    IdsSnoc(before, f, c.number);
    if f.channel == c.number {
      SkippedSnoc(start, Ids(before, c.number), f.sequence);
      c.receivedFrames := c.receivedFrames + 1;
      c.sequenceIndex := f.sequence;
      var _ := c.checker.CheckSequence(c.sequenceIndex);
    }
  }

  method Collect(c: Channel)
    requires c.checker.Valid() && c.checker.initialized && c.checker.wrapIndex == UINT32_MAX
    requires c.sequenceIndex == c.checker.previousId
    modifies c`missingTotal, c.checker
    ensures c.Valid() && c.missingTotal == old(c.missingTotal) + old(c.checker.missingCount)
  {
    var status, missing := c.checker.GetMissingCount();
    if status == ScOk {
      c.missingTotal := c.missingTotal + missing;
      var _ := c.checker.Reset(c.sequenceIndex);
    }
  }

  // ---------------------------------------------------------------- against the true numbers

  /** The interrupt's numbers before they wrap: strictly increasing from `prev`. */
  predicate Rising(prev: nat, ns: seq<nat>) {
    ns == [] || (Rising(prev, ns[..|ns| - 1]) && LastId(prev, ns[..|ns| - 1]) < ns[|ns| - 1])
  }

  function Wrapped(ns: seq<nat>): (ids: seq<nat>)
    ensures |ids| == |ns| && Is32(ids)
  {
    seq(|ns|, i requires 0 <= i < |ns| => ns[i] % TWO_32)
  }

  predicate SmallGaps(prev: nat, ns: seq<nat>) {
    ns == [] || (SmallGaps(prev, ns[..|ns| - 1]) && ns[|ns| - 1] - LastId(prev, ns[..|ns| - 1]) < TWO_32)
  }

  /** A 32-bit gap never overstates the true one and is right exactly when that fits 32 bits. */
  lemma GapIsTruncated(prev: nat, n: nat)
    requires prev < n
    ensures Gap(prev % TWO_32, n % TWO_32, UINT32_MAX) <= n - prev - 1
    ensures Gap(prev % TWO_32, n % TWO_32, UINT32_MAX) == n - prev - 1 <==> n - prev < TWO_32
  {
  }

  lemma {:induction false} SkippedIsTruncated(prev: nat, ns: seq<nat>)
    requires Rising(prev, ns)
    ensures LastId(prev, ns) >= prev + |ns|
    ensures Skipped(prev % TWO_32, Wrapped(ns)) + |ns| <= LastId(prev, ns) - prev
    ensures Skipped(prev % TWO_32, Wrapped(ns)) + |ns| == LastId(prev, ns) - prev <==> SmallGaps(prev, ns)
    ensures LastId(prev % TWO_32, Wrapped(ns)) == LastId(prev, ns) % TWO_32
  {
    if ns != [] {
      var k := |ns| - 1;
      var front := ns[..k];
      assert Wrapped(ns)[..k] == Wrapped(front);
      SkippedIsTruncated(prev, front);
      GapIsTruncated(LastId(prev, front), ns[k]);
    }
  }

  function Count(polls: seq<seq<nat>>): nat {
    if polls == [] then 0 else |polls[0]| + Count(polls[1..])
  }

  /** What the poll loop accumulates on one channel over a sequence of polls. */
  function Missing(prev: nat, polls: seq<seq<nat>>): nat
    decreases |polls|
  {
    if polls == [] then 0
    else Min(Skipped(prev % TWO_32, Wrapped(polls[0])), UINT32_MAX) + Missing(LastId(prev, polls[0]), polls[1..])
  }

  function LastOf(prev: nat, polls: seq<seq<nat>>): nat
    decreases |polls|
  {
    if polls == [] then prev else LastOf(LastId(prev, polls[0]), polls[1..])
  }

  predicate AllRising(prev: nat, polls: seq<seq<nat>>)
    decreases |polls|
  {
    polls == [] || (Rising(prev, polls[0]) && AllRising(LastId(prev, polls[0]), polls[1..]))
  }

  /** No gap of 2^32 or more and no poll with more than 2^32 - 1 frames missing. */
  predicate Countable(prev: nat, polls: seq<seq<nat>>)
    decreases |polls|
  {
    polls == []
    || (SmallGaps(prev, polls[0]) && Skipped(prev % TWO_32, Wrapped(polls[0])) <= UINT32_MAX
        && Countable(LastId(prev, polls[0]), polls[1..]))
  }

  // ---------------------------------------------------------------- any number of polls

  /** The polls deliver frames that the interrupt had numbered `ns` on this channel. */
  ghost predicate Carries(polls: seq<seq<Rx>>, channel: nat, ns: seq<seq<nat>>) {
    |ns| == |polls| && forall i :: 0 <= i < |polls| ==> Ids(polls[i], channel) == Wrapped(ns[i])
  }

  /** What the channel will have counted once the polls `rest`, after the frame numbered `prev`, are over. */
  ghost predicate Heading(c: Channel, prev: nat, rest: seq<seq<nat>>, received: nat, missing: nat, last: nat)
    reads c
  {
    && AllRising(prev, rest) && c.sequenceIndex == prev % TWO_32
    && c.receivedFrames + Count(rest) == received && c.missingTotal + Missing(prev, rest) == missing
    && LastOf(prev, rest) == last
  }

  /** The poll loop, over any number of polls. */
  method PollAll(polls: seq<seq<Rx>>, can1: Channel, can2: Channel,
                 ghost prev1: nat, ghost prev2: nat, ghost ns1: seq<seq<nat>>, ghost ns2: seq<seq<nat>>)
    requires can1.Valid() && can2.Valid() && can1.checker != can2.checker && can1 != can2
    requires can1.number == 1 && can2.number == 2
    requires forall p :: p in polls ==> forall f :: f in p ==> f.sequence <= UINT32_MAX
    requires Carries(polls, 1, ns1) && AllRising(prev1, ns1) && can1.sequenceIndex == prev1 % TWO_32
    requires Carries(polls, 2, ns2) && AllRising(prev2, ns2) && can2.sequenceIndex == prev2 % TWO_32
    modifies can1, can2, can1.checker, can2.checker
    ensures can1.Valid() && can2.Valid()
    ensures can1.receivedFrames == old(can1.receivedFrames) + Count(ns1)
    ensures can2.receivedFrames == old(can2.receivedFrames) + Count(ns2)
    ensures can1.missingTotal == old(can1.missingTotal) + Missing(prev1, ns1)
    ensures can2.missingTotal == old(can2.missingTotal) + Missing(prev2, ns2)
    ensures can1.sequenceIndex == LastOf(prev1, ns1) % TWO_32
    ensures can2.sequenceIndex == LastOf(prev2, ns2) % TWO_32
  {
    ghost var received1, missing1 := can1.receivedFrames + Count(ns1), can1.missingTotal + Missing(prev1, ns1);
    ghost var received2, missing2 := can2.receivedFrames + Count(ns2), can2.missingTotal + Missing(prev2, ns2);
    ghost var p1, p2 := prev1, prev2;
    var i := 0;
    assert ns1[0..] == ns1 && ns2[0..] == ns2;
    while i < |polls|
      invariant 0 <= i <= |polls| && can1.Valid() && can2.Valid()
      invariant Heading(can1, p1, ns1[i..], received1, missing1, LastOf(prev1, ns1))
      invariant Heading(can2, p2, ns2[i..], received2, missing2, LastOf(prev2, ns2))
    {
      assert polls[i] in polls;
      assert ns1[i..][1..] == ns1[i + 1..] && ns2[i..][1..] == ns2[i + 1..];
      SkippedIsTruncated(p1, ns1[i]);
      SkippedIsTruncated(p2, ns2[i]);
      Poll(polls[i], can1, can2);
      p1, p2 := LastId(p1, ns1[i]), LastId(p2, ns2[i]);
      i := i + 1;
    }
  }

  /**
   * Frames seen on a channel plus frames counted missing never exceed the number of the last frame seen,
   * and equal it exactly when every gap and every poll's total fit 32 bits, over any number of polls.
   */
  lemma {:induction false} LossesAreCounted(prev: nat, polls: seq<seq<nat>>)
    requires AllRising(prev, polls)
    ensures prev + Count(polls) + Missing(prev, polls) <= LastOf(prev, polls)
    ensures prev + Count(polls) + Missing(prev, polls) == LastOf(prev, polls) <==> Countable(prev, polls)
    decreases |polls|
  {
    if polls != [] {
      SkippedIsTruncated(prev, polls[0]);
      LossesAreCounted(LastId(prev, polls[0]), polls[1..]);
    }
  }
}
