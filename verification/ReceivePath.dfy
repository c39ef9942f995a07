/**
 * From the receive interrupt to the logger: two numbered channels, a bounded ring each, one paged port.
 * Frames may be lost at the ring and at the port; what arrives is still in order, so the numbers tell
 * how many were lost.
 */
module ReceivePath {
  import opened Wire
  import opened SequenceChecker
  import opened LossAccounting
  import opened RxRing
  import opened MsgPort

  /** `issue` is the frame's place among all frames of its channel; `rxSequence` is what the counter showed. */
  datatype Numbered = Numbered(channel: nat, rxSequence: nat, issue: nat)

  type Frame = f: Numbered | f.rxSequence == f.issue % TWO_32 witness Numbered(0, 0, 0)

  function Issues(frames: seq<Frame>, channel: nat): seq<nat> {
    if frames == [] then []
    else
      var k := |frames| - 1;
      if frames[k].channel == channel then Issues(frames[..k], channel) + [frames[k].issue] else Issues(frames[..k], channel)
  }

  lemma IssuesSnoc(frames: seq<Frame>, f: Frame, channel: nat)
    ensures Issues(frames + [f], channel)
         == if f.channel == channel then Issues(frames, channel) + [f.issue] else Issues(frames, channel)
  {
    assert (frames + [f])[..|frames|] == frames;
  }

  lemma {:induction false} IssuesConcat(a: seq<Frame>, b: seq<Frame>, channel: nat)
    ensures Issues(a + b, channel) == Issues(a, channel) + Issues(b, channel)
  {
    if b == [] {
      assert a + b == a;
    } else {
      var k := |b| - 1;
      assert a + b == (a + b[..k]) + [b[k]];
      IssuesSnoc(a + b[..k], b[k], channel);
      IssuesConcat(a, b[..k], channel);
    }
  }

  lemma RisingSnoc(prev: nat, ns: seq<nat>, n: nat)
    requires Rising(prev, ns) && LastId(prev, ns) < n
    ensures Rising(prev, ns + [n]) && LastId(prev, ns + [n]) == n
  {
    assert (ns + [n])[..|ns|] == ns;
  }

  lemma {:induction false} RisingPrefix(prev: nat, a: seq<nat>, b: seq<nat>)
    requires Rising(prev, a + b)
    ensures Rising(prev, a)
    ensures LastId(prev, a) <= LastId(prev, a + b)
  {
    if b == [] {
      assert a + b == a;
    } else {
      assert (a + b)[..|a + b| - 1] == a + b[..|b| - 1];
      RisingPrefix(prev, a, b[..|b| - 1]);
    }
  }

  /** Dropping one element out of a rising sequence leaves it rising. */
  lemma {:induction false} RisingDrop(prev: nat, a: seq<nat>, x: nat, b: seq<nat>)
    requires Rising(prev, a + [x] + b)
    ensures Rising(prev, a + b)
    ensures LastId(prev, a + b) <= LastId(prev, a + [x] + b)
  {
    if b == [] {
      assert a + [x] + b == a + [x] && a + b == a;
      RisingPrefix(prev, a, [x]);
    } else {
      assert (a + [x] + b)[..|a + [x] + b| - 1] == a + [x] + b[..|b| - 1];
      assert (a + b)[..|a + b| - 1] == a + b[..|b| - 1];
      RisingDrop(prev, a, x, b[..|b| - 1]);
    }
  }

  /** A channel's frames accepted by the port, then those in its ring: in the order they were numbered. */
  ghost predicate InOrder(channel: nat, accepted: seq<Frame>, queue: seq<Frame>, issued: nat) {
    var ns := Issues(accepted, channel) + Issues(queue, channel);
    && Rising(0, ns) && LastId(0, ns) <= issued
    && forall f :: f in queue ==> f.channel == channel
  }

  lemma OrderAfterPut(channel: nat, accepted: seq<Frame>, queue: seq<Frame>, issued: nat, f: Frame)
    requires InOrder(channel, accepted, queue, issued) && f.channel == channel && f.issue == issued + 1
    ensures InOrder(channel, accepted, queue + [f], issued + 1)
  {
    IssuesSnoc(queue, f, channel);
    var a, q := Issues(accepted, channel), Issues(queue, channel);
    assert a + (q + [f.issue]) == a + q + [f.issue];
    RisingSnoc(0, a + q, f.issue);
  }

  lemma HeadIssue(queue: seq<Frame>, channel: nat)
    requires queue != [] && queue[0].channel == channel
    ensures Issues(queue, channel) == [queue[0].issue] + Issues(queue[1..], channel)
  {
    var f := queue[0];
    assert queue == [f] + queue[1..];
    IssuesConcat([f], queue[1..], channel);
    IssuesSnoc([], f, channel);
    assert [] + [f] == [f] && [] + [f.issue] == [f.issue];
  }

  lemma OrderAfterMove(channel: nat, accepted: seq<Frame>, queue: seq<Frame>, issued: nat)
    requires InOrder(channel, accepted, queue, issued) && queue != []
    ensures InOrder(channel, accepted + [queue[0]], queue[1..], issued)
    ensures InOrder(channel, accepted, queue[1..], issued)
  {
    var f, rest := queue[0], queue[1..];
    assert queue == [f] + rest && f in queue;
    var a, b := Issues(accepted, channel), Issues(rest, channel);
    HeadIssue(queue, channel);
    assert a + ([f.issue] + b) == a + [f.issue] + b;
    RisingDrop(0, a, f.issue, b);
    IssuesSnoc(accepted, f, channel);
  }

  /** A frame moved on one channel is nothing to the other. */
  lemma OtherChannelStays(channel: nat, accepted: seq<Frame>, f: Frame, queue: seq<Frame>, issued: nat)
    requires InOrder(channel, accepted, queue, issued) && f.channel != channel
    ensures InOrder(channel, accepted + [f], queue, issued)
  {
    IssuesSnoc(accepted, f, channel);
  }

  lemma PrefixRises(channel: nat, d: seq<Frame>, p: seq<Frame>, queue: seq<Frame>, issued: nat)
    requires InOrder(channel, d + p, queue, issued)
    ensures Rising(0, Issues(d, channel))
  {
    IssuesConcat(d, p, channel);
    var x, y, z := Issues(d, channel), Issues(p, channel), Issues(queue, channel);
    assert x + y + z == x + (y + z);
    RisingPrefix(0, x, y + z);
  }

  lemma CounterWraps(n: nat)
    ensures (n % TWO_32 + 1) % TWO_32 == (n + 1) % TWO_32
  {
  }

  class Path {
    const ring1: RingBuffer<Frame>
    const ring2: RingBuffer<Frame>
    const port: Port<Frame>
    var sequence1: nat        // Can1_SequenceIndex, 32 bits
    var sequence2: nat
    var dropCount: nat        // CanAbs_FrameDropCount
    var issued1: nat          // frames the interrupt has taken from each controller, not wrapped
    var issued2: nat

    ghost predicate Valid()
      reads this, ring1, ring1.slots, ring2, ring2.slots, port
    {
      && ring1.Valid() && ring2.Valid() && port.Valid()
      && ring1 != ring2 && ring1.slots != ring2.slots
      && sequence1 == issued1 % TWO_32 && sequence2 == issued2 % TWO_32
      && InOrder(1, port.accepted, ring1.queue, issued1)
      && InOrder(2, port.accepted, ring2.queue, issued2)
      && issued1 + issued2 == port.offered + |ring1.queue| + |ring2.queue| + dropCount
    }

    constructor (rxLength: nat, pages: nat, waitsForever: bool)
      requires 0 < rxLength
      ensures Valid() && issued1 == issued2 == 0 && port.accepted == []
    {
      ring1 := new RingBuffer<Frame>(rxLength);
      ring2 := new RingBuffer<Frame>(rxLength);
      port := new Port<Frame>(pages, waitsForever);
      sequence1, sequence2, dropCount, issued1, issued2 := 0, 0, 0, 0, 0;
    }

    /** One frame read by the interrupt on channel 1: numbered, then stored unless the ring is full. */
    method Receive1()
      requires Valid()
      modifies this`sequence1, this`dropCount, this`issued1, ring1, ring1.slots
      ensures Valid() && issued1 == old(issued1) + 1
    {
      ghost var queue := ring1.queue;
      issued1 := issued1 + 1;
      CounterWraps(old(issued1));
      sequence1 := (sequence1 + 1) % TWO_32;
      var frame: Frame := Numbered(1, sequence1, issued1);
      var res := ring1.Put(frame);
      if res != PutOk {
        dropCount := dropCount + 1;
      }
      OrderAfterPut(1, port.accepted, queue, old(issued1), frame);
    }

    method Receive2()
      requires Valid()
      modifies this`sequence2, this`dropCount, this`issued2, ring2, ring2.slots
      ensures Valid() && issued2 == old(issued2) + 1
    {
      ghost var queue := ring2.queue;
      issued2 := issued2 + 1;
      CounterWraps(old(issued2));
      sequence2 := (sequence2 + 1) % TWO_32;
      var frame: Frame := Numbered(2, sequence2, issued2);
      var res := ring2.Put(frame);
      if res != PutOk {
        dropCount := dropCount + 1;
      }
      OrderAfterPut(2, port.accepted, queue, old(issued2), frame);
    }

    /** The bridge task hands the oldest frame of a channel to the port, which may drop it. */
    method Bridge1() returns (moved: bool)
      requires Valid()
      modifies ring1`tail, ring1`elementCount, ring1`isFull, ring1`queue, port`pageReceive, port`queued, port`dropCount, port`offered, port`accepted
      ensures Valid() && (moved <==> old(ring1.queue) != [])
      ensures moved ==> ring1.queue == old(ring1.queue)[1..]
      ensures moved ==> port.accepted == old(port.accepted) || port.accepted == old(port.accepted) + [old(ring1.queue)[0]]
    {
      if ring1.queue != [] {
        OrderAfterMove(1, port.accepted, ring1.queue, issued1);
        assert ring1.queue[0] in ring1.queue;
        OtherChannelStays(2, port.accepted, ring1.queue[0], ring2.queue, issued2);
      }
      var found, frame := ring1.Pop();
      if !found {
        return false;
      }
      port.Receive(frame);
      return true;
    }

    method Bridge2() returns (moved: bool)
      requires Valid()
      modifies ring2`tail, ring2`elementCount, ring2`isFull, ring2`queue, port`pageReceive, port`queued, port`dropCount, port`offered, port`accepted
      ensures Valid() && (moved <==> old(ring2.queue) != [])
      ensures moved ==> ring2.queue == old(ring2.queue)[1..]
      ensures moved ==> port.accepted == old(port.accepted) || port.accepted == old(port.accepted) + [old(ring2.queue)[0]]
    {
      if ring2.queue != [] {
        OrderAfterMove(2, port.accepted, ring2.queue, issued2);
        assert ring2.queue[0] in ring2.queue;
        OtherChannelStays(1, port.accepted, ring2.queue[0], ring1.queue, issued1);
      }
      var found, frame := ring2.Pop();
      if !found {
        return false;
      }
      port.Receive(frame);
      return true;
    }

    /** The poll loop takes the oldest frame from the port. */
    method Read() returns (found: bool, frame: seq<Frame>)
      requires Valid()
      modifies port`queued, port`pageRead, port`indexRead, port`delivered
      ensures Valid()
      ensures port.delivered == old(port.delivered) + (if found then frame else [])
      ensures found ==> |frame| == 1
    {
      found, frame := port.Read();
    }

    method Flush() returns (r: Flushed)
      requires Valid()
      modifies port`pageReceive, port`queued, port`dropCount, port`falselyDropped, port`flushFailed
      ensures Valid() && port.Pending() == old(port.Pending())
      ensures r == Empty <==> !old(port.Blocked())
      ensures port.flushFailed == (old(port.flushFailed) || r == Failed)
    {
      r := port.Flush();
    }

    /** The frames delivered to the logger on a channel carry rising numbers, wrapped to 32 bits. */
    lemma DeliveredRise(channel: nat)
      requires Valid() && (channel == 1 || channel == 2)
      ensures Rising(0, Issues(port.delivered, channel))
    {
      if channel == 1 {
        PrefixRises(1, port.delivered, port.Pending(), ring1.queue, issued1);
      } else {
        PrefixRises(2, port.delivered, port.Pending(), ring2.queue, issued2);
      }
    }

    /** Nothing is lost uncounted: frames issued are delivered, under way, or in one of the two drop counts,
        exactly when no flush of a non-empty page has failed; where a flush waits without limit, always. */
    lemma Conservation()
      requires Valid()
      ensures issued1 + issued2 == |port.delivered| + |port.Pending()| + |ring1.queue| + |ring2.queue|
                                   + dropCount + port.dropCount
              <==> !port.flushFailed
      ensures port.waitsForever && 0 < port.capacity ==> !port.flushFailed
    {
    }
  }

  // ---------------------------------------------------------------- end to end

  function ToRx(frames: seq<Frame>): (rx: seq<Rx>) {
    seq(|frames|, i requires 0 <= i < |frames| => Rx(frames[i].channel, frames[i].rxSequence))
  }

  lemma {:induction false} IdsOfFrames(frames: seq<Frame>, channel: nat)
    ensures Ids(ToRx(frames), channel) == Wrapped(Issues(frames, channel))
  {
    if frames == [] {
      assert ToRx(frames) == [];
    } else {
      var k := |frames| - 1;
      var f := frames[k];
      assert frames == frames[..k] + [f];
      assert ToRx(frames) == ToRx(frames[..k]) + [Rx(f.channel, f.rxSequence)];
      IdsSnoc(ToRx(frames[..k]), Rx(f.channel, f.rxSequence), channel);
      IdsOfFrames(frames[..k], channel);
      IssuesSnoc(frames[..k], f, channel);
      assert f.channel == channel ==>
        Wrapped(Issues(frames[..k], channel) + [f.issue]) == Wrapped(Issues(frames[..k], channel)) + [f.issue % TWO_32];
    }
  }

  /** The numbers of a channel's frames, poll by poll. */
  function PollIssues(polls: seq<seq<Frame>>, channel: nat): (ns: seq<seq<nat>>)
    ensures |ns| == |polls|
  {
    seq(|polls|, i requires 0 <= i < |polls| => Issues(polls[i], channel))
  }

  lemma {:induction false} IssuesOfPolls(polls: seq<seq<Frame>>, channel: nat)
    ensures Flatten(PollIssues(polls, channel)) == Issues(Flatten(polls), channel)
  {
    if polls != [] {
      IssuesConcat(polls[0], Flatten(polls[1..]), channel);
      IssuesOfPolls(polls[1..], channel);
      assert PollIssues(polls, channel)[1..] == PollIssues(polls[1..], channel);
    }
  }

  function PollsToRx(polls: seq<seq<Frame>>): (rx: seq<seq<Rx>>)
    ensures |rx| == |polls| && forall p :: p in rx ==> forall f :: f in p ==> f.sequence <= UINT32_MAX
  {
    seq(|polls|, i requires 0 <= i < |polls| => ToRx(polls[i]))
  }

  lemma PollsCarry(polls: seq<seq<Frame>>, channel: nat)
    ensures Carries(PollsToRx(polls), channel, PollIssues(polls, channel))
  {
    forall i | 0 <= i < |polls|
      ensures Ids(PollsToRx(polls)[i], channel) == Wrapped(PollIssues(polls, channel)[i])
    {
      IdsOfFrames(polls[i], channel);
    }
  }

  lemma {:induction false} RisingCut(prev: nat, a: seq<nat>, b: seq<nat>)
    requires Rising(prev, a + b)
    ensures Rising(prev, a) && Rising(LastId(prev, a), b)
    ensures LastId(LastId(prev, a), b) == LastId(prev, a + b)
  {
    if b == [] {
      assert a + b == a;
    } else {
      assert (a + b)[..|a + b| - 1] == a + b[..|b| - 1];
      RisingCut(prev, a, b[..|b| - 1]);
    }
  }

  lemma {:induction false} PollsRise(prev: nat, polls: seq<seq<nat>>)
    requires Rising(prev, Flatten(polls))
    ensures AllRising(prev, polls)
    ensures LastOf(prev, polls) == LastId(prev, Flatten(polls)) && Count(polls) == |Flatten(polls)|
    decreases |polls|
  {
    if polls != [] {
      RisingCut(prev, polls[0], Flatten(polls[1..]));
      PollsRise(LastId(prev, polls[0]), polls[1..]);
    }
  }

  lemma DeliveriesRise(path: Path, channel: nat, polls: seq<seq<Frame>>)
    requires path.Valid() && (channel == 1 || channel == 2) && Flatten(polls) == path.port.delivered
    ensures var ns := PollIssues(polls, channel);
            && AllRising(0, ns) && Count(ns) == |Issues(path.port.delivered, channel)|
            && LastOf(0, ns) == LastId(0, Issues(path.port.delivered, channel))
  {
    path.DeliveredRise(channel);
    IssuesOfPolls(polls, channel);
    PollsRise(0, PollIssues(polls, channel));
  }

  /** The channel's two counters tell the number of the last frame it delivered, exactly when they can. */
  ghost predicate CountsEveryLoss(can: Channel, delivered: seq<Frame>, polls: seq<seq<Frame>>)
    reads can
  {
    var ns, last := Issues(delivered, can.number), LastId(0, Issues(delivered, can.number));
    && can.receivedFrames == |ns|
    && can.receivedFrames + can.missingTotal <= last
    && (can.receivedFrames + can.missingTotal == last <==> Countable(0, PollIssues(polls, can.number)))
  }

  /**
   * However the frames were lost on the way and however the deliveries fall into polls, "received plus missing"
   * in the logger's counters for a channel is the number of the last frame it saw, exactly when the gaps and
   * the polls' totals fit 32 bits.
   */
  method LoggerCountsEveryLoss(path: Path, polls: seq<seq<Frame>>) returns (can1: Channel, can2: Channel)
    requires path.Valid() && Flatten(polls) == path.port.delivered
    ensures can1.number == 1 && CountsEveryLoss(can1, path.port.delivered, polls)
    ensures can2.number == 2 && CountsEveryLoss(can2, path.port.delivered, polls)
  {
    can1 := new Channel(1);
    can2 := new Channel(2);
    ghost var ns1, ns2 := PollIssues(polls, 1), PollIssues(polls, 2);
    DeliveriesRise(path, 1, polls);
    DeliveriesRise(path, 2, polls);
    PollsCarry(polls, 1);
    PollsCarry(polls, 2);
    PollAll(PollsToRx(polls), can1, can2, 0, 0, ns1, ns2);
    LossesAreCounted(0, ns1);
    LossesAreCounted(0, ns2);
  }
}
