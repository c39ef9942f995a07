/**
 * The frame counter in the block headers, in runs of both tasks: it tells how many frames had been taken in when the
 * block was handed out, so that the host can tell the frames still missing from a card.
 */
module IngressCounts {
  import opened Wire
  import opened BlockFormat
  import opened BlockRing
  import opened LogSteps
  import opened LogSystem

  /** The header of `b` counts the frames, modulo 2^32, of the first `k` entries accepted, and these begin with `part`. */
  predicate StampedAt(accepted: seq<Entry>, part: seq<Entry>, b: seq<byte>, k: nat) {
    && k <= |accepted| && part <= accepted[..k]
    && ReadBlockHeader(b).Some? && ReadBlockHeader(b).value.ingressFrames == Frames(accepted[..k]) % TWO_32
  }

  ghost predicate Stamped(accepted: seq<Entry>, part: seq<Entry>, b: seq<byte>) {
    exists k: nat :: StampedAt(accepted, part, b, k)
  }

  /** The entries of the first `n` blocks on the card. */
  function UpTo(bs: nat, stored: seq<StoredBlock>, n: nat): seq<Entry>
    requires n <= |stored|
  {
    StoredEntries(bs, stored[..n])
  }

  ghost predicate BlockStamped(bs: nat, accepted: seq<Entry>, stored: seq<StoredBlock>, i: nat)
    requires i < |stored|
  {
    Stamped(accepted, UpTo(bs, stored, i + 1), stored[i].bytes)
  }

  ghost predicate CardStamped(bs: nat, accepted: seq<Entry>, stored: seq<StoredBlock>) {
    forall i :: 0 <= i < |stored| ==> BlockStamped(bs, accepted, stored, i)
  }

  ghost predicate HeadStamped(s: Sys) {
    && s.log.bs <= |s.log.ring.data|
    && var head := s.log.ring.data[..s.log.bs];
       Stamped(s.accepted, StoredEntries(s.log.bs, s.stored) + Body(head), head)
  }

  /** The counter counts the frames accepted, and blocks stored and handed out are stamped with it. */
  ghost predicate Stamps(s: Sys) {
    && s.log.frames1 == Frames(s.accepted)
    && CardStamped(s.log.bs, s.accepted, s.stored) && (s.consumer.InFlight? ==> HeadStamped(s))
  }

  /** More entries accepted later change nothing for a block already counted. */
  lemma StampStays(accepted: seq<Entry>, added: seq<Entry>, part: seq<Entry>, b: seq<byte>)
    requires Stamped(accepted, part, b)
    ensures Stamped(accepted + added, part, b)
  {
    var k: nat :| StampedAt(accepted, part, b, k);
    assert (accepted + added)[..k] == accepted[..k];
    assert StampedAt(accepted + added, part, b, k);
  }

  lemma CardStampStays(bs: nat, accepted: seq<Entry>, added: seq<Entry>, stored: seq<StoredBlock>)
    requires CardStamped(bs, accepted, stored)
    ensures CardStamped(bs, accepted + added, stored)
  {
    forall i | 0 <= i < |stored|
      ensures BlockStamped(bs, accepted + added, stored, i)
    {
      assert BlockStamped(bs, accepted, stored, i);
      StampStays(accepted, added, UpTo(bs, stored, i + 1), stored[i].bytes);
    }
  }

  lemma UpToSnoc(bs: nat, stored: seq<StoredBlock>, b: StoredBlock, n: nat)
    requires n <= |stored|
    ensures UpTo(bs, stored + [b], n) == UpTo(bs, stored, n)
    ensures UpTo(bs, stored + [b], |stored| + 1) == StoredEntries(bs, stored) + Body(b.bytes)
  {
    var more := stored + [b];
    assert more[..n] == stored[..n];
    assert more[..|stored| + 1] == more && more[..|stored|] == stored;
  }

  lemma OlderStamp(bs: nat, accepted: seq<Entry>, stored: seq<StoredBlock>, b: StoredBlock, i: nat)
    requires i < |stored| && BlockStamped(bs, accepted, stored, i)
    ensures BlockStamped(bs, accepted, stored + [b], i)
  {
    UpToSnoc(bs, stored, b, i + 1);
  }

  lemma CardStampSnoc(bs: nat, accepted: seq<Entry>, stored: seq<StoredBlock>, b: StoredBlock)
    requires CardStamped(bs, accepted, stored) && Stamped(accepted, StoredEntries(bs, stored) + Body(b.bytes), b.bytes)
    ensures CardStamped(bs, accepted, stored + [b])
  {
    forall i | 0 <= i < |stored|
      ensures BlockStamped(bs, accepted, stored + [b], i)
    {
      OlderStamp(bs, accepted, stored, b, i);
    }
    UpToSnoc(bs, stored, b, 0);
    assert BlockStamped(bs, accepted, stored + [b], |stored|);
  }

  lemma ProducerStamps(s: Sys, s': Sys)
    requires Inv(s) && Stamps(s) && s' == Do(s, ProducerMoves)
    ensures Stamps(s')
  {
    ProducerStepMeaning(s.log, s.producer);
    var added := Added(s.producer, s'.producer);
    assert s.accepted + [] == s.accepted;
    FramesConcat(s.accepted, added);
    CardStampStays(s.log.bs, s.accepted, added, s.stored);
    if s.consumer.InFlight? {
      MoveLeavesBlock(s, ProducerMoves);
      StampStays(s.accepted, added, StoredEntries(s.log.bs, s.stored) + Body(s.log.ring.data[..s.log.bs]), s.log.ring.data[..s.log.bs]);
    }
  }

  /** The block handed out is counted when its header is filled in, with all that has been accepted by then. */
  lemma HeadIsStamped(s: Sys, s': Sys)
    requires Inv(s) && s.log.frames1 == Frames(s.accepted) && s' == Do(s, ConsumerMoves)
    requires s.consumer.ReadFinish? && s.consumer.offset != HEADER_SIZE
    ensures HeadStamped(s') && s'.accepted == s.accepted && s'.stored == s.stored
    ensures s'.log.frames1 == s.log.frames1 && s'.log.bs == s.log.bs
  {
    HeadCounts(s, s');
    EveryActionKeeps(s, ConsumerMoves);
    HeadComesNext(s');
    HeadStampedNow(s');
  }

  lemma HeadCounts(s: Sys, s': Sys)
    requires Inv(s) && s' == Do(s, ConsumerMoves) && s.consumer.ReadFinish? && s.consumer.offset != HEADER_SIZE
    ensures s'.log.bs == s.log.bs <= |s'.log.ring.data| && s'.consumer.InFlight?
    ensures s'.accepted == s.accepted && s'.stored == s.stored && s'.log.frames1 == s.log.frames1
    ensures var h := ReadBlockHeader(s'.log.ring.data[..s.log.bs]); h.Some? && h.value.ingressFrames == s.log.frames1 % TWO_32
  {
    EntriesCount(s.log.ring.data[..s.log.bs][HEADER_SIZE..]);
    FinishHeader(s.log, s.consumer.offset, s.consumer.frames, s.consumer.count);
  }

  /** In front of what is still staged lies the block handed out, behind the card. */
  lemma HeadComesNext(s: Sys)
    requires Inv(s) && s.consumer.InFlight? && s.log.bs <= |s.log.ring.data|
    ensures StoredEntries(s.log.bs, s.stored) + Body(s.log.ring.data[..s.log.bs]) <= s.accepted
  {
    var bs, d := s.log.bs, s.log.ring.data;
    DecodeHead(bs, d);
    HeadFirst(s.accepted, StoredEntries(bs, s.stored), Body(d[..bs]), Decode(bs, d[bs..]));
  }

  lemma HeadStampedNow(s: Sys)
    requires s.log.bs <= |s.log.ring.data| && s.log.frames1 == Frames(s.accepted)
    requires StoredEntries(s.log.bs, s.stored) + Body(s.log.ring.data[..s.log.bs]) <= s.accepted
    requires var h := ReadBlockHeader(s.log.ring.data[..s.log.bs]); h.Some? && h.value.ingressFrames == s.log.frames1 % TWO_32
    ensures HeadStamped(s)
  {
    var head := s.log.ring.data[..s.log.bs];
    assert s.accepted[..|s.accepted|] == s.accepted;
    assert StampedAt(s.accepted, StoredEntries(s.log.bs, s.stored) + Body(head), head, |s.accepted|);
  }

  lemma HeadFirst(accepted: seq<Entry>, card: seq<Entry>, head: seq<Entry>, rest: seq<Entry>)
    requires accepted == card + (head + rest)
    ensures card + head <= accepted
  {
    assert accepted == card + head + rest;
  }

  /** Nothing but the reader has moved. */
  lemma ReaderStamps(s: Sys, s': Sys)
    requires Stamps(s) && s'.log.frames1 == s.log.frames1 && s'.log.bs == s.log.bs
    requires s'.accepted == s.accepted && s'.stored == s.stored && (s'.consumer.InFlight? ==> HeadStamped(s'))
    ensures Stamps(s')
  {
  }

  lemma ConsumerStamps(s: Sys, s': Sys)
    requires Inv(s) && Stamps(s) && s' == Do(s, ConsumerMoves)
    ensures Stamps(s')
  {
    if s.consumer.InFlight? {
      assert s' == s;
    } else {
      if s.consumer.ReadFinish? && s.consumer.offset != HEADER_SIZE {
        HeadIsStamped(s, s');
      } else {
        OtherMoves(s, s');
      }
      ReaderStamps(s, s');
    }
  }

  lemma OtherMoves(s: Sys, s': Sys)
    requires Typed(s) && s' == Do(s, ConsumerMoves) && !s.consumer.InFlight?
    requires s.consumer.ReadFinish? ==> s.consumer.offset == HEADER_SIZE
    ensures !s'.consumer.InFlight? && s'.log.frames1 == s.log.frames1 && s'.log.bs == s.log.bs
    ensures s'.accepted == s.accepted && s'.stored == s.stored
  {
  }

  lemma StoreMoves(s: Sys, s': Sys)
    requires Inv(s) && s.consumer.InFlight? && s' == Do(s, Store(true))
    ensures s.log.bs <= |s.log.ring.data| && s'.stored == s.stored + [StoredBlock(s.log.ring.data[..s.log.bs], s.failures)]
    ensures s'.log == s.log && s'.accepted == s.accepted && !s'.consumer.InFlight?
  {
  }

  lemma StoreStamps(s: Sys, s': Sys, b: StoredBlock)
    requires Stamps(s) && s.consumer.InFlight? && s.log.bs <= |s.log.ring.data| && b.bytes == s.log.ring.data[..s.log.bs]
    requires s'.stored == s.stored + [b] && s'.log == s.log && s'.accepted == s.accepted && !s'.consumer.InFlight?
    ensures Stamps(s')
  {
    CardStampSnoc(s.log.bs, s.accepted, s.stored, b);
  }

  lemma EveryActionStamps(s: Sys, a: Action)
    requires Inv(s) && Stamps(s)
    ensures Stamps(Do(s, a))
  {
    match a
    case ProducerMoves => ProducerStamps(s, Do(s, a));
    case ConsumerMoves => ConsumerStamps(s, Do(s, a));
    case Store(ok) =>
      if ok && s.consumer.InFlight? {
        StoreMoves(s, Do(s, a));
        StoreStamps(s, Do(s, a), StoredBlock(s.log.ring.data[..s.log.bs], s.failures));
      }
    case BeginAdd(_) | BeginFill =>
  }

  lemma {:induction false} EveryRunStamps(s: Sys, acts: seq<Action>)
    requires Inv(s) && Stamps(s)
    ensures Stamps(Run(s, acts))
    decreases |acts|
  {
    if acts != [] {
      EveryActionKeeps(s, acts[0]);
      EveryActionStamps(s, acts[0]);
      EveryRunStamps(Do(s, acts[0]), acts[1..]);
    }
  }

  /**
   * From start-up, however the tasks interleave and whichever stores fail: the frame counter in the header of every
   * stored block is, modulo 2^32, the number of frames among the first entries accepted, as many as there were when the
   * block was handed out, and these contain all entries of the card up to and including that block.
   */
  lemma StoredIngressCounts(s: Sys, acts: seq<Action>, i: nat)
    requires Init(s) && i < |Run(s, acts).stored|
    ensures var t := Run(s, acts); Stamped(t.accepted, StoredEntries(t.log.bs, t.stored[..i + 1]), t.stored[i].bytes)
    ensures Run(s, acts).log.frames1 == Frames(Run(s, acts).accepted)
  {
    InitInv(s);
    EveryRunStamps(s, acts);
    var t := Run(s, acts);
    assert BlockStamped(t.log.bs, t.accepted, t.stored, i);
  }
}
