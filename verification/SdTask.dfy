/** The SD task: drains ready blocks from the staging buffer into the log files. */
module SdTask {
  import opened Wire
  import opened BlockFormat
  import opened BlockRing
  import opened LogSteps
  import opened LogSystem
  import opened LogCalls
  import opened CanLogBuffer
  import opened FileRing
  import HostDecoder

  function EntriesOf(blocks: seq<Block>): seq<Entry> {
    if blocks == [] then [] else EntriesOf(blocks[..|blocks| - 1]) + Body(blocks[|blocks| - 1])
  }

  lemma EntriesOfAppend(blocks: seq<Block>, b: Block)
    ensures EntriesOf(blocks + [b]) == EntriesOf(blocks) + Body(b)
  {
    assert (blocks + [b])[..|blocks|] == blocks;
  }

  /** Moving the head block from the ring to the files moves its entries and nothing else. */
  lemma BlockMoves(before: seq<Block>, bs: nat, d: seq<byte>)
    requires 0 < bs <= |d|
    ensures EntriesOf(before + [d[..bs]]) + Decode(bs, d[bs..]) == EntriesOf(before) + Decode(bs, d)
  {
    EntriesOfAppend(before, d[..bs]);
    DecodeHead(bs, d);
    Associate(EntriesOf(before), Body(d[..bs]), Decode(bs, d[bs..]));
  }

  lemma {:induction false} StoredAreEntries(bs: nat, stored: seq<StoredBlock>)
    ensures EntriesOf(HostDecoder.BytesFrom(stored, 0)) == StoredEntries(bs, stored)
  {
    if stored != [] {
      var k := |stored| - 1;
      StoredAreEntries(bs, stored[..k]);
      assert HostDecoder.BytesFrom(stored, 0)[..k] == HostDecoder.BytesFrom(stored[..k], 0);
    }
  }

  lemma LastOut<T>(a: seq<T>, b: seq<T>)
    requires b != []
    ensures a + b == a + b[..|b| - 1] + [b[|b| - 1]]
  {
  }

  lemma {:induction false} EntriesOfConcat(a: seq<Block>, b: seq<Block>)
    ensures EntriesOf(a + b) == EntriesOf(a) + EntriesOf(b)
  {
    if b == [] {
      assert a + b == a;
    } else {
      var k := |b| - 1;
      EntriesOfConcat(a, b[..k]);
      LastOut(a, b);
      EntriesOfAppend(a + b[..k], b[k]);
      Associate(EntriesOf(a), EntriesOf(b[..k]), Body(b[k]));
    }
  }

  /**
   * What the log files of a concurrent run hold: the blocks stored last, as many as the files keep; before their
   * entries come those of the blocks overwritten, after them those in the ring, and together they are what was accepted.
   */
  lemma FilesHoldTheNewestEntries(s: Sys, acts: seq<Action>, before: seq<seq<Block>>, per: nat)
    requires Init(s) && Preallocated(before, per) && 0 < per
    ensures var t := Run(s, acts);
            var blocks := HostDecoder.BytesFrom(t.stored, 0);
            var c := After(before, per, blocks);
            var lost := |blocks| - KeptBlocks(|before|, per, |blocks|);
            && 0 <= lost && ReadOut(c.files, c.tail, c.head, c.pos) == blocks[lost..]
            && t.accepted == EntriesOf(blocks[..lost]) + EntriesOf(blocks[lost..]) + Decode(t.log.bs, Pending(t))
  {
    var t := Run(s, acts);
    var blocks := HostDecoder.BytesFrom(t.stored, 0);
    Lossless(s, acts);
    StoredAreEntries(t.log.bs, t.stored);
    KeepsTheNewest(before, per, blocks);
    var lost := |blocks| - KeptBlocks(|before|, per, |blocks|);
    assert blocks == blocks[..lost] + blocks[lost..];
    EntriesOfConcat(blocks[..lost], blocks[lost..]);
  }

  /** The card takes the first `n` stores. */
  ghost predicate AllTaken(card: nat -> bool, n: nat) {
    forall i: nat :: i < n ==> card(i)
  }

  lemma TakeOne(card: nat -> bool, n: nat)
    requires AllTaken(card, n) && card(n)
    ensures AllTaken(card, n + 1)
  {
  }

  class Task {
    const log: Buffer
    const files: LogFiles

    ghost predicate Valid()
      reads this, log, log.rb, log.rb.buff, files
    {
      log.Valid() && files.Valid() && Aligned(log.State())
    }

    /** Every entry stored since start-up, then every entry still staged. */
    ghost function Logged(): seq<Entry>
      reads this, log, log.rb, log.rb.buff, files
      requires Valid()
    {
      EntriesOf(files.history) + Decode(log.bs, log.rb.v.data)
    }

    constructor (log: Buffer, files: LogFiles)
      requires log.Valid() && files.Valid() && Aligned(log.State())
      ensures Valid() && this.log == log && this.files == files
    {
      this.log, this.files := log, files;
    }

    /** The card took the block at the read address: it goes to the head file and out of the ring. */
    method CommitBlock(frameCount: nat)
      requires Valid() && log.bs <= |log.rb.v.data|
      modifies log`frames2, log.rb`r, log.rb`w, log.rb`v, files
      ensures Valid() && Logged() == old(Logged())
      ensures files.history == old(files.history) + [old(log.rb.v.data)[..log.bs]]
      ensures log.rb.v.data == old(log.rb.v.data)[log.bs..]
      ensures log.frames2 == old(log.frames2) + frameCount
    {
      ghost var s := log.State();
      BlockIsLinear(s);
      log.rb.LinearRegion(log.bs);
      ghost var block := log.rb.v.data[..log.bs];
      var bytes := log.rb.buff[log.rb.r..log.rb.r + log.bs];
      assert bytes == block;
      files.Store(bytes);
      BlockMoves(old(files.history), log.bs, s.ring.data);
      ConsumeCallMeaning(s, frameCount);
      log.Consume(log.bs, frameCount);
    }

    /**
     * appCanLogStoreBlock; `written` is whether the card takes the block. On success exactly the head
     * block moves from the ring to the head file; on failure, also for want of a whole block, nothing moves.
     */
    method StoreBlock(written: bool) returns (ok: bool, ghost block: Block)
      requires Valid()
      modifies log, log.rb, log.rb.buff, files
      ensures Valid() && Logged() == old(Logged())
      ensures ok <==> written && log.bs <= |old(log.rb.v.data)| && Body(old(log.rb.v.data)[..log.bs]) != []
      ensures ok ==> log.rb.v.data == old(log.rb.v.data[log.bs..])
      ensures ok ==> log.frames2 == old(log.frames2) + Frames(Body(old(log.rb.v.data)[..log.bs]))
      ensures ok ==> files.history == old(files.history) + [block] && SelfDescribed(log.bs, block)
      ensures !ok ==> files.history == old(files.history) && |log.rb.v.data| == old(|log.rb.v.data|)
      ensures !ok && log.bs <= |log.rb.v.data| ==> Body(log.rb.v.data[..log.bs]) == Body(old(log.rb.v.data)[..log.bs])
      ensures |old(log.rb.v.data)| < log.bs ==> log.rb.v.data == old(log.rb.v.data)
    {
      ghost var s0 := log.State();
      var frameCount := log.ReadNextBlock();
      ghost var s1 := log.State();
      if |s0.ring.data| < log.bs {
        ShortCallMeaning(s0, s1, if frameCount.Some? then InFlight(frameCount.value) else ReadFailed);
      } else {
        ReadCallMeaning(s0, s1, if frameCount.Some? then InFlight(frameCount.value) else ReadFailed);
      }
      block := if |s1.ring.data| < log.bs then [] else s1.ring.data[..log.bs];
      if frameCount.None? || !written {
        return false, block;
      }
      CommitBlock(frameCount.value);
      return true, block;
    }

    /**
     * SdBridgeTask_ActionHook; `card` says which stores the card will take, in order. Every whole block is
     * stored, up to the first that the card does not take or that holds no entry.
     */
    method ActionHook(card: nat -> bool) returns (drained: bool, ghost n: nat)
      requires Valid()
      modifies log, log.rb, log.rb.buff, files
      ensures Valid() && Logged() == old(Logged()) && |files.history| == |old(files.history)| + n
      ensures AllTaken(card, n)
      ensures drained <==> |log.rb.v.data| < log.bs
      ensures !drained ==> !card(n) || Body(log.rb.v.data[..log.bs]) == []
    {
      var ready := true;
      var k: nat := 0;
      while ready
        invariant Valid() && Logged() == old(Logged()) && |files.history| == |old(files.history)| + k
        invariant AllTaken(card, k)
        invariant !ready ==> |log.rb.v.data| < log.bs
        decreases |log.rb.v.data|, ready
      {
        ready := log.IsBlockReady();
        AlignedIsReady(log.State());
        if ready {
          var written := card(k);
          var ok, _ := StoreBlock(written);
          if !ok {
            return false, k;
          }
          TakeOne(card, k);
          k := k + 1;
        }
      }
      return true, k;
    }
  }

  /** At a block boundary a block is ready exactly when a whole one has been written. */
  lemma AlignedIsReady(s: LogState)
    requires Aligned(s)
    ensures BlockReady(s) <==> s.bs <= |s.ring.data|
  {
    if s.bs <= |s.ring.data| {
      BlockIsLinear(s);
    }
  }
}
