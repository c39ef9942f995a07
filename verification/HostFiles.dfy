/**
 * The host on the log files themselves: it joins them whole, in the order of their numbers, so behind the newest
 * block it comes upon whatever the ring of files holds there.
 */
module HostFiles {
  import opened Wire
  import opened BlockFormat
  import opened BlockRing
  import opened LogSteps
  import opened LogSystem
  import opened HostDecoder
  import opened LogScenarios
  import FileRing

  // ---------------------------------------------------------------- blocks end to end

  /** A block whose header says how long it is, and that it is not empty. */
  predicate Whole(b: seq<byte>) {
    && ReadBlockHeader(b).Some? && HEADER_SIZE <= |b|
    && ReadBlockHeader(b).value.blockSize == |b| && HEADER_SIZE < ReadBlockHeader(b).value.blockFill
  }

  predicate WholeAt(blocks: seq<seq<byte>>, i: nat)
    requires i < |blocks|
  {
    Whole(blocks[i])
  }

  predicate AllWhole(blocks: seq<seq<byte>>) {
    forall i :: 0 <= i < |blocks| ==> WholeAt(blocks, i)
  }

  function SeenIn(b: seq<byte>): Seen {
    var h := ReadBlockHeader(b);
    if h.None? then Start else After(h.value.epoch, h.value.cnt)
  }

  function LastSeen(blocks: seq<seq<byte>>, prev: Seen): Seen {
    if blocks == [] then prev else SeenIn(blocks[|blocks| - 1])
  }

  /** The block passes the gap check after `prev`. */
  predicate Chains(prev: Seen, b: seq<byte>) {
    ReadBlockHeader(b).Some? && Follows(prev, ReadBlockHeader(b).value)
  }

  /** How many of these blocks the host takes before it stops. */
  function Taken(blocks: seq<seq<byte>>, prev: Seen, mode: OnGap): (n: nat)
    ensures n <= |blocks|
    decreases |blocks|
  {
    if blocks == [] || (mode != GoOnOverGaps && !Chains(prev, blocks[0])) then 0
    else 1 + Taken(blocks[1..], SeenIn(blocks[0]), mode)
  }

  lemma FrontBlock(b: seq<byte>, tail: seq<byte>, prev: Seen, mode: OnGap)
    requires Whole(b)
    ensures var r := HostReads(tail, SeenIn(b), mode);
            HostReads(b + tail, prev, mode) == if mode == GoOnOverGaps || Chains(prev, b) then HostRead([b] + r.blocks, r.aborted)
                                               else HostRead([], mode == AbortAtGap)
  {
    HeaderPrefix(b, tail);
    assert (b + tail)[..|b|] == b && (b + tail)[|b|..] == tail;
  }

  /** What the host has read of `blocks`, if it takes the first `n`, and then of what follows them. */
  function ReadAll(blocks: seq<seq<byte>>, n: nat, r: HostRead, mode: OnGap): HostRead
    requires n <= |blocks|
  {
    if n == |blocks| then HostRead(blocks + r.blocks, r.aborted) else HostRead(blocks[..n], mode == AbortAtGap)
  }

  lemma ReadOneMore(b: seq<byte>, more: seq<seq<byte>>, n: nat, r: HostRead, mode: OnGap)
    requires n <= |more|
    ensures var x := ReadAll(more, n, r, mode); ReadAll([b] + more, n + 1, r, mode) == HostRead([b] + x.blocks, x.aborted)
  {
    assert [b] + (more + r.blocks) == [b] + more + r.blocks;
    assert ([b] + more)[..n + 1] == [b] + more[..n];
  }

  lemma RestIsWhole(blocks: seq<seq<byte>>)
    requires AllWhole(blocks) && blocks != []
    ensures Whole(blocks[0]) && AllWhole(blocks[1..])
  {
    assert WholeAt(blocks, 0);
    forall i | 0 <= i < |blocks[1..]|
      ensures WholeAt(blocks[1..], i)
    {
      assert WholeAt(blocks, i + 1);
    }
  }

  /** What the host makes of blocks end to end, whatever comes after them. */
  lemma {:induction false} ReadsBlocks(blocks: seq<seq<byte>>, rest: seq<byte>, prev: Seen, mode: OnGap)
    requires AllWhole(blocks)
    ensures HostReads(Concat(blocks) + rest, prev, mode)
         == ReadAll(blocks, Taken(blocks, prev, mode), HostReads(rest, LastSeen(blocks, prev), mode), mode)
    decreases |blocks|
  {
    if blocks == [] {
      var r := HostReads(rest, prev, mode);
      assert Concat(blocks) + rest == rest && [] + r.blocks == r.blocks;
    } else {
      var b, more := blocks[0], blocks[1..];
      RestIsWhole(blocks);
      assert blocks == [b] + more;
      ReadsBlocks(more, rest, SeenIn(b), mode);
      assert Concat(blocks) + rest == b + (Concat(more) + rest);
      FrontBlock(b, Concat(more) + rest, prev, mode);
      ReadOneMore(b, more, Taken(more, SeenIn(b), mode), HostReads(rest, LastSeen(more, SeenIn(b)), mode), mode);
    }
  }

  lemma {:induction false} TakenOfTwo(a: seq<seq<byte>>, b: seq<seq<byte>>, prev: Seen, mode: OnGap)
    ensures Taken(a + b, prev, mode) ==
              if Taken(a, prev, mode) < |a| then Taken(a, prev, mode) else |a| + Taken(b, LastSeen(a, prev), mode)
    decreases |a|
  {
    if a == [] {
      assert a + b == b;
    } else {
      assert (a + b)[1..] == a[1..] + b;
      TakenOfTwo(a[1..], b, SeenIn(a[0]), mode);
    }
  }

  predicate LinkAt(blocks: seq<seq<byte>>, j: nat)
    requires 0 < j < |blocks|
  {
    Chains(SeenIn(blocks[j - 1]), blocks[j])
  }

  /** Each block chains to the one before it. */
  predicate Chained(blocks: seq<seq<byte>>) {
    forall j :: 0 < j < |blocks| ==> LinkAt(blocks, j)
  }

  lemma {:induction false} TakenWhole(blocks: seq<seq<byte>>, prev: Seen, mode: OnGap)
    ensures Taken(blocks, prev, mode) == |blocks| <==>
              mode == GoOnOverGaps || ((blocks == [] || Chains(prev, blocks[0])) && Chained(blocks))
    decreases |blocks|
  {
    if blocks != [] {
      var more := blocks[1..];
      TakenWhole(more, SeenIn(blocks[0]), mode);
      if more != [] && Chains(SeenIn(blocks[0]), more[0]) && Chained(more) {
        forall j | 0 < j < |blocks|
          ensures LinkAt(blocks, j)
        {
          assert j > 1 ==> LinkAt(more, j - 1);
        }
      }
      if Chained(blocks) {
        forall j | 0 < j < |more|
          ensures LinkAt(more, j)
        {
          assert LinkAt(blocks, j + 1);
        }
        assert more != [] ==> LinkAt(blocks, 1);
      }
    }
  }

  // ---------------------------------------------------------------- the log files

  /** The log files, joined. */
  function Joined(c: FileRing.LogRing): seq<byte> {
    Concat(FileRing.Flatten(c.files))
  }

  lemma ReadsEnd(blocks: seq<seq<byte>>, mode: OnGap)
    requires AllWhole(blocks)
    ensures var n := Taken(blocks, Start, mode);
            HostReads(Concat(blocks), Start, mode) == HostRead(blocks[..n], n < |blocks| && mode == AbortAtGap)
  {
    ReadsBlocks(blocks, [], Start, mode);
    assert Concat(blocks) + [] == Concat(blocks);
    assert blocks[..|blocks|] == blocks && blocks + [] == blocks;
  }

  /** All of these blocks are yielded exactly when they chain, or gaps do not matter. */
  lemma ReadsThrough(blocks: seq<seq<byte>>, mode: OnGap, r: HostRead)
    requires AllWhole(blocks) && blocks != [] && r == HostReads(Concat(blocks), Start, mode)
    ensures r.blocks <= blocks && (|r.blocks| == |blocks| <==> mode == GoOnOverGaps || Chained(blocks))
    ensures r.aborted <==> mode == AbortAtGap && |r.blocks| < |blocks|
  {
    ReadsEnd(blocks, mode);
    TakenWhole(blocks, Start, mode);
    RestIsWhole(blocks);
  }

  /** The host stops after the first `cut` blocks exactly when they chain and the next one does not. */
  lemma ReadsUpTo(blocks: seq<seq<byte>>, cut: nat, mode: OnGap, r: HostRead)
    requires AllWhole(blocks) && 0 < cut < |blocks| && r == HostReads(Concat(blocks), Start, mode)
    ensures r.blocks <= blocks
    ensures |r.blocks| == cut <==> mode != GoOnOverGaps && Chained(blocks[..cut]) && !LinkAt(blocks, cut)
  {
    ReadsEnd(blocks, mode);
    assert blocks == blocks[..cut] + blocks[cut..];
    TakenOfTwo(blocks[..cut], blocks[cut..], Start, mode);
    TakenWhole(blocks[..cut], Start, mode);
    RestIsWhole(blocks);
  }

  lemma StretchIsWhole(blocks: seq<seq<byte>>, i: nat, j: nat)
    requires AllWhole(blocks) && i <= j <= |blocks|
    ensures AllWhole(blocks[i..j])
  {
    forall k | 0 <= k < j - i
      ensures WholeAt(blocks[i..j], k)
    {
      assert WholeAt(blocks, i + k);
    }
  }

  lemma BothAreWhole(a: seq<seq<byte>>, b: seq<seq<byte>>)
    requires AllWhole(a) && AllWhole(b)
    ensures AllWhole(a + b)
  {
    forall k | 0 <= k < |a + b|
      ensures WholeAt(a + b, k)
    {
      assert if k < |a| then WholeAt(a, k) else WholeAt(b, k - |a|);
    }
  }

  /** The blocks from the i-th on, and behind them those from the j-th to there: the host stops after the last block
      exactly when the first of them chain, and the j-th does not chain to the last. */
  lemma SeamRead(blocks: seq<seq<byte>>, i: nat, j: nat, mode: OnGap, laps: seq<seq<byte>>, r: HostRead)
    requires AllWhole(blocks) && j < i < |blocks| && laps == blocks[i..] + blocks[j..i] && r == HostReads(Concat(laps), Start, mode)
    ensures r.blocks <= laps
    ensures |r.blocks| == |blocks| - i <==>
              mode != GoOnOverGaps && Chained(blocks[i..]) && !Chains(SeenIn(blocks[|blocks| - 1]), blocks[j])
  {
    StretchIsWhole(blocks, i, |blocks|);
    StretchIsWhole(blocks, j, i);
    assert blocks[i..] == blocks[i..|blocks|];
    BothAreWhole(blocks[i..], blocks[j..i]);
    ReadsUpTo(laps, |blocks| - i, mode, r);
    assert laps[..|blocks| - i] == blocks[i..];
  }

  lemma LapRead(blocks: seq<seq<byte>>, j: nat, mode: OnGap, laps: seq<seq<byte>>, r: HostRead)
    requires AllWhole(blocks) && j < |blocks| && laps == blocks[j..] && r == HostReads(Concat(laps), Start, mode)
    ensures r.blocks <= laps && (|r.blocks| == |blocks| - j <==> mode == GoOnOverGaps || Chained(blocks[j..]))
  {
    StretchIsWhole(blocks, j, |blocks|);
    assert blocks[j..] == blocks[j..|blocks|];
    ReadsThrough(laps, mode, r);
  }

  /** The host stops just behind the newest block, `k` blocks into the lap, with the block of a lap before behind it. */
  predicate StopsAtNewest(blocks: seq<seq<byte>>, all: nat, k: nat, mode: OnGap)
    requires 0 < k <= all <= |blocks|
  {
    var n := |blocks|;
    mode != GoOnOverGaps && Chained(blocks[n - k..]) && !Chains(SeenIn(blocks[n - 1]), blocks[n - all])
  }

  /** What the host makes of files that have been full: of the current lap, and behind it the rest of the lap before. */
  lemma FilesRead(blocks: seq<seq<byte>>, laps: seq<seq<byte>>, all: nat, k: nat, mode: OnGap, r: HostRead)
    requires AllWhole(blocks) && k < all <= |blocks| && r == HostReads(Concat(laps), Start, mode)
    requires laps == blocks[|blocks| - k..] + blocks[|blocks| - all..|blocks| - k]
    ensures r.blocks <= laps
    ensures 0 < k ==> (|r.blocks| == k <==> StopsAtNewest(blocks, all, k, mode))
    ensures k == 0 ==> (|r.blocks| == all <==> mode == GoOnOverGaps || Chained(blocks[|blocks| - all..]))
  {
    var n := |blocks|;
    if k == 0 {
      assert laps == blocks[n - all..];
      LapRead(blocks, n - all, mode, laps, r);
    } else {
      SeamRead(blocks, n - k, n - all, mode, laps, r);
    }
  }

  // ---------------------------------------------------------------- stored blocks

  lemma StoredAreWhole(s: Sys)
    requires CardOk(s)
    ensures AllWhole(BytesFrom(s.stored, 0))
  {
    forall i | 0 <= i < |s.stored|
      ensures WholeAt(BytesFrom(s.stored, 0), i)
    {
      StoredIsWhole(s, i);
    }
  }

  lemma StoredIsWhole(s: Sys, i: nat)
    requires CardOk(s) && i < |s.stored|
    ensures Whole(s.stored[i].bytes)
  {
    assert StoredOk(s.log, s.stored[i], i);
    var b := s.stored[i].bytes;
    EntriesCoverBytes(b[HEADER_SIZE..]);
    assert |Rest(b[HEADER_SIZE..])| <= |b[HEADER_SIZE..]|;
  }

  /** No block was written before fewer stores had failed than before the one ahead of it. */
  predicate FailuresInOrder(stored: seq<StoredBlock>) {
    forall i :: 0 < i < |stored| ==> FailedSince(stored, i)
  }

  lemma {:induction false} FailuresGrow(stored: seq<StoredBlock>, i: nat, j: nat)
    requires FailuresInOrder(stored) && i <= j < |stored|
    ensures stored[i].failed <= stored[j].failed
    decreases j - i
  {
    if i < j {
      FailuresGrow(stored, i, j - 1);
      assert FailedSince(stored, j);
    }
  }

  /** Stores from the i-th stored block to the last, failed ones in between included. */
  function StoresSince(stored: seq<StoredBlock>, i: nat): nat
    requires i < |stored|
  {
    var d := |stored| - i + stored[|stored| - 1].failed - stored[i].failed;
    if d < 0 then 0 else d
  }

  lemma CountersMeet(a: BlockHeader, b: BlockHeader, i: nat, f: nat, j: nat, g: nat)
    requires a.cnt as nat == Remainder(i + f, 0x100) && b.cnt as nat == Remainder(j + g, 0x100) && a.epoch == b.epoch
    requires i <= j && f <= g
    ensures Follows(After(b.epoch, b.cnt), a) <==> Remainder(j + 1 - i + g - f, 0x100) == 0
  {
    NextCount(j + g);
    SameRemainder(i + f, j + 1 - i + g - f, 0x100);
  }

  /** The i-th stored block carries i plus the stores failed before it, modulo 256. */
  ghost predicate CountedAt(stored: seq<StoredBlock>, epoch: byte, i: nat)
    requires i < |stored|
  {
    var h := ReadBlockHeader(stored[i].bytes);
    h.Some? && h.value.cnt as nat == Remainder(i + stored[i].failed, 0x100) && h.value.epoch == epoch
  }

  ghost predicate Counted(stored: seq<StoredBlock>, epoch: byte) {
    FailuresInOrder(stored) && forall i :: 0 <= i < |stored| ==> CountedAt(stored, epoch, i)
  }

  lemma CardIsCounted(s: Sys)
    requires CardOk(s)
    ensures Counted(s.stored, s.log.epoch)
  {
    forall i | 0 <= i < |s.stored|
      ensures CountedAt(s.stored, s.log.epoch, i)
    {
      assert StoredOk(s.log, s.stored[i], i);
    }
  }

  /** The j-th block chains to the last exactly if the stores since, failed ones included, are a multiple of 256. */
  predicate SeamAt(stored: seq<StoredBlock>, j: nat)
    requires j < |stored|
  {
    Chains(SeenIn(stored[|stored| - 1].bytes), stored[j].bytes) <==> Remainder(StoresSince(stored, j), 0x100) == 0
  }

  lemma SeamChains(stored: seq<StoredBlock>, epoch: byte, j: nat)
    requires Counted(stored, epoch) && j < |stored|
    ensures SeamAt(stored, j)
  {
    var n := |stored|;
    FailuresGrow(stored, j, n - 1);
    assert CountedAt(stored, epoch, j) && CountedAt(stored, epoch, n - 1);
    SeamMeets(stored[j], stored[n - 1], j, n - 1);
  }

  lemma SeamMeets(a: StoredBlock, b: StoredBlock, i: nat, j: nat)
    requires ReadBlockHeader(a.bytes).Some? && ReadBlockHeader(b.bytes).Some? && i <= j && a.failed <= b.failed
    requires HeaderOf(a).epoch == HeaderOf(b).epoch
    requires HeaderOf(a).cnt as nat == Remainder(i + a.failed, 0x100) && HeaderOf(b).cnt as nat == Remainder(j + b.failed, 0x100)
    ensures Chains(SeenIn(b.bytes), a.bytes) <==> Remainder(j + 1 - i + b.failed - a.failed, 0x100) == 0
  {
    CountersMeet(HeaderOf(a), HeaderOf(b), i, a.failed, j, b.failed);
  }

  lemma NeighboursChain(s: Sys, m: nat)
    requires CardOk(s) && 0 < m < |s.stored|
    ensures Chains(SeenIn(s.stored[m - 1].bytes), s.stored[m].bytes) <==> GapFree(s.stored, m)
  {
    CounterFollows(s, m);
  }

  /** Each stored block chains to the one before it exactly as its failures say. */
  ghost predicate LinksAreGaps(stored: seq<StoredBlock>) {
    forall m: nat :: 0 < m < |stored| ==>
      (GapFree(stored, m) <==> Chains(SeenIn(stored[m - 1].bytes), stored[m].bytes))
  }

  lemma StretchChained(stored: seq<StoredBlock>, i: nat)
    requires LinksAreGaps(stored) && i <= |stored|
    ensures Chained(BytesFrom(stored, 0)[i..]) <==> Unbroken(stored, i)
  {
    var part := BytesFrom(stored, 0)[i..];
    forall m: nat | i < m < |stored|
      ensures LinkAt(part, m - i) <==> GapFree(stored, m)
    {
    }
    if Unbroken(stored, i) {
      forall k | 0 < k < |part|
        ensures LinkAt(part, k)
      {
        assert GapFree(stored, i + k);
      }
    }
    if Chained(part) {
      forall m | i < m < |stored|
        ensures GapFree(stored, m)
      {
        assert LinkAt(part, m - i);
      }
    }
  }

  /** From the i-th block on the counters chain exactly if no failures leave a gap. */
  predicate StretchIs(stored: seq<StoredBlock>, blocks: seq<seq<byte>>, i: nat)
    requires i <= |blocks|
  {
    Chained(blocks[i..]) <==> Unbroken(stored, i)
  }

  /** The j-th block chains to the last exactly if the stores since, failed ones included, are a multiple of 256. */
  predicate SeamIs(stored: seq<StoredBlock>, blocks: seq<seq<byte>>, j: nat)
    requires j < |blocks| == |stored|
  {
    Chains(SeenIn(blocks[|blocks| - 1]), blocks[j]) <==> Remainder(StoresSince(stored, j), 0x100) == 0
  }

  /** The blocks of a card, and what the host's check sees in them. */
  ghost predicate Card(stored: seq<StoredBlock>, blocks: seq<seq<byte>>) {
    && |blocks| == |stored| && AllWhole(blocks)
    && (forall i :: 0 <= i <= |blocks| ==> StretchIs(stored, blocks, i))
    && (forall j :: 0 <= j < |blocks| ==> SeamIs(stored, blocks, j))
  }

  lemma CardLinks(t: Sys)
    requires CardOk(t)
    ensures LinksAreGaps(t.stored)
  {
    forall m: nat | 0 < m < |t.stored|
      ensures GapFree(t.stored, m) <==> Chains(SeenIn(t.stored[m - 1].bytes), t.stored[m].bytes)
    {
      NeighboursChain(t, m);
    }
  }

  /** What a run leaves on the card is such a card. */
  lemma RunLeavesCard(s: Sys, acts: seq<Action>)
    requires Init(s)
    ensures Card(Run(s, acts).stored, BytesFrom(Run(s, acts).stored, 0))
  {
    StoredBlocksAreDescribed(s, acts);
    DescribedIsCard(Run(s, acts));
  }

  lemma DescribedIsCard(t: Sys)
    requires CardOk(t)
    ensures Card(t.stored, BytesFrom(t.stored, 0))
  {
    StoredAreWhole(t);
    CardLinks(t);
    Stretches(t.stored, BytesFrom(t.stored, 0));
    CardIsCounted(t);
    Seams(t.stored, t.log.epoch);
    SeamsShow(t.stored, BytesFrom(t.stored, 0));
  }

  lemma Stretches(stored: seq<StoredBlock>, blocks: seq<seq<byte>>)
    requires LinksAreGaps(stored) && blocks == BytesFrom(stored, 0)
    ensures forall i :: 0 <= i <= |blocks| ==> StretchIs(stored, blocks, i)
  {
    forall i | 0 <= i <= |blocks|
      ensures StretchIs(stored, blocks, i)
    {
      StretchChained(stored, i);
    }
  }

  lemma Seams(stored: seq<StoredBlock>, epoch: byte)
    requires Counted(stored, epoch)
    ensures forall j :: 0 <= j < |stored| ==> SeamAt(stored, j)
  {
    forall j | 0 <= j < |stored|
      ensures SeamAt(stored, j)
    {
      SeamChains(stored, epoch, j);
    }
  }

  lemma SeamsShow(stored: seq<StoredBlock>, blocks: seq<seq<byte>>)
    requires (forall j :: 0 <= j < |stored| ==> SeamAt(stored, j)) && blocks == BytesFrom(stored, 0)
    ensures forall j :: 0 <= j < |blocks| ==> SeamIs(stored, blocks, j)
  {
    forall j | 0 <= j < |blocks|
      ensures SeamIs(stored, blocks, j)
    {
      assert SeamAt(stored, j);
    }
  }

  // ---------------------------------------------------------------- main results

  /** No failed store leaves a gap in the last `k` blocks, and from the block a lap before the next one on the stores,
      failed ones included, are no multiple of 256. */
  predicate SeamShows(stored: seq<StoredBlock>, all: nat, k: nat)
    requires 0 < k <= all <= |stored|
  {
    Unbroken(stored, |stored| - k) && Remainder(StoresSince(stored, |stored| - all), 0x100) != 0
  }

  lemma StopsWhenSeamShows(stored: seq<StoredBlock>, blocks: seq<seq<byte>>, all: nat, k: nat, mode: OnGap)
    requires Card(stored, blocks) && 0 < k <= all <= |blocks|
    ensures StopsAtNewest(blocks, all, k, mode) <==> mode != GoOnOverGaps && SeamShows(stored, all, k)
  {
    assert StretchIs(stored, blocks, |blocks| - k) && SeamIs(stored, blocks, |blocks| - all);
  }

  /**
   * Once the files have been full: the host reads the blocks of the current lap, which are the newest, and no others,
   * exactly when it does not go on over gaps, no gap is in the lap, and the stores of a whole lap back, failed ones
   * included, are no multiple of 256. At the end of a lap there is nothing behind the newest block.
   */
  lemma FullFilesRead(stored: seq<StoredBlock>, blocks: seq<seq<byte>>, before: seq<seq<FileRing.Block>>, per: nat, all: nat, k: nat,
                      mode: OnGap, c: FileRing.LogRing, r: HostRead)
    requires Card(stored, blocks) && FileRing.Preallocated(before, per) && 0 < per
    requires all == FileRing.Capacity(|before|, per) <= |blocks| && k == Remainder(|blocks|, all)
    requires c == FileRing.After(before, per, blocks) && r == HostReads(Joined(c), Start, mode)
    ensures FileRing.Flatten(c.files) == blocks[|blocks| - k..] + blocks[|blocks| - all..|blocks| - k]
    ensures r.blocks <= FileRing.Flatten(c.files)
    ensures 0 < k ==> (|r.blocks| == k <==> mode != GoOnOverGaps && SeamShows(stored, all, k))
    ensures k == 0 ==> (|r.blocks| == all <==> mode == GoOnOverGaps || Unbroken(stored, |blocks| - all))
  {
    FileRing.FullFilesHold(before, per, blocks, all, k, c);
    FilesRead(blocks, FileRing.Flatten(c.files), all, k, mode, r);
    if 0 < k {
      StopsWhenSeamShows(stored, blocks, all, k, mode);
    } else {
      assert StretchIs(stored, blocks, |blocks| - all);
    }
  }

  // ---------------------------------------------------------------- a lap of a multiple of 256 stores

  lemma ChainedStretch(blocks: seq<seq<byte>>, i: nat, j: nat)
    requires Chained(blocks) && i <= j <= |blocks|
    ensures Chained(blocks[i..j])
  {
    forall k | 0 < k < j - i
      ensures LinkAt(blocks[i..j], k)
    {
      assert LinkAt(blocks, i + k);
    }
  }

  lemma ChainedJoin(a: seq<seq<byte>>, b: seq<seq<byte>>)
    requires Chained(a) && Chained(b) && (a != [] && b != [] ==> Chains(SeenIn(a[|a| - 1]), b[0]))
    ensures Chained(a + b)
  {
    forall k | 0 < k < |a + b|
      ensures LinkAt(a + b, k)
    {
      assert k < |a| ==> LinkAt(a, k);
      assert k > |a| ==> LinkAt(b, k - |a|);
    }
  }

  /** No store has failed before any of these blocks. */
  predicate NoneFailed(stored: seq<StoredBlock>) {
    forall i :: 0 <= i < |stored| ==> stored[i].failed == 0
  }

  lemma NoFailureNoneFailed(t: Sys)
    requires CardOk(t) && t.failures == 0
    ensures NoneFailed(t.stored)
  {
  }

  lemma LapsChain(stored: seq<StoredBlock>, blocks: seq<seq<byte>>, i: nat, j: nat, laps: seq<seq<byte>>)
    requires Card(stored, blocks) && NoneFailed(stored) && j <= i <= |blocks|
    requires j < |blocks| && Remainder(|blocks| - j, 0x100) == 0 && laps == blocks[i..] + blocks[j..i]
    ensures Chained(laps)
  {
    assert StretchIs(stored, blocks, 0) && SeamIs(stored, blocks, j);
    assert blocks[0..] == blocks;
    ChainedStretch(blocks, i, |blocks|);
    ChainedStretch(blocks, j, i);
    assert blocks[i..] == blocks[i..|blocks|];
    ChainedJoin(blocks[i..|blocks|], blocks[j..i]);
  }

  /**
   * Where the lap is a multiple of 256 blocks and no store has failed, no mode of the host notices where the newest
   * block is: it reads on, into what the lap before has left, to the end of the files.
   */
  lemma CrossesIntoStale(stored: seq<StoredBlock>, blocks: seq<seq<byte>>, before: seq<seq<FileRing.Block>>, per: nat, all: nat,
                         k: nat, mode: OnGap, c: FileRing.LogRing, r: HostRead)
    requires Card(stored, blocks) && NoneFailed(stored) && FileRing.Preallocated(before, per) && 0 < per
    requires all == FileRing.Capacity(|before|, per) <= |blocks| && k == Remainder(|blocks|, all) && Remainder(all, 0x100) == 0
    requires c == FileRing.After(before, per, blocks) && r == HostReads(Joined(c), Start, mode)
    ensures r == HostRead(blocks[|blocks| - k..] + blocks[|blocks| - all..|blocks| - k], false)
  {
    FileRing.FullFilesHold(before, per, blocks, all, k, c);
    ReadsOn(stored, blocks, |blocks| - k, |blocks| - all, mode, FileRing.Flatten(c.files), r);
  }

  lemma ReadsOn(stored: seq<StoredBlock>, blocks: seq<seq<byte>>, i: nat, j: nat, mode: OnGap, laps: seq<seq<byte>>, r: HostRead)
    requires Card(stored, blocks) && NoneFailed(stored) && j <= i <= |blocks|
    requires j < |blocks| && Remainder(|blocks| - j, 0x100) == 0
    requires laps == blocks[i..] + blocks[j..i] && r == HostReads(Concat(laps), Start, mode)
    ensures r == HostRead(laps, false)
  {
    LapsChain(stored, blocks, i, j, laps);
    AllRead(blocks, i, j, mode, laps, r);
  }

  lemma AllRead(blocks: seq<seq<byte>>, i: nat, j: nat, mode: OnGap, laps: seq<seq<byte>>, r: HostRead)
    requires AllWhole(blocks) && j <= i <= |blocks| && j < |blocks| && r == HostReads(Concat(laps), Start, mode)
    requires laps == blocks[i..] + blocks[j..i] && Chained(laps)
    ensures r == HostRead(laps, false)
  {
    assert blocks[i..] == blocks[i..|blocks|];
    StretchIsWhole(blocks, i, |blocks|);
    StretchIsWhole(blocks, j, i);
    BothAreWhole(blocks[i..], blocks[j..i]);
    ReadsThrough(laps, mode, r);
  }

  /**
   * For every such ring a run in which the files are filled and one more block is stored, all at the first attempt.
   * The host yields that block, the newest, and behind it without a gap the ones from a lap before: everything is
   * there but the very first block, and in the wrong order.
   */
  lemma RingCrosses(s: Sys, e: Entry, before: seq<seq<FileRing.Block>>, per: nat, all: nat, mode: OnGap)
      returns (t: Sys, r: HostRead)
    requires Init(s) && s.log.bs < s.log.ring.size && WellFormed(e) && HEADER_SIZE + |e| <= s.log.bs
    requires FileRing.Preallocated(before, per) && 0 < per && all == FileRing.Capacity(|before|, per)
    requires 1 < all && Remainder(all, 0x100) == 0
    ensures Reaches(s, t) && t.failures == 0 && |t.stored| == all + 1
    ensures var blocks := BytesFrom(t.stored, 0);
            && r == HostReads(Joined(FileRing.After(before, per, blocks)), Start, mode)
            && r == HostRead(blocks[all..] + blocks[1..all], false)
  {
    t := BlocksStored(s, e, all + 1);
    var blocks := BytesFrom(t.stored, 0);
    r := HostReads(Joined(FileRing.After(before, per, blocks)), Start, mode);
    OneMore(all);
    NoFailureNoneFailed(t);
    DescribedIsCard(t);
    CrossesIntoStale(t.stored, blocks, before, per, all, 1, mode, FileRing.After(before, per, blocks), r);
  }

  const DEFAULT_FILES := 640
  const DEFAULT_BLOCKS_PER_FILE := 160  // 10 MiB in blocks of 64 KiB

  /** The default ring is one of these: 102400 blocks, 400 times 256. */
  lemma DefaultRingCrosses()
    ensures FileRing.BlocksFor(10 * 1024 * 1024, 65536) == DEFAULT_BLOCKS_PER_FILE
    ensures Remainder(FileRing.Capacity(DEFAULT_FILES, DEFAULT_BLOCKS_PER_FILE), 0x100) == 0
  {
    FileRing.BlocksForIsCeiling(10 * 1024 * 1024, 65536);
    MultipleOf256(400, FileRing.Capacity(DEFAULT_FILES, DEFAULT_BLOCKS_PER_FILE));
  }

  lemma MultipleOf256(n: nat, all: nat)
    requires all == n * 0x100
    ensures Remainder(all, 0x100) == 0
  {
    RemainderOfMultiple(n, 0x100);
  }

  lemma OneMore(all: nat)
    requires 1 < all
    ensures Remainder(all + 1, all) == 1
  {
    assert Remainder(all, all) == 0;
    RemainderSmallAdd(all, 1, all);
  }

  // ---------------------------------------------------------------- the first lap

  /** The host takes the block at the front of `file`: it can be read, is not shorter than its header says, and either
      gaps do not matter or it is not empty, of the same epoch, and counted one on. */
  predicate TakesFront(file: seq<byte>, prev: Seen, mode: OnGap) {
    var h := ReadBlockHeader(file);
    && h.Some? && HEADER_SIZE <= h.value.blockSize <= |file|
    && (mode == GoOnOverGaps
        || (HEADER_SIZE < h.value.blockFill
            && (prev.Start? || (h.value.epoch == prev.epoch && h.value.cnt as nat == (prev.cnt as nat + 1) % 0x100))))
  }

  lemma FrontTaken(file: seq<byte>, prev: Seen, mode: OnGap)
    ensures HostReads(file, prev, mode).blocks != [] <==> TakesFront(file, prev, mode)
  {
  }

  /**
   * Before the files have been full: the host reads exactly the blocks stored when it finds no gap among them, or goes
   * on over gaps, and does not take what lay on the card before behind the last of them.
   */
  lemma FirstLapRead(stored: seq<StoredBlock>, blocks: seq<seq<byte>>, before: seq<seq<FileRing.Block>>, per: nat, mode: OnGap,
                     c: FileRing.LogRing, r: HostRead)
    requires Card(stored, blocks) && FileRing.Preallocated(before, per) && 0 < per
    requires 0 < |blocks| < FileRing.Capacity(|before|, per)
    requires c == FileRing.After(before, per, blocks) && r == HostReads(Joined(c), Start, mode)
    ensures c.head < |c.files| && c.pos <= |c.files[c.head]|
    ensures r.blocks == blocks <==>
              && (mode == GoOnOverGaps || Unbroken(stored, 0))
              && !TakesFront(Concat(FileRing.Behind(c)), SeenIn(blocks[|blocks| - 1]), mode)
  {
    FileRing.FilesHoldLaps(before, per, blocks, FileRing.Capacity(|before|, per));
    assert blocks[0..] == blocks;
    assert StretchIs(stored, blocks, 0);
    BlocksThenRest(blocks, FileRing.Behind(c), mode, r);
  }

  lemma BlocksThenRest(blocks: seq<seq<byte>>, rest: seq<seq<byte>>, mode: OnGap, r: HostRead)
    requires AllWhole(blocks) && blocks != [] && r == HostReads(Concat(blocks + rest), Start, mode)
    ensures r.blocks == blocks <==>
              (mode == GoOnOverGaps || Chained(blocks)) && !TakesFront(Concat(rest), SeenIn(blocks[|blocks| - 1]), mode)
  {
    ConcatConcat(blocks, rest);
    ReadsBlocks(blocks, Concat(rest), Start, mode);
    TakenWhole(blocks, Start, mode);
    RestIsWhole(blocks);
    FrontTaken(Concat(rest), SeenIn(blocks[|blocks| - 1]), mode);
  }

  // ---------------------------------------------------------------- entries

  lemma {:induction false} VisitsConcat(a: seq<seq<byte>>, b: seq<seq<byte>>)
    ensures HostVisits(a + b) == HostVisits(a) + HostVisits(b)
  {
    if b == [] {
      assert a + b == a;
    } else {
      var k := |b| - 1;
      VisitsConcat(a, b[..k]);
      assert (a + b)[..|a + b| - 1] == a + b[..k];
      Associate(HostVisits(a), HostVisits(b[..k]), BlockVisits(b[k]));
    }
  }

  /** The host finds an entry in this block. */
  predicate EntryIn(blocks: seq<seq<byte>>, i: nat)
    requires i < |blocks|
  {
    BlockVisits(blocks[i]) != []
  }

  predicate AllHaveEntries(blocks: seq<seq<byte>>) {
    forall i :: 0 <= i < |blocks| ==> EntryIn(blocks, i)
  }

  lemma {:induction false} MoreBlocksMoreEntries(blocks: seq<seq<byte>>, m: nat, n: nat)
    requires AllHaveEntries(blocks) && m <= n <= |blocks|
    ensures |HostVisits(blocks[..m])| <= |HostVisits(blocks[..n])|
    ensures m < n ==> |HostVisits(blocks[..m])| < |HostVisits(blocks[..n])|
    decreases n - m
  {
    if m < n {
      MoreBlocksMoreEntries(blocks, m, n - 1);
      assert EntryIn(blocks, n - 1);
      OneBlockMore(blocks, n);
    }
  }

  lemma OneBlockMore(blocks: seq<seq<byte>>, n: nat)
    requires 0 < n <= |blocks| && EntryIn(blocks, n - 1)
    ensures |HostVisits(blocks[..n - 1])| < |HostVisits(blocks[..n])|
  {
    assert blocks[..n][..n - 1] == blocks[..n - 1];
  }

  /** Of two numbers of blocks read, the entries are as many exactly if the blocks are. */
  lemma SameCountSameEntries(blocks: seq<seq<byte>>, m: nat, n: nat)
    requires AllHaveEntries(blocks) && m <= |blocks| && n <= |blocks|
    ensures |HostVisits(blocks[..m])| == |HostVisits(blocks[..n])| <==> m == n
  {
    if m <= n {
      MoreBlocksMoreEntries(blocks, m, n);
    } else {
      MoreBlocksMoreEntries(blocks, n, m);
    }
  }

  /** Of the blocks of this card, which entries the first `m` hold, and that there is one in each. */
  lemma CardEntries(bs: nat, stored: seq<StoredBlock>, blocks: seq<seq<byte>>, m: nat)
    requires AllVisited(stored) && NoneEmpty(stored) && blocks == BytesFrom(stored, 0) && m <= |blocks|
    ensures AllHaveEntries(blocks)
    ensures HostVisits(blocks) == StoredEntries(bs, stored)
    ensures HostVisits(blocks[..m]) == StoredEntries(bs, stored[..m])
  {
    VisitedHaveEntries(stored, blocks);
    VisitsAreStored(bs, stored, |blocks|);
    VisitsAreStored(bs, stored, m);
    assert blocks[..|blocks|] == blocks && stored[..|blocks|] == stored;
  }

  lemma VisitedHaveEntries(stored: seq<StoredBlock>, blocks: seq<seq<byte>>)
    requires AllVisited(stored) && NoneEmpty(stored) && blocks == BytesFrom(stored, 0)
    ensures AllHaveEntries(blocks)
  {
    forall i | 0 <= i < |blocks|
      ensures EntryIn(blocks, i)
    {
      assert VisitedWhole(stored[i].bytes) && Body(stored[i].bytes) != [];
    }
  }

  /** If the one in the middle is as long as it should be, it is what it should be. */
  lemma MiddleIsNewest(whole: seq<Entry>, older: seq<Entry>, newest: seq<Entry>, rest: seq<Entry>, x: seq<Entry>)
    requires whole == older + newest + rest && (|x| == |newest| ==> x == newest)
    ensures whole == older + x + rest <==> |x| == |newest|
  {
  }

  /** What is read of the laps, after the entries of the laps before and in front of those in the ring. */
  lemma NewestEntries(laps: seq<seq<byte>>, k: nat, m: nat, older: seq<Entry>, rest: seq<Entry>, whole: seq<Entry>)
    requires AllHaveEntries(laps) && k <= |laps| && m <= |laps| && whole == older + HostVisits(laps[..k]) + rest
    ensures whole == older + HostVisits(laps[..m]) + rest <==> m == k
  {
    SameCountSameEntries(laps, m, k);
    MiddleIsNewest(whole, older, HostVisits(laps[..k]), rest, HostVisits(laps[..m]));
  }

  lemma LapsInBlocks(blocks: seq<seq<byte>>, k: nat, all: nat, laps: seq<seq<byte>>)
    requires k <= all <= |blocks| && laps == blocks[|blocks| - k..] + blocks[|blocks| - all..|blocks| - k]
    requires AllHaveEntries(blocks)
    ensures AllHaveEntries(laps)
  {
    forall i | 0 <= i < |laps|
      ensures EntryIn(laps, i)
    {
      assert EntryIn(blocks, if i < k then |blocks| - k + i else |blocks| - all + i - k);
    }
  }

  lemma FirstLap(blocks: seq<seq<byte>>, k: nat, all: nat, laps: seq<seq<byte>>)
    requires k <= all <= |blocks| && laps == blocks[|blocks| - k..] + blocks[|blocks| - all..|blocks| - k]
    ensures laps[..k] == blocks[|blocks| - k..] && blocks == blocks[..|blocks| - k] + laps[..k]
  {
  }

  lemma VisitsJoin(whole: seq<seq<byte>>, a: seq<seq<byte>>, b: seq<seq<byte>>)
    requires whole == a + b
    ensures HostVisits(whole) == HostVisits(a) + HostVisits(b)
  {
    VisitsConcat(a, b);
  }

  /** The entries of the blocks are the older laps' and, exactly if the host stopped at the newest block, what it read. */
  lemma EntriesOfLaps(blocks: seq<seq<byte>>, laps: seq<seq<byte>>, all: nat, k: nat, m: nat,
                      older: seq<Entry>, rest: seq<Entry>, whole: seq<Entry>)
    requires AllHaveEntries(blocks) && k <= all <= |blocks| && m <= |laps|
    requires laps == blocks[|blocks| - k..] + blocks[|blocks| - all..|blocks| - k]
    requires older == HostVisits(blocks[..|blocks| - k]) && whole == HostVisits(blocks) + rest
    ensures whole == older + HostVisits(laps[..m]) + rest <==> m == k
  {
    FirstLap(blocks, k, all, laps);
    VisitsJoin(blocks, blocks[..|blocks| - k], laps[..k]);
    LapsInBlocks(blocks, k, all, laps);
    NewestEntries(laps, k, m, older, rest, whole);
  }

  /** Every entry on the card can be read, so the host visits each block whole. */
  lemma RunIsVisited(s: Sys, acts: seq<Action>)
    requires Init(s) && OnlyReadable(acts)
    ensures var t := Run(s, acts); AllVisited(t.stored) && NoneEmpty(t.stored)
  {
    var t := Run(s, acts);
    Lossless(s, acts);
    StoredBlocksAreDescribed(s, acts);
    AcceptedAreReadable(s, acts);
    assert forall e :: e in StoredEntries(t.log.bs, t.stored) ==> e in t.accepted;
    StoredAreVisited(t);
    StoredHaveEntries(t);
  }

  lemma RunHasEntries(s: Sys, acts: seq<Action>, t: Sys, blocks: seq<seq<byte>>, m: nat, older: seq<Entry>, rest: seq<Entry>)
    requires Init(s) && OnlyReadable(acts) && t == Run(s, acts) && blocks == BytesFrom(t.stored, 0) && m <= |blocks|
    requires older == StoredEntries(t.log.bs, t.stored[..m]) && rest == Decode(t.log.bs, Pending(t))
    ensures Card(t.stored, blocks) && AllHaveEntries(blocks)
    ensures HostVisits(blocks[..m]) == older && t.accepted == HostVisits(blocks) + rest
  {
    Lossless(s, acts);
    RunLeavesCard(s, acts);
    RunIsVisited(s, acts);
    CardEntries(t.log.bs, t.stored, blocks, m);
  }

  /**
   * End to end, through the ring of files: for every interleaving and every pattern of store failures, once the files
   * have been full and a new lap has begun, the entries accepted are those of the laps before, then what the host reads
   * of the files, then what is still in the ring, exactly when the seam behind the newest block shows.
   */
  lemma HostSeesNewestEntries(s: Sys, acts: seq<Action>, t: Sys, blocks: seq<seq<byte>>, before: seq<seq<FileRing.Block>>, per: nat,
                              all: nat, k: nat, mode: OnGap, c: FileRing.LogRing, r: HostRead)
    requires Init(s) && OnlyReadable(acts) && t == Run(s, acts) && blocks == BytesFrom(t.stored, 0)
    requires FileRing.Preallocated(before, per) && 0 < per
    requires all == FileRing.Capacity(|before|, per) <= |blocks| && k == Remainder(|blocks|, all) != 0
    requires c == FileRing.After(before, per, blocks) && r == HostReads(Joined(c), Start, mode)
    ensures t.accepted == StoredEntries(t.log.bs, t.stored[..|blocks| - k]) + HostVisits(r.blocks) + Decode(t.log.bs, Pending(t))
            <==> mode != GoOnOverGaps && SeamShows(t.stored, all, k)
  {
    var older, rest := StoredEntries(t.log.bs, t.stored[..|blocks| - k]), Decode(t.log.bs, Pending(t));
    RunHasEntries(s, acts, t, blocks, |blocks| - k, older, rest);
    CardShowsEntries(t.stored, blocks, before, per, all, k, mode, c, r, older, rest, t.accepted);
  }

  /** The same at the end of a lap, where no seam is left: the host reads the whole lap exactly when it finds no gap in it. */
  lemma HostSeesWholeLap(s: Sys, acts: seq<Action>, t: Sys, blocks: seq<seq<byte>>, before: seq<seq<FileRing.Block>>, per: nat,
                         all: nat, mode: OnGap, c: FileRing.LogRing, r: HostRead)
    requires Init(s) && OnlyReadable(acts) && t == Run(s, acts) && blocks == BytesFrom(t.stored, 0)
    requires FileRing.Preallocated(before, per) && 0 < per
    requires all == FileRing.Capacity(|before|, per) <= |blocks| && Remainder(|blocks|, all) == 0
    requires c == FileRing.After(before, per, blocks) && r == HostReads(Joined(c), Start, mode)
    ensures t.accepted == StoredEntries(t.log.bs, t.stored[..|blocks| - all]) + HostVisits(r.blocks) + Decode(t.log.bs, Pending(t))
            <==> mode == GoOnOverGaps || Unbroken(t.stored, |blocks| - all)
  {
    var older, rest := StoredEntries(t.log.bs, t.stored[..|blocks| - all]), Decode(t.log.bs, Pending(t));
    RunHasEntries(s, acts, t, blocks, |blocks| - all, older, rest);
    CardShowsLap(t.stored, blocks, before, per, all, mode, c, r, older, rest, t.accepted);
  }

  lemma CardShowsLap(stored: seq<StoredBlock>, blocks: seq<seq<byte>>, before: seq<seq<FileRing.Block>>, per: nat, all: nat,
                     mode: OnGap, c: FileRing.LogRing, r: HostRead, older: seq<Entry>, rest: seq<Entry>, whole: seq<Entry>)
    requires Card(stored, blocks) && AllHaveEntries(blocks)
    requires FileRing.Preallocated(before, per) && 0 < per
    requires all == FileRing.Capacity(|before|, per) <= |blocks| && Remainder(|blocks|, all) == 0
    requires c == FileRing.After(before, per, blocks) && r == HostReads(Joined(c), Start, mode)
    requires HostVisits(blocks[..|blocks| - all]) == older && whole == HostVisits(blocks) + rest
    ensures whole == older + HostVisits(r.blocks) + rest <==> mode == GoOnOverGaps || Unbroken(stored, |blocks| - all)
  {
    FullFilesRead(stored, blocks, before, per, all, 0, mode, c, r);
    WholeLapEntries(blocks, FileRing.Flatten(c.files), all, r, older, rest, whole);
  }

  lemma WholeLapEntries(blocks: seq<seq<byte>>, laps: seq<seq<byte>>, all: nat, r: HostRead,
                        older: seq<Entry>, rest: seq<Entry>, whole: seq<Entry>)
    requires AllHaveEntries(blocks) && all <= |blocks| && r.blocks <= laps
    requires laps == blocks[|blocks|..] + blocks[|blocks| - all..|blocks|]
    requires older == HostVisits(blocks[..|blocks| - all]) && whole == HostVisits(blocks) + rest
    ensures whole == older + HostVisits(r.blocks) + rest <==> |r.blocks| == all
  {
    assert laps == blocks[|blocks| - all..] + blocks[|blocks| - all..|blocks| - all];
    EntriesOfLaps(blocks, laps, all, all, |r.blocks|, older, rest, whole);
    assert r.blocks == laps[..|r.blocks|];
  }

  lemma CardShowsEntries(stored: seq<StoredBlock>, blocks: seq<seq<byte>>, before: seq<seq<FileRing.Block>>, per: nat,
                         all: nat, k: nat, mode: OnGap, c: FileRing.LogRing, r: HostRead,
                         older: seq<Entry>, rest: seq<Entry>, whole: seq<Entry>)
    requires Card(stored, blocks) && AllHaveEntries(blocks)
    requires FileRing.Preallocated(before, per) && 0 < per
    requires all == FileRing.Capacity(|before|, per) <= |blocks| && k == Remainder(|blocks|, all) != 0
    requires c == FileRing.After(before, per, blocks) && r == HostReads(Joined(c), Start, mode)
    requires HostVisits(blocks[..|blocks| - k]) == older && whole == HostVisits(blocks) + rest
    ensures whole == older + HostVisits(r.blocks) + rest <==> mode != GoOnOverGaps && SeamShows(stored, all, k)
  {
    StopsWhenSeamShows(stored, blocks, all, k, mode);
    FilesEntries(blocks, before, per, all, k, mode, c, r, older, rest, whole);
  }

  lemma FilesEntries(blocks: seq<seq<byte>>, before: seq<seq<FileRing.Block>>, per: nat, all: nat, k: nat, mode: OnGap,
                     c: FileRing.LogRing, r: HostRead, older: seq<Entry>, rest: seq<Entry>, whole: seq<Entry>)
    requires AllHaveEntries(blocks) && AllWhole(blocks) && FileRing.Preallocated(before, per) && 0 < per
    requires all == FileRing.Capacity(|before|, per) <= |blocks| && k == Remainder(|blocks|, all) != 0
    requires c == FileRing.After(before, per, blocks) && r == HostReads(Joined(c), Start, mode)
    requires older == HostVisits(blocks[..|blocks| - k]) && whole == HostVisits(blocks) + rest
    ensures whole == older + HostVisits(r.blocks) + rest <==> StopsAtNewest(blocks, all, k, mode)
  {
    FileRing.FullFilesHold(before, per, blocks, all, k, c);
    LapsEntries(blocks, FileRing.Flatten(c.files), all, k, mode, r, older, rest, whole);
  }

  lemma LapsEntries(blocks: seq<seq<byte>>, laps: seq<seq<byte>>, all: nat, k: nat, mode: OnGap, r: HostRead,
                    older: seq<Entry>, rest: seq<Entry>, whole: seq<Entry>)
    requires AllHaveEntries(blocks) && AllWhole(blocks) && 0 < k < all <= |blocks| && r == HostReads(Concat(laps), Start, mode)
    requires laps == blocks[|blocks| - k..] + blocks[|blocks| - all..|blocks| - k]
    requires older == HostVisits(blocks[..|blocks| - k]) && whole == HostVisits(blocks) + rest
    ensures whole == older + HostVisits(r.blocks) + rest <==> StopsAtNewest(blocks, all, k, mode)
  {
    FilesRead(blocks, laps, all, k, mode, r);
    EntriesOfLaps(blocks, laps, all, k, |r.blocks|, older, rest, whole);
    assert r.blocks == laps[..|r.blocks|];
  }
}
