/** The host tools' reading of a log file, against what the firmware stored. */
module HostDecoder {
  import opened Wire
  import opened BlockFormat
  import opened BlockRing
  import opened LogSystem

  // ---------------------------------------------------------------- entries of one block

  /** The entries the host's offset loop visits in the valid part of a block. */
  function HostEntries(s: seq<byte>): seq<Entry>
    decreases |s|
  {
    if |s| < ENTRY_HEADER_SIZE || s[2] == 0 || s[2] as int > |s| then []
    else if s[0] == TYPE_SYNC && s[2] as int < SYNC_SIZE then []
    else if s[0] == TYPE_FRAME && s[2] as int < FRAME_FIXED_SIZE then []
    else [s[..s[2]]] + HostEntries(s[s[2]..])
  }

  /** The entries the loop counts: those of unknown type are stepped over. */
  function CountKnown(es: seq<Entry>): nat {
    if es == [] then 0
    else CountKnown(es[..|es| - 1]) + if es[|es| - 1] != [] && KnownType(es[|es| - 1][0]) then 1 else 0
  }

  lemma {:induction false} AllKnownAreCounted(es: seq<Entry>)
    requires forall e :: e in es ==> e != [] && KnownType(e[0])
    ensures CountKnown(es) == |es|
  {
    if es != [] {
      var rest := es[..|es| - 1];
      assert es[|es| - 1] in es && forall e :: e in rest ==> e in es;
      AllKnownAreCounted(rest);
    }
  }

  /** The loop steps over an entry at `offset`. */
  predicate StepsOver(block: seq<byte>, offset: nat, end: nat)
    requires offset <= end <= |block|
  {
    && offset + ENTRY_HEADER_SIZE <= end && block[offset + 2] != 0 && offset + block[offset + 2] as nat <= end
    && !(block[offset] == TYPE_SYNC && block[offset + 2] as nat < SYNC_SIZE)
    && !(block[offset] == TYPE_FRAME && block[offset + 2] as nat < FRAME_FIXED_SIZE)
  }

  /** What was visited, and counted, up to `offset`. */
  predicate Walked(block: seq<byte>, first: nat, end: nat, offset: nat, visited: seq<Entry>, counted: nat)
    requires first <= offset <= end <= |block|
  {
    visited + HostEntries(block[offset..end]) == HostEntries(block[first..end]) && counted == CountKnown(visited)
  }

  lemma WalkEndsHere(block: seq<byte>, first: nat, end: nat, offset: nat, visited: seq<Entry>, counted: nat)
    requires first <= offset <= end <= |block| && Walked(block, first, end, offset, visited, counted)
    requires !StepsOver(block, offset, end)
    ensures visited == HostEntries(block[first..end])
  {
    var s := block[offset..end];
    assert |s| >= ENTRY_HEADER_SIZE ==> s[2] == block[offset + 2] && s[0] == block[offset];
    assert HostEntries(s) == [];
  }

  /** One turn of the loop at `offset`. */
  lemma WalkGoesOn(block: seq<byte>, first: nat, end: nat, offset: nat, visited: seq<Entry>, counted: nat)
    requires first <= offset <= end <= |block| && Walked(block, first, end, offset, visited, counted)
    requires StepsOver(block, offset, end)
    ensures var n := block[offset + 2] as nat;
            Walked(block, first, end, offset + n, visited + [block[offset..offset + n]],
                   if KnownType(block[offset]) then counted + 1 else counted)
  {
    var s, n := block[offset..end], block[offset + 2] as nat;
    assert s[n..] == block[offset + n..end] && s[..n] == block[offset..offset + n];
    assert (visited + [s[..n]])[..|visited|] == visited;
    Associate(visited, [s[..n]], HostEntries(s[n..]));
  }

  /** The part of a block that block_fill says is valid, without the header. */
  function ValidPart(block: seq<byte>, blockFill: nat): seq<byte> {
    var end := Min(blockFill, |block|);
    if end < HEADER_SIZE then [] else block[HEADER_SIZE..end]
  }

  /** The walk of find_binary_id_gaps_fast. */
  method WalkEntries(block: seq<byte>, header: BlockHeader) returns (visited: seq<Entry>, counted: nat)
    requires header.headerSize as int == HEADER_SIZE <= |block|
    ensures visited == HostEntries(ValidPart(block, header.blockFill)) && counted == CountKnown(visited)
  {
    var end := Min(header.blockFill, |block|);
    if end < header.headerSize as nat {
      return [], 0;
    }
    visited, counted := WalkFrom(block, header.headerSize as nat, end);
  }

  method WalkFrom(block: seq<byte>, first: nat, end: nat) returns (visited: seq<Entry>, counted: nat)
    requires first <= end <= |block|
    ensures visited == HostEntries(block[first..end]) && counted == CountKnown(visited)
  {
    var offset := first;
    visited, counted := [], 0;
    while offset + ENTRY_HEADER_SIZE <= end
      invariant first <= offset <= end
      invariant Walked(block, first, end, offset, visited, counted)
      decreases end - offset
    {
      var entryType, totalLen := block[offset], block[offset + 2] as nat;
      if !StepsOver(block, offset, end) {
        WalkEndsHere(block, first, end, offset, visited, counted);
      }
      if totalLen == 0 || offset + totalLen > end {
        return;
      }
      if entryType == TYPE_SYNC && totalLen < SYNC_SIZE {
        return;
      }
      if entryType == TYPE_FRAME && totalLen < FRAME_FIXED_SIZE {
        return;
      }
      WalkGoesOn(block, first, end, offset, visited, counted);
      visited := visited + [block[offset..offset + totalLen]];
      if KnownType(entryType) {
        counted := counted + 1;
      }
      offset := offset + totalLen;
    }
    WalkEndsHere(block, first, end, offset, visited, counted);
  }

  /** An entry, of whatever type, that the loop steps over. */
  predicate Steppable(e: Entry) {
    && ENTRY_HEADER_SIZE <= |e| && e[2] as int == |e|
    && (e[0] == TYPE_SYNC ==> SYNC_SIZE <= |e|) && (e[0] == TYPE_FRAME ==> FRAME_FIXED_SIZE <= |e|)
  }

  /** The loop visits entries of any type, as many as there are, and stops at what it cannot step over. */
  lemma {:induction false} StepsOverAnyType(es: seq<Entry>, tail: seq<byte>)
    requires (forall e :: e in es ==> Steppable(e)) && !StepsOver(tail, 0, |tail|)
    ensures HostEntries(Concat(es) + tail) == es
  {
    if es == [] {
      assert Concat(es) + tail == tail;
    } else {
      var s, e := Concat(es) + tail, es[0];
      assert e in es;
      assert s[..|e|] == e && s[|e|..] == Concat(es[1..]) + tail;
      assert forall x :: x in es[1..] ==> x in es;
      StepsOverAnyType(es[1..], tail);
    }
  }

  lemma {:induction false} HostReadsConcat(es: seq<Entry>)
    requires forall e :: e in es ==> HostReadable(e)
    ensures HostEntries(Concat(es)) == es
  {
    if es != [] {
      var s, e := Concat(es), es[0];
      assert e in es;
      assert s[..|e|] == e && s[|e|..] == Concat(es[1..]);
      assert forall x :: x in es[1..] ==> x in es;
      HostReadsConcat(es[1..]);
    }
  }

  /** On a block that is described exactly, the host visits exactly the entries the firmware wrote:
      `block_fill` cuts off the padding and nothing else. */
  lemma HostVisitsWhatWasWritten(bs: nat, b: seq<byte>, h: BlockHeader)
    requires Described(bs, b, h) && forall e :: e in Body(b) ==> HostReadable(e)
    ensures HEADER_SIZE < h.blockFill <= bs
    ensures HostEntries(b[HEADER_SIZE..h.blockFill]) == Body(b)
    ensures |HostEntries(b[HEADER_SIZE..h.blockFill])| == h.entriesCount
  {
    var body := b[HEADER_SIZE..];
    EntriesCoverBytes(body);
    assert |Rest(body)| <= |body|;
    DecodeIsExact(body);
    assert Concat(Body(b)) == body[..|body| - |Rest(body)|];
    assert b[HEADER_SIZE..h.blockFill] == body[..|body| - |Rest(body)|];
    HostReadsConcat(Body(b));
  }

  // ---------------------------------------------------------------- chain of blocks

  datatype Seen = Start | After(epoch: byte, cnt: byte)

  predicate Follows(prev: Seen, h: BlockHeader) {
    prev.Start? || (h.epoch == prev.epoch && h.cnt == Increment(prev.cnt))
  }

  /** What gives the generator a reason to call a block a gap. */
  predicate IsGap(prev: Seen, h: BlockHeader) {
    !Follows(prev, h) || h.blockFill <= HEADER_SIZE
  }

  /** continue_on_gap, abort_on_gap, and the default; an abort wins over going on. */
  datatype OnGap = StopAtGap | GoOnOverGaps | AbortAtGap

  /** The blocks yielded, and whether the generator ended by raising. */
  datatype HostRead = HostRead(blocks: seq<seq<byte>>, aborted: bool)

  /** iter_can_blocks from here on, after the block `prev`. */
  function HostReads(file: seq<byte>, prev: Seen, mode: OnGap): HostRead
    decreases |file|
  {
    var header := ReadBlockHeader(file);
    if header.None? || header.value.blockSize < HEADER_SIZE then HostRead([], false)
    else
      var h := header.value;
      if IsGap(prev, h) && mode != GoOnOverGaps then HostRead([], mode == AbortAtGap)
      else if |file| < h.blockSize then HostRead([], false)
      else
        var rest := HostReads(file[h.blockSize..], After(h.epoch, h.cnt), mode);
        HostRead([file[..h.blockSize]] + rest.blocks, rest.aborted)
  }

  function HostBlocks(file: seq<byte>, prev: Seen, mode: OnGap): seq<seq<byte>> {
    HostReads(file, prev, mode).blocks
  }

  function Mode(abortOnGap: bool, continueOnGap: bool): OnGap {
    if abortOnGap then AbortAtGap else if continueOnGap then GoOnOverGaps else StopAtGap
  }

  /** iter_can_blocks, as one loop over the file. */
  method IterBlocks(file: seq<byte>, abortOnGap: bool, continueOnGap: bool) returns (blocks: seq<seq<byte>>, aborted: bool)
    ensures HostRead(blocks, aborted) == HostReads(file, Start, Mode(abortOnGap, continueOnGap))
  {
    var rest := file;
    var prev := Start;
    blocks, aborted := [], false;
    ghost var mode := Mode(abortOnGap, continueOnGap);
    while true
      invariant !aborted && mode == Mode(abortOnGap, continueOnGap)
      invariant blocks + HostReads(rest, prev, mode).blocks == HostReads(file, Start, mode).blocks
      invariant HostReads(rest, prev, mode).aborted == HostReads(file, Start, mode).aborted
      decreases |rest|
    {
      var header := ReadBlockHeader(rest);
      if header.None? {
        break;
      }
      var h := header.value;
      if h.blockSize == 0 || h.blockSize < HEADER_SIZE {
        break;
      }
      var gap := false;
      if prev.After? {
        if h.epoch != prev.epoch {
          gap := true;
        }
        if !gap && h.cnt != Increment(prev.cnt) {
          gap := true;
        }
      }
      if h.blockFill <= HEADER_SIZE {
        gap := true;
      }
      if gap {
        if abortOnGap {
          return blocks, true;
        } else if !continueOnGap {
          break;
        }
      }
      if |rest| < h.blockSize {
        break;
      }
      var b, tail := rest[..h.blockSize], rest[h.blockSize..];
      Associate(blocks, [b], HostReads(tail, After(h.epoch, h.cnt), mode).blocks);
      blocks := blocks + [b];
      prev := After(h.epoch, h.cnt);
      rest := tail;
    }
  }

  /** The bytes of the stored blocks from the i-th on, end to end. */
  function FileFrom(stored: seq<StoredBlock>, i: nat): seq<byte>
    requires i <= |stored|
    decreases |stored| - i
  {
    if i == |stored| then [] else stored[i].bytes + FileFrom(stored, i + 1)
  }

  function BytesFrom(stored: seq<StoredBlock>, i: nat): (bs: seq<seq<byte>>)
    requires i <= |stored|
    ensures |bs| == |stored| - i
  {
    seq(|stored| - i, k requires 0 <= k < |stored| - i => stored[i + k].bytes)
  }

  lemma BytesStep(stored: seq<StoredBlock>, i: nat)
    requires i < |stored|
    ensures BytesFrom(stored, i) == [stored[i].bytes] + BytesFrom(stored, i + 1)
  {
  }

  /** Between this stored block and the one before it, the failed stores are a multiple of 256. */
  predicate GapFree(stored: seq<StoredBlock>, j: nat)
    requires 0 < j < |stored|
  {
    && stored[j - 1].failed <= stored[j].failed
    && Remainder(stored[j].failed - stored[j - 1].failed, 0x100) == 0
  }

  predicate Unbroken(stored: seq<StoredBlock>, i: nat) {
    forall j :: i < j < |stored| ==> GapFree(stored, j)
  }

  function HeaderOf(b: StoredBlock): (h: BlockHeader)
    requires ReadBlockHeader(b.bytes).Some?
  {
    ReadBlockHeader(b.bytes).value
  }

  lemma HeaderPrefix(b: seq<byte>, tail: seq<byte>)
    requires HEADER_SIZE <= |b|
    ensures ReadBlockHeader(b + tail) == ReadBlockHeader(b)
  {
    var x := b + tail;
    assert x[4..8] == b[4..8] && x[8..12] == b[8..12] && x[12..16] == b[12..16] && x[16..20] == b[16..20];
  }

  lemma CounterFollows(s: Sys, j: nat)
    requires CardOk(s) && 0 < j < |s.stored|
    ensures ReadBlockHeader(s.stored[j].bytes).Some? && ReadBlockHeader(s.stored[j - 1].bytes).Some?
    ensures var p, h := HeaderOf(s.stored[j - 1]), HeaderOf(s.stored[j]);
            Follows(After(p.epoch, p.cnt), h) <==> GapFree(s.stored, j)
  {
    assert StoredOk(s.log, s.stored[j], j) && StoredOk(s.log, s.stored[j - 1], j - 1) && FailedSince(s.stored, j);
    var f, g := s.stored[j - 1].failed, s.stored[j].failed;
    NextCount(j - 1 + f);
    SameRemainder(j + f, g - f, 0x100);
  }

  lemma HeadTaken(s: Sys, i: nat, prev: Seen, mode: OnGap)
    requires CardOk(s) && i < |s.stored|
    ensures ReadBlockHeader(s.stored[i].bytes).Some?
    ensures var h := HeaderOf(s.stored[i]);
            var rest := HostReads(FileFrom(s.stored, i + 1), After(h.epoch, h.cnt), mode);
            HostReads(FileFrom(s.stored, i), prev, mode) ==
              if mode == GoOnOverGaps || Follows(prev, h) then HostRead([s.stored[i].bytes] + rest.blocks, rest.aborted)
              else HostRead([], mode == AbortAtGap)
  {
    assert StoredOk(s.log, s.stored[i], i);
    var b, tail := s.stored[i].bytes, FileFrom(s.stored, i + 1);
    var h := HeaderOf(s.stored[i]);
    HeaderPrefix(b, tail);
    EntriesCoverBytes(b[HEADER_SIZE..]);
    assert |Rest(b[HEADER_SIZE..])| <= |b[HEADER_SIZE..]|;
    assert (b + tail)[..h.blockSize] == b && (b + tail)[h.blockSize..] == tail;
  }

  /** `prev` is the block before the i-th, or there is none to compare with. */
  predicate Before(stored: seq<StoredBlock>, i: nat, prev: Seen)
    requires i <= |stored|
  {
    prev == Start || (0 < i && ReadBlockHeader(stored[i - 1].bytes).Some?
                      && prev == After(HeaderOf(stored[i - 1]).epoch, HeaderOf(stored[i - 1]).cnt))
  }

  /** The first block from the i-th on that does not chain to the one before it, or the end of the card. */
  function FirstBreak(stored: seq<StoredBlock>, i: nat): (n: nat)
    requires i <= |stored|
    ensures i <= n <= |stored|
    ensures n == |stored| <==> forall j :: i <= j < |stored| && 0 < j ==> GapFree(stored, j)
    decreases |stored| - i
  {
    if i == |stored| || (0 < i && !GapFree(stored, i)) then i else FirstBreak(stored, i + 1)
  }

  /** How many of the stored blocks the host has behind it when it stops, if it starts at the i-th after `prev`. */
  function HostStop(stored: seq<StoredBlock>, i: nat, prev: Seen, mode: OnGap): (n: nat)
    requires i <= |stored|
    ensures i <= n <= |stored|
  {
    if mode == GoOnOverGaps then |stored|
    else if prev == Start && i < |stored| then FirstBreak(stored, i + 1)
    else FirstBreak(stored, i)
  }

  /** The host reads the stored blocks up to its stop, and raises if that is not the end and it is told to. */
  predicate ReadsUpToStop(stored: seq<StoredBlock>, i: nat, prev: Seen, mode: OnGap)
    requires i <= |stored|
  {
    var n := HostStop(stored, i, prev, mode);
    HostReads(FileFrom(stored, i), prev, mode) == HostRead(BytesFrom(stored, i)[..n - i], n < |stored| && mode == AbortAtGap)
  }

  lemma OneMoreStored(stored: seq<StoredBlock>, i: nat, prev: Seen, mode: OnGap, next: Seen, follows: bool)
    requires i < |stored| && ReadsUpToStop(stored, i + 1, next, mode)
    requires var rest := HostReads(FileFrom(stored, i + 1), next, mode);
             HostReads(FileFrom(stored, i), prev, mode) ==
               if follows then HostRead([stored[i].bytes] + rest.blocks, rest.aborted) else HostRead([], mode == AbortAtGap)
    requires HostStop(stored, i, prev, mode) == if follows then HostStop(stored, i + 1, next, mode) else i
    ensures ReadsUpToStop(stored, i, prev, mode)
  {
    var n := HostStop(stored, i + 1, next, mode);
    BytesStep(stored, i);
    OneMoreRead(stored[i].bytes, BytesFrom(stored, i + 1), n - (i + 1), |stored| - i, follows, mode);
  }

  /** Unless it is told to go on, the host yields the stored blocks up to the first break of the chain, and raises
      exactly if there is one and it is told to; told to go on, it yields them all. */
  lemma {:induction false} HostStopsAtFirstBreak(s: Sys, i: nat, prev: Seen, mode: OnGap)
    requires CardOk(s) && i <= |s.stored| && Before(s.stored, i, prev)
    ensures ReadsUpToStop(s.stored, i, prev, mode)
    decreases |s.stored| - i
  {
    if i < |s.stored| {
      HeadTaken(s, i, prev, mode);
      var h := HeaderOf(s.stored[i]);
      var next := After(h.epoch, h.cnt);
      if prev.After? {
        CounterFollows(s, i);
      }
      HostStopsAtFirstBreak(s, i + 1, next, mode);
      HostStopStep(s.stored, i, prev, mode, next);
      OneMoreStored(s.stored, i, prev, mode, next, mode == GoOnOverGaps || Follows(prev, h));
    }
  }

  /** `n` of the `rest` are read before the reading ends; so many are read of `[b] + rest`, of which there are `all`. */
  lemma OneMoreRead(b: seq<byte>, rest: seq<seq<byte>>, n: nat, all: nat, follows: bool, mode: OnGap)
    requires n <= |rest| == all - 1
    ensures var aborts := mode == AbortAtGap;
            (if follows then HostRead([b] + rest[..n], n < all - 1 && aborts) else HostRead([], aborts))
            == var m := if follows then n + 1 else 0; HostRead(([b] + rest)[..m], m < all && aborts)
  {
    assert ([b] + rest)[..n + 1] == [b] + rest[..n];
  }

  lemma HostStopStep(stored: seq<StoredBlock>, i: nat, prev: Seen, mode: OnGap, next: Seen)
    requires i < |stored| && next.After? && (prev.After? ==> 0 < i)
    ensures HostStop(stored, i, prev, mode)
         == if mode == GoOnOverGaps || prev == Start || GapFree(stored, i) then HostStop(stored, i + 1, next, mode) else i
  {
  }

  /**
   * The host takes every stored block exactly when it goes on over gaps, or the 8-bit counters chain: between
   * neighbours, the number of failed stores is a multiple of 256. Any other number of failures makes it stop.
   */
  lemma HostTakesUnbrokenChains(s: Sys, i: nat, prev: Seen, mode: OnGap)
    requires CardOk(s) && i <= |s.stored| && Before(s.stored, i, prev)
    ensures HostBlocks(FileFrom(s.stored, i), prev, mode) == BytesFrom(s.stored, i) <==>
            mode == GoOnOverGaps || (Unbroken(s.stored, i) && (prev == Start || i == |s.stored| || GapFree(s.stored, i)))
  {
    HostStopsAtFirstBreak(s, i, prev, mode);
    var all := BytesFrom(s.stored, i);
    assert all[..|all|] == all;
  }

  /** From start-up, a run in which no store failed leaves a card the host reads without a gap, in any mode,
      however many blocks there are and however often the counter wraps. */
  lemma NoFailureNoGap(s: Sys, acts: seq<Action>, mode: OnGap)
    requires Init(s) && Run(s, acts).failures == 0
    ensures var t := Run(s, acts);
            HostReads(FileFrom(t.stored, 0), Start, mode) == HostRead(BytesFrom(t.stored, 0), false)
  {
    StoredBlocksAreDescribed(s, acts);
    HostStopsAtFirstBreak(Run(s, acts), 0, Start, mode);
    HostTakesUnbrokenChains(Run(s, acts), 0, Start, mode);
  }

  // ---------------------------------------------------------------- end to end

  ghost predicate OnlyReadable(acts: seq<Action>) {
    forall a :: a in acts && a.BeginAdd? ==> HostReadable(a.e)
  }

  ghost predicate AllReadable(es: seq<Entry>) {
    forall e :: e in es ==> HostReadable(e)
  }

  lemma {:induction false} AcceptedAreReadable(s: Sys, acts: seq<Action>)
    requires Typed(s) && OnlyReadable(acts) && AllReadable(s.accepted)
    requires s.producer.AddLoop? || s.producer.AddDecide? || s.producer.AddPad? ==> HostReadable(s.producer.e)
    ensures AllReadable(Run(s, acts).accepted)
    decreases |acts|
  {
    if acts != [] {
      assert acts[0] in acts;
      AcceptedAreReadable(Do(s, acts[0]), acts[1..]);
    }
  }

  lemma {:induction false} StoredEntriesPrefix(bs: nat, stored: seq<StoredBlock>, i: nat)
    requires i < |stored|
    ensures forall e :: e in Body(stored[i].bytes) ==> e in StoredEntries(bs, stored)
  {
    if i < |stored| - 1 {
      StoredEntriesPrefix(bs, stored[..|stored| - 1], i);
    }
  }

  /** The entries the host visits in a block it was yielded. */
  function BlockVisits(b: seq<byte>): seq<Entry> {
    var h := ReadBlockHeader(b);
    HostEntries(if h.None? then [] else ValidPart(b, h.value.blockFill))
  }

  function HostVisits(blocks: seq<seq<byte>>): seq<Entry> {
    if blocks == [] then [] else HostVisits(blocks[..|blocks| - 1]) + BlockVisits(blocks[|blocks| - 1])
  }

  lemma StoredBlockVisits(s: Sys, i: nat)
    requires CardOk(s) && i < |s.stored| && AllReadable(Body(s.stored[i].bytes))
    ensures BlockVisits(s.stored[i].bytes) == Body(s.stored[i].bytes)
  {
    assert StoredOk(s.log, s.stored[i], i);
    HostVisitsWhatWasWritten(s.log.bs, s.stored[i].bytes, HeaderOf(s.stored[i]));
  }

  /** The host visits in this block what was written in it. */
  predicate VisitedWhole(b: seq<byte>) {
    BlockVisits(b) == Body(b)
  }

  predicate AllVisited(stored: seq<StoredBlock>) {
    forall i :: 0 <= i < |stored| ==> VisitedWhole(stored[i].bytes)
  }

  lemma StoredAreVisited(s: Sys)
    requires CardOk(s) && AllReadable(StoredEntries(s.log.bs, s.stored))
    ensures AllVisited(s.stored)
  {
    forall i | 0 <= i < |s.stored|
      ensures VisitedWhole(s.stored[i].bytes)
    {
      StoredEntriesPrefix(s.log.bs, s.stored, i);
      StoredBlockVisits(s, i);
    }
  }

  lemma VisitsSnoc(blocks: seq<seq<byte>>, n: nat)
    requires 0 < n <= |blocks| && VisitedWhole(blocks[n - 1])
    ensures HostVisits(blocks[..n]) == HostVisits(blocks[..n - 1]) + Body(blocks[n - 1])
  {
    assert blocks[..n][..n - 1] == blocks[..n - 1];
  }

  lemma {:induction false} VisitsAreStored(bs: nat, stored: seq<StoredBlock>, n: nat)
    requires AllVisited(stored) && n <= |stored|
    ensures HostVisits(BytesFrom(stored, 0)[..n]) == StoredEntries(bs, stored[..n])
  {
    if n > 0 {
      VisitsAreStored(bs, stored, n - 1);
      VisitsSnoc(BytesFrom(stored, 0), n);
      StoredEntriesUpTo(bs, stored, n);
    }
  }

  /** Every block on the card holds an entry. */
  predicate NoneEmpty(stored: seq<StoredBlock>) {
    forall i :: 0 <= i < |stored| ==> Body(stored[i].bytes) != []
  }

  lemma StoredHaveEntries(s: Sys)
    requires CardOk(s)
    ensures NoneEmpty(s.stored)
  {
    forall i | 0 <= i < |s.stored|
      ensures Body(s.stored[i].bytes) != []
    {
      assert StoredOk(s.log, s.stored[i], i);
    }
  }

  lemma StoredEntriesUpTo(bs: nat, stored: seq<StoredBlock>, n: nat)
    requires 0 < n <= |stored|
    ensures StoredEntries(bs, stored[..n]) == StoredEntries(bs, stored[..n - 1]) + Body(stored[n - 1].bytes)
  {
    assert stored[..n][..n - 1] == stored[..n - 1];
  }

  /** A card with fewer blocks holds fewer entries. */
  lemma {:induction false} FewerBlocksFewerEntries(bs: nat, stored: seq<StoredBlock>, n: nat, m: nat)
    requires NoneEmpty(stored) && n <= m <= |stored|
    ensures Portion(StoredEntries(bs, stored[..n]), StoredEntries(bs, stored[..m]), n < m)
    decreases m - n
  {
    if n < m {
      FewerBlocksFewerEntries(bs, stored, n, m - 1);
      StoredEntriesUpTo(bs, stored, m);
      LargerPortion(StoredEntries(bs, stored[..n]), StoredEntries(bs, stored[..m - 1]), Body(stored[m - 1].bytes), n < m - 1);
    }
  }

  predicate Portion(part: seq<Entry>, all: seq<Entry>, proper: bool) {
    part <= all && (proper <==> |part| < |all|)
  }

  lemma LargerPortion(part: seq<Entry>, all: seq<Entry>, more: seq<Entry>, proper: bool)
    requires Portion(part, all, proper) && more != []
    ensures Portion(part, all + more, true)
  {
  }

  lemma PartOfAll<T>(whole: seq<T>, all: seq<T>, part: seq<T>, rest: seq<T>)
    requires whole == all + rest && part <= all
    ensures whole == part + rest <==> |part| == |all|
    ensures part <= whole
  {
    if |part| == |all| {
      assert part == all;
    }
  }

  lemma StopsAtTheEnd(stored: seq<StoredBlock>, mode: OnGap)
    ensures HostStop(stored, 0, Start, mode) == |stored| <==> mode == GoOnOverGaps || Unbroken(stored, 0)
  {
  }

  lemma ReadsPortion(bs: nat, stored: seq<StoredBlock>, mode: OnGap, r: HostRead)
    requires AllVisited(stored) && NoneEmpty(stored)
    requires r == HostReads(FileFrom(stored, 0), Start, mode) && ReadsUpToStop(stored, 0, Start, mode)
    ensures Portion(HostVisits(r.blocks), StoredEntries(bs, stored), HostStop(stored, 0, Start, mode) < |stored|)
  {
    var n := HostStop(stored, 0, Start, mode);
    VisitsAreStored(bs, stored, n);
    FewerBlocksFewerEntries(bs, stored, n, |stored|);
    assert stored[..|stored|] == stored;
  }

  /** What the host reads of a card, as far as the entries on it go. */
  lemma HostSeesStoredEntries(s: Sys, mode: OnGap, r: HostRead)
    requires CardOk(s) && AllReadable(StoredEntries(s.log.bs, s.stored)) && r == HostReads(FileFrom(s.stored, 0), Start, mode)
    ensures Portion(HostVisits(r.blocks), StoredEntries(s.log.bs, s.stored), !(mode == GoOnOverGaps || Unbroken(s.stored, 0)))
    ensures r.aborted <==> mode == AbortAtGap && !Unbroken(s.stored, 0)
  {
    StopsAtTheEnd(s.stored, mode);
    HostStopsAtFirstBreak(s, 0, Start, mode);
    StoredAreVisited(s);
    StoredHaveEntries(s);
    ReadsPortion(s.log.bs, s.stored, mode, r);
  }

  /**
   * End to end, for every interleaving and every pattern of store failures: of the stored blocks one after the other,
   * as a card has them whose files have not come round, the host reads the beginning of what was accepted, and all of
   * it, up to what is still in the ring, exactly when it goes on over gaps or the failed stores between neighbouring
   * blocks are multiples of 256.
   */
  lemma HostSeesAcceptedEntries(s: Sys, acts: seq<Action>, mode: OnGap)
    requires Init(s) && OnlyReadable(acts)
    ensures var t := Run(s, acts);
            var r := HostReads(FileFrom(t.stored, 0), Start, mode);
            && (t.accepted == HostVisits(r.blocks) + Decode(t.log.bs, Pending(t)) <==> mode == GoOnOverGaps || Unbroken(t.stored, 0))
            && HostVisits(r.blocks) <= t.accepted
            && (r.aborted <==> mode == AbortAtGap && !Unbroken(t.stored, 0))
  {
    var t := Run(s, acts);
    Lossless(s, acts);
    StoredBlocksAreDescribed(s, acts);
    AcceptedAreReadable(s, acts);
    assert forall e :: e in StoredEntries(t.log.bs, t.stored) ==> e in t.accepted;
    var r := HostReads(FileFrom(t.stored, 0), Start, mode);
    HostSeesStoredEntries(t, mode, r);
    PartOfAll(t.accepted, StoredEntries(t.log.bs, t.stored), HostVisits(r.blocks), Decode(t.log.bs, Pending(t)));
  }
}
