/** AddEntry, ReadNextBlock and Consume called with the other task asleep: what one call means. */
module LogCalls {
  import opened Wire
  import opened BlockFormat
  import opened BlockRing
  import opened LogSteps
  import opened LogSystem
  import Runs

  /** AddEntry called alone is all or nothing on what the ring means, whatever it wrote to find out. */
  lemma AddEntryIsAllOrNothing(log: LogState, e: Entry, log': LogState, status: Status)
    requires Aligned(log) && Gapless(OpenBlock(log.bs, log.ring.data)) && WellFormed(e)
    requires ProducerLeads(log, AddLoop(e), log', Returned(status))
    ensures Aligned(log') && Gapless(OpenBlock(log.bs, log'.ring.data)) && log'.ring.r == log.ring.r
    ensures var added := if status == Status.Ok then [e] else [];
            && Decode(log.bs, log'.ring.data) == Decode(log.bs, log.ring.data) + added
            && log'.frames1 == log.frames1 + Frames(added)
    ensures status == Status.Ok || status == BufferFull
  {
    var inv := (x: (LogState, Producer)) => CallInv(log, e, x);
    assert Decode(log.bs, log.ring.data) + [] == Decode(log.bs, log.ring.data);
    forall x: (LogState, Producer), y: (LogState, Producer) | inv(x) && ProducerTakes(x, y)
      ensures inv(y)
    {
      CallStep(log, e, x);
    }
    Runs.Invariant(ProducerTakes, inv, (log, AddLoop(e)), (log', Returned(status)));
  }

  ghost predicate CallInv(log: LogState, e: Entry, x: (LogState, Producer))
    requires log.Ok()
  {
    var added := if x.1 == Returned(Status.Ok) then [e] else [];
    && Aligned(x.0) && ProducerOk(x.1) && ProducerInv(x.0, x.1)
    && (x.1.AddLoop? || x.1.AddDecide? || x.1.AddPad? || (x.1.Returned? && x.1.status in {Status.Ok, BufferFull}))
    && (!x.1.Returned? ==> x.1.e == e)
    && x.0.bs == log.bs && x.0.ring.r == log.ring.r
    && Decode(log.bs, x.0.ring.data) == Decode(log.bs, log.ring.data) + added
    && x.0.frames1 == log.frames1 + Frames(added)
  }

  lemma CallStep(log: LogState, e: Entry, x: (LogState, Producer))
    requires log.Ok() && CallInv(log, e, x)
    ensures CallInv(log, e, ProducerStep(x.0, x.1))
  {
    var d0 := Decode(log.bs, log.ring.data);
    ProducerStepMeaning(x.0, x.1);
    if !x.1.Returned? {
      var y := ProducerStep(x.0, x.1);
      assert d0 + [] + Added(x.1, y.1) == d0 + Added(x.1, y.1);
      if x.1.AddPad? {
        PadStepMeaning(x.0, x.1.left);
      }
    }
  }

  // ---------------------------------------------------------------- when an entry is taken

  /** The bytes AddEntry needs free for an entry: its own where the open block has room for it, and otherwise what is left
      of that block, the next header and its own. */
  function Needed(bs: nat, o: seq<byte>, n: nat): nat
    requires |o| < bs
  {
    if o == [] then HEADER_SIZE + n else if |o| + n <= bs then n else bs - |o| + HEADER_SIZE + n
  }

  /** There is room for an entry of `n` bytes, and a block can hold one. */
  ghost predicate HasRoom(log: LogState, n: nat)
    requires log.Ok()
  {
    var o := OpenBlock(log.bs, log.ring.data);
    ((o != [] && |o| + n <= log.bs) || HEADER_SIZE + n <= log.bs) && Needed(log.bs, o, n) <= log.ring.Free()
  }

  ghost predicate RoomInv(log: LogState, e: Entry, x: (LogState, Producer))
    requires log.Ok()
  {
    && CallInv(log, e, x)
    && (x.1.AddDecide? ==> x.1.free == x.0.ring.Free())
    && (x.1.AddPad? ==> |OpenBlock(x.0.bs, x.0.ring.data)| + |e| > x.0.bs)
    && if x.1.Returned? then x.1.status == Status.Ok <==> HasRoom(log, |e|) else HasRoom(x.0, |e|) <==> HasRoom(log, |e|)
  }

  lemma PadRoom(log: LogState, left: nat, n: nat)
    requires Aligned(log) && 0 < left <= log.ring.Free()
    requires var o := OpenBlock(log.bs, log.ring.data); o != [] && left == log.bs - |o| && |o| + n > log.bs
    ensures var (log', l) := PadChunk(log, left);
            && log'.Ok() && log'.bs == log.bs && l.Some?
            && (HasRoom(log', n) <==> HasRoom(log, n))
            && (l.value != 0 ==> |OpenBlock(log.bs, log'.ring.data)| + n > log.bs)
  {
    PadStepMeaning(log, left);
  }

  lemma HeaderRoom(log: LogState, n: nat)
    requires Aligned(log) && OpenBlock(log.bs, log.ring.data) == [] && HEADER_SIZE <= log.ring.Free()
    ensures var log' := log.(ring := log.ring.Write(Zeros(HEADER_SIZE)).0);
            log'.Ok() && (HasRoom(log', n) <==> HasRoom(log, n))
  {
    AppendHeader(log.bs, log.ring.data, Zeros(HEADER_SIZE));
    assert Zeros(HEADER_SIZE)[..HEADER_SIZE] == Zeros(HEADER_SIZE);
  }

  lemma DecideRoom(log: LogState, e: Entry, x: (LogState, Producer))
    requires log.Ok() && RoomInv(log, e, x) && x.1.AddDecide?
    requires CallInv(log, e, ProducerStep(x.0, x.1))
    ensures RoomInv(log, e, ProducerStep(x.0, x.1))
  {
    WriteOffset(x.0);
    if OpenBlock(x.0.bs, x.0.ring.data) == [] && HEADER_SIZE <= x.0.ring.Free() {
      HeaderRoom(x.0, |e|);
    }
  }

  lemma RoomStep(log: LogState, e: Entry, x: (LogState, Producer))
    requires log.Ok() && RoomInv(log, e, x)
    ensures RoomInv(log, e, ProducerStep(x.0, x.1))
  {
    CallStep(log, e, x);
    if x.1.AddDecide? {
      DecideRoom(log, e, x);
    } else if x.1.AddPad? {
      PadRoom(x.0, x.1.left, |e|);
    }
  }

  /** AddEntry called alone takes the entry exactly when there is room for it, padding and a new header included. */
  lemma AddEntrySucceedsExactly(log: LogState, e: Entry, log': LogState, status: Status)
    requires Aligned(log) && Gapless(OpenBlock(log.bs, log.ring.data)) && WellFormed(e)
    requires ProducerLeads(log, AddLoop(e), log', Returned(status))
    ensures status == Status.Ok <==> HasRoom(log, |e|)
    ensures status != Status.Ok ==> status == BufferFull
  {
    var inv := (x: (LogState, Producer)) => RoomInv(log, e, x);
    assert Decode(log.bs, log.ring.data) + [] == Decode(log.bs, log.ring.data);
    forall x: (LogState, Producer), y: (LogState, Producer) | inv(x) && ProducerTakes(x, y)
      ensures inv(y)
    {
      RoomStep(log, e, x);
    }
    Runs.Invariant(ProducerTakes, inv, (log, AddLoop(e)), (log', Returned(status)));
  }

  // ---------------------------------------------------------------- FillBlockWithPadding

  /** The log with `n` bytes of padding behind what is staged. */
  function PaddedBy(log: LogState, n: nat): LogState {
    log.(ring := log.ring.(data := log.ring.data + Pads(n)))
  }

  /** What a flush has to write: the rest of the open block, if there is one. */
  ghost function ToFlush(log: LogState): (n: nat)
    requires 0 < log.bs
    ensures n < log.bs
  {
    var o := OpenBlock(log.bs, log.ring.data);
    if o == [] then 0 else log.bs - |o|
  }

  /** A flush under way: all of the padding or none of it, in the end. */
  ghost predicate FlushInv(log: LogState, x: (LogState, Producer))
    requires log.Ok()
  {
    var n := ToFlush(log);
    match x.1
    case FillStart => x.0 == log
    case FillDecide(free) => x.0 == log && 0 < n && free == log.ring.Free()
    case FillPad(left) => 0 < left <= n <= log.ring.Free() && x.0 == PaddedBy(log, n - left)
    case Returned(status) =>
      if n <= log.ring.Free() then status == Status.Ok && x.0 == PaddedBy(log, n) else status == NotOk && x.0 == log
    case _ => false
  }

  /** If the rest of the open block is free, it is free in one piece. */
  lemma RestIsLinear(log: LogState)
    requires Aligned(log) && ToFlush(log) <= log.ring.Free()
    ensures 0 < ToFlush(log) ==> ToFlush(log) <= log.ring.LinearWrite()
  {
    var ring, n := log.ring, ToFlush(log);
    if 0 < n && ring.r + |ring.data| < ring.size {
      WriteOffset(log);
      RemainderSum(ring.W(), n, log.bs);
      assert Remainder(ring.size, log.bs) == 0;
      if ring.size < ring.W() + n {
        AlignedGap(ring.size, ring.W() + n, log.bs);
      }
    }
  }

  /** What is missing to the next boundary takes it there. */
  lemma RemainderSum(a: nat, n: nat, bs: nat)
    requires 0 < bs && n == bs - Remainder(a, bs)
    ensures Remainder(a + n, bs) == 0
  {
    if a >= bs {
      RemainderSum(a - bs, n, bs);
    }
  }

  lemma PadsJoin(d: seq<byte>, a: nat, b: nat)
    ensures d + Pads(a) + Pads(b)[..b] == d + Pads(a + b)
  {
  }

  lemma FlushDecides(log: LogState, free: nat)
    requires Aligned(log) && FlushInv(log, (log, FillDecide(free)))
    ensures FlushInv(log, ProducerStep(log, FillDecide(free)))
  {
    WriteOffset(log);
    if ToFlush(log) <= free {
      RestIsLinear(log);
    }
    assert log.ring.data + Pads(0) == log.ring.data;
  }

  lemma FlushPads(log: LogState, x: (LogState, Producer))
    requires log.Ok() && x.0.Ok() && x.1.FillPad? && FlushInv(log, x)
    ensures FlushInv(log, ProducerStep(x.0, x.1))
  {
    PadsJoin(log.ring.data, ToFlush(log) - x.1.left, Min(PADDING_CHUNK, x.1.left));
  }

  lemma FlushStep(log: LogState, x: (LogState, Producer))
    requires Aligned(log) && FlushInv(log, x) && x.0.Ok() && ProducerOk(x.1)
    ensures FlushInv(log, ProducerStep(x.0, x.1))
  {
    match x.1
    case FillStart =>
      WriteOffset(log);
      assert log.ring.data + Pads(0) == log.ring.data;
    case FillDecide(free) => FlushDecides(log, free);
    case FillPad(_) => FlushPads(log, x);
    case _ =>
  }

  /**
   * FillBlockWithPadding called alone: it answers OK exactly if nothing is open or the rest of the open block is free.
   * Then that block is closed, by that many bytes of padding, and no entry is changed; otherwise nothing is.
   */
  lemma FlushMeaning(log: LogState, log': LogState, status: Status)
    requires Aligned(log) && Gapless(OpenBlock(log.bs, log.ring.data))
    requires ProducerLeads(log, FillStart, log', Returned(status))
    ensures status == Status.Ok <==> OpenBlock(log.bs, log.ring.data) == [] || log.bs - |OpenBlock(log.bs, log.ring.data)| <= log.ring.Free()
    ensures status != Status.Ok ==> status == NotOk && log' == log
    ensures status == Status.Ok ==>
              && OpenBlock(log.bs, log'.ring.data) == [] && Decode(log.bs, log'.ring.data) == Decode(log.bs, log.ring.data)
              && |log'.ring.data| == |log.ring.data| + ToFlush(log) && log.ring.data <= log'.ring.data
              && log' == log.(ring := log.ring.(data := log'.ring.data)) && Aligned(log')
  {
    var inv := (x: (LogState, Producer)) => FlushInv(log, x);
    forall x: (LogState, Producer), y: (LogState, Producer) | inv(x) && ProducerTakes(x, y)
      ensures inv(y)
    {
      FlushStep(log, x);
    }
    Runs.Invariant(ProducerTakes, inv, (log, FillStart), (log', Returned(status)));
    if status == Status.Ok {
      Closed(log);
    }
  }

  lemma Closed(log: LogState)
    requires Aligned(log) && ToFlush(log) <= log.ring.Free()
    ensures var log' := PaddedBy(log, ToFlush(log));
            && Aligned(log') && OpenBlock(log.bs, log'.ring.data) == [] && Decode(log.bs, log'.ring.data) == Decode(log.bs, log.ring.data)
  {
    if ToFlush(log) == 0 {
      assert log.ring.data + Pads(0) == log.ring.data;
    } else {
      AppendPads(log.bs, log.ring.data, Pads(ToFlush(log)));
    }
  }

  // ---------------------------------------------------------------- ReadNextBlock and Consume

  /** The block's header says how many frame entries had been taken in when it was handed out, modulo 2^32. */
  predicate CountsFrames(log: LogState, b: seq<byte>) {
    ReadBlockHeader(b).Some? && ReadBlockHeader(b).value.ingressFrames == log.frames1 % TWO_32
  }

  /** The reader called alone on a ready block: it rewrites the header of the head block, or nothing. */
  ghost predicate ReadInv(log: LogState, x: (LogState, Consumer))
    requires log.Ok()
  {
    && Aligned(x.0) && x.0.SameShape(log) && ConsumerOk(x.0, x.1)
    && log.bs <= |x.0.ring.data| == |log.ring.data|
    && x.0.ring.r == log.ring.r && x.0.ring.data[log.bs..] == log.ring.data[log.bs..]
    && x.0.ring.data[HEADER_SIZE..log.bs] == log.ring.data[HEADER_SIZE..log.bs]
    && x.0.frames1 == log.frames1 && x.0.frames2 == log.frames2
    && (if x.1.InFlight?
        then HeadIs(x.0, x.1.frames) && CountsFrames(log, x.0.ring.data[..log.bs])
             && (exists h :: Described(log.bs, x.0.ring.data[..log.bs], h) && h.cnt == log.blockCount && h.epoch == log.epoch)
        else x.0 == log && !x.1.Idle? && !x.1.ReadyLinear? && !x.1.ConsumeSkip? && !x.1.ConsumeCheck?
             && ConsumerInv(log, x.1, log.blockCount as nat)
             && (x.1.ReadFailed? ==> Body(log.ring.data[..log.bs]) == []))
  }

  lemma ReadStep(log: LogState, x: (LogState, Consumer))
    requires log.Ok() && ReadInv(log, x)
    ensures ReadInv(log, ConsumerStep(x.0, x.1))
  {
    var c, bs, d := x.1, log.bs, log.ring.data;
    if c.InFlight? || c.ReadFailed? {
    } else if c.ReadFinish? && c.offset != HEADER_SIZE {
      FinishMeaning(log, c.offset, c.frames, c.count, log.blockCount as nat);
      OverwriteHeader(bs, d, EncodeHeader(MakeHeader(log, c.offset, c.count)));
      EntriesCount(d[..bs][HEADER_SIZE..]);
      FinishHeader(log, c.offset, c.frames, c.count);
      var y := ConsumerStep(x.0, x.1);
      assert HeadDescribed(y.0, log.blockCount as nat);
    } else if c.ReadWalk? {
      WalkStepIs(log, c.offset, c.frames, c.count);
      WalkMeaning(log, c.offset, c.frames, c.count, log.blockCount as nat, WalkNext(log, c.offset, c.frames, c.count));
    } else {
      BlockIsLinear(log);
      LookMeaning(log, c, log.blockCount as nat);
      assert d[..bs][HEADER_SIZE..] == d[HEADER_SIZE..bs];
      EntriesCoverBytes(d[HEADER_SIZE..bs]);
    }
  }

  /**
   * ReadNextBlock called on a ready block hands it out with an exact header, unless it holds no entry;
   * apart from that header no byte of the ring changes.
   */
  lemma ReadCallMeaning(log: LogState, log': LogState, c': Consumer)
    requires Aligned(log) && log.bs <= |log.ring.data|
    requires ConsumerLeads(log, ReadStart, log', c') && (c'.InFlight? || c'.ReadFailed?)
    ensures ReadInv(log, (log', c'))
    ensures c'.InFlight? ==> SelfDescribed(log.bs, log'.ring.data[..log.bs]) && CountsFrames(log, log'.ring.data[..log.bs])
    ensures c'.ReadFailed? <==> Body(log.ring.data[..log.bs]) == []
    ensures Decode(log.bs, log'.ring.data) == Decode(log.bs, log.ring.data)
    ensures OpenBlock(log.bs, log'.ring.data) == OpenBlock(log.bs, log.ring.data)
  {
    ReadCallKeeps(log, log', c');
    SameBody(log.bs, log.ring.data, log'.ring.data);
  }

  lemma ReadCallKeeps(log: LogState, log': LogState, c': Consumer)
    requires Aligned(log) && log.bs <= |log.ring.data|
    requires ConsumerLeads(log, ReadStart, log', c')
    ensures ReadInv(log, (log', c'))
  {
    var inv := (x: (LogState, Consumer)) => ReadInv(log, x);
    forall x: (LogState, Consumer), y: (LogState, Consumer) | inv(x) && ConsumerTakes(x, y)
      ensures inv(y)
    {
      ReadStep(log, x);
    }
    Runs.Invariant(ConsumerTakes, inv, (log, ReadStart), (log', c'));
  }

  /** ReadNextBlock called with less than a block staged fails and changes nothing. */
  lemma ShortCallMeaning(log: LogState, log': LogState, c': Consumer)
    requires Aligned(log) && |log.ring.data| < log.bs && log'.Ok()
    requires ConsumerLeads(log, ReadStart, log', c') && (c'.InFlight? || c'.ReadFailed?)
    ensures log' == log && c' == ReadFailed
  {
    Runs.Stays(ConsumerTakes, (log, ReadStart));
    ConsumerAdvance(log, ReadStart, log, ReadStart);
    ConsumerAdvance(log, ReadStart, log, ReadAvail);
    ConsumerAdvance(log, ReadStart, log, ReadLinear(|log.ring.data|));
    ConsumerCallIsDetermined(log, ReadStart, log', c', log, ReadFailed);
  }

  lemma SameBody(bs: nat, d: seq<byte>, d': seq<byte>)
    requires HEADER_SIZE < bs <= |d| == |d'|
    requires d'[bs..] == d[bs..] && d'[HEADER_SIZE..bs] == d[HEADER_SIZE..bs]
    ensures Decode(bs, d') == Decode(bs, d) && OpenBlock(bs, d') == OpenBlock(bs, d) && Body(d'[..bs]) == Body(d[..bs])
  {
    var h := d'[..HEADER_SIZE];
    assert d' == h + d[HEADER_SIZE..] by {
      assert d' == h + d'[HEADER_SIZE..bs] + d'[bs..];
      assert d[HEADER_SIZE..] == d[HEADER_SIZE..bs] + d[bs..];
    }
    OverwriteHeader(bs, d, h);
    assert d'[..bs][HEADER_SIZE..] == d[..bs][HEADER_SIZE..];
  }

  /** The block in front of the reader once more: the same entries, the same fill, the counter one on. */
  ghost predicate CountedOn(bs: nat, b: seq<byte>, b': seq<byte>) {
    && SelfDescribed(bs, b) && SelfDescribed(bs, b') && Body(b') == Body(b)
    && var h, h' := ReadBlockHeader(b).value, ReadBlockHeader(b').value;
       h'.cnt == Increment(h.cnt) && h'.blockFill == h.blockFill && h'.entriesCount == h.entriesCount && h'.epoch == h.epoch
  }

  lemma FailedStoreLeavesRing(s: Sys)
    requires Typed(s) && s.consumer.InFlight? && s.log.bs <= |s.log.ring.data|
    ensures var t := Do(s, Store(false));
            t == s.(failures := s.failures + 1, consumer := Idle) && Pending(t) == Pending(s)
  {
  }

  /** A failed store consumes nothing: the block is still ready, and the next undisturbed ReadNextBlock hands it out
      again, with its counter one on. */
  lemma FailedStoreIsReadAgain(s: Sys, log': LogState, c': Consumer)
    requires Inv(s) && s.consumer.InFlight?
    requires ConsumerLeads(s.log, ReadStart, log', c') && (c'.InFlight? || c'.ReadFailed?)
    ensures var t := Do(s, Store(false));
            t == s.(failures := s.failures + 1, consumer := Idle) && Pending(t) == Pending(s)
    ensures BlockReady(s.log)
    ensures c'.InFlight? && s.log.bs <= |log'.ring.data| && log'.ring.data[s.log.bs..] == s.log.ring.data[s.log.bs..]
    ensures CountedOn(s.log.bs, s.log.ring.data[..s.log.bs], log'.ring.data[..s.log.bs])
  {
    FailedStoreLeavesRing(s);
    NextCount(Reads(s) - 1);
    ReadAgain(s.log, log', c', Reads(s));
  }

  lemma ReadAgain(log: LogState, log': LogState, c': Consumer, handed: nat)
    requires Aligned(log) && 0 < handed && log.bs <= |log.ring.data| && HeadDescribed(log, handed - 1)
    requires log.blockCount as nat == Remainder(handed, 0x100) && log.blockCount == Increment(Remainder(handed - 1, 0x100) as byte)
    requires ConsumerLeads(log, ReadStart, log', c') && (c'.InFlight? || c'.ReadFailed?)
    ensures BlockReady(log) && c'.InFlight?
    ensures log.bs <= |log'.ring.data| && log'.ring.data[log.bs..] == log.ring.data[log.bs..]
    ensures CountedOn(log.bs, log.ring.data[..log.bs], log'.ring.data[..log.bs])
  {
    BlockIsLinear(log);
    ReadCallMeaning(log, log', c');
    SameBody(log.bs, log.ring.data, log'.ring.data);
    CountsOn(log, log', c', handed);
  }

  lemma CountsOn(log: LogState, log': LogState, c': Consumer, handed: nat)
    requires log.Ok() && 0 < handed && log.bs <= |log.ring.data| && HeadDescribed(log, handed - 1)
    requires log.blockCount as nat == Remainder(handed, 0x100) && log.blockCount == Increment(Remainder(handed - 1, 0x100) as byte)
    requires ReadInv(log, (log', c')) && c'.InFlight? && Body(log'.ring.data[..log.bs]) == Body(log.ring.data[..log.bs])
    ensures CountedOn(log.bs, log.ring.data[..log.bs], log'.ring.data[..log.bs])
  {
    var d, d', bs := log.ring.data, log'.ring.data, log.bs;
    assert d'[..bs][HEADER_SIZE..] == d'[HEADER_SIZE..bs] == d[HEADER_SIZE..bs] == d[..bs][HEADER_SIZE..];
  }

  /** Consume called alone on a whole block removes that block and keeps the reader aligned. */
  lemma ConsumeCallMeaning(log: LogState, frames: nat)
    requires Aligned(log) && log.bs <= |log.ring.data|
    ensures var m := ConsumerStep(log, ConsumeSkip(log.bs, frames));
            && m.1 == ConsumeCheck && ConsumerStep(m.0, ConsumeCheck) == (m.0, Idle)
            && Aligned(m.0) && m.0.ring.data == log.ring.data[log.bs..]
            && OpenBlock(log.bs, m.0.ring.data) == OpenBlock(log.bs, log.ring.data)
            && m.0.frames2 == log.frames2 + frames && m.0.frames1 == log.frames1
  {
    SkipMeaning(log);
  }
}
