/**
 * Runs of the logging pipeline that the general results allow: a read that goes through, blocks filled, stored and
 * failed to be stored, and a block that can never be read.
 */
module LogScenarios {
  import opened Wire
  import opened BlockFormat
  import opened ByteRing
  import opened BlockRing
  import opened LogSteps
  import opened LogSystem
  import opened LogCalls
  import opened HostDecoder

  ghost predicate Reaches(s: Sys, t: Sys) {
    Typed(s) && exists acts :: Run(s, acts) == t
  }

  lemma {:induction false} RunSnoc(s: Sys, acts: seq<Action>, a: Action)
    requires Typed(s)
    ensures Run(s, acts + [a]) == Do(Run(s, acts), a)
    decreases |acts|
  {
    if acts == [] {
      assert acts + [a] == [a] && [a][1..] == [];
    } else {
      assert (acts + [a])[1..] == acts[1..] + [a];
      RunSnoc(Do(s, acts[0]), acts[1..], a);
    }
  }

  /** One more action of the run under construction. */
  lemma Goes(s0: Sys, s: Sys, a: Action, t: Sys)
    requires Reaches(s0, s) && Inv(s) && t == Do(s, a)
    ensures Reaches(s0, t) && Inv(t)
  {
    var acts :| Run(s0, acts) == s;
    RunSnoc(s0, acts, a);
    assert Run(s0, acts + [a]) == t;
    EveryActionKeeps(s, a);
  }

  lemma Begins(s: Sys)
    requires Init(s)
    ensures Reaches(s, s) && Inv(s)
  {
    InitInv(s);
    assert Run(s, []) == s;
  }

  // ---------------------------------------------------------------- reading

  /** The reader alone moves and leaves the ring as it is. */
  lemma Looks(s0: Sys, s: Sys, c: Consumer) returns (t: Sys)
    requires Reaches(s0, s) && Inv(s) && !s.consumer.ReadFailed? && ConsumerStep(s.log, s.consumer) == (s.log, c)
    ensures t == s.(consumer := c) && Reaches(s0, t) && Inv(t)
  {
    t := s.(consumer := c);
    Goes(s0, s, ConsumerMoves, t);
  }

  /** From rest to the walk over the entries of a ready block. */
  lemma LooksAtBlock(s0: Sys, s: Sys) returns (t: Sys)
    requires Reaches(s0, s) && Inv(s) && s.consumer == Idle && s.log.bs <= |s.log.ring.data|
    ensures t == s.(consumer := ReadWalk(HEADER_SIZE, 0, 0)) && Reaches(s0, t) && Inv(t)
  {
    BlockIsLinear(s.log);
    t := Looks(s0, s, ReadyLinear(0, |s.log.ring.data|));
    t := Looks(s0, t, ReadStart);
    t := Looks(s0, t, ReadAvail);
    t := Looks(s0, t, ReadLinear(s.log.bs));
    t := Looks(s0, t, ReadWalk(HEADER_SIZE, 0, 0));
  }

  lemma {:induction false} WalksBlock(s0: Sys, s: Sys) returns (t: Sys)
    requires Reaches(s0, s) && Inv(s) && s.consumer.ReadWalk?
    ensures t == s.(consumer := t.consumer) && t.consumer.ReadFinish? && Reaches(s0, t) && Inv(t)
    decreases s.log.bs - s.consumer.offset
  {
    var c := s.consumer;
    WalkStepIs(s.log, c.offset, c.frames, c.count);
    t := Looks(s0, s, WalkNext(s.log, c.offset, c.frames, c.count));
    if t.consumer.ReadWalk? {
      t := WalksBlock(s0, t);
    }
  }

  /** The block in front of the reader, ready or in flight. */
  function Head(s: Sys): seq<byte>
    requires s.log.bs <= |s.log.ring.data|
  {
    s.log.ring.data[..s.log.bs]
  }

  /** Nothing but the reader's own business: the header of the head block and the block counter. */
  ghost predicate OnlyRead(s: Sys, t: Sys) {
    && t.producer == s.producer && t.accepted == s.accepted && t.stored == s.stored && t.failures == s.failures
    && t.log.SameShape(s.log) && |t.log.ring.data| == |s.log.ring.data|
    && s.log.bs <= |s.log.ring.data| && t.log.ring.data[s.log.bs..] == s.log.ring.data[s.log.bs..]
    && Body(Head(t)) == Body(Head(s))
  }

  lemma HeaderLeavesBody(bs: nat, d: seq<byte>, h: seq<byte>)
    requires |h| == HEADER_SIZE < bs <= |d|
    ensures var d' := h + d[HEADER_SIZE..];
            |d'| == |d| && d'[bs..] == d[bs..] && Body(d'[..bs]) == Body(d[..bs])
  {
    var d' := h + d[HEADER_SIZE..];
    assert d'[..bs][HEADER_SIZE..] == d[..bs][HEADER_SIZE..];
  }

  lemma FinishWrites(s: Sys, t: Sys)
    requires Typed(s) && s.consumer.ReadFinish? && s.consumer.offset != HEADER_SIZE && t == Do(s, ConsumerMoves)
    ensures OnlyRead(s, t) && t.consumer.InFlight?
  {
    HeaderLeavesBody(s.log.bs, s.log.ring.data, EncodeHeader(MakeHeader(s.log, s.consumer.offset, s.consumer.count)));
  }

  lemma EntriesReach(bs: nat, d: seq<byte>)
    requires HEADER_SIZE < bs <= |d| && Body(d[..bs]) != []
    ensures bs - |Rest(d[HEADER_SIZE..bs])| != HEADER_SIZE
  {
    assert d[..bs][HEADER_SIZE..] == d[HEADER_SIZE..bs];
    EntriesCoverBytes(d[HEADER_SIZE..bs]);
  }

  lemma Finishes(s0: Sys, s: Sys) returns (t: Sys)
    requires Reaches(s0, s) && Inv(s) && s.consumer.ReadFinish? && Body(Head(s)) != []
    ensures Reaches(s0, t) && Inv(t) && OnlyRead(s, t) && t.consumer.InFlight?
  {
    EntriesReach(s.log.bs, s.log.ring.data);
    t := Do(s, ConsumerMoves);
    FinishWrites(s, t);
    Goes(s0, s, ConsumerMoves, t);
  }

  /** A ready block that holds an entry is read; one that holds none is turned down. */
  lemma ReadsBlock(s0: Sys, s: Sys) returns (t: Sys)
    requires Reaches(s0, s) && Inv(s) && s.consumer == Idle && s.log.bs <= |s.log.ring.data|
    ensures Reaches(s0, t) && Inv(t) && OnlyRead(s, t)
    ensures if Body(Head(s)) == [] then t.consumer.ReadFailed? else t.consumer.InFlight?
  {
    t := LooksAtBlock(s0, s);
    t := WalksBlock(s0, t);
    if Body(Head(s)) != [] {
      t := Finishes(s0, t);
    } else {
      ReadFailsOnlyOnEmptyBlock(t);
      t := Looks(s0, t, ReadFailed);
    }
  }

  // ---------------------------------------------------------------- storing

  /** Like `OnlyRead`, after `n` stores that failed. */
  ghost predicate OnlyFailed(s: Sys, t: Sys, n: nat) {
    t.failures == s.failures + n && OnlyRead(s, t.(failures := s.failures))
  }

  /** A store that fails, and the next read of the same block. */
  lemma FailsOnce(s0: Sys, s: Sys) returns (t: Sys)
    requires Reaches(s0, s) && Inv(s) && s.consumer.InFlight? && Body(Head(s)) != []
    ensures Reaches(s0, t) && Inv(t) && t.consumer.InFlight? && OnlyFailed(s, t, 1)
  {
    var failed := s.(failures := s.failures + 1, consumer := Idle);
    Goes(s0, s, Store(false), failed);
    t := ReadsBlock(s0, failed);
  }

  lemma OnlyFailedJoin(s: Sys, t: Sys, u: Sys, n: nat)
    requires OnlyFailed(s, t, n) && OnlyFailed(t, u, 1)
    ensures OnlyFailed(s, u, n + 1)
  {
  }

  /** Any number of failed stores, with the block read again after each. */
  lemma {:induction false} FailsToStore(s0: Sys, s: Sys, n: nat) returns (t: Sys)
    requires Reaches(s0, s) && Inv(s) && s.consumer.InFlight? && Body(Head(s)) != []
    ensures Reaches(s0, t) && Inv(t) && t.consumer.InFlight? && OnlyFailed(s, t, n)
  {
    if n == 0 {
      t := s;
    } else {
      var before := FailsToStore(s0, s, n - 1);
      t := FailsOnce(s0, before);
      OnlyFailedJoin(s, before, t, n - 1);
    }
  }

  /** The block in flight is on the card and out of the ring. */
  ghost predicate Moved(s: Sys, t: Sys) {
    && t.consumer == Idle && t.producer == s.producer && t.failures == s.failures
    && t.log.SameShape(s.log) && s.log.bs <= |s.log.ring.data|
    && t.log.ring.data == s.log.ring.data[s.log.bs..] && t.stored == s.stored + [StoredBlock(Head(s), s.failures)]
  }

  lemma StoreMoves(s: Sys, s1: Sys, s2: Sys, t: Sys)
    requires TasksOk(s) && s.consumer.InFlight?
    requires s1 == Do(s, Store(true)) && s2 == Do(s1, ConsumerMoves) && t == Do(s2, ConsumerMoves)
    ensures Moved(s, t)
  {
    ConsumeCallMeaning(s.log, s.consumer.frames);
  }

  /** The block in flight is stored and consumed. */
  lemma Stores(s0: Sys, s: Sys) returns (t: Sys)
    requires Reaches(s0, s) && Inv(s) && s.consumer.InFlight?
    ensures Reaches(s0, t) && Inv(t) && Moved(s, t)
  {
    var s1 := Do(s, Store(true));
    Goes(s0, s, Store(true), s1);
    var s2 := Do(s1, ConsumerMoves);
    Goes(s0, s1, ConsumerMoves, s2);
    t := Do(s2, ConsumerMoves);
    Goes(s0, s2, ConsumerMoves, t);
    StoreMoves(s, s1, s2, t);
  }

  // ---------------------------------------------------------------- filling

  /** One ring call of the producer. */
  lemma Writes(s0: Sys, s: Sys) returns (t: Sys)
    requires Reaches(s0, s) && Inv(s)
    ensures t == Do(s, ProducerMoves) && Reaches(s0, t) && Inv(t)
  {
    t := Do(s, ProducerMoves);
    Goes(s0, s, ProducerMoves, t);
  }

  /** Both tasks at rest, and every whole block holds an entry. */
  ghost predicate AtRest(s: Sys) {
    Inv(s) && s.producer.Returned? && s.consumer == Idle && NoEmptyBlock(s.log.bs, s.log.ring.data)
  }

  /** AddEntry up to the header it reserves at the start of a block. */
  lemma Reserves(s0: Sys, s: Sys, e: Entry) returns (t: Sys)
    requires Reaches(s0, s) && AtRest(s) && OpenBlock(s.log.bs, s.log.ring.data) == [] && WellFormed(e)
    requires HEADER_SIZE <= s.log.ring.Free()
    ensures Reaches(s0, t) && Inv(t) && t.producer == AddLoop(e) && NoEmptyBlock(t.log.bs, t.log.ring.data)
    ensures t == s.(producer := t.producer, log := s.log.(ring := s.log.ring.(data := s.log.ring.data + Zeros(HEADER_SIZE))))
    ensures OpenBlock(t.log.bs, t.log.ring.data) == Zeros(HEADER_SIZE)
  {
    t := Do(s, BeginAdd(e));
    Goes(s0, s, BeginAdd(e), t);
    t := Writes(s0, t);
    WriteOffset(t.log);
    t := Writes(s0, t);
    assert Zeros(HEADER_SIZE)[..HEADER_SIZE] == Zeros(HEADER_SIZE);
    AppendHeader(s.log.bs, s.log.ring.data, Zeros(HEADER_SIZE));
  }

  lemma DecideOnEntry(log: LogState, e: Entry)
    requires Aligned(log) && WellFormed(e) && OpenBlock(log.bs, log.ring.data) == Zeros(HEADER_SIZE) && HEADER_SIZE + |e| <= log.bs
    ensures var q := ProducerStep(log, AddDecide(e, log.ring.Free()));
            if |e| <= log.ring.Free()
            then q.0.ring.data == log.ring.data + e && q.1 == Returned(Status.Ok)
            else q == (log, Returned(BufferFull))
  {
    WriteOffset(log);
    assert e[..|e|] == e;
  }

  lemma EntryGoesIn(log: LogState, d: seq<byte>, e: Entry)
    requires Aligned(log) && WellFormed(e) && OpenBlock(log.bs, log.ring.data) == Zeros(HEADER_SIZE) && HEADER_SIZE + |e| <= log.bs
    requires d == log.ring.data + e
    ensures HEADER_SIZE + |e| == log.bs ==> OpenBlock(log.bs, d) == []
    ensures Decode(log.bs, d) == Decode(log.bs, log.ring.data) + [e]
    ensures NoEmptyBlock(log.bs, log.ring.data) ==> NoEmptyBlock(log.bs, d)
  {
    AppendDecodes(log.bs, log.ring.data, e);
    AppendWellFormed(log.bs, log.ring.data, e);
  }

  /** ... and on to its end: the entry goes in, or does not fit any more. */
  lemma Completes(s0: Sys, s: Sys) returns (t: Sys)
    requires Reaches(s0, s) && Inv(s) && s.producer.AddLoop? && NoEmptyBlock(s.log.bs, s.log.ring.data)
    requires OpenBlock(s.log.bs, s.log.ring.data) == Zeros(HEADER_SIZE) && HEADER_SIZE + |s.producer.e| <= s.log.bs
    ensures Reaches(s0, t) && Inv(t) && t.producer.Returned? && NoEmptyBlock(t.log.bs, t.log.ring.data)
    ensures t.consumer == s.consumer && t.stored == s.stored && t.failures == s.failures && t.log.SameShape(s.log)
    ensures if |s.producer.e| <= s.log.ring.Free()
            then t.log.ring.data == s.log.ring.data + s.producer.e
                 && (HEADER_SIZE + |s.producer.e| == s.log.bs ==> OpenBlock(t.log.bs, t.log.ring.data) == [])
                 && Decode(t.log.bs, t.log.ring.data) == Decode(s.log.bs, s.log.ring.data) + [s.producer.e]
            else t.log == s.log
  {
    var e := s.producer.e;
    var s1 := Writes(s0, s);
    t := Writes(s0, s1);
    DecideOnEntry(s.log, e);
    if |e| <= s.log.ring.Free() {
      EntryGoesIn(s.log, t.log.ring.data, e);
    }
  }

  /** AddEntry of an entry that takes up a whole block, on a block boundary. */
  lemma FillsBlock(s0: Sys, s: Sys, e: Entry) returns (t: Sys)
    requires Reaches(s0, s) && AtRest(s) && OpenBlock(s.log.bs, s.log.ring.data) == []
    requires WellFormed(e) && |e| == s.log.bs - HEADER_SIZE && HEADER_SIZE <= s.log.ring.Free()
    ensures Reaches(s0, t) && AtRest(t) && t.stored == s.stored && t.failures == s.failures && t.log.SameShape(s.log)
    ensures if s.log.bs <= s.log.ring.Free()
            then |t.log.ring.data| == |s.log.ring.data| + s.log.bs && OpenBlock(t.log.bs, t.log.ring.data) == []
            else |t.log.ring.data| == |s.log.ring.data| + HEADER_SIZE && OpenBlock(t.log.bs, t.log.ring.data) == Zeros(HEADER_SIZE)
  {
    var s1 := Reserves(s0, s, e);
    t := Completes(s0, s1);
  }

  /** The one block in the ring being filled up with padding; its entries stay `es`. */
  ghost predicate PaddingOut(s: Sys, es: seq<Entry>) {
    && Inv(s) && s.consumer == Idle && Decode(s.log.bs, s.log.ring.data) == es
    && if s.producer.FillPad? then |s.log.ring.data| + s.producer.left == s.log.bs
       else s.producer.Returned? && |s.log.ring.data| == s.log.bs
  }

  /** Only the filling has gone on. */
  predicate Untouched(s: Sys, t: Sys) {
    t.log.SameShape(s.log) && t.stored == s.stored && t.failures == s.failures
  }

  lemma PadsLog(log: LogState, left: nat)
    requires Aligned(log) && 0 < left <= log.ring.Free() && log.ring.data != [] && |log.ring.data| + left == log.bs
    ensures var (log', l) := PadChunk(log, left);
            && l.Some? && l.value < left && |log'.ring.data| + l.value == log.bs
            && Decode(log.bs, log'.ring.data) == Decode(log.bs, log.ring.data)
  {
    OneBlock(log.bs, log.ring.data);
    PadStepMeaning(log, left);
  }

  lemma PadsChunk(s: Sys, es: seq<Entry>, t: Sys)
    requires PaddingOut(s, es) && s.producer.FillPad? && t == Do(s, ProducerMoves) && Inv(t)
    ensures PaddingOut(t, es) && Untouched(s, t) && (t.producer.FillPad? ==> t.producer.left < s.producer.left)
  {
    PadsLog(s.log, s.producer.left);
  }

  lemma {:induction false} PadsOut(s0: Sys, s: Sys, es: seq<Entry>) returns (t: Sys)
    requires Reaches(s0, s) && PaddingOut(s, es)
    ensures Reaches(s0, t) && PaddingOut(t, es) && t.producer.Returned? && Untouched(s, t)
    decreases if s.producer.FillPad? then s.producer.left else 0
  {
    t := s;
    if s.producer.FillPad? {
      t := Writes(s0, s);
      PadsChunk(s, es, t);
      t := PadsOut(s0, t, es);
    }
  }

  lemma FillDecides(log: LogState)
    requires Aligned(log) && 0 < |log.ring.data| < log.bs < log.ring.size
    ensures ProducerStep(log, FillStart) == (log, FillDecide(log.ring.Free()))
    ensures ProducerStep(log, FillDecide(log.ring.Free())) == (log, FillPad(log.bs - |log.ring.data|))
  {
    WriteOffset(log);
    AlignedGap(log.ring.r, log.ring.size, log.bs);
    assert Remainder(log.bs, log.bs) == 0;
    AlignedGap(log.bs, log.ring.size, log.bs);
  }

  /** A flush of the only block in the ring. */
  lemma Flushes(s0: Sys, s: Sys) returns (t: Sys)
    requires Reaches(s0, s) && AtRest(s) && 0 < |s.log.ring.data| < s.log.bs < s.log.ring.size
    ensures var es := Decode(s.log.bs, s.log.ring.data);
            Reaches(s0, t) && PaddingOut(t, es) && t.producer.Returned? && Untouched(s, t)
  {
    FillDecides(s.log);
    t := s.(producer := FillStart);
    Goes(s0, s, BeginFill, t);
    t := Writes(s0, t);
    t := Writes(s0, t);
    t := PadsOut(s0, t, Decode(s.log.bs, s.log.ring.data));
  }

  /** One entry that fits a block, and the rest of the block filled with padding, if there is any. */
  lemma AddsAndFlushes(s0: Sys, s: Sys, e: Entry) returns (t: Sys)
    requires Reaches(s0, s) && AtRest(s) && s.log.ring.data == [] && s.log.bs < s.log.ring.size
    requires WellFormed(e) && HEADER_SIZE + |e| <= s.log.bs
    ensures Reaches(s0, t) && AtRest(t) && |t.log.ring.data| == t.log.bs && Untouched(s, t)
  {
    var added := Adds(s0, s, e);
    t := added;
    if HEADER_SIZE + |e| < s.log.bs {
      t := Flushes(s0, added);
      FlushedRests(t, Decode(added.log.bs, added.log.ring.data));
    }
  }

  lemma Adds(s0: Sys, s: Sys, e: Entry) returns (t: Sys)
    requires Reaches(s0, s) && AtRest(s) && s.log.ring.data == [] && s.log.bs < s.log.ring.size
    requires WellFormed(e) && HEADER_SIZE + |e| <= s.log.bs
    ensures Reaches(s0, t) && AtRest(t) && |t.log.ring.data| == HEADER_SIZE + |e| && Untouched(s, t)
    ensures Decode(t.log.bs, t.log.ring.data) != []
  {
    t := Reserves(s0, s, e);
    t := Completes(s0, t);
  }

  /** A block flushed that holds an entry is one the reader will take. */
  lemma FlushedRests(t: Sys, es: seq<Entry>)
    requires PaddingOut(t, es) && t.producer.Returned? && es != []
    ensures AtRest(t)
  {
    OneBlock(t.log.bs, t.log.ring.data);
    assert t.log.ring.data[..t.log.bs] == t.log.ring.data;
  }

  // ---------------------------------------------------------------- failed stores and the host

  /** The head block is on the card, after `n` stores that failed, and out of the ring. */
  ghost predicate Shipped(s: Sys, t: Sys, n: nat) {
    && t.failures == s.failures + n && |t.stored| == |s.stored| + 1 && t.stored[..|s.stored|] == s.stored
    && t.stored[|s.stored|].failed == s.failures + n
    && t.log.SameShape(s.log) && s.log.bs <= |s.log.ring.data| && t.log.ring.data == s.log.ring.data[s.log.bs..]
  }

  lemma ShippedWhen(s: Sys, x: Sys, y: Sys, t: Sys, n: nat)
    requires OnlyRead(s, x) && OnlyFailed(x, y, n) && Moved(y, t)
    ensures Shipped(s, t, n) && t.producer == s.producer && t.consumer == Idle
  {
    assert t.stored[..|s.stored|] == s.stored;
  }

  lemma WholeBlockOut(bs: nat, d: seq<byte>)
    requires 0 < bs <= |d| && NoEmptyBlock(bs, d)
    ensures Body(d[..bs]) != [] && NoEmptyBlock(bs, d[bs..]) && OpenBlock(bs, d[bs..]) == OpenBlock(bs, d)
  {
  }

  /** The head block is read, failed to be stored `n` times, stored and consumed. */
  lemma Ships(s0: Sys, s: Sys, n: nat) returns (t: Sys)
    requires Reaches(s0, s) && AtRest(s) && s.log.bs <= |s.log.ring.data|
    ensures Reaches(s0, t) && AtRest(t) && Shipped(s, t, n)
  {
    WholeBlockOut(s.log.bs, s.log.ring.data);
    var x := ReadsBlock(s0, s);
    var y := FailsToStore(s0, x, n);
    t := Stores(s0, y);
    ShippedWhen(s, x, y, t, n);
  }

  /** One entry added and flushed to a block, failed to be stored `n` times and stored, and the ring empty again. */
  lemma BlockStored(s0: Sys, s: Sys, e: Entry, n: nat) returns (t: Sys)
    requires Reaches(s0, s) && AtRest(s) && s.log.ring.data == [] && s.log.bs < s.log.ring.size
    requires WellFormed(e) && HEADER_SIZE + |e| <= s.log.bs
    ensures Reaches(s0, t) && AtRest(t) && t.log.ring.data == [] && t.log.SameShape(s.log)
    ensures t.failures == s.failures + n && |t.stored| == |s.stored| + 1 && t.stored[..|s.stored|] == s.stored
    ensures t.stored[|s.stored|].failed == s.failures + n
  {
    var filled := AddsAndFlushes(s0, s, e);
    t := Ships(s0, filled, n);
  }

  /** Any number of blocks stored without a failure. */
  lemma {:induction false} BlocksStored(s: Sys, e: Entry, n: nat) returns (t: Sys)
    requires Init(s) && s.log.bs < s.log.ring.size && WellFormed(e) && HEADER_SIZE + |e| <= s.log.bs
    ensures Reaches(s, t) && AtRest(t) && t.log.ring.data == [] && t.log.SameShape(s.log)
    ensures |t.stored| == n && t.failures == 0
  {
    if n == 0 {
      Begins(s);
      t := s;
    } else {
      t := BlocksStored(s, e, n - 1);
      t := BlockStored(s, t, e, 0);
    }
  }

  lemma TwoBlocksStored(s: Sys, e: Entry, n: nat) returns (t: Sys)
    requires Init(s) && s.log.bs < s.log.ring.size && WellFormed(e) && HEADER_SIZE + |e| <= s.log.bs
    ensures Reaches(s, t) && CardOk(t) && |t.stored| == 2 && t.failures == n
    ensures t.stored[0].failed == 0 && t.stored[1].failed == n
  {
    Begins(s);
    var first := BlockStored(s, s, e, 0);
    t := BlockStored(s, first, e, n);
    FirstStays(first.stored, t.stored);
    AtRestCard(t);
  }

  lemma FirstStays(a: seq<StoredBlock>, b: seq<StoredBlock>)
    requires |a| == 1 && |b| == 2 && b[..1] == a
    ensures b[0] == a[0]
  {
    assert b[..1][0] == b[0];
  }

  lemma AtRestCard(t: Sys)
    requires AtRest(t)
    ensures CardOk(t)
  {
  }

  /**
   * For every block size and every n a run in which n stores fail between two blocks. Both blocks are on the card,
   * but by default the host yields the second only if n is a multiple of 256: one failure makes it stop, 256 it
   * does not notice.
   */
  lemma FailuresBetweenBlocks(s: Sys, e: Entry, n: nat) returns (acts: seq<Action>)
    requires Init(s) && s.log.bs < s.log.ring.size && WellFormed(e) && HEADER_SIZE + |e| <= s.log.bs
    ensures var t := Run(s, acts);
            && |t.stored| == 2 && t.failures == n
            && HostBlocks(FileFrom(t.stored, 0), Start, StopAtGap)
               == if Remainder(n, 0x100) == 0 then [t.stored[0].bytes, t.stored[1].bytes] else [t.stored[0].bytes]
  {
    var t := TwoBlocksStored(s, e, n);
    acts :| Run(s, acts) == t;
    HostOnTwo(t, n);
  }

  lemma HostOnTwo(t: Sys, n: nat)
    requires CardOk(t) && |t.stored| == 2 && t.stored[1].failed == t.stored[0].failed + n
    ensures HostBlocks(FileFrom(t.stored, 0), Start, StopAtGap)
         == if Remainder(n, 0x100) == 0 then [t.stored[0].bytes, t.stored[1].bytes] else [t.stored[0].bytes]
  {
    HostStopsAtFirstBreak(t, 0, Start, StopAtGap);
    StopOnTwo(t.stored, n);
    BytesOfTwo(t.stored);
  }

  lemma BytesOfTwo(stored: seq<StoredBlock>)
    requires |stored| == 2
    ensures BytesFrom(stored, 0) == [stored[0].bytes, stored[1].bytes] && BytesFrom(stored, 0)[..1] == [stored[0].bytes]
    ensures BytesFrom(stored, 0)[..2] == BytesFrom(stored, 0)
  {
  }

  lemma StopOnTwo(stored: seq<StoredBlock>, n: nat)
    requires |stored| == 2 && stored[1].failed == stored[0].failed + n
    ensures HostStop(stored, 0, Start, StopAtGap) == if Remainder(n, 0x100) == 0 then 2 else 1
  {
    assert GapFree(stored, 1) <==> Remainder(n, 0x100) == 0;
    assert HostStop(stored, 0, Start, StopAtGap) == if GapFree(stored, 1) then 2 else 1;
  }

  // ---------------------------------------------------------------- a block that can never be read

  /** Blocks of one entry each, until there is no room for another. */
  lemma {:induction false} FillsRing(s0: Sys, s: Sys, e: Entry) returns (t: Sys)
    requires Reaches(s0, s) && AtRest(s) && OpenBlock(s.log.bs, s.log.ring.data) == []
    requires WellFormed(e) && |e| == s.log.bs - HEADER_SIZE
    ensures Reaches(s0, t) && AtRest(t) && OpenBlock(t.log.bs, t.log.ring.data) == [] && t.log.SameShape(s.log)
    ensures t.log.ring.Free() == t.log.bs - 1
    decreases s.log.ring.Free()
  {
    OpenBlockLength(s.log.bs, s.log.ring.data);
    AlignedGap(|s.log.ring.data|, s.log.ring.size, s.log.bs);
    if s.log.ring.Free() < s.log.bs {
      t := s;
    } else {
      t := FillsBlock(s0, s, e);
      t := FillsRing(s0, t, e);
    }
  }

  /** Every whole block is stored. */
  lemma {:induction false} Drains(s0: Sys, s: Sys) returns (t: Sys)
    requires Reaches(s0, s) && AtRest(s)
    ensures Reaches(s0, t) && AtRest(t) && t.log.SameShape(s.log)
    ensures t.log.ring.data == OpenBlock(s.log.bs, s.log.ring.data)
    decreases |s.log.ring.data|
  {
    t := s;
    if s.log.bs <= |s.log.ring.data| {
      WholeBlockOut(s.log.bs, s.log.ring.data);
      t := Ships(s0, s, 0);
      t := Drains(s0, t);
    }
  }

  /**
   * With blocks that one entry can fill there is a run to a block that is never read: the ring is filled with such
   * blocks, the next entry finds room for a header only, everything before it is stored, and a flush pads the
   * header to a block.
   */
  lemma SmallBlocksFail(s: Sys, e: Entry) returns (acts: seq<Action>)
    requires Init(s) && s.log.bs < s.log.ring.size && WellFormed(e) && |e| == s.log.bs - HEADER_SIZE
    ensures Run(s, acts).consumer.ReadFailed?
  {
    Begins(s);
    var full := FillsRing(s, s, e);
    var reserved := FillsBlock(s, full, e);
    var drained := Drains(s, reserved);
    assert drained.log.ring.data[HEADER_SIZE..] == [];
    var padded := Flushes(s, drained);
    OneBlock(padded.log.bs, padded.log.ring.data);
    assert Head(padded) == padded.log.ring.data;
    var t := ReadsBlock(s, padded);
    acts :| Run(s, acts) == t;
  }

  lemma SingleBlockStep(s: Sys, a: Action)
    requires Typed(s) && ConsumerInv(s.log, s.consumer, Reads(s)) && s.log.ring.size == s.log.bs
    requires s.consumer == Idle || s.consumer.ReadyLinear?
    ensures var t := Do(s, a); t.log.SameShape(s.log) && (t.consumer == Idle || t.consumer.ReadyLinear?)
  {
  }

  /** In a ring of a single block, where one byte is always free, no block is ever ready. */
  lemma {:induction false} SingleBlockIsNeverReady(s: Sys, acts: seq<Action>)
    requires Inv(s) && s.log.ring.size == s.log.bs && (s.consumer == Idle || s.consumer.ReadyLinear?)
    ensures !Run(s, acts).consumer.ReadFailed?
    decreases |acts|
  {
    if acts != [] {
      EveryActionKeeps(s, acts[0]);
      SingleBlockStep(s, acts[0]);
      SingleBlockIsNeverReady(Do(s, acts[0]), acts[1..]);
    }
  }

  /** An entry of that length: a frame with its type, its own length and nothing else. */
  function EntryOf(n: nat): (e: Entry)
    requires ENTRY_HEADER_SIZE <= n <= MAX_ENTRY
    ensures WellFormed(e) && |e| == n
  {
    [TYPE_FRAME, ENTRY_HEADER_SIZE as byte, n as byte] + Zeros(n - ENTRY_HEADER_SIZE)
  }

  /** Every ready block can be read, in every run, exactly when blocks are above 275 bytes or the ring is a single one. */
  lemma ReadableExactlyWhenRoomy(s: Sys)
    requires Init(s)
    ensures (forall acts :: !Run(s, acts).consumer.ReadFailed?) <==> Roomy(s.log.bs) || s.log.ring.size == s.log.bs
  {
    AlignedGap(0, s.log.ring.size, s.log.bs);
    if s.log.ring.size == s.log.bs {
      InitInv(s);
      forall acts
        ensures !Run(s, acts).consumer.ReadFailed?
      {
        SingleBlockIsNeverReady(s, acts);
      }
    } else if Roomy(s.log.bs) {
      forall acts
        ensures !Run(s, acts).consumer.ReadFailed?
      {
        ReadyBlocksAreReadable(s, acts);
      }
    } else {
      var acts := SmallBlocksFail(s, EntryOf(s.log.bs - HEADER_SIZE));
      assert Run(s, acts).consumer.ReadFailed?;
    }
  }
}
