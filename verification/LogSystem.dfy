/**
 * The logging pipeline as a concurrent system: the CAN task adds entries and flushes, the SD task
 * reads, stores and consumes blocks, and any ring call of one may fall between any two of the other.
 * A run is any sequence of actions; stores succeed or fail as the environment likes.
 */
module LogSystem {
  import opened Wire
  import opened BlockFormat
  import opened ByteRing
  import opened BlockRing
  import opened LogSteps

  /** A block on the card, and how many stores had failed before it was written. */
  datatype StoredBlock = StoredBlock(bytes: seq<byte>, failed: nat)

  datatype Sys = Sys(
    log: LogState, producer: Producer, consumer: Consumer,
    accepted: seq<Entry>,       // entries AddEntry returned OK for, in order
    stored: seq<StoredBlock>,   // blocks written to the card
    failures: nat)              // stores that failed

  datatype Action = BeginAdd(e: Entry) | BeginFill | ProducerMoves | ConsumerMoves | Store(ok: bool)

  ghost predicate Typed(s: Sys) {
    s.log.Ok() && ProducerOk(s.producer) && ConsumerOk(s.log, s.consumer)
  }

  /** An action that is not possible in this state leaves it as it is. */
  ghost function Do(s: Sys, a: Action): (s': Sys)
    requires Typed(s)
    ensures Typed(s')
  {
    match a
    case BeginAdd(e) =>
      if s.producer.Returned? && WellFormed(e) then s.(producer := AddLoop(e)) else s
    case BeginFill =>
      if s.producer.Returned? then s.(producer := FillStart) else s
    case ProducerMoves =>
      var (log, p) := ProducerStep(s.log, s.producer);
      s.(log := log, producer := p,
         accepted := if s.producer.AddDecide? && p == Returned(Status.Ok) then s.accepted + [s.producer.e] else s.accepted)
    case ConsumerMoves =>
      if s.consumer.ReadFailed? then s.(consumer := Idle)
      else var (log, c) := ConsumerStep(s.log, s.consumer); s.(log := log, consumer := c)
    case Store(ok) =>
      if !s.consumer.InFlight? || |s.log.ring.data| < s.log.bs then s
      else if ok then
        s.(stored := s.stored + [StoredBlock(s.log.ring.data[..s.log.bs], s.failures)],
           consumer := ConsumeSkip(s.log.bs, s.consumer.frames))
      else s.(failures := s.failures + 1, consumer := Idle)
  }

  ghost function Run(s: Sys, acts: seq<Action>): (s': Sys)
    requires Typed(s)
    ensures Typed(s')
    decreases |acts|
  {
    if acts == [] then s else Run(Do(s, acts[0]), acts[1..])
  }

  ghost predicate Init(s: Sys) {
    && s.log.Ok() && s.log.ring.r == 0 && s.log.ring.data == []
    && s.log.frames1 == s.log.frames2 == 0 && s.log.blockCount == 0
    && s.producer == Returned(Status.Ok) && s.consumer == Idle
    && s.accepted == [] && s.stored == [] && s.failures == 0
  }

  // ---------------------------------------------------------------- invariant

  ghost predicate Aligned(log: LogState) {
    log.Ok() && Remainder(log.ring.r, log.bs) == 0 && TidyRing(log.bs, log.ring.data)
  }

  ghost predicate ProducerInv(log: LogState, p: Producer)
    requires log.Ok()
  {
    var o := OpenBlock(log.bs, log.ring.data);
    && (p.AddLoop? || p.AddDecide? || p.AddPad? ==> WellFormed(p.e))
    && (if p.AddPad? || p.FillPad? then 0 < p.left == log.bs - |o| && o != [] && p.left <= log.ring.Free() else Gapless(o))
    && (p.AddDecide? || p.FillDecide? ==> p.free <= log.ring.Free())
    && (p.FillDecide? ==> o != [])
    && (p.Returned? ==> p.status.Ok? || p.status.NotOk? || p.status.BufferFull?)
  }

  /** The head block is what the header in it will say, or already says. */
  predicate HeadIs(log: LogState, frames: nat) {
    && 0 < log.bs <= |log.ring.data|
    && frames == Frames(Body(log.ring.data[..log.bs]))
  }

  ghost predicate HeadDescribed(log: LogState, cnt: nat) {
    exists h :: Described(log.bs, log.ring.data[..Min(log.bs, |log.ring.data|)], h)
                && h.cnt as nat == Remainder(cnt, 0x100) && h.epoch == log.epoch
  }

  /** What the walk has counted and what is still in front of it make up the block. */
  predicate WalkInv(d: seq<byte>, bs: nat, offset: nat, frames: nat, count: nat) {
    && HEADER_SIZE <= offset <= bs <= |d|
    && frames + Frames(Entries(d[offset..bs])) == Frames(Body(d[..bs]))
    && count + |Entries(d[offset..bs])| == |Body(d[..bs])|
    && Rest(d[offset..bs]) == Rest(d[HEADER_SIZE..bs])
  }

  ghost predicate ConsumerInv(log: LogState, c: Consumer, handed: nat)
    requires log.Ok()
  {
    var bs, d := log.bs, log.ring.data;
    match c
    case Idle | ConsumeCheck | ReadFailed => true
    case ReadyLinear(skip, full) => skip == 0 && full <= |d|
    case ReadStart | ReadAvail => bs <= |d|
    case ReadLinear(avail) => bs <= |d| && avail == bs
    case ReadSkip(_) | ReadPadFree(_) | ReadPad(_) => false
    case ReadWalk(offset, frames, count) => WalkInv(d, bs, offset, frames, count)
    case ReadFinish(offset, frames, count) =>
      && HeadIs(log, frames)
      && count == |Body(d[..bs])|
      && offset == bs - |Rest(d[HEADER_SIZE..bs])|
    case InFlight(frames) => HeadIs(log, frames) && 0 < handed && HeadDescribed(log, handed - 1)
    case ConsumeSkip(len, frames) => HeadIs(log, frames) && len == bs
  }

  function StoredEntries(bs: nat, stored: seq<StoredBlock>): seq<Entry> {
    if stored == [] then []
    else StoredEntries(bs, stored[..|stored| - 1]) + Body(stored[|stored| - 1].bytes)
  }

  /** What is in the ring and not on the card. */
  function Pending(s: Sys): seq<byte> {
    if s.consumer.ConsumeSkip? && s.log.bs <= |s.log.ring.data| then s.log.ring.data[s.log.bs..] else s.log.ring.data
  }

  /** Blocks handed out by ReadNextBlock so far. */
  function Reads(s: Sys): nat {
    |s.stored| + s.failures + if s.consumer.InFlight? then 1 else 0
  }

  ghost predicate StoredOk(log: LogState, b: StoredBlock, i: nat) {
    exists h :: Described(log.bs, b.bytes, h) && h.cnt as nat == Remainder(i + b.failed, 0x100) && h.epoch == log.epoch
  }

  ghost predicate TasksOk(s: Sys) {
    && Aligned(s.log)
    && ProducerOk(s.producer) && ProducerInv(s.log, s.producer)
    && ConsumerOk(s.log, s.consumer) && ConsumerInv(s.log, s.consumer, Reads(s))
    && s.log.blockCount as nat == Remainder(Reads(s), 0x100)
  }

  /** Conservation: accepted entries are on the card or in the ring, in order, once. */
  ghost predicate Balanced(s: Sys)
    requires 0 < s.log.bs
  {
    && s.accepted == StoredEntries(s.log.bs, s.stored) + Decode(s.log.bs, Pending(s))
    && s.log.frames1 == s.log.frames2 + Frames(Decode(s.log.bs, s.log.ring.data))
  }

  /** No fewer stores had failed than before the block stored earlier. */
  predicate FailedSince(stored: seq<StoredBlock>, i: nat)
    requires 0 < i < |stored|
  {
    stored[i - 1].failed <= stored[i].failed
  }

  ghost predicate CardOk(s: Sys) {
    && (forall i :: 0 <= i < |s.stored| ==> StoredOk(s.log, s.stored[i], i) && s.stored[i].failed <= s.failures)
    && (forall i :: 0 < i < |s.stored| ==> FailedSince(s.stored, i))
  }

  ghost predicate Inv(s: Sys) {
    TasksOk(s) && Balanced(s) && CardOk(s)
  }

  lemma InitInv(s: Sys)
    requires Init(s)
    ensures Inv(s)
  {
  }

  // ---------------------------------------------------------------- producer

  /** The ring pointer's place in its block is how much of the open block there is. */
  lemma WriteOffset(log: LogState)
    requires Aligned(log)
    ensures Remainder(log.ring.W(), log.bs) == |OpenBlock(log.bs, log.ring.data)|
  {
    var r, n, size := log.ring.r, |log.ring.data|, log.ring.size;
    OpenBlockLength(log.bs, log.ring.data);
    RemainderAdd(r, n, log.bs);
    if r + n >= size {
      RemainderAdd(size, r + n - size, log.bs);
    }
  }

  function Added(p: Producer, p': Producer): seq<Entry> {
    if p.AddDecide? && p' == Returned(Status.Ok) then [p.e] else []
  }

  /** What one ring call of the producer may do: append, and either accept an entry or change no meaning. */
  ghost predicate Appends(log: LogState, log': LogState, p': Producer, added: seq<Entry>)
    requires log.Ok()
  {
    && Aligned(log') && ProducerInv(log', p')
    && log'.SameShape(log) && log'.ring.r == log.ring.r && log.ring.data <= log'.ring.data
    && Decode(log.bs, log'.ring.data) == Decode(log.bs, log.ring.data) + added
    && log'.frames1 == log.frames1 + Frames(added)
    && log'.frames2 == log.frames2 && log'.blockCount == log.blockCount
  }

  lemma ProducerStepMeaning(log: LogState, p: Producer)
    requires Aligned(log) && ProducerOk(p) && ProducerInv(log, p)
    ensures var (log', p') := ProducerStep(log, p); Appends(log, log', p', Added(p, p'))
  {
    WriteOffset(log);
    assert Decode(log.bs, log.ring.data) + [] == Decode(log.bs, log.ring.data);
    match p
    case AddDecide(e, free) => AddDecideMeaning(log, e, free);
    case AddPad(_, left) => PadStepMeaning(log, left);
    case FillPad(left) => PadStepMeaning(log, left);
    case _ =>
  }

  lemma AddDecideMeaning(log: LogState, e: Entry, free: nat)
    requires Aligned(log) && WellFormed(e) && ProducerInv(log, AddDecide(e, free))
    requires Remainder(log.ring.W(), log.bs) == |OpenBlock(log.bs, log.ring.data)|
    ensures var (log', p') := ProducerStep(log, AddDecide(e, free)); Appends(log, log', p', Added(AddDecide(e, free), p'))
  {
    var bs, d := log.bs, log.ring.data;
    var o := OpenBlock(bs, d);
    assert Decode(bs, d) + [] == Decode(bs, d);
    if o == [] && free >= HEADER_SIZE {
      AppendHeader(bs, d, Zeros(HEADER_SIZE));
      assert Zeros(HEADER_SIZE)[..HEADER_SIZE] == Zeros(HEADER_SIZE);
    } else if o != [] && |e| <= bs - |o| && |e| <= free {
      AppendWellFormed(bs, d, e);
      assert e[..|e|] == e;
    }
  }

  lemma PadStepMeaning(log: LogState, left: nat)
    requires Aligned(log) && 0 < left <= log.ring.Free()
    requires var o := OpenBlock(log.bs, log.ring.data); o != [] && left == log.bs - |o|
    ensures var (log', l) := PadChunk(log, left);
            && Aligned(log') && l.Some? && l.value < left && l.value <= log'.ring.Free()
            && log.ring.data <= log'.ring.data
            && Decode(log.bs, log'.ring.data) == Decode(log.bs, log.ring.data)
            && (if l.value == 0 then OpenBlock(log.bs, log'.ring.data) == []
                else OpenBlock(log.bs, log'.ring.data) != [] && l.value == log.bs - |OpenBlock(log.bs, log'.ring.data)|)
  {
    var chunk := Min(PADDING_CHUNK, left);
    assert Pads(chunk)[..chunk] == Pads(chunk);
    AppendPads(log.bs, log.ring.data, Pads(chunk));
  }

  /** The consumer's knowledge is about the head block, which appending does not touch. */
  lemma ConsumerInvExtends(log: LogState, log': LogState, c: Consumer, handed: nat)
    requires Aligned(log) && Aligned(log') && ConsumerOk(log, c) && ConsumerInv(log, c, handed)
    requires log'.SameShape(log) && log'.ring.r == log.ring.r && log.ring.data <= log'.ring.data
    ensures ConsumerOk(log', c) && ConsumerInv(log', c, handed)
  {
    var bs, d, d' := log.bs, log.ring.data, log'.ring.data;
    if bs <= |d| {
      assert d'[..bs] == d[..bs];
      assert forall i :: 0 <= i <= bs ==> d'[i..bs] == d[i..bs];
    }
  }

  lemma CancelPrefix<T>(b: seq<T>, x: seq<T>, y: seq<T>, z: seq<T>)
    requires b + x == b + y + z
    ensures x == y + z
  {
    assert x == (b + x)[|b|..];
    assert y + z == (b + y + z)[|b|..];
  }

  lemma DecodeHead(bs: nat, d: seq<byte>)
    requires 0 < bs <= |d|
    ensures Decode(bs, d) == Body(d[..bs]) + Decode(bs, d[bs..])
  {
  }

  lemma DecodePrefix(bs: nat, d: seq<byte>, d': seq<byte>, added: seq<Entry>)
    requires 0 < bs <= |d| && d <= d'
    requires Decode(bs, d') == Decode(bs, d) + added
    ensures Decode(bs, d'[bs..]) == Decode(bs, d[bs..]) + added
  {
    DecodeHead(bs, d);
    DecodeHead(bs, d');
    assert d'[..bs] == d[..bs];
    CancelPrefix(Body(d[..bs]), Decode(bs, d'[bs..]), Decode(bs, d[bs..]), added);
  }

  lemma Associate<T>(a: seq<T>, b: seq<T>, c: seq<T>)
    ensures a + b + c == a + (b + c)
  {
  }

  lemma AppendingBalances(s: Sys, s': Sys, added: seq<Entry>)
    requires 0 < s.log.bs == s'.log.bs && Balanced(s) && s.log.ring.data <= s'.log.ring.data
    requires s.consumer.ConsumeSkip? ==> s.log.bs <= |s.log.ring.data|
    requires Decode(s.log.bs, s'.log.ring.data) == Decode(s.log.bs, s.log.ring.data) + added
    requires s'.log.frames1 == s.log.frames1 + Frames(added) && s'.log.frames2 == s.log.frames2
    requires s'.consumer == s.consumer && s'.stored == s.stored && s'.accepted == s.accepted + added
    ensures Balanced(s')
  {
    var bs := s.log.bs;
    FramesConcat(Decode(bs, s.log.ring.data), added);
    if s.consumer.ConsumeSkip? {
      DecodePrefix(bs, s.log.ring.data, s'.log.ring.data, added);
    }
    Associate(StoredEntries(bs, s.stored), Decode(bs, Pending(s)), added);
  }

  lemma AppendingKeeps(s: Sys, s': Sys, added: seq<Entry>)
    requires Inv(s) && ProducerOk(s'.producer) && Appends(s.log, s'.log, s'.producer, added)
    requires s' == s.(log := s'.log, producer := s'.producer, accepted := s.accepted + added)
    ensures Inv(s')
  {
    AppendingTasks(s, s', added);
    AppendingBalances(s, s', added);
    CardStays(s, s');
  }

  lemma AppendingTasks(s: Sys, s': Sys, added: seq<Entry>)
    requires TasksOk(s) && ProducerOk(s'.producer) && Appends(s.log, s'.log, s'.producer, added)
    requires s' == s.(log := s'.log, producer := s'.producer, accepted := s'.accepted)
    ensures TasksOk(s')
  {
    ConsumerInvExtends(s.log, s'.log, s.consumer, Reads(s));
  }

  lemma ProducerMovesKeeps(s: Sys)
    requires Inv(s)
    ensures Inv(Do(s, ProducerMoves))
  {
    var (log', p') := ProducerStep(s.log, s.producer);
    var added := Added(s.producer, p');
    ProducerStepMeaning(s.log, s.producer);
    assert s.accepted + [] == s.accepted;
    AppendingKeeps(s, Do(s, ProducerMoves), added);
  }

  lemma CardStays(s: Sys, s': Sys)
    requires CardOk(s) && s.log.SameShape(s'.log) && s'.stored == s.stored && s.failures <= s'.failures
    ensures CardOk(s')
  {
    forall i | 0 <= i < |s'.stored|
      ensures StoredOk(s'.log, s'.stored[i], i)
    {
      assert StoredOk(s.log, s.stored[i], i);
    }
  }

  // ---------------------------------------------------------------- consumer

  /** A whole block at a block-aligned read pointer never wraps. */
  lemma BlockIsLinear(log: LogState)
    requires Aligned(log) && log.bs <= |log.ring.data|
    ensures log.bs <= log.ring.LinearRead()
  {
    AlignedGap(log.ring.r, log.ring.size, log.bs);
  }

  /** The firmware's three-byte peek sees what the decoder sees. */
  lemma PeekMeaning(log: LogState, offset: nat)
    requires log.Ok() && offset <= log.bs <= |log.ring.data|
    ensures var t := log.ring.data[offset..log.bs];
            var h := log.ring.Peek(offset, ENTRY_HEADER_SIZE);
            && (StartsEntry(t) <==> ENTRY_HEADER_SIZE <= log.bs - offset && WalkOn(log.bs, offset, h))
            && (StartsEntry(t) ==> h[2] == t[2] && h[0] == t[0])
  {
    var t := log.ring.data[offset..log.bs];
    if ENTRY_HEADER_SIZE <= |t| {
      assert log.ring.Peek(offset, ENTRY_HEADER_SIZE) == t[..ENTRY_HEADER_SIZE];
    }
  }

  lemma WalkOverEntry(d: seq<byte>, bs: nat, offset: nat, frames: nat, count: nat)
    requires WalkInv(d, bs, offset, frames, count) && StartsEntry(d[offset..bs])
    ensures var t := d[offset..bs];
            WalkInv(d, bs, offset + t[2] as nat, if t[0] == TYPE_FRAME then frames + 1 else frames, count + 1)
  {
    var t := d[offset..bs];
    EntriesStep(t);
    assert t[t[2]..] == d[offset + t[2] as nat..bs];
  }

  lemma WalkEnds(d: seq<byte>, bs: nat, offset: nat, frames: nat, count: nat)
    requires WalkInv(d, bs, offset, frames, count) && !StartsEntry(d[offset..bs])
    ensures frames == Frames(Body(d[..bs])) && count == |Body(d[..bs])| && offset == bs - |Rest(d[HEADER_SIZE..bs])|
  {
    EntriesStep(d[offset..bs]);
  }

  /** Where a walking reader goes next, in the decoder's terms. */
  function WalkNext(log: LogState, offset: nat, frames: nat, count: nat): Consumer
    requires offset <= log.bs <= |log.ring.data|
  {
    var t := log.ring.data[offset..log.bs];
    if StartsEntry(t) then ReadWalk(offset + t[2] as nat, if t[0] == TYPE_FRAME then frames + 1 else frames, count + 1)
    else ReadFinish(offset, frames, count)
  }

  lemma WalkStepIs(log: LogState, offset: nat, frames: nat, count: nat)
    requires log.Ok() && ConsumerOk(log, ReadWalk(offset, frames, count)) && offset <= log.bs <= |log.ring.data|
    ensures ConsumerStep(log, ReadWalk(offset, frames, count)) == (log, WalkNext(log, offset, frames, count))
  {
    PeekMeaning(log, offset);
  }

  lemma WalkMeaning(log: LogState, offset: nat, frames: nat, count: nat, handed: nat, next: Consumer)
    requires log.Ok() && ConsumerInv(log, ReadWalk(offset, frames, count), handed)
    requires next == WalkNext(log, offset, frames, count)
    ensures ConsumerInv(log, next, handed)
  {
    if StartsEntry(log.ring.data[offset..log.bs]) {
      WalkOverEntry(log.ring.data, log.bs, offset, frames, count);
    } else {
      WalkEnds(log.ring.data, log.bs, offset, frames, count);
    }
  }

  lemma FinishMeaning(log: LogState, offset: nat, frames: nat, count: nat, handed: nat)
    requires Aligned(log) && ConsumerOk(log, ReadFinish(offset, frames, count))
    requires ConsumerInv(log, ReadFinish(offset, frames, count), handed)
    requires offset != HEADER_SIZE && log.blockCount as nat == Remainder(handed, 0x100)
    ensures var (log', c') := ConsumerStep(log, ReadFinish(offset, frames, count));
            && Aligned(log') && ConsumerInv(log', c', handed + 1) && c' == InFlight(frames)
            && log'.ring.r == log.ring.r && |log'.ring.data| == |log.ring.data|
            && log'.ring.data[log.bs..] == log.ring.data[log.bs..]
            && OpenBlock(log.bs, log'.ring.data) == OpenBlock(log.bs, log.ring.data)
            && Decode(log.bs, log'.ring.data) == Decode(log.bs, log.ring.data)
            && log'.frames1 == log.frames1 && log'.frames2 == log.frames2
            && log'.blockCount as nat == Remainder(handed + 1, 0x100)
  {
    var d, bs := log.ring.data, log.bs;
    var h := MakeHeader(log, offset, count);
    OverwriteHeader(bs, d, EncodeHeader(h));
    var head := EncodeHeader(h) + d[HEADER_SIZE..bs];
    var body := d[HEADER_SIZE..bs];
    assert d[..bs][HEADER_SIZE..] == body == head[HEADER_SIZE..];
    EntriesCount(body);
    EntriesCoverBytes(body);
    assert |Rest(body)| <= |body|;
    HeaderRoundTrip(h, body);
    assert Tidy(body);
    assert Described(bs, head, h);
    NextCount(handed);
  }

  /** The host reads back the header that the reader fills in. */
  lemma FinishHeader(log: LogState, offset: nat, frames: nat, count: nat)
    requires log.Ok() && ConsumerOk(log, ReadFinish(offset, frames, count)) && offset != HEADER_SIZE
    requires log.bs <= |log.ring.data| && count < TWO_32
    ensures var (log', _) := ConsumerStep(log, ReadFinish(offset, frames, count));
            log.bs <= |log'.ring.data| && ReadBlockHeader(log'.ring.data[..log.bs]) == Some(MakeHeader(log, offset, count))
  {
    var d, bs := log.ring.data, log.bs;
    var h := MakeHeader(log, offset, count);
    OverwriteHeader(bs, d, EncodeHeader(h));
    HeaderRoundTrip(h, d[HEADER_SIZE..bs]);
  }

  lemma {:induction false} NextCount(n: nat)
    ensures Remainder(n + 1, 0x100) == if Remainder(n, 0x100) == 0xFF then 0 else Remainder(n, 0x100) + 1
  {
    if n >= 0x100 {
      NextCount(n - 0x100);
    }
  }

  lemma SkipMeaning(log: LogState)
    requires Aligned(log) && log.bs <= |log.ring.data|
    ensures var ring := log.ring.Skip(log.bs);
            && Aligned(log.(ring := ring))
            && ring.data == log.ring.data[log.bs..]
            && OpenBlock(log.bs, ring.data) == OpenBlock(log.bs, log.ring.data)
  {
    AlignedGap(log.ring.r, log.ring.size, log.bs);
    RemainderAdd(log.ring.r, log.bs, log.bs);
  }

  /** Steps that only look: the ring stays as it is. */
  lemma LookMeaning(log: LogState, c: Consumer, handed: nat)
    requires Aligned(log) && ConsumerOk(log, c) && ConsumerInv(log, c, handed)
    requires !c.ReadWalk? && !c.ConsumeSkip? && !c.InFlight? && !c.ReadFailed?
    requires c.ReadFinish? ==> c.offset == HEADER_SIZE
    ensures var (log', c') := ConsumerStep(log, c);
            log' == log && ConsumerInv(log, c', handed) && !c'.InFlight? && !c'.ConsumeSkip?
  {
    if c.ReadLinear? {
      var d := log.ring.data;
      BlockIsLinear(log);
      assert d[..log.bs][HEADER_SIZE..] == d[HEADER_SIZE..log.bs];
    }
  }

  lemma LookingKeeps(s: Sys, s': Sys)
    requires Inv(s) && !s.consumer.InFlight? && !s.consumer.ConsumeSkip?
    requires s' == s.(consumer := s'.consumer) && !s'.consumer.InFlight? && !s'.consumer.ConsumeSkip?
    requires ConsumerOk(s.log, s'.consumer) && ConsumerInv(s.log, s'.consumer, Reads(s))
    ensures Inv(s')
  {
    CardStays(s, s');
  }

  lemma FinishTasks(s: Sys, s': Sys)
    requires TasksOk(s) && s.consumer.ReadFinish? && s.consumer.offset != HEADER_SIZE
    requires (s'.log, s'.consumer) == ConsumerStep(s.log, s.consumer)
    requires s' == s.(log := s'.log, consumer := s'.consumer)
    ensures TasksOk(s')
  {
    FinishMeaning(s.log, s.consumer.offset, s.consumer.frames, s.consumer.count, Reads(s));
    assert Reads(s') == Reads(s) + 1;
  }

  lemma FinishBalances(s: Sys, s': Sys)
    requires TasksOk(s) && s.consumer.ReadFinish? && s.consumer.offset != HEADER_SIZE && Balanced(s)
    requires (s'.log, s'.consumer) == ConsumerStep(s.log, s.consumer)
    requires s' == s.(log := s'.log, consumer := s'.consumer)
    ensures Balanced(s')
  {
    FinishMeaning(s.log, s.consumer.offset, s.consumer.frames, s.consumer.count, Reads(s));
  }

  lemma FinishKeeps(s: Sys, s': Sys)
    requires Inv(s) && s.consumer.ReadFinish? && s.consumer.offset != HEADER_SIZE
    requires (s'.log, s'.consumer) == ConsumerStep(s.log, s.consumer)
    requires s' == s.(log := s'.log, consumer := s'.consumer)
    ensures Inv(s')
  {
    FinishTasks(s, s');
    FinishBalances(s, s');
    CardStays(s, s');
  }

  /** What the producer relies on is the open block, which the reader does not touch. */
  lemma ProducerUnmoved(log: LogState, log': LogState, p: Producer)
    requires Aligned(log) && Aligned(log') && log.SameShape(log') && ProducerInv(log, p)
    requires OpenBlock(log'.bs, log'.ring.data) == OpenBlock(log.bs, log.ring.data) && |log'.ring.data| <= |log.ring.data|
    ensures ProducerInv(log', p)
  {
  }

  lemma SkipTasks(s: Sys, log': LogState)
    requires TasksOk(s) && s.consumer.ConsumeSkip?
    requires log' == s.log.(ring := s.log.ring.Skip(s.log.bs), frames2 := s.log.frames2 + s.consumer.frames)
    ensures TasksOk(s.(log := log', consumer := ConsumeCheck))
  {
    SkipMeaning(s.log);
    ProducerUnmoved(s.log, log', s.producer);
  }

  lemma SkipBalances(s: Sys, log': LogState)
    requires s.log.Ok() && Balanced(s) && s.consumer.ConsumeSkip? && HeadIs(s.log, s.consumer.frames)
    requires log' == s.log.(ring := s.log.ring.Skip(s.log.bs), frames2 := s.log.frames2 + s.consumer.frames)
    ensures Balanced(s.(log := log', consumer := ConsumeCheck))
  {
    var bs, d := s.log.bs, s.log.ring.data;
    DecodeHead(bs, d);
    FramesConcat(Body(d[..bs]), Decode(bs, d[bs..]));
  }

  lemma SkipKeeps(s: Sys, s': Sys)
    requires Inv(s) && s.consumer.ConsumeSkip?
    requires s' == s.(log := s.log.(ring := s.log.ring.Skip(s.log.bs), frames2 := s.log.frames2 + s.consumer.frames),
                      consumer := ConsumeCheck)
    ensures Inv(s')
  {
    SkipTasks(s, s'.log);
    SkipBalances(s, s'.log);
    CardStays(s, s');
  }

  lemma ConsumerMovesKeeps(s: Sys, s': Sys)
    requires Inv(s) && s' == Do(s, ConsumerMoves)
    ensures Inv(s')
  {
    var c := s.consumer;
    if c.InFlight? {
    } else if c.ConsumeSkip? {
      SkipKeeps(s, s');
    } else if c.ReadFinish? && c.offset != HEADER_SIZE {
      FinishKeeps(s, s');
    } else {
      if c.ReadWalk? {
        WalkStepIs(s.log, c.offset, c.frames, c.count);
        WalkMeaning(s.log, c.offset, c.frames, c.count, Reads(s), WalkNext(s.log, c.offset, c.frames, c.count));
      } else if !c.ReadFailed? {
        LookMeaning(s.log, c, Reads(s));
      }
      LookingKeeps(s, s');
    }
  }

  lemma FailedStoreKeeps(s: Sys, s': Sys)
    requires Inv(s) && s.consumer.InFlight? && s' == s.(consumer := Idle, failures := s.failures + 1)
    ensures Inv(s')
  {
    FailedStoreTasks(s, s');
    FailedStoreBalances(s, s');
    CardStays(s, s');
  }

  lemma FailedStoreTasks(s: Sys, s': Sys)
    requires TasksOk(s) && s.consumer.InFlight? && s' == s.(consumer := Idle, failures := s.failures + 1)
    ensures TasksOk(s')
  {
    assert Reads(s') == Reads(s);
  }

  lemma FailedStoreBalances(s: Sys, s': Sys)
    requires 0 < s.log.bs && Balanced(s) && s.consumer.InFlight? && s' == s.(consumer := Idle, failures := s.failures + 1)
    ensures Balanced(s')
  {
  }

  lemma StoreKeeps(s: Sys, ok: bool)
    requires Inv(s)
    ensures Inv(Do(s, Store(ok)))
  {
    if s.consumer.InFlight? {
      if ok {
        StoredKeeps(s, Do(s, Store(true)), StoredBlock(s.log.ring.data[..s.log.bs], s.failures));
      } else {
        FailedStoreKeeps(s, Do(s, Store(false)));
      }
    }
  }

  lemma StoredTasks(s: Sys, s': Sys)
    requires TasksOk(s) && s.consumer.InFlight? && |s'.stored| == |s.stored| + 1
    requires s' == s.(stored := s'.stored, consumer := ConsumeSkip(s.log.bs, s.consumer.frames))
    ensures TasksOk(s')
  {
  }

  lemma StoredBalances(s: Sys, s': Sys, b: StoredBlock)
    requires 0 < s.log.bs <= |s.log.ring.data| && Balanced(s) && s.consumer.InFlight?
    requires b.bytes == s.log.ring.data[..s.log.bs]
    requires s' == s.(stored := s.stored + [b], consumer := ConsumeSkip(s.log.bs, s.consumer.frames))
    ensures Balanced(s')
  {
    var bs, d := s.log.bs, s.log.ring.data;
    assert s'.stored[..|s.stored|] == s.stored;
    DecodeHead(bs, d);
    Associate(StoredEntries(bs, s.stored), Body(d[..bs]), Decode(bs, d[bs..]));
  }

  lemma StoredCard(s: Sys, s': Sys, b: StoredBlock)
    requires CardOk(s) && StoredOk(s.log, b, |s.stored|) && b.failed == s.failures
    requires s'.log == s.log && s'.stored == s.stored + [b] && s'.failures == s.failures
    ensures CardOk(s')
  {
    forall i | 0 <= i < |s'.stored|
      ensures StoredOk(s'.log, s'.stored[i], i)
    {
      assert i < |s.stored| ==> StoredOk(s.log, s.stored[i], i);
    }
    forall i | 0 < i < |s'.stored|
      ensures FailedSince(s'.stored, i)
    {
      assert i < |s.stored| ==> FailedSince(s.stored, i);
    }
  }

  lemma StoredKeeps(s: Sys, s': Sys, b: StoredBlock)
    requires Inv(s) && s.consumer.InFlight? && b == StoredBlock(s.log.ring.data[..s.log.bs], s.failures)
    requires s' == s.(stored := s.stored + [b], consumer := ConsumeSkip(s.log.bs, s.consumer.frames))
    ensures Inv(s')
  {
    StoredTasks(s, s');
    StoredBalances(s, s', b);
    assert StoredOk(s.log, b, |s.stored|);
    StoredCard(s, s', b);
  }

  lemma BeginKeeps(s: Sys, p: Producer)
    requires Inv(s) && s.producer.Returned?
    requires p == FillStart || (p.AddLoop? && WellFormed(p.e))
    ensures Inv(s.(producer := p))
  {
    var s' := s.(producer := p);
    BeginTasks(s, s');
    BeginBalances(s, s');
    CardStays(s, s');
  }

  lemma BeginTasks(s: Sys, s': Sys)
    requires TasksOk(s) && s.producer.Returned? && s' == s.(producer := s'.producer)
    requires s'.producer == FillStart || (s'.producer.AddLoop? && WellFormed(s'.producer.e))
    ensures TasksOk(s')
  {
  }

  lemma BeginBalances(s: Sys, s': Sys)
    requires 0 < s.log.bs && Balanced(s) && s' == s.(producer := s'.producer)
    ensures Balanced(s')
  {
  }

  // ---------------------------------------------------------------- main results

  lemma EveryActionKeeps(s: Sys, a: Action)
    requires Inv(s)
    ensures Inv(Do(s, a))
  {
    match a
    case ProducerMoves => ProducerMovesKeeps(s);
    case ConsumerMoves => ConsumerMovesKeeps(s, Do(s, a));
    case Store(ok) => StoreKeeps(s, ok);
    case BeginAdd(e) =>
      if s.producer.Returned? && WellFormed(e) {
        BeginKeeps(s, AddLoop(e));
      }
    case BeginFill =>
      if s.producer.Returned? {
        BeginKeeps(s, FillStart);
      }
  }

  lemma {:induction false} EveryRunKeeps(s: Sys, acts: seq<Action>)
    requires Inv(s)
    ensures Inv(Run(s, acts))
    decreases |acts|
  {
    if acts != [] {
      EveryActionKeeps(s, acts[0]);
      EveryRunKeeps(Do(s, acts[0]), acts[1..]);
    }
  }

  /**
   * Lossless order: from start-up, however the two tasks interleave and whichever stores fail, the entries
   * AddEntry accepted are the entries on the card followed by the entries in the ring, in order, once each.
   */
  lemma Lossless(s: Sys, acts: seq<Action>)
    requires Init(s)
    ensures var t := Run(s, acts);
            t.accepted == StoredEntries(t.log.bs, t.stored) + Decode(t.log.bs, Pending(t))
  {
    InitInv(s);
    EveryRunKeeps(s, acts);
  }

  /** In every reachable state the frames counted in, less those counted out, are the frames in the ring. */
  lemma FrameCountsAgree(s: Sys, acts: seq<Action>)
    requires Init(s)
    ensures var t := Run(s, acts);
            t.log.frames1 == t.log.frames2 + Frames(Decode(t.log.bs, t.log.ring.data))
  {
    InitInv(s);
    EveryRunKeeps(s, acts);
  }

  /** The write errors, the realignment of the reader, its padding of a partial block and the ring reset
      are never taken: the read pointer is at a block boundary in every reachable state. */
  lemma DefensiveBranchesAreDead(s: Sys, acts: seq<Action>)
    requires Init(s)
    ensures var t := Run(s, acts);
            && Remainder(t.log.ring.r, t.log.bs) == 0
            && !t.consumer.ReadSkip? && !t.consumer.ReadPadFree? && !t.consumer.ReadPad?
            && (t.producer.Returned? ==> t.producer.status in {Status.Ok, Status.NotOk, BufferFull})
            && (t.consumer.ConsumeCheck? ==> Do(t, ConsumerMoves).log == t.log)
  {
    InitInv(s);
    EveryRunKeeps(s, acts);
  }

  lemma MoveLeavesBlock(s: Sys, a: Action)
    requires Inv(s) && s.consumer.InFlight? && !a.Store?
    ensures var t := Do(s, a);
            && t.consumer == s.consumer && t.log.bs == s.log.bs && t.log.ring.r == s.log.ring.r
            && t.log.bs <= |t.log.ring.data| && t.log.ring.data[..t.log.bs] == s.log.ring.data[..s.log.bs]
  {
    if a == ProducerMoves {
      ProducerLeavesBlock(s, Do(s, a));
    }
  }

  lemma ProducerLeavesBlock(s: Sys, t: Sys)
    requires TasksOk(s) && s.consumer.InFlight? && t == Do(s, ProducerMoves)
    ensures t.consumer == s.consumer && t.log.bs == s.log.bs && t.log.ring.r == s.log.ring.r
    ensures t.log.bs <= |t.log.ring.data| && t.log.ring.data[..t.log.bs] == s.log.ring.data[..s.log.bs]
  {
    ProducerStepMeaning(s.log, s.producer);
  }

  /**
   * In-flight stability: between ReadNextBlock and the end of the store, whatever the producer does and
   * however stale its samples are, the block handed out stays where it is, byte for byte, and does not wrap.
   */
  lemma {:induction false} InFlightIsStable(s: Sys, acts: seq<Action>)
    requires Inv(s) && s.consumer.InFlight? && forall a :: a in acts ==> !a.Store?
    ensures var t := Run(s, acts);
            && t.consumer == s.consumer && t.log.bs == s.log.bs && t.log.ring.r == s.log.ring.r
            && t.log.ring.r + t.log.bs <= t.log.ring.size
            && t.log.bs <= |t.log.ring.data| && t.log.ring.data[..t.log.bs] == s.log.ring.data[..s.log.bs]
    decreases |acts|
  {
    if acts == [] {
      BlockIsLinear(s.log);
    } else {
      MoveLeavesBlock(s, acts[0]);
      EveryActionKeeps(s, acts[0]);
      InFlightIsStable(Do(s, acts[0]), acts[1..]);
    }
  }

  /** Every block on the card is described exactly by its own header, and counted: the i-th block stored
      carries i plus the number of stores that had failed before it, modulo 256. */
  lemma StoredBlocksAreDescribed(s: Sys, acts: seq<Action>)
    requires Init(s)
    ensures CardOk(Run(s, acts))
  {
    InitInv(s);
    EveryRunKeeps(s, acts);
  }

  /** ReadNextBlock turns a ready block down exactly when it holds no entry, and then leaves the ring as it is:
      the same block is in front of the reader the next time. */
  lemma ReadFailsOnlyOnEmptyBlock(s: Sys)
    requires Inv(s) && s.consumer.ReadFinish?
    ensures ConsumerStep(s.log, s.consumer).1 == ReadFailed <==> Body(s.log.ring.data[..s.log.bs]) == []
    ensures ConsumerStep(s.log, s.consumer).1 == ReadFailed ==> Do(s, ConsumerMoves).log == s.log
  {
    var bs, d := s.log.bs, s.log.ring.data;
    assert d[..bs][HEADER_SIZE..] == d[HEADER_SIZE..bs];
    EntriesCoverBytes(d[HEADER_SIZE..bs]);
  }

  // ---------------------------------------------------------------- progress

  const MAX_ENTRY := 0xFF

  /** The block size leaves room for a header and the longest entry even in the last block of the ring,
      where one byte must stay free. */
  predicate Roomy(bs: nat) {
    HEADER_SIZE + MAX_ENTRY < bs
  }

  /** No whole block is empty; a block that is only a header is about to get its first entry. */
  ghost predicate Productive(log: LogState, p: Producer)
    requires log.Ok()
  {
    var o := OpenBlock(log.bs, log.ring.data);
    && NoEmptyBlock(log.bs, log.ring.data)
    && (o != [] && Body(o) == [] ==>
          && |o| == HEADER_SIZE
          && ((p.AddLoop? && MAX_ENTRY <= log.ring.Free()) || (p.AddDecide? && MAX_ENTRY <= p.free)))
  }

  lemma ProducerStaysProductive(log: LogState, p: Producer)
    requires Aligned(log) && ProducerOk(p) && ProducerInv(log, p) && Productive(log, p) && Roomy(log.bs)
    ensures var (log', p') := ProducerStep(log, p); Productive(log', p')
  {
    WriteOffset(log);
    var bs, d := log.bs, log.ring.data;
    var o := OpenBlock(bs, d);
    match p
    case AddDecide(e, free) => DecideStaysProductive(log, e, free);
    case AddPad(_, left) => PadStaysProductive(log, left);
    case FillPad(left) => PadStaysProductive(log, left);
    case _ =>
  }

  lemma PadStaysProductive(log: LogState, left: nat)
    requires Aligned(log) && 0 < left <= log.ring.Free() && NoEmptyBlock(log.bs, log.ring.data)
    requires var o := OpenBlock(log.bs, log.ring.data); o != [] && left == log.bs - |o| && Body(o) != []
    ensures var log' := PadChunk(log, left).0;
            var o := OpenBlock(log.bs, log'.ring.data);
            NoEmptyBlock(log.bs, log'.ring.data) && (o != [] ==> Body(o) != [])
  {
    var chunk := Min(PADDING_CHUNK, left);
    assert Pads(chunk)[..chunk] == Pads(chunk);
    AppendPads(log.bs, log.ring.data, Pads(chunk));
  }

  lemma DecideStaysProductive(log: LogState, e: Entry, free: nat)
    requires Aligned(log) && Roomy(log.bs) && WellFormed(e)
    requires ProducerInv(log, AddDecide(e, free)) && Productive(log, AddDecide(e, free))
    requires Remainder(log.ring.W(), log.bs) == |OpenBlock(log.bs, log.ring.data)|
    ensures var (log', p') := ProducerStep(log, AddDecide(e, free)); Productive(log', p')
  {
    var bs, d := log.bs, log.ring.data;
    var o := OpenBlock(bs, d);
    if o == [] && free >= HEADER_SIZE {
      OpenBlockLength(bs, d);
      AlignedGap(|d|, log.ring.size, bs);
      AppendHeader(bs, d, Zeros(HEADER_SIZE));
      assert Zeros(HEADER_SIZE)[..HEADER_SIZE] == Zeros(HEADER_SIZE);
    } else if o != [] && |e| <= bs - |o| && |e| <= free {
      AppendWellFormed(bs, d, e);
      assert e[..|e|] == e;
    }
  }

  ghost predicate Live(s: Sys)
    requires s.log.Ok()
  {
    && Productive(s.log, s.producer) && Roomy(s.log.bs) && !s.consumer.ReadFailed?
    && (s.consumer.ReadFinish? ==> s.consumer.offset != HEADER_SIZE)
  }

  lemma LookStaysLive(log: LogState, c: Consumer, handed: nat)
    requires Aligned(log) && ConsumerOk(log, c) && ConsumerInv(log, c, handed) && NoEmptyBlock(log.bs, log.ring.data)
    requires c.ReadFinish? ==> c.offset != HEADER_SIZE
    requires !c.ReadFailed?
    ensures var c' := ConsumerStep(log, c).1; !c'.ReadFailed? && (c'.ReadFinish? ==> c'.offset != HEADER_SIZE)
  {
    if c.ReadLinear? {
      BlockIsLinear(log);
    } else if c.ReadWalk? {
      var d, bs := log.ring.data, log.bs;
      WalkStepIs(log, c.offset, c.frames, c.count);
      WalkMeaning(log, c.offset, c.frames, c.count, handed, WalkNext(log, c.offset, c.frames, c.count));
      assert d[..bs][HEADER_SIZE..] == d[HEADER_SIZE..bs];
      EntriesCoverBytes(d[HEADER_SIZE..bs]);
    }
  }

  lemma SkipStaysProductive(log: LogState, log': LogState, p: Producer)
    requires Aligned(log) && log.bs <= |log.ring.data| && Productive(log, p)
    requires log' == log.(ring := log.ring.Skip(log.bs), frames2 := log'.frames2)
    ensures log'.Ok() && Productive(log', p)
  {
    SkipMeaning(log);
  }

  lemma OverwriteStaysProductive(log: LogState, log': LogState, h: seq<byte>, p: Producer)
    requires Aligned(log) && log.bs <= |log.ring.data| && Productive(log, p) && |h| == HEADER_SIZE
    requires log' == log.(ring := log.ring.Overwrite(h), blockCount := log'.blockCount)
    ensures log'.Ok() && Productive(log', p)
  {
    OverwriteHeader(log.bs, log.ring.data, h);
  }

  lemma RingStaysProductive(s: Sys, log': LogState)
    requires Inv(s) && Productive(s.log, s.producer) && log' == Do(s, ConsumerMoves).log
    ensures log'.Ok() && Productive(log', s.producer)
  {
    var c := s.consumer;
    if c.ConsumeSkip? {
      SkipStaysProductive(s.log, log', s.producer);
    } else if c.ReadFinish? && c.offset != HEADER_SIZE {
      OverwriteStaysProductive(s.log, log', EncodeHeader(MakeHeader(s.log, c.offset, c.count)), s.producer);
    } else if c.ReadWalk? {
      WalkStepIs(s.log, c.offset, c.frames, c.count);
      WalkMeaning(s.log, c.offset, c.frames, c.count, Reads(s), WalkNext(s.log, c.offset, c.frames, c.count));
    } else if !c.InFlight? && !c.ReadFailed? {
      LookMeaning(s.log, c, Reads(s));
    }
  }

  lemma ConsumerStaysLive(s: Sys)
    requires Inv(s) && Live(s)
    ensures Live(Do(s, ConsumerMoves))
  {
    LookStaysLive(s.log, s.consumer, Reads(s));
    RingStaysProductive(s, Do(s, ConsumerMoves).log);
  }

  lemma EveryActionStaysLive(s: Sys, a: Action)
    requires Inv(s) && Live(s)
    ensures Live(Do(s, a))
  {
    if a == ProducerMoves {
      ProducerStaysProductive(s.log, s.producer);
    } else if a == ConsumerMoves {
      ConsumerStaysLive(s);
    }
  }

  lemma {:induction false} EveryRunIsLive(s: Sys, acts: seq<Action>)
    requires Inv(s) && Live(s)
    ensures Live(Run(s, acts))
    decreases |acts|
  {
    if acts != [] {
      EveryActionKeeps(s, acts[0]);
      EveryActionStaysLive(s, acts[0]);
      EveryRunIsLive(Do(s, acts[0]), acts[1..]);
    }
  }

  /** Progress: with a block size above 275 bytes, no reachable state has ReadNextBlock turn a ready block down. */
  lemma ReadyBlocksAreReadable(s: Sys, acts: seq<Action>)
    requires Init(s) && Roomy(s.log.bs)
    ensures !Run(s, acts).consumer.ReadFailed?
    ensures NoEmptyBlock(s.log.bs, Run(s, acts).log.ring.data)
  {
    InitInv(s);
    EveryRunIsLive(s, acts);
    RunKeepsShape(s, acts);
  }

  lemma {:induction false} RunKeepsShape(s: Sys, acts: seq<Action>)
    requires Typed(s)
    ensures Run(s, acts).log.SameShape(s.log)
    decreases |acts|
  {
    if acts != [] {
      RunKeepsShape(Do(s, acts[0]), acts[1..]);
    }
  }
}
