/**
 * CanLogBuffer.c one ring call at a time. Producer and consumer run in different tasks, so each
 * keeps what it last sampled in its own program counter, and a step uses the sample, not the
 * present value. `ProducerLeads` and `ConsumerLeads` are runs of one side alone.
 */
module LogSteps {
  import opened Wire
  import opened BlockFormat
  import opened ByteRing
  import opened Runs

  const PADDING_CHUNK := 32

  datatype Status = Ok | NotOk | BufferFull | WritePadding | WriteHeader | WriteEntry

  /** The statics of the module. `bs` is BLOCK_SIZE; the ring is a whole number of blocks. */
  datatype LogState = LogState(
    bs: nat, ring: Ring, frames1: nat, frames2: nat, blockCount: byte, epoch: byte)
  {
    ghost predicate Ok() {
      HEADER_SIZE + ENTRY_HEADER_SIZE < bs < TWO_32 && ring.Valid() && Remainder(ring.size, bs) == 0
    }

    /** BLOCK_SIZE and LOG_BUFFER_SIZE never change. */
    predicate SameShape(s: LogState) {
      bs == s.bs && ring.size == s.ring.size && epoch == s.epoch
    }
  }

  function Zeros(n: nat): (z: seq<byte>)
    ensures |z| == n
  {
    seq(n, _ => 0)
  }

  function Pads(n: nat): (p: seq<byte>)
    ensures |p| == n && Padding(p)
  {
    seq(n, _ => PADDING)
  }

  // ---------------------------------------------------------------- producer

  datatype Producer =
    | AddLoop(e: Entry)
    | AddDecide(e: Entry, free: nat)
    | AddPad(e: Entry, left: nat)
    | FillStart
    | FillDecide(free: nat)
    | FillPad(left: nat)
    | Returned(status: Status)

  ghost predicate ProducerOk(p: Producer) {
    match p
    case AddLoop(e) => ENTRY_HEADER_SIZE <= |e|
    case AddDecide(e, _) => ENTRY_HEADER_SIZE <= |e|
    case AddPad(e, left) => ENTRY_HEADER_SIZE <= |e| && 0 < left
    case FillPad(left) => 0 < left
    case _ => true
  }

  /** Writes one padding chunk; what is left afterwards, or None if the ring took less than the chunk. */
  function PadChunk(s: LogState, left: nat): (LogState, Option<nat>)
    requires s.Ok()
  {
    var chunk := Min(PADDING_CHUNK, left);
    var (ring, n) := s.ring.Write(Pads(chunk));
    (s.(ring := ring), if n == chunk then Some(left - chunk) else None)
  }

  function ProducerStep(s: LogState, p: Producer): (q: (LogState, Producer))
    requires s.Ok() && ProducerOk(p)
    ensures q.0.Ok() && ProducerOk(q.1) && q.0.SameShape(s) && q.0.ring.r == s.ring.r
  {
    var offset := Remainder(s.ring.W(), s.bs);
    var space := s.bs - offset;
    match p
    case AddLoop(e) => (s, AddDecide(e, s.ring.Free()))
    case AddDecide(e, free) =>
      if offset == 0 then
        if free < HEADER_SIZE then (s, Returned(BufferFull))
        else
          var (ring, n) := s.ring.Write(Zeros(HEADER_SIZE));
          (s.(ring := ring), if n == HEADER_SIZE then AddLoop(e) else Returned(WriteHeader))
      else if |e| > space then
        if space > free then (s, Returned(BufferFull)) else (s, AddPad(e, space))
      else if |e| > free then (s, Returned(BufferFull))
      else
        var (ring, n) := s.ring.Write(e);
        if n == |e| then
          (s.(ring := ring, frames1 := if e[0] == TYPE_FRAME then s.frames1 + 1 else s.frames1), Returned(Status.Ok))
        else (s.(ring := ring), Returned(WriteEntry))
    case AddPad(e, left) =>
      (match PadChunk(s, left)
       case (s', None) => (s', Returned(WritePadding))
       case (s', Some(l)) => (s', if l == 0 then AddLoop(e) else AddPad(e, l)))
    case FillStart =>
      if offset == 0 then (s, Returned(Status.Ok)) else (s, FillDecide(s.ring.Free()))
    case FillDecide(free) =>
      if free < space || s.ring.LinearWrite() < space then (s, Returned(NotOk)) else (s, FillPad(space))
    case FillPad(left) =>
      (match PadChunk(s, left)
       case (s', None) => (s', Returned(NotOk))
       case (s', Some(l)) => (s', if l == 0 then Returned(Status.Ok) else FillPad(l)))
    case Returned(_) => (s, p)
  }

  ghost predicate ProducerTakes(a: (LogState, Producer), b: (LogState, Producer)) {
    a.0.Ok() && ProducerOk(a.1) && b == ProducerStep(a.0, a.1)
  }

  /** The producer alone gets from `p` to `p'` in some number of ring calls. */
  ghost predicate ProducerLeads(s: LogState, p: Producer, s': LogState, p': Producer) {
    Leads(ProducerTakes, (s, p), (s', p'))
  }

  lemma ProducerAdvance(s: LogState, p: Producer, s': LogState, p': Producer)
    requires ProducerLeads(s, p, s', p') && s'.Ok() && ProducerOk(p')
    ensures ProducerLeads(s, p, ProducerStep(s', p').0, ProducerStep(s', p').1)
  {
    var q := ProducerStep(s', p');
    assert ProducerTakes((s', p'), q);
    Advance(ProducerTakes, (s, p), (s', p'), q);
  }

  /** One pass of AddEntry's loop, in closed form. */
  lemma ProducerPasses(s: LogState, p: Producer, s': LogState, e: Entry)
    requires s'.Ok() && ENTRY_HEADER_SIZE <= |e| && ProducerLeads(s, p, s', AddLoop(e))
    ensures var offset := Remainder(s'.ring.W(), s'.bs);
            var space, free := s'.bs - offset, s'.ring.Free();
            if offset == 0 then
              if free < HEADER_SIZE then ProducerLeads(s, p, s', Returned(BufferFull))
              else ProducerLeads(s, p, s'.(ring := s'.ring.Write(Zeros(HEADER_SIZE)).0), AddLoop(e))
            else if |e| > space then
              if space > free then ProducerLeads(s, p, s', Returned(BufferFull))
              else ProducerLeads(s, p, s', AddPad(e, space))
            else if |e| > free then ProducerLeads(s, p, s', Returned(BufferFull))
            else ProducerLeads(s, p,
                   s'.(ring := s'.ring.Write(e).0,
                       frames1 := if e[0] == TYPE_FRAME then s'.frames1 + 1 else s'.frames1),
                   Returned(Status.Ok))
  {
    ProducerAdvance(s, p, s', AddLoop(e));
    ProducerAdvance(s, p, s', AddDecide(e, s'.ring.Free()));
  }

  /** A call has one outcome. */
  lemma ProducerCallIsDetermined(s: LogState, p: Producer, s1: LogState, r1: Status, s2: LogState, r2: Status)
    requires s1.Ok() && s2.Ok()
    requires ProducerLeads(s, p, s1, Returned(r1)) && ProducerLeads(s, p, s2, Returned(r2))
    ensures s1 == s2 && r1 == r2
  {
    assert ProducerTakes((s1, Returned(r1)), (s1, Returned(r1)));
    assert ProducerTakes((s2, Returned(r2)), (s2, Returned(r2)));
    RestIsUnique(ProducerTakes, (s, p), (s1, Returned(r1)), (s2, Returned(r2)));
  }

  /** The padding loop's step, in closed form. */
  lemma ProducerPads(s: LogState, p: Producer, s': LogState, p': Producer, left: nat)
    requires s'.Ok() && 0 < left && (p' == FillPad(left) || (p'.AddPad? && ProducerOk(p') && p'.left == left))
    requires ProducerLeads(s, p, s', p') && Min(PADDING_CHUNK, left) <= s'.ring.Free()
    ensures var chunk := Min(PADDING_CHUNK, left);
            ProducerLeads(s, p, s'.(ring := s'.ring.Write(Pads(chunk)).0),
                          if chunk < left then p'.(left := left - chunk)
                          else if p'.AddPad? then AddLoop(p'.e) else Returned(Status.Ok))
  {
    ProducerAdvance(s, p, s', p');
  }

  // ---------------------------------------------------------------- consumer

  datatype Consumer =
    | Idle
    | ReadyLinear(skip: nat, full: nat)
    | ReadStart
    | ReadSkip(need: nat)
    | ReadAvail
    | ReadLinear(avail: nat)
    | ReadPadFree(need: nat)
    | ReadPad(left: nat)
    | ReadWalk(offset: nat, frames: nat, count: nat)
    | ReadFinish(offset: nat, frames: nat, count: nat)
    | InFlight(frames: nat)
    | ReadFailed
    | ConsumeSkip(len: nat, frames: nat)
    | ConsumeCheck

  ghost predicate ConsumerOk(s: LogState, c: Consumer)
    requires s.Ok()
  {
    match c
    case ReadPadFree(need) => s.bs <= s.ring.LinearRead() && 0 < need
    case ReadPad(left) => s.bs <= s.ring.LinearRead() && 0 < left
    case ReadWalk(offset, frames, count) => s.bs <= s.ring.LinearRead() && HEADER_SIZE <= offset <= s.bs
    case ReadFinish(offset, _, _) => s.bs <= s.ring.LinearRead() && HEADER_SIZE <= offset <= s.bs
    case _ => true
  }

  function MakeHeader(s: LogState, fill: nat, count: nat): BlockHeader {
    BlockHeader(LOG_VERSION, HEADER_SIZE as byte, s.epoch, s.blockCount, s.bs, fill, s.frames1 % TWO_32, count)
  }

  /** The walk goes on over this entry header. */
  predicate WalkOn(bs: nat, offset: nat, h: seq<byte>) {
    && |h| == ENTRY_HEADER_SIZE
    && ENTRY_HEADER_SIZE <= h[2] as int <= bs
    && KnownType(h[0])
    && offset + h[2] as int <= bs
  }

  /**
   * One ring call of IsBlockReady (Idle, ReadyLinear), ReadNextBlock (ReadStart to InFlight or
   * ReadFailed) or Consume (ConsumeSkip, ConsumeCheck). InFlight and ReadFailed are left by the caller.
   */
  function ConsumerStep(s: LogState, c: Consumer): (q: (LogState, Consumer))
    requires s.Ok() && ConsumerOk(s, c)
    ensures q.0.Ok() && ConsumerOk(q.0, q.1) && q.0.SameShape(s)
  {
    var misaligned := Remainder(s.ring.r, s.bs);
    match c
    case Idle => (s, ReadyLinear(if misaligned == 0 then 0 else s.bs - misaligned, |s.ring.data|))
    case ReadyLinear(skip, full) =>
      var linear := s.ring.LinearRead();
      if skip != 0 && (full <= skip || linear <= skip) then (s, Idle)
      else if full >= skip + s.bs && linear >= skip + s.bs then (s, ReadStart)
      else (s, Idle)
    case ReadStart =>
      if misaligned == 0 then (s, ReadAvail)
      else if |s.ring.data| < s.bs - misaligned then (s, ReadFailed)
      else (s, ReadSkip(s.bs - misaligned))
    case ReadSkip(need) => (s.(ring := s.ring.Skip(need)), ReadAvail)
    case ReadAvail => (s, ReadLinear(Min(|s.ring.data|, s.bs)))
    case ReadLinear(avail) =>
      if avail < HEADER_SIZE + ENTRY_HEADER_SIZE || s.ring.LinearRead() < s.bs then (s, ReadFailed)
      else if avail < s.bs then (s, ReadPadFree(s.bs - avail))
      else (s, ReadWalk(HEADER_SIZE, 0, 0))
    case ReadPadFree(need) =>
      if s.ring.Free() < need then (s, ReadFailed) else (s, ReadPad(need))
    case ReadPad(left) =>
      (match PadChunk(s, left)
       case (s', None) => (s', ReadFailed)
       case (s', Some(l)) => (s', if l == 0 then ReadWalk(HEADER_SIZE, 0, 0) else ReadPad(l)))
    case ReadWalk(offset, frames, count) =>
      var h := s.ring.Peek(offset, ENTRY_HEADER_SIZE);
      if s.bs - offset < ENTRY_HEADER_SIZE || !WalkOn(s.bs, offset, h) then (s, ReadFinish(offset, frames, count))
      else (s, ReadWalk(offset + h[2] as nat, if h[0] == TYPE_FRAME then frames + 1 else frames, count + 1))
    case ReadFinish(offset, frames, count) =>
      if offset == HEADER_SIZE then (s, ReadFailed)
      else
        (s.(ring := s.ring.Overwrite(EncodeHeader(MakeHeader(s, offset, count))),
            blockCount := Increment(s.blockCount)),
         InFlight(frames))
    case ConsumeSkip(len, frames) => (s.(ring := s.ring.Skip(len), frames2 := s.frames2 + frames), ConsumeCheck)
    case ConsumeCheck =>
      (if s.ring.data == [] && misaligned != 0 then s.(ring := s.ring.Reset()) else s, Idle)
    case InFlight(_) | ReadFailed => (s, c)
  }

  ghost predicate ConsumerTakes(a: (LogState, Consumer), b: (LogState, Consumer)) {
    a.0.Ok() && ConsumerOk(a.0, a.1) && b == ConsumerStep(a.0, a.1)
  }

  /** The consumer alone gets from `c` to `c'` in some number of ring calls. */
  ghost predicate ConsumerLeads(s: LogState, c: Consumer, s': LogState, c': Consumer) {
    Leads(ConsumerTakes, (s, c), (s', c'))
  }

  lemma ConsumerAdvance(s: LogState, c: Consumer, s': LogState, c': Consumer)
    requires ConsumerLeads(s, c, s', c') && s'.Ok() && ConsumerOk(s', c')
    ensures ConsumerLeads(s, c, ConsumerStep(s', c').0, ConsumerStep(s', c').1)
  {
    var q := ConsumerStep(s', c');
    assert ConsumerTakes((s', c'), q);
    Advance(ConsumerTakes, (s, c), (s', c'), q);
  }

  /** ReadNextBlock up to its walk, in closed form, once the read pointer is at a block boundary. */
  lemma ConsumerSamples(s: LogState, c: Consumer, s': LogState)
    requires s'.Ok() && ConsumerLeads(s, c, s', ReadAvail)
    ensures ConsumerLeads(s, c, s',
              if s'.bs <= s'.ring.LinearRead() then ReadWalk(HEADER_SIZE, 0, 0) else ReadFailed)
  {
    ConsumerAdvance(s, c, s', ReadAvail);
    ConsumerAdvance(s, c, s', ReadLinear(Min(|s'.ring.data|, s'.bs)));
  }

  /** The walk's step over an entry, in closed form. */
  lemma ConsumerWalks(s: LogState, c: Consumer, s': LogState, offset: nat, frames: nat, count: nat)
    requires s'.Ok() && ConsumerOk(s', ReadWalk(offset, frames, count))
    requires ConsumerLeads(s, c, s', ReadWalk(offset, frames, count))
    ensures var h := s'.ring.Peek(offset, ENTRY_HEADER_SIZE);
            ConsumerLeads(s, c, s',
              if offset + ENTRY_HEADER_SIZE <= s'.bs && WalkOn(s'.bs, offset, h)
              then ReadWalk(offset + h[2] as nat, if h[0] == TYPE_FRAME then frames + 1 else frames, count + 1)
              else ReadFinish(offset, frames, count))
  {
    ConsumerAdvance(s, c, s', ReadWalk(offset, frames, count));
  }

  lemma ConsumerFinishes(s: LogState, c: Consumer, s': LogState, offset: nat, frames: nat, count: nat)
    requires s'.Ok() && ConsumerOk(s', ReadFinish(offset, frames, count)) && offset != HEADER_SIZE
    requires ConsumerLeads(s, c, s', ReadFinish(offset, frames, count))
    ensures ConsumerLeads(s, c,
              s'.(ring := s'.ring.Overwrite(EncodeHeader(MakeHeader(s', offset, count))),
                  blockCount := Increment(s'.blockCount)),
              InFlight(frames))
  {
    ConsumerAdvance(s, c, s', ReadFinish(offset, frames, count));
  }

  lemma ConsumerCallIsDetermined(s: LogState, c: Consumer, s1: LogState, c1: Consumer, s2: LogState, c2: Consumer)
    requires s1.Ok() && s2.Ok()
    requires (c1.InFlight? || c1.ReadFailed?) && (c2.InFlight? || c2.ReadFailed?)
    requires ConsumerLeads(s, c, s1, c1) && ConsumerLeads(s, c, s2, c2)
    ensures s1 == s2 && c1 == c2
  {
    assert ConsumerTakes((s1, c1), (s1, c1));
    assert ConsumerTakes((s2, c2), (s2, c2));
    RestIsUnique(ConsumerTakes, (s, c), (s1, c1), (s2, c2));
  }

  /** IsBlockReady in closed form: a whole block, in one piece, from the next block boundary on. */
  ghost predicate BlockReady(s: LogState)
    requires s.Ok()
  {
    var misaligned := Remainder(s.ring.r, s.bs);
    var skip := if misaligned == 0 then 0 else s.bs - misaligned;
    skip + s.bs <= |s.ring.data| && skip + s.bs <= s.ring.LinearRead()
  }

  lemma ReadyInTwoSteps(s: LogState)
    requires s.Ok()
    ensures var m := ConsumerStep(s, Idle);
            m.0 == s && ConsumerOk(s, m.1) && ConsumerStep(s, m.1) == (s, if BlockReady(s) then ReadStart else Idle)
  {
  }
}
