/** Iap.c: the background verification, slot preparation, and what a verdict of VERIFIED means. */
module Iap {
  import opened Runs
  import opened Wire
  import opened Flash
  import opened FlashAdapter
  import opened IapSession
  import opened IapWriter

  const VERIFY_STEP_BYTES := 1024

  datatype VerifyState = Idle | Pending | Verifying | Verified | Failed
  datatype PrepareStatus = PrepareOk | PrepareState | PrepareParam | PrepareBackend

  /** IapVerifyRuntimeType */
  datatype Runtime = Runtime(state: VerifyState, processed: nat, total: nat)

  const IDLE_RUNTIME := Runtime(Idle, 0, 0)

  /** Writer, chip and verification runtime together. */
  datatype Machine = Machine(w: State, v: Runtime)

  function Requested(m: Machine): Runtime {
    Runtime(if m.w.c.finalized then Pending else Failed, 0, m.w.c.expectedSize)
  }

  /** One poll; `data` is what the storage delivered, if the poll read it. */
  function Polled(m: Machine, data: seq<bv8>): Machine {
    if m.v.state == Pending && !m.w.c.finalized then m.(v := m.v.(state := Failed))
    else if m.v.state !in {Pending, Verifying} then m
    else
      var r := VerifyStepped(m.w, VERIFY_STEP_BYTES, data);
      Machine(r.s,
              if r.status != WriterOk then m.v.(state := Failed)
              else Runtime(if r.done then Verified else Verifying, r.s.c.verifyOffset, r.s.c.expectedSize))
  }

  /** The slot is erased as a whole ahead of the upload, and any verdict is dropped. */
  ghost predicate PrepareStep(m: Machine, m': Machine, status: PrepareStatus) {
    var c := m.w.c;
    if !c.initialized then status == PrepareParam && m' == m
    else if c.active then status == PrepareState && m' == m
    else if status == PrepareOk then
      && m'.v == IDLE_RUNTIME && m'.w.c == c.(slotPrepared := true) && m'.w.h == m.w.h
      && Wiped(m.w.mem, m.w.trace, m'.w.mem, m'.w.trace, c.slotAddr, c.slotSize)
    else
      && status == PrepareBackend && m'.v == m.v && m'.w.c == c && m'.w.h == m.w.h.(failed := true)
      && Confined(m.w.mem, m.w.trace, m'.w.mem, m'.w.trace, c.slotAddr, c.slotSize)
      && (AddressCheck(c.slotAddr, c.slotSize, EraseAccess) != FlashOk || EndsInFailure(m.w.trace, m'.w.trace))
  }

  class Service {
    const writer: Writer
    var v: Runtime

    ghost predicate Valid()
      reads this, writer, writer.storage, writer.storage.chip
    {
      writer.Valid()
    }

    ghost function View(): Machine
      reads this, writer, writer.storage, writer.storage.chip
    {
      Machine(writer.View(), v)
    }

    constructor (writer: Writer)
      requires writer.Valid()
      ensures Valid() && View() == Machine(writer.View(), IDLE_RUNTIME)
    {
      this.writer := writer;
      v := IDLE_RUNTIME;
    }

    method VerifyReset()
      requires Valid()
      modifies this
      ensures Valid() && View() == old(View()).(v := IDLE_RUNTIME)
    {
      v := Runtime(Idle, 0, 0);
    }

    method VerifyRequest()
      requires Valid()
      modifies this
      ensures Valid() && View() == old(View()).(v := Requested(old(View())))
      ensures v.state == if writer.c.finalized then Pending else Failed
      ensures v.processed == 0 && v.total == writer.c.expectedSize
    {
      if !writer.c.finalized {
        v := Runtime(Failed, 0, writer.c.expectedSize);
        return;
      }
      v := Runtime(Pending, 0, writer.c.expectedSize);
    }

    method VerifyPoll() returns (ghost data: seq<bv8>)
      requires Valid()
      modifies this, writer, writer.storage.chip
      ensures Valid() && View() == Polled(old(View()), data)
      ensures Delivers(old(View()).w, VERIFY_STEP_BYTES, data) || View() == old(View()).(v := v)
    {
      data := [];
      if v.state == Pending {
        if !writer.c.finalized {
          v := v.(state := Failed);
          return;
        }
        v := v.(state := Verifying);
      }
      if v.state != Verifying {
        return;
      }
      var status, processed, total, done;
      status, processed, total, done, data := writer.VerifyStep(VERIFY_STEP_BYTES);
      if status != WriterOk {
        v := v.(state := Failed);
        return;
      }
      v := v.(processed := processed, total := total);
      if done {
        v := v.(state := Verified);
      }
    }

    method PrepareUploadSlot() returns (status: PrepareStatus)
      requires Valid()
      modifies this, writer, writer.storage.chip
      ensures Valid() && PrepareStep(old(View()), View(), status)
    {
      if !writer.c.initialized {
        return PrepareParam;
      }
      if writer.c.active {
        return PrepareState;
      }
      var s := writer.storage.Erase(writer.c.slotAddr, writer.c.slotSize);
      if s != StorageOk {
        writer.h := writer.h.(failed := true);
        return PrepareBackend;
      }
      writer.c := writer.c.(slotPrepared := true);
      VerifyReset();
      return PrepareOk;
    }
  }

  // ---------------------------------------------------------------- runs

  datatype Call =
    | Prepare(prepared: PrepareStatus)
    | Begin(imageSize: nat, status: WriterStatus)
    | WriteChunk(offset: nat, data: seq<bv8>, status: WriterStatus)
    | Finalize
    | Abort
    | Reset
    | Request
    | Poll(data: seq<bv8>)

  ghost predicate Step(m: Machine, call: Call, m': Machine) {
    match call
    case Prepare(status) => PrepareStep(m, m', status)
    case Begin(imageSize, status) => BeginStep(m.w, m'.w, imageSize, status) && m'.v == m.v
    case WriteChunk(offset, data, status) => ChunkTaken(m.w, m'.w, offset, data, status) && m'.v == m.v
    case Finalize => m' == m.(w := Finalized(m.w))
    case Abort => m' == m.(w := Aborted(m.w))
    case Reset => m' == m.(v := IDLE_RUNTIME)
    case Request => m' == m.(v := Requested(m))
    case Poll(data) => m' == Polled(m, data) && (Delivers(m.w, VERIFY_STEP_BYTES, data) || m'.w == m.w)
  }

  /** Where a run may start: a writer just initialized on a chip used properly so far. */
  ghost predicate Fresh(m: Machine) {
    Inv(m.w) && m.w.c.initialized && !m.w.c.active && m.v == IDLE_RUNTIME
  }

  /** Any call, in any state. */
  ghost predicate Next(m: Machine, m': Machine) {
    exists call :: Step(m, call, m')
  }

  /** The one call a verdict does not survive: closing a session while VERIFIED is still out from an earlier one. */
  predicate ClosesUnderVerdict(m: Machine, call: Call) {
    call.Finalize? && CheckFinalize(m.w.c) == WriterOk && m.v.state == Verified
  }

  ghost predicate NextGuarded(m: Machine, m': Machine) {
    exists call :: Step(m, call, m') && !ClosesUnderVerdict(m, call)
  }

  /** A session begins only when no verdict is out: right after a successful Prepare, or after a Reset. */
  ghost predicate NextTidy(m: Machine, m': Machine) {
    exists call :: Step(m, call, m') && (call.Begin? ==> m.v.state == Idle)
  }

  lemma PrepareKeeps(m: Machine, m': Machine, status: PrepareStatus)
    requires Inv(m.w) && PrepareStep(m, m', status)
    ensures Inv(m'.w)
  {
    var s, s' := m.w, m'.w;
    if s.c.initialized && !s.c.active {
      if status == PrepareOk {
        WipedConfined(s.mem, s.trace, s'.mem, s'.trace, s.c.slotAddr, s.c.slotSize);
        if !s.h.failed {
          WipedIsBlank(s.mem, s.trace, s'.mem, s'.trace, s.c.slotAddr, s.c.slotSize);
        }
      }
      KeepsInSlot(s.c, s.h, s.trace, s'.trace, s.c.slotAddr, s.c.slotSize);
    }
  }

  /** Every call keeps the writer's invariant, whatever the storage does. */
  lemma StepKeeps(m: Machine, call: Call, m': Machine)
    requires Inv(m.w) && Step(m, call, m')
    ensures Inv(m'.w)
  {
    match call
    case Prepare(status) => PrepareKeeps(m, m', status);
    case Begin(imageSize, status) => BeginKeeps(m.w, m'.w, imageSize, status);
    case WriteChunk(offset, data, status) => ChunkKeeps(m.w, m'.w, offset, data, status);
    case Finalize => FinalizeKeeps(m.w);
    case Abort => AbortKeeps(m.w);
    case Reset =>
    case Request =>
    case Poll(data) => if m'.w != m.w { VerifyKeeps(m.w, VERIFY_STEP_BYTES, data); }
  }

  ghost predicate WriterInv(m: Machine) {
    Inv(m.w)
  }

  lemma RunKeeps(m0: Machine, m: Machine)
    requires Fresh(m0) && Leads(Next, m0, m)
    ensures Inv(m.w)
  {
    forall x, y | WriterInv(x) && Next(x, y)
      ensures WriterInv(y)
    {
      var call :| Step(x, call, y);
      StepKeeps(x, call, y);
    }
    Invariant(Next, WriterInv, m0, m);
  }

  /** A verdict of VERIFIED stands for a pass over the image closed by the last Finalize. */
  ghost predicate VerdictHolds(m: Machine) {
    m.v.state == Verified ==> ReadThrough(m.w)
  }

  /** What the pass has read, and the payload it is about. */
  predicate SamePass(s: State, s': State) {
    s'.h.readBack == s.h.readBack && s'.h.passReads == s.h.passReads && s'.h.accepted == s.h.accepted && s'.c.slotAddr == s.c.slotAddr
  }

  lemma OtherCalls(m: Machine, call: Call, m': Machine)
    requires Step(m, call, m') && !call.Poll? && !(call.Finalize? && CheckFinalize(m.w.c) == WriterOk)
    ensures SamePass(m.w, m'.w)
    ensures m'.v.state == Verified ==> m.v.state == Verified
    ensures m'.w.c.active ==> m.w.c.active || call.Begin?
    ensures m'.v == m.v || (call.Request? && m'.v == Requested(m)) || m'.v.state == Idle
  {
  }

  lemma PollVerdict(m: Machine, m': Machine, data: seq<bv8>)
    requires Inv(m.w) && VerdictHolds(m) && Step(m, Poll(data), m')
    ensures VerdictHolds(m')
  {
    if m.v.state in {Pending, Verifying} && m.w.c.finalized && m.w.c.initialized && !m.w.c.active {
      if Delivers(m.w, VERIFY_STEP_BYTES, data) {
        DoneMeansReadThrough(m.w, VERIFY_STEP_BYTES, data);
      }
    }
  }

  lemma Carried(m: Machine, m': Machine)
    requires VerdictHolds(m) && SamePass(m.w, m'.w) && (m'.v.state == Verified ==> m.v.state == Verified)
    ensures VerdictHolds(m')
  {
  }

  lemma StaleVerdict(m: Machine)
    requires Inv(m.w) && CheckFinalize(m.w.c) == WriterOk
    ensures VerdictHolds(m.(w := Finalized(m.w))) <==> m.v.state != Verified
  {
    assert |Finalized(m.w).h.readBack| == 0 < |Finalized(m.w).h.accepted|;
  }

  /** Every call keeps the meaning of the verdict, whatever the storage does, except exactly that one. */
  lemma VerdictKeptExactly(m: Machine, call: Call, m': Machine)
    requires Inv(m.w) && VerdictHolds(m) && Step(m, call, m')
    ensures VerdictHolds(m') <==> !ClosesUnderVerdict(m, call)
  {
    if call.Poll? {
      PollVerdict(m, m', call.data);
    } else if call.Finalize? && CheckFinalize(m.w.c) == WriterOk {
      StaleVerdict(m);
    } else {
      OtherCalls(m, call, m');
      Carried(m, m');
    }
  }

  ghost predicate BothInv(m: Machine) {
    WriterInv(m) && VerdictHolds(m)
  }

  lemma GuardedKeeps(x: Machine, y: Machine)
    requires BothInv(x) && NextGuarded(x, y)
    ensures BothInv(y)
  {
    var call :| Step(x, call, y) && !ClosesUnderVerdict(x, call);
    StepKeeps(x, call, y);
    VerdictKeptExactly(x, call, y);
  }

  /**
   * In every run that closes no session while an earlier VERIFIED is out, VERIFIED means: since the last
   * Finalize the whole image was read by consecutive reads, each byte once and in order, and its hash is that
   * of the payload that Finalize closed.
   */
  lemma VerifiedMeansReadThrough(m0: Machine, m: Machine)
    requires Fresh(m0) && Leads(NextGuarded, m0, m)
    ensures VerdictHolds(m)
  {
    forall x, y | BothInv(x) && NextGuarded(x, y)
      ensures BothInv(y)
    {
      GuardedKeeps(x, y);
    }
    Invariant(NextGuarded, BothInv, m0, m);
  }

  /** While a session is open no verdict is out, nor one on its way. */
  ghost predicate QuietSession(m: Machine) {
    BothInv(m) && (m.w.c.active ==> m.v.state in {Idle, Failed})
  }

  lemma TidyKeeps(x: Machine, y: Machine)
    requires QuietSession(x) && NextTidy(x, y)
    ensures QuietSession(y)
  {
    var call :| Step(x, call, y) && (call.Begin? ==> x.v.state == Idle);
    StepKeeps(x, call, y);
    VerdictKeptExactly(x, call, y);
    if call.Poll? {
      StepKeepsSession(x.w, VERIFY_STEP_BYTES, call.data);
    } else if !(call.Finalize? && CheckFinalize(x.w.c) == WriterOk) {
      OtherCalls(x, call, y);
    }
  }

  /** The rule of the callers is enough: a run that begins sessions only after a reset never meets that call. */
  lemma ResetBeforeBeginSuffices(m0: Machine, m: Machine)
    requires Fresh(m0) && Leads(NextTidy, m0, m)
    ensures VerdictHolds(m)
  {
    forall x, y | QuietSession(x) && NextTidy(x, y)
      ensures QuietSession(y)
    {
      TidyKeeps(x, y);
    }
    Invariant(NextTidy, QuietSession, m0, m);
  }

  // ---------------------------------------------------------------- a run with a stale verdict

  /** Whole sectors of the flash. */
  predicate IsSlot(slot: nat, size: nat) {
    0 < size && FLASH_BASE <= slot && slot + size <= FLASH_LIMIT && slot % SECTOR_SIZE == size % SECTOR_SIZE == 0
  }

  /** A slot of whole sectors anywhere in the flash, and nothing gone wrong. */
  predicate InFlash(m: Machine) {
    var c := m.w.c;
    && |m.w.mem| == FLASH_LIMIT - FLASH_BASE && !m.w.h.failed && c.initialized && !c.slotPrepared
    && IsSlot(c.slotAddr, c.slotSize) && c.eraseSize == SECTOR_SIZE && c.progSize == WORD_SIZE
  }

  predicate SameSlot(m: Machine, m': Machine) {
    m'.w.c.slotAddr == m.w.c.slotAddr && m'.w.c.slotSize == m.w.c.slotSize
  }

  /** A step of the run under construction. */
  lemma Goes(m0: Machine, m: Machine, call: Call, m': Machine)
    requires Leads(Next, m0, m) && Inv(m.w) && Step(m, call, m')
    ensures Leads(Next, m0, m') && Inv(m'.w)
  {
    StepKeeps(m, call, m');
    Advance(Next, m0, m, m');
  }

  /** Begin of an image of one flash word. */
  lemma Starts(m0: Machine, m: Machine) returns (m': Machine)
    requires Leads(Next, m0, m) && Inv(m.w) && InFlash(m) && !m.w.c.active
    ensures Leads(Next, m0, m') && Inv(m'.w) && InFlash(m') && m'.v == m.v
    ensures m'.w.c == Begun(m.w.c, WORD_SIZE) && m'.w.h == m.w.h.(payload := [])
    ensures m'.w.mem == Patch(m.w.mem, m.w.c.slotAddr - FLASH_BASE, Blank(SECTOR_SIZE))
  {
    var s := m.w;
    m' := m.(w := State(Begun(s.c, WORD_SIZE), s.h.(payload := []), Patch(s.mem, s.c.slotAddr - FLASH_BASE, Blank(SECTOR_SIZE)),
                        s.trace + SectorErases(s.c.slotAddr, 1)));
    WordIsNoSector(WORD_SIZE, SECTOR_SIZE);
    assert CheckBegin(s.c, WORD_SIZE) == (WriterOk, SECTOR_SIZE);
    Goes(m0, m, Begin(WORD_SIZE, WriterOk), m');
  }

  lemma WordIsNoSector(word: nat, sector: nat)
    requires 0 < word < sector
    ensures Remainder(word, sector) == word && Remainder(word, word) == 0 && Remainder(0, word) == 0
  {
  }

  /** All of it in one chunk. */
  lemma Fills(m0: Machine, m: Machine, image: seq<bv8>) returns (m': Machine)
    requires Leads(Next, m0, m) && Inv(m.w) && InFlash(m) && |image| == WORD_SIZE
    requires m.w.c.active && m.w.c.expectedSize == WORD_SIZE && m.w.h.payload == []
    ensures Leads(Next, m0, m') && Inv(m'.w) && InFlash(m') && SameSlot(m, m') && m'.v == m.v
    ensures CheckFinalize(m'.w.c) == WriterOk && m'.w.h.payload == image && m'.w.c.expectedSize == WORD_SIZE
  {
    var s := m.w;
    m' := m.(w := State(Accepted(s.c, image), s.h.(payload := s.h.payload + image), Patch(s.mem, s.c.slotAddr - FLASH_BASE, image),
                        s.trace + WordPrograms(s.c.slotAddr, 1)));
    WordIsNoSector(WORD_SIZE, SECTOR_SIZE);
    assert CheckChunk(s.c, 0, WORD_SIZE) == WriterOk;
    Goes(m0, m, WriteChunk(0, image, WriterOk), m');
  }

  /** One session up to its last chunk, whatever verdict is out. */
  lemma Uploads(m0: Machine, m: Machine, image: seq<bv8>) returns (m': Machine)
    requires Leads(Next, m0, m) && Inv(m.w) && InFlash(m) && !m.w.c.active && |image| == WORD_SIZE
    ensures Leads(Next, m0, m') && Inv(m'.w) && InFlash(m') && SameSlot(m, m') && m'.v == m.v
    ensures CheckFinalize(m'.w.c) == WriterOk && m'.w.h.payload == image && m'.w.c.expectedSize == WORD_SIZE
  {
    var m1 := Starts(m0, m);
    m' := Fills(m0, m1, image);
  }

  /** The session is closed and its verification asked for. */
  lemma Closes(m0: Machine, m: Machine) returns (m': Machine)
    requires Leads(Next, m0, m) && Inv(m.w) && InFlash(m) && CheckFinalize(m.w.c) == WriterOk
    ensures Leads(Next, m0, m') && Inv(m'.w) && InFlash(m') && SameSlot(m, m') && m'.v.state == Pending && m'.w.h.accepted == m.w.h.payload
    ensures m'.w.c.finalized && !m'.w.c.active && !m'.w.c.verifyActive && m'.w.c.expectedSize == m.w.c.expectedSize
  {
    var m1 := m.(w := Finalized(m.w));
    Goes(m0, m, Finalize, m1);
    m' := m1.(v := Requested(m1));
    Goes(m0, m1, Request, m');
  }

  /** An image of one flash word is verified by a single poll. */
  lemma Verifies(m0: Machine, m: Machine) returns (m': Machine)
    requires Leads(Next, m0, m) && Inv(m.w) && InFlash(m) && m.v.state == Pending
    requires m.w.c.finalized && !m.w.c.active && !m.w.c.verifyActive && m.w.c.expectedSize == WORD_SIZE
    ensures Leads(Next, m0, m') && Inv(m'.w) && InFlash(m') && SameSlot(m, m') && !m'.w.c.active && m'.v.state == Verified
    ensures m'.w.h.accepted == m.w.h.accepted
  {
    var data := Held(m.w.mem, m.w.c.slotAddr, WORD_SIZE);
    assert Delivers(m.w, VERIFY_STEP_BYTES, data);
    FaithfulStorageVerifies(m.w, VERIFY_STEP_BYTES, data);
    StepKeepsSession(m.w, VERIFY_STEP_BYTES, data);
    m' := Polled(m, data);
    Goes(m0, m, Poll(data), m');
  }

  /** From start-up, an image uploaded and verified. */
  lemma UploadsAndVerifies(slot: nat, size: nat, mem: seq<bv8>, image: seq<bv8>) returns (m0: Machine, m: Machine)
    requires IsSlot(slot, size) && |mem| == FLASH_LIMIT - FLASH_BASE && |image| == WORD_SIZE
    ensures Fresh(m0) && m0.w.c == Initialized(slot, size, SECTOR_SIZE, WORD_SIZE) && m0.w.mem == mem
    ensures Leads(Next, m0, m) && Inv(m.w) && InFlash(m) && !m.w.c.active && m.v.state == Verified && m.w.h.accepted == image
    ensures m.w.c.slotAddr == slot && m.w.c.slotSize == size
  {
    var c := Initialized(slot, size, SECTOR_SIZE, WORD_SIZE);
    m0 := Machine(State(c, History([], [], [], [], false, []), mem, []), IDLE_RUNTIME);
    WholeSectors(size);
    InitEstablishes(slot, size, SECTOR_SIZE, WORD_SIZE, mem, []);
    Stays(Next, m0);
    var uploaded := Uploads(m0, m0, image);
    var closed := Closes(m0, uploaded);
    m := Verifies(m0, closed);
  }

  lemma WholeSectors(size: nat)
    requires size % SECTOR_SIZE == 0
    ensures IsAligned(size, SECTOR_SIZE) && IsAligned(SECTOR_SIZE, WORD_SIZE)
  {
    RemainderIsMod(size, SECTOR_SIZE);
    RemainderIsMod(SECTOR_SIZE, WORD_SIZE);
  }

  /**
   * Such a run, without any failure, for every slot: an image is uploaded and verified; a second one is uploaded
   * without a reset in between, and as soon as its session is closed it counts as verified, though not a byte of it
   * has been read.
   */
  lemma StaleVerdictHappens(slot: nat, size: nat, mem: seq<bv8>, first: seq<bv8>, second: seq<bv8>) returns (m0: Machine, m: Machine)
    requires IsSlot(slot, size) && |mem| == FLASH_LIMIT - FLASH_BASE && |first| == |second| == WORD_SIZE
    ensures Fresh(m0) && m0.w.c.slotAddr == slot && m0.w.c.slotSize == size && m0.w.mem == mem
    ensures Leads(Next, m0, m) && !m.w.h.failed
    ensures m.v.state == Verified && m.w.h.accepted == second && m.w.h.readBack == [] && !VerdictHolds(m)
  {
    var verified;
    m0, verified := UploadsAndVerifies(slot, size, mem, first);
    var again := Uploads(m0, verified, second);
    m := again.(w := Finalized(again.w));
    Goes(m0, again, Finalize, m);
    StaleVerdict(again);
  }

  /**
   * The flash in every run: all accesses since Init lie in the slot, and up to the first failed storage
   * operation every byte programmed had been erased since it was last programmed, and the slot starts with
   * the payload taken so far, whether Begin erased the slot or relied on Prepare.
   */
  lemma FlashIsUsedProperly(m0: Machine, m: Machine)
    requires Fresh(m0) && Leads(Next, m0, m)
    ensures var s := m.w;
            && (s.c.initialized ==> Extends(s.h.before, s.trace, s.c.slotAddr, s.c.slotAddr + s.c.slotSize))
            && (s.c.initialized && !s.h.failed ==> Disciplined(s.trace))
            && (ImageInSlot(s.c) && !s.h.failed ==>
                  |s.h.payload| == s.c.receivedSize && s.h.payload == Held(s.mem, s.c.slotAddr, s.c.receivedSize))
  {
    RunKeeps(m0, m);
  }
}
