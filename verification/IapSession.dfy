/** IapWriter.c: one firmware image streamed into the update slot, then read back and hashed. */
module IapSession {
  import opened Wire
  import opened Fnv
  import opened Flash
  import opened FlashAdapter

  const VERIFY_BUF_SIZE := 256

  datatype WriterStatus =
    WriterOk | WriterParam | WriterState | WriterRange | WriterAlign | WriterSequence | WriterStorage | WriterVerify

  function MapStorageError(s: StorageStatus): WriterStatus {
    match s
    case StorageOk => WriterOk
    case StorageAlign => WriterAlign
    case StorageRange => WriterRange
    case StorageVerify => WriterVerify
    case StorageParam | StorageIo => WriterStorage
  }

  predicate IsAligned(value: nat, align: nat) {
    align != 0 && Remainder(value, align) == 0
  }

  datatype Rounded = Overflow | Rounded(value: nat)

  /** The least multiple of `alignment` not below `value`, if it fits 32 bits. */
  function RoundUp(value: nat, alignment: nat): (r: Rounded)
    requires value < TWO_32
    ensures r.Rounded? ==> value <= r.value < value + alignment && IsAligned(r.value, alignment)
    ensures r == Overflow <==> alignment == 0 || (!IsAligned(value, alignment) && TWO_32 <= value - Remainder(value, alignment) + alignment)
  {
    if alignment == 0 then Overflow
    else
      var rem := Remainder(value, alignment);
      if rem == 0 then Rounded(value)
      else if value > TWO_32 - 1 - (alignment - rem) then Overflow
      else RemainderSmallAdd(value, alignment - rem, alignment); Rounded(value + (alignment - rem))
  }

  // ---------------------------------------------------------------- the slot under an update

  /** The slot holds the payload so far, and the rest of the image area is erased. */
  ghost predicate SlotHolds(mem: seq<bv8>, trace: seq<Access>, slot: nat, expected: nat, payload: seq<bv8>) {
    && |payload| <= expected
    && Disciplined(trace)
    && RangeErased(trace, slot + |payload|, expected - |payload|)
    && (payload != [] ==> FLASH_BASE <= slot && slot - FLASH_BASE + |payload| <= |mem|
                          && mem[slot - FLASH_BASE..slot - FLASH_BASE + |payload|] == payload)
  }

  /** The whole slot is erased and waiting. */
  ghost predicate SlotBlank(mem: seq<bv8>, trace: seq<Access>, slot: nat, size: nat) {
    Disciplined(trace) && RangeErased(trace, slot, size) && Held(mem, slot, size) == Blank(size)
  }

  lemma WipedIsBlank(m: seq<bv8>, t: seq<Access>, m': seq<bv8>, t': seq<Access>, slot: nat, len: nat)
    requires Disciplined(t) && Wiped(m, t, m', t', slot, len)
    ensures SlotBlank(m', t', slot, len)
  {
    assert Held(m', slot, len) == Blank(len);
    SectorErasesMeaning(t, slot, len / SECTOR_SIZE);
    assert len / SECTOR_SIZE * SECTOR_SIZE == len;
  }

  lemma WroteHolds(m: seq<bv8>, t: seq<Access>, m': seq<bv8>, t': seq<Access>,
                   slot: nat, expected: nat, payload: seq<bv8>, data: seq<bv8>)
    requires SlotHolds(m, t, slot, expected, payload) && |payload| + |data| <= expected && data != []
    requires Wrote(m, t, m', t', slot + |payload|, data)
    requires payload == [] ==> FLASH_BASE <= slot
    ensures SlotHolds(m', t', slot, expected, payload + data)
  {
    var n := |data| / WORD_SIZE;
    assert n * WORD_SIZE == |data|;
    WordProgramsMeaning(t, slot + |payload|, n);
    var lo := slot - FLASH_BASE;
    assert m'[lo..lo + |payload| + |data|] == m'[lo..lo + |payload|] + m'[lo + |payload|..lo + |payload| + |data|];
    assert m'[lo..lo + |payload|] == m[lo..lo + |payload|];
    assert m'[lo + |payload|..lo + |payload| + |data|] == data;
  }

  /** Reads that run from `slot` on without a gap or an overlap, `n` bytes in all. */
  ghost predicate ReadsCover(rs: seq<Access>, slot: nat, n: nat) {
    if rs == [] then n == 0
    else
      var last := rs[|rs| - 1];
      && last.ReadOp? && last.len <= n && last.addr == slot + n - last.len
      && ReadsCover(rs[..|rs| - 1], slot, n - last.len)
  }

  lemma ReadsCoverSnoc(rs: seq<Access>, slot: nat, n: nat, len: nat)
    requires ReadsCover(rs, slot, n)
    ensures ReadsCover(rs + [ReadOp(slot + n, len)], slot, n + len)
  {
    assert (rs + [ReadOp(slot + n, len)])[..|rs|] == rs;
  }

  lemma ReadKeepsSlot(mem: seq<bv8>, trace: seq<Access>, a: Access, slot: nat, expected: nat, payload: seq<bv8>)
    requires a.ReadOp?
    ensures SlotHolds(mem, trace, slot, expected, payload) ==> SlotHolds(mem, trace + [a], slot, expected, payload)
    ensures forall size :: SlotBlank(mem, trace, slot, size) ==> SlotBlank(mem, trace + [a], slot, size)
    ensures Disciplined(trace) ==> Disciplined(trace + [a])
  {
    TraceSnoc(trace, a);
  }

  // ---------------------------------------------------------------- context

  /** IapWriterContextType */
  datatype Context = Context(
    slotAddr: nat, slotSize: nat, eraseSize: nat, progSize: nat,
    expectedSize: nat, receivedSize: nat, payloadHash: bv32, verifyHash: bv32, verifyOffset: nat,
    initialized: bool, active: bool, finalized: bool, verifyActive: bool, slotPrepared: bool)

  const BLANK_CONTEXT := Context(0, 0, 0, 0, 0, 0, 0, 0, 0, false, false, false, false, false)

  /** What the fields stand for: the payload taken since the last Begin and the one closed by the last
      Finalize, the bytes read since then in the current verification pass with the accesses that read
      them, whether a storage operation has failed, and what the chip had seen before Init. */
  datatype History = History(
    payload: seq<bv8>, accepted: seq<bv8>, readBack: seq<bv8>, passReads: seq<Access>, failed: bool, before: seq<Access>)

  /** The writer and the chip under it. */
  datatype State = State(c: Context, h: History, mem: seq<bv8>, trace: seq<Access>)

  ghost predicate ConfigInv(c: Context) {
    c.initialized ==> c.slotAddr < TWO_32 && c.slotSize < TWO_32 && 0 < c.eraseSize && 0 < c.progSize
  }

  ghost predicate SessionInv(c: Context, h: History) {
    && (c.active || c.finalized ==>
          && c.initialized && 0 < c.expectedSize <= c.slotSize
          && |h.payload| == c.receivedSize <= c.expectedSize
          && c.payloadHash == Hash(OFFSET_BASIS, h.payload))
    && (c.active ==> !c.finalized && !c.slotPrepared)
    && (c.finalized ==> c.receivedSize == c.expectedSize && h.accepted == h.payload)
    && (c.slotPrepared ==> c.initialized)
  }

  ghost predicate PassInv(c: Context, h: History) {
    c.verifyActive ==>
      && c.finalized && |h.readBack| == c.verifyOffset <= c.expectedSize
      && c.verifyHash == Hash(OFFSET_BASIS, h.readBack)
      && ReadsCover(h.passReads, c.slotAddr, c.verifyOffset)
  }

  /** The image is in the slot: being written, or closed and not erased again since. */
  predicate ImageInSlot(c: Context) {
    c.active || (c.finalized && !c.slotPrepared)
  }

  /** Up to the first storage failure the flash is used as it must be, and holds what it should. */
  ghost predicate SlotInv(s: State) {
    s.c.initialized && !s.h.failed ==>
      && Disciplined(s.trace)
      && (ImageInSlot(s.c) ==> SlotHolds(s.mem, s.trace, s.c.slotAddr, s.c.expectedSize, s.h.payload))
      && (s.c.slotPrepared ==> SlotBlank(s.mem, s.trace, s.c.slotAddr, s.c.slotSize))
      && (s.c.verifyActive && !s.c.slotPrepared ==> s.h.readBack == Held(s.mem, s.c.slotAddr, s.c.verifyOffset))
  }

  /** Every access since Init lies in the slot. */
  ghost predicate StaysInSlot(c: Context, h: History, trace: seq<Access>) {
    c.initialized ==> Extends(h.before, trace, c.slotAddr, c.slotAddr + c.slotSize)
  }

  ghost predicate Inv(s: State) {
    var c, h := s.c, s.h;
    ConfigInv(c) && SessionInv(c, h) && PassInv(c, h) && SlotInv(s) && StaysInSlot(c, h, s.trace)
  }

  lemma KeepsInSlot(c: Context, h: History, t: seq<Access>, t': seq<Access>, addr: nat, len: nat)
    requires StaysInSlot(c, h, t) && Extends(t, t', addr, addr + len)
    requires c.slotAddr <= addr && addr + len <= c.slotAddr + c.slotSize
    ensures StaysInSlot(c, h, t')
  {
    if c.initialized {
      assert t'[|h.before|..] == t[|h.before|..] + t'[|t|..];
    }
  }

  // ---------------------------------------------------------------- Init

  function InitCheck(size: nat, e: nat, p: nat): WriterStatus {
    if size == 0 then WriterParam else if !IsAligned(size, e) || !IsAligned(e, p) then WriterAlign else WriterOk
  }

  /** The context is wiped, so a session under way is forgotten. */
  function Initialized(addr: nat, size: nat, e: nat, p: nat): Context {
    BLANK_CONTEXT.(slotAddr := addr, slotSize := size, eraseSize := e, progSize := p, initialized := true)
  }

  lemma InitEstablishes(addr: nat, size: nat, e: nat, p: nat, mem: seq<bv8>, trace: seq<Access>)
    requires InitCheck(size, e, p) == WriterOk && addr < TWO_32 && size < TWO_32 && Disciplined(trace)
    ensures Inv(State(Initialized(addr, size, e, p), History([], [], [], [], false, trace), mem, trace))
  {
  }

  // ---------------------------------------------------------------- Begin

  /** What Begin answers before it touches the storage, and how much it would erase. */
  function CheckBegin(c: Context, imageSize: nat): (r: (WriterStatus, nat))
    ensures r.0 == WriterOk ==> c.initialized && !c.active && 0 < imageSize <= r.1 <= c.slotSize
  {
    if !c.initialized then (WriterParam, 0)
    else if c.active then (WriterState, 0)
    else if imageSize == 0 || imageSize > c.slotSize || imageSize > TWO_32 - 1 then (WriterRange, 0)
    else if !IsAligned(imageSize, c.progSize) then (WriterAlign, 0)
    else match RoundUp(imageSize, c.eraseSize)
      case Overflow => (WriterRange, 0)
      case Rounded(n) => if n > c.slotSize then (WriterRange, 0) else (WriterOk, n)
  }

  function Begun(c: Context, imageSize: nat): Context {
    c.(expectedSize := imageSize, receivedSize := 0, payloadHash := OFFSET_BASIS, verifyHash := OFFSET_BASIS,
       verifyOffset := 0, active := true, finalized := false, verifyActive := false, slotPrepared := false)
  }

  /** Starts a session; the erase is skipped when the slot was prepared, and must have failed for the start to fail. */
  ghost predicate BeginStep(s: State, s': State, imageSize: nat, status: WriterStatus) {
    var check := CheckBegin(s.c, imageSize);
    if check.0 != WriterOk then status == check.0 && s' == s
    else if status == WriterOk then
      && s'.c == Begun(s.c, imageSize) && s'.h == s.h.(payload := [])
      && if s.c.slotPrepared then s'.mem == s.mem && s'.trace == s.trace
         else Wiped(s.mem, s.trace, s'.mem, s'.trace, s.c.slotAddr, check.1)
    else
      && !s.c.slotPrepared && s'.c == s.c && s'.h == s.h.(failed := true)
      && (AddressCheck(s.c.slotAddr, check.1, EraseAccess) == FlashOk ==> status == WriterStorage)
      && Confined(s.mem, s.trace, s'.mem, s'.trace, s.c.slotAddr, check.1)
      && (AddressCheck(s.c.slotAddr, check.1, EraseAccess) != FlashOk || EndsInFailure(s.trace, s'.trace))
  }

  lemma BeginKeeps(s: State, s': State, imageSize: nat, status: WriterStatus)
    requires Inv(s) && BeginStep(s, s', imageSize, status)
    ensures Inv(s')
  {
    var (check, len) := CheckBegin(s.c, imageSize);
    if check == WriterOk && !s.c.slotPrepared {
      if status == WriterOk {
        WipedConfined(s.mem, s.trace, s'.mem, s'.trace, s.c.slotAddr, len);
        if !s.h.failed {
          WipedIsBlank(s.mem, s.trace, s'.mem, s'.trace, s.c.slotAddr, len);
        }
      }
      KeepsInSlot(s.c, s.h, s.trace, s'.trace, s.c.slotAddr, len);
    }
  }

  // ---------------------------------------------------------------- WriteChunk

  function CheckChunk(c: Context, offset: nat, len: nat): WriterStatus {
    if len == 0 || len > TWO_32 - 1 then WriterParam
    else if !c.initialized || !c.active || c.finalized then WriterState
    else if offset != c.receivedSize then WriterSequence
    else if !IsAligned(offset, c.progSize) || !IsAligned(len, c.progSize) then WriterAlign
    else if offset > c.expectedSize || len > c.expectedSize || offset > c.expectedSize - len then WriterRange
    else WriterOk
  }

  function Accepted(c: Context, data: seq<bv8>): Context {
    c.(payloadHash := Hash(c.payloadHash, data), receivedSize := c.receivedSize + |data|)
  }

  /** The next chunk of the image, in sequence; hash and size move exactly if the storage took it. */
  ghost predicate ChunkTaken(s: State, s': State, offset: nat, data: seq<bv8>, status: WriterStatus) {
    var check := CheckChunk(s.c, offset, |data|);
    if check != WriterOk then status == check && s' == s
    else if status == WriterOk then
      && s'.c == Accepted(s.c, data) && s'.h == s.h.(payload := s.h.payload + data)
      && Wrote(s.mem, s.trace, s'.mem, s'.trace, s.c.slotAddr + offset, data)
    else
      && s'.c == s.c && s'.h == s.h.(failed := true)
      && (AddressCheck(s.c.slotAddr + offset, |data|, WriteAccess) == FlashOk ==> status == WriterStorage)
      && Confined(s.mem, s.trace, s'.mem, s'.trace, s.c.slotAddr + offset, |data|)
      && (AddressCheck(s.c.slotAddr + offset, |data|, WriteAccess) != FlashOk || EndsInFailure(s.trace, s'.trace))
  }

  lemma ChunkSession(c: Context, h: History, data: seq<bv8>)
    requires SessionInv(c, h) && CheckChunk(c, c.receivedSize, |data|) == WriterOk
    ensures SessionInv(Accepted(c, data), h.(payload := h.payload + data))
  {
    HashSplit(OFFSET_BASIS, h.payload, data);
  }

  lemma ChunkSlot(s: State, s': State, data: seq<bv8>)
    requires SlotInv(s) && SessionInv(s.c, s.h) && CheckChunk(s.c, s.c.receivedSize, |data|) == WriterOk && !s.c.verifyActive
    requires s'.c == Accepted(s.c, data) && s'.h == s.h.(payload := s.h.payload + data)
    requires Wrote(s.mem, s.trace, s'.mem, s'.trace, s.c.slotAddr + s.c.receivedSize, data)
    ensures SlotInv(s')
  {
    if !s.h.failed {
      WroteHolds(s.mem, s.trace, s'.mem, s'.trace, s.c.slotAddr, s.c.expectedSize, s.h.payload, data);
    }
  }

  lemma ChunkKeeps(s: State, s': State, offset: nat, data: seq<bv8>, status: WriterStatus)
    requires Inv(s) && ChunkTaken(s, s', offset, data, status)
    ensures Inv(s')
  {
    if CheckChunk(s.c, offset, |data|) == WriterOk {
      if status == WriterOk {
        WroteConfined(s.mem, s.trace, s'.mem, s'.trace, s.c.slotAddr + offset, data);
        ChunkSession(s.c, s.h, data);
        ChunkSlot(s, s', data);
      }
      KeepsInSlot(s.c, s.h, s.trace, s'.trace, s.c.slotAddr + offset, |data|);
    }
  }

  // ---------------------------------------------------------------- Finalize, Abort

  function CheckFinalize(c: Context): WriterStatus {
    if !c.initialized then WriterParam
    else if !c.active || c.finalized || c.receivedSize != c.expectedSize then WriterState
    else WriterOk
  }

  /** Closes the session when exactly the announced size has arrived. */
  function Finalized(s: State): State {
    if CheckFinalize(s.c) != WriterOk then s
    else s.(c := s.c.(verifyHash := OFFSET_BASIS, verifyOffset := 0, verifyActive := false, active := false, finalized := true),
            h := s.h.(accepted := s.h.payload, readBack := [], passReads := []))
  }

  lemma FinalizeKeeps(s: State)
    requires Inv(s)
    ensures Inv(Finalized(s))
  {
  }

  function Aborted(s: State): State {
    if !s.c.initialized then s
    else s.(c := s.c.(active := false, finalized := false, expectedSize := 0, receivedSize := 0, payloadHash := 0,
                      verifyHash := 0, verifyOffset := 0, verifyActive := false, slotPrepared := false))
  }

  lemma AbortKeeps(s: State)
    requires Inv(s)
    ensures Inv(Aborted(s))
  {
  }

  // ---------------------------------------------------------------- VerifyStep

  /** A pass starts over unless one is under way. */
  function PassStarted(c: Context): Context {
    if c.verifyActive then c else c.(verifyHash := OFFSET_BASIS, verifyOffset := 0, verifyActive := true)
  }

  function HistoryStarted(c: Context, h: History): History {
    if c.verifyActive then h else h.(readBack := [], passReads := [])
  }

  function StepLength(c: Context, maxStep: nat): (n: nat)
    requires c.verifyOffset < c.expectedSize && 0 < maxStep
    ensures 0 < n <= c.expectedSize - c.verifyOffset && n <= VERIFY_BUF_SIZE && n <= maxStep
  {
    Min(Min(maxStep, VERIFY_BUF_SIZE), c.expectedSize - c.verifyOffset)
  }

  /** The pass `n` bytes further on, with `hash` over all of it; a pass that ends well is over. */
  function Advanced(c: Context, hash: bv32, n: nat): Context {
    var ends := c.verifyOffset + n == c.expectedSize && hash == c.payloadHash;
    c.(verifyHash := hash, verifyOffset := c.verifyOffset + n, verifyActive := c.verifyActive && !ends)
  }

  /** The state after the pass has read `data` at its offset. */
  function ReadOn(s: State, data: seq<bv8>): State {
    var read := ReadOp(s.c.slotAddr + s.c.verifyOffset, |data|);
    State(Advanced(s.c, Hash(s.c.verifyHash, data), |data|),
          s.h.(readBack := s.h.readBack + data, passReads := s.h.passReads + [read]),
          s.mem, s.trace + [read])
  }

  function Started(s: State): State {
    s.(c := PassStarted(s.c), h := HistoryStarted(s.c, s.h))
  }

  predicate HashesAgree(c: Context) {
    c.verifyHash == c.payloadHash
  }

  function ReadCheck(c: Context, n: nat): FlashStatus {
    AddressCheck(c.slotAddr + c.verifyOffset, n, ReadAccess)
  }

  datatype Stepped = Stepped(status: WriterStatus, done: bool, s: State)

  /** One step of a pass that is under way; `data` is what was read, if the image was not yet read through. */
  function StepOn(s: State, maxStep: nat, data: seq<bv8>): Stepped
    requires 0 < maxStep
  {
    if s.c.verifyOffset > s.c.expectedSize then Stepped(WriterState, false, s)
    else if s.c.verifyOffset == s.c.expectedSize then
      if HashesAgree(s.c) then Stepped(WriterOk, true, s.(c := s.c.(verifyActive := false))) else Stepped(WriterVerify, true, s)
    else
      var n := StepLength(s.c, maxStep);
      if ReadCheck(s.c, n) != FlashOk then
        Stepped(MapStorageError(MapFlashStatus(ReadCheck(s.c, n))), false, s.(h := s.h.(failed := true)))
      else
        var s' := ReadOn(s, data);
        var done := s'.c.verifyOffset == s'.c.expectedSize;
        Stepped(if done && !HashesAgree(s'.c) then WriterVerify else WriterOk, done, s')
  }

  /** A read that passes the address check delivers the bytes the chip holds there. */
  predicate Delivers(s: State, maxStep: nat, data: seq<bv8>) {
    var c := PassStarted(s.c);
    s.c.initialized && !s.c.active && s.c.finalized && 0 < maxStep && c.verifyOffset < c.expectedSize &&
    ReadCheck(c, StepLength(c, maxStep)) == FlashOk ==>
      |data| == StepLength(c, maxStep) && data == Held(s.mem, c.slotAddr + c.verifyOffset, |data|)
  }

  function VerifyStepped(s: State, maxStep: nat, data: seq<bv8>): Stepped {
    if !s.c.initialized || maxStep == 0 then Stepped(WriterParam, false, s)
    else if s.c.active || !s.c.finalized then Stepped(WriterState, false, s)
    else StepOn(Started(s), maxStep, data)
  }

  lemma HeldGrows(mem: seq<bv8>, addr: nat, n: nat, len: nat)
    requires FLASH_BASE <= addr && addr + n + len <= FLASH_BASE + |mem|
    ensures Held(mem, addr, n + len) == Held(mem, addr, n) + Held(mem, addr + n, len)
    ensures |Held(mem, addr + n, len)| == len
  {
  }

  lemma ReadOnPass(s: State, data: seq<bv8>)
    requires SessionInv(s.c, s.h) && PassInv(s.c, s.h) && s.c.verifyActive && |data| <= s.c.expectedSize - s.c.verifyOffset
    ensures SessionInv(ReadOn(s, data).c, ReadOn(s, data).h) && PassInv(ReadOn(s, data).c, ReadOn(s, data).h)
  {
    HashSplit(OFFSET_BASIS, s.h.readBack, data);
    ReadsCoverSnoc(s.h.passReads, s.c.slotAddr, s.c.verifyOffset, |data|);
  }

  lemma ReadOnHeld(s: State, data: seq<bv8>)
    requires SlotInv(s) && SessionInv(s.c, s.h) && PassInv(s.c, s.h) && s.c.verifyActive && !s.h.failed && !s.c.slotPrepared
    requires |data| <= s.c.expectedSize - s.c.verifyOffset && data == Held(s.mem, s.c.slotAddr + s.c.verifyOffset, |data|)
    ensures s.h.readBack + data == Held(s.mem, s.c.slotAddr, s.c.verifyOffset + |data|)
  {
    HeldGrows(s.mem, s.c.slotAddr, s.c.verifyOffset, |data|);
  }

  lemma ReadOnSlot(s: State, data: seq<bv8>)
    requires SlotInv(s) && SessionInv(s.c, s.h) && PassInv(s.c, s.h) && s.c.verifyActive
    requires |data| <= s.c.expectedSize - s.c.verifyOffset && data == Held(s.mem, s.c.slotAddr + s.c.verifyOffset, |data|)
    ensures SlotInv(ReadOn(s, data))
  {
    if !s.h.failed {
      ReadKeepsSlot(s.mem, s.trace, ReadOp(s.c.slotAddr + s.c.verifyOffset, |data|), s.c.slotAddr, s.c.expectedSize, s.h.payload);
      if !s.c.slotPrepared {
        ReadOnHeld(s, data);
      }
    }
  }

  /** Reading on keeps the pass what it stands for. */
  lemma ReadOnKeeps(s: State, data: seq<bv8>)
    requires Inv(s) && s.c.verifyActive && |data| <= s.c.expectedSize - s.c.verifyOffset
    requires data == Held(s.mem, s.c.slotAddr + s.c.verifyOffset, |data|)
    ensures Inv(ReadOn(s, data))
  {
    ReadOnPass(s, data);
    ReadOnSlot(s, data);
    ExtendsSnoc(s.h.before, s.trace, ReadOp(s.c.slotAddr + s.c.verifyOffset, |data|), s.c.slotAddr, s.c.slotAddr + s.c.slotSize);
  }

  lemma FailureKeeps(s: State)
    requires Inv(s)
    ensures Inv(s.(h := s.h.(failed := true)))
  {
  }

  /** A pass under way is still what it stands for after another step, and the slot too. */
  lemma StepOnKeeps(s: State, maxStep: nat, data: seq<bv8>)
    requires Inv(s) && s.c.verifyActive && 0 < maxStep && Delivers(s, maxStep, data)
    ensures Inv(StepOn(s, maxStep, data).s)
  {
    if s.c.verifyOffset < s.c.expectedSize {
      if ReadCheck(s.c, StepLength(s.c, maxStep)) == FlashOk {
        ReadOnKeeps(s, data);
      } else {
        FailureKeeps(s);
      }
    }
  }

  lemma StartKeeps(s: State)
    requires Inv(s) && s.c.finalized
    ensures Inv(Started(s)) && Started(s).c.verifyActive
  {
  }

  lemma VerifyKeeps(s: State, maxStep: nat, data: seq<bv8>)
    requires Inv(s) && Delivers(s, maxStep, data)
    ensures Inv(VerifyStepped(s, maxStep, data).s)
  {
    if s.c.initialized && 0 < maxStep && !s.c.active && s.c.finalized {
      StartKeeps(s);
      StepOnKeeps(Started(s), maxStep, data);
    }
  }

  /** The image was read exactly once, in order, by consecutive reads, and what was read hashes like it. */
  ghost predicate ReadThrough(s: State) {
    && |s.h.readBack| == |s.h.accepted| && ReadsCover(s.h.passReads, s.c.slotAddr, |s.h.accepted|)
    && Hash(OFFSET_BASIS, s.h.readBack) == Hash(OFFSET_BASIS, s.h.accepted)
  }

  /** At the end of a pass the writer's two hashes are those of what it read and what it took. */
  lemma ReadOnEnd(s: State, data: seq<bv8>)
    requires SessionInv(s.c, s.h) && PassInv(s.c, s.h) && s.c.verifyActive && |data| == s.c.expectedSize - s.c.verifyOffset
    ensures HashesAgree(ReadOn(s, data).c) <==> ReadThrough(ReadOn(s, data))
  {
    HashSplit(OFFSET_BASIS, s.h.readBack, data);
    ReadsCoverSnoc(s.h.passReads, s.c.slotAddr, s.c.verifyOffset, |data|);
  }

  /**
   * A step says it is done exactly when the pass has come to the end of the image, and then it answers OK
   * exactly when the image was read through and the hashes agree. The defensive branch is dead.
   */
  lemma DoneMeansReadThrough(s: State, maxStep: nat, data: seq<bv8>)
    requires Inv(s) && s.c.finalized && 0 < maxStep && Delivers(s, maxStep, data)
    ensures var r := VerifyStepped(s, maxStep, data);
            && r.s.c.finalized && r.s.h.accepted == s.h.accepted
            && (r.done <==> r.s.c.verifyOffset == r.s.c.expectedSize)
            && (r.done ==> r.status == if ReadThrough(r.s) then WriterOk else WriterVerify)
            && (!r.done ==> r.status == WriterOk || r.s.h.failed)
  {
    var s1 := Started(s);
    StartKeeps(s);
    if s1.c.verifyOffset == s1.c.expectedSize {
      ReadOnEnd(s1, []);
      assert s1.h.readBack + [] == s1.h.readBack;
    } else {
      if |data| == s1.c.expectedSize - s1.c.verifyOffset {
        ReadOnEnd(s1, data);
      }
    }
  }

  /** A step changes nothing but the pass. */
  predicate SameSession(s: State, s': State) {
    && s'.c.initialized == s.c.initialized && s'.c.finalized == s.c.finalized && s'.c.active == s.c.active
    && s'.c.slotPrepared == s.c.slotPrepared && s'.c.expectedSize == s.c.expectedSize && s'.c.slotAddr == s.c.slotAddr
    && s'.c.slotSize == s.c.slotSize && s'.c.eraseSize == s.c.eraseSize && s'.c.progSize == s.c.progSize
    && s'.h.accepted == s.h.accepted && s'.mem == s.mem
  }

  lemma StepKeepsSession(s: State, maxStep: nat, data: seq<bv8>)
    ensures SameSession(s, VerifyStepped(s, maxStep, data).s)
  {
    if 0 < maxStep {
      StepOnKeepsSession(Started(s), maxStep, data);
    }
  }

  lemma StepOnKeepsSession(s: State, maxStep: nat, data: seq<bv8>)
    requires 0 < maxStep
    ensures SameSession(s, StepOn(s, maxStep, data).s)
  {
    assert SameSession(s, ReadOn(s, data));
  }

  /** A step that answers OK without being done has moved the pass on. */
  lemma StepProgress(s: State, maxStep: nat, data: seq<bv8>)
    requires s.c.initialized && s.c.finalized && !s.c.active && 0 < maxStep && Delivers(s, maxStep, data)
    ensures var r := VerifyStepped(s, maxStep, data);
            r.status == WriterOk && !r.done ==>
              r.s.c.verifyActive && Started(s).c.verifyOffset < r.s.c.verifyOffset < r.s.c.expectedSize
  {
    StepOnProgress(Started(s), maxStep, data);
  }

  lemma StepOnProgress(s: State, maxStep: nat, data: seq<bv8>)
    requires s.c.initialized && s.c.finalized && !s.c.active && s.c.verifyActive && 0 < maxStep && Delivers(s, maxStep, data)
    ensures var r := StepOn(s, maxStep, data);
            r.status == WriterOk && !r.done ==> r.s.c.verifyActive && s.c.verifyOffset < r.s.c.verifyOffset < r.s.c.expectedSize
  {
  }

  lemma FaithfulEnd(s: State)
    requires SessionInv(s.c, s.h) && PassInv(s.c, s.h) && SlotInv(s) && s.c.verifyActive && !s.h.failed && !s.c.slotPrepared
    requires s.c.verifyOffset == s.c.expectedSize
    ensures HashesAgree(s.c)
  {
    assert s.h.readBack == Held(s.mem, s.c.slotAddr, s.c.expectedSize) == s.h.payload;
  }

  lemma FaithfulRead(s: State, n: nat)
    requires SessionInv(s.c, s.h) && SlotInv(s) && s.c.finalized && !s.h.failed && !s.c.slotPrepared
    requires |s.mem| == FLASH_LIMIT - FLASH_BASE && 0 < n <= s.c.expectedSize - s.c.verifyOffset
    ensures ReadCheck(s.c, n) == FlashOk && |Held(s.mem, s.c.slotAddr + s.c.verifyOffset, n)| == n
  {
  }

  /** The step that reads the last of the image from faithful storage. */
  lemma FaithfulReadEnd(s: State, data: seq<bv8>)
    requires SessionInv(s.c, s.h) && PassInv(s.c, s.h) && SlotInv(s) && s.c.verifyActive && !s.h.failed && !s.c.slotPrepared
    requires |data| == s.c.expectedSize - s.c.verifyOffset && data == Held(s.mem, s.c.slotAddr + s.c.verifyOffset, |data|)
    ensures HashesAgree(ReadOn(s, data).c)
  {
    HashSplit(OFFSET_BASIS, s.h.readBack, data);
    ReadOnHeld(s, data);
    assert s.h.readBack + data == Held(s.mem, s.c.slotAddr, s.c.expectedSize) == s.h.payload;
  }

  /**
   * Faithful storage always verifies: while no storage operation has failed and the slot has not been
   * erased again, every step of any size answers OK.
   */
  lemma FaithfulStorageVerifies(s: State, maxStep: nat, data: seq<bv8>)
    requires Inv(s) && |s.mem| == FLASH_LIMIT - FLASH_BASE && Delivers(s, maxStep, data)
    requires s.c.finalized && !s.h.failed && !s.c.slotPrepared && 0 < maxStep
    ensures var r := VerifyStepped(s, maxStep, data);
            r.status == WriterOk && !r.s.h.failed
  {
    var s1 := Started(s);
    StartKeeps(s);
    if s1.c.verifyOffset == s1.c.expectedSize {
      FaithfulEnd(s1);
    } else {
      FaithfulRead(s1, StepLength(s1.c, maxStep));
      if |data| == s1.c.expectedSize - s1.c.verifyOffset {
        FaithfulReadEnd(s1, data);
      }
    }
  }
}
