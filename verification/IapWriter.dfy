/** IapWriter.c: one firmware image streamed into the update slot, then read back and hashed. */
module IapWriter {
  import opened Wire
  import opened Fnv
  import opened Flash
  import opened FlashAdapter
  import opened IapSession

  class Writer {
    const storage: Adapter
    var c: Context
    ghost var h: History

    ghost predicate Valid()
      reads this, storage, storage.chip
    {
      && storage.Valid()
      && (c.initialized ==> c.slotAddr < TWO_32 && c.slotSize < TWO_32 && c.expectedSize <= c.slotSize)
      // a session starts, and a slot is prepared, only where the flash can be erased
      && (c.active || c.finalized ==> c.slotAddr + c.expectedSize <= FLASH_LIMIT)
      && (c.slotPrepared ==> c.slotAddr + c.slotSize <= FLASH_LIMIT)
    }

    ghost function View(): State
      reads this, storage, storage.chip
    {
      State(c, h, storage.chip.mem, storage.chip.trace)
    }

    constructor (storage: Adapter)
      requires storage.Valid()
      ensures Valid() && this.storage == storage && c == BLANK_CONTEXT
    {
      this.storage := storage;
      c := BLANK_CONTEXT;
      h := History([], [], [], [], false, []);
    }

    /** Zero granularities are taken from the storage; the slot must be whole erase units of whole program units. */
    method Init(addr: nat, size: nat, eraseGranularity: nat, progGranularity: nat) returns (status: WriterStatus)
      requires Valid() && addr < TWO_32 && size < TWO_32
      modifies this
      ensures Valid()
      ensures var e := if eraseGranularity == 0 then storage.EraseSize() else eraseGranularity;
              var p := if progGranularity == 0 then storage.ProgSize() else progGranularity;
              && status == InitCheck(size, e, p)
              && View() == if status != WriterOk then old(View())
                           else State(Initialized(addr, size, e, p), History([], [], [], [], false, storage.chip.trace),
                                      storage.chip.mem, storage.chip.trace)
    {
      if size == 0 {
        return WriterParam;
      }
      var e := if eraseGranularity == 0 then storage.EraseSize() else eraseGranularity;
      var p := if progGranularity == 0 then storage.ProgSize() else progGranularity;
      if Remainder(size, e) != 0 {
        return WriterAlign;
      }
      if Remainder(e, p) != 0 {
        return WriterAlign;
      }
      c := BLANK_CONTEXT.(slotAddr := addr, slotSize := size, eraseSize := e, progSize := p, initialized := true);
      h := History([], [], [], [], false, storage.chip.trace);
      return WriterOk;
    }

    method Begin(imageSize: nat) returns (status: WriterStatus)
      requires Valid()
      modifies this, storage.chip
      ensures Valid() && BeginStep(old(View()), View(), imageSize, status)
    {
      var (check, eraseLen) := CheckBegin(c, imageSize);
      if check != WriterOk {
        return check;
      }
      if !c.slotPrepared {
        var s := storage.Erase(c.slotAddr, eraseLen);
        if s != StorageOk {
          h := h.(failed := true);
          return MapStorageError(s);
        }
      }
      c := c.(expectedSize := imageSize, receivedSize := 0, payloadHash := OFFSET_BASIS, verifyHash := OFFSET_BASIS,
              verifyOffset := 0, active := true, finalized := false, verifyActive := false, slotPrepared := false);
      h := h.(payload := []);
      return WriterOk;
    }

    method WriteChunk(offset: nat, data: seq<bv8>) returns (status: WriterStatus)
      requires Valid()
      modifies this, storage.chip, storage.bounce
      ensures Valid() && ChunkTaken(old(View()), View(), offset, data, status)
    {
      var check := CheckChunk(c, offset, |data|);
      if check != WriterOk {
        return check;
      }
      var s := storage.Write(c.slotAddr + offset, data);
      if s != StorageOk {
        h := h.(failed := true);
        return MapStorageError(s);
      }
      var hash := HashBytes(c.payloadHash, data);
      c := c.(payloadHash := hash, receivedSize := c.receivedSize + |data|);
      h := h.(payload := h.payload + data);
      return WriterOk;
    }

    method Finalize() returns (status: WriterStatus)
      requires Valid()
      modifies this
      ensures Valid() && status == CheckFinalize(old(c)) && View() == Finalized(old(View()))
    {
      if !c.initialized {
        return WriterParam;
      }
      if !c.active || c.finalized {
        return WriterState;
      }
      if c.receivedSize != c.expectedSize {
        return WriterState;
      }
      c := c.(verifyHash := OFFSET_BASIS, verifyOffset := 0, verifyActive := false, active := false, finalized := true);
      h := h.(accepted := h.payload, readBack := [], passReads := []);
      return WriterOk;
    }

    /** One read-back step; `data` is what the storage delivered, if it was read. */
    method VerifyStep(maxStep: nat)
        returns (status: WriterStatus, processed: nat, total: nat, done: bool, ghost data: seq<bv8>)
      requires Valid()
      modifies this, storage.chip
      ensures Valid() && Stepped(status, done, View()) == VerifyStepped(old(View()), maxStep, data)
      ensures Delivers(old(View()), maxStep, data)
      ensures status in {WriterOk, WriterVerify} ==> processed == c.verifyOffset && total == c.expectedSize
    {
      processed, total, done, data := 0, 0, false, [];
      if !c.initialized || maxStep == 0 {
        return WriterParam, processed, total, done, data;
      }
      if c.active || !c.finalized {
        return WriterState, processed, total, done, data;
      }
      h := HistoryStarted(c, h);
      if !c.verifyActive {
        c := c.(verifyHash := OFFSET_BASIS, verifyOffset := 0, verifyActive := true);
      }
      status, processed, total, done, data := ContinuePass(maxStep);
    }

    /** The step once the pass has been started. */
    method ContinuePass(maxStep: nat)
        returns (status: WriterStatus, processed: nat, total: nat, done: bool, ghost data: seq<bv8>)
      requires Valid() && c.initialized && c.finalized && !c.active && c.verifyActive && 0 < maxStep
      modifies this, storage.chip
      ensures Valid() && Stepped(status, done, View()) == StepOn(old(View()), maxStep, data)
      ensures Delivers(old(View()), maxStep, data)
      ensures status in {WriterOk, WriterVerify} ==> processed == c.verifyOffset && total == c.expectedSize
    {
      processed, total, done, data := 0, 0, false, [];
      if c.verifyOffset > c.expectedSize {
        return WriterState, processed, total, done, data;
      }
      total := c.expectedSize;
      if c.verifyOffset == c.expectedSize {
        processed, done := c.verifyOffset, true;
        if c.verifyHash != c.payloadHash {
          return WriterVerify, processed, total, done, data;
        }
        c := c.(verifyActive := false);
        return WriterOk, processed, total, done, data;
      }
      var check, chunk := ReadChunk(StepLength(c, maxStep));
      data := chunk;
      if check != FlashOk {
        return MapStorageError(MapFlashStatus(check)), processed, total, done, data;
      }
      processed, done := c.verifyOffset, c.verifyOffset == c.expectedSize;
      return if done && c.verifyHash != c.payloadHash then WriterVerify else WriterOk, processed, total, done, data;
    }

    /** The reading half of a step: the pass moves on over what was read, and is over if it ends well. */
    method ReadChunk(chunkLen: nat) returns (check: FlashStatus, chunk: seq<bv8>)
      requires Valid() && c.initialized && c.finalized && c.verifyOffset + chunkLen <= c.expectedSize && 0 < chunkLen
      modifies this, storage.chip
      ensures Valid() && check == ReadCheck(old(c), chunkLen)
      ensures check != FlashOk ==> View() == old(View()).(h := old(h).(failed := true))
      ensures check == FlashOk ==>
                && |chunk| == chunkLen && chunk == Held(storage.chip.mem, c.slotAddr + old(c).verifyOffset, chunkLen)
                && View() == ReadOn(old(View()), chunk)
    {
      ghost var before := View();
      var s;
      s, chunk := storage.Read(c.slotAddr + c.verifyOffset, chunkLen);
      check := ReadCheck(c, chunkLen);
      if s != StorageOk {
        h := h.(failed := true);
        return check, chunk;
      }
      h := h.(readBack := h.readBack + chunk, passReads := h.passReads + [ReadOp(c.slotAddr + c.verifyOffset, chunkLen)]);
      var hash := HashBytes(c.verifyHash, chunk);
      c := Advanced(c, hash, chunkLen);
      assert View() == ReadOn(before, chunk);
    }

    /**
     * Finalize, then step to the end of a pass. It terminates, answers OK only for an image that was read
     * through with the right hash, and always answers OK if no storage operation has failed.
     */
    method FinalizeAndVerify() returns (status: WriterStatus)
      requires Valid() && Inv(View())
      modifies this, storage.chip
      ensures Valid() && Inv(View())
      ensures CheckFinalize(old(c)) != WriterOk ==> status == CheckFinalize(old(c)) && View() == old(View())
      ensures CheckFinalize(old(c)) == WriterOk ==> h.accepted == old(h).payload && storage.chip.mem == old(storage.chip.mem)
      ensures CheckFinalize(old(c)) == WriterOk && status == WriterOk ==> ReadThrough(View())
      ensures CheckFinalize(old(c)) == WriterOk && !old(h).failed ==> status == WriterOk
    {
      FinalizeKeeps(View());
      status := Finalize();
      if status != WriterOk {
        return status;
      }
      var done := false;
      while status == WriterOk && !done
        invariant Valid() && Inv(View()) && c.initialized && c.finalized && !c.slotPrepared
        invariant h.accepted == old(h).payload && storage.chip.mem == old(storage.chip.mem)
        invariant !done && status == WriterOk ==> (c.verifyActive || c.verifyOffset == 0) && c.verifyOffset <= c.expectedSize
        invariant done && status == WriterOk ==> ReadThrough(View())
        invariant !old(h).failed ==> status == WriterOk && !h.failed
        decreases !done && status == WriterOk, c.expectedSize - c.verifyOffset
      {
        ghost var s := View();
        var processed, total;
        ghost var data;
        status, processed, total, done, data := VerifyStep(VERIFY_BUF_SIZE);
        VerifyKeeps(s, VERIFY_BUF_SIZE, data);
        StepKeepsSession(s, VERIFY_BUF_SIZE, data);
        StepProgress(s, VERIFY_BUF_SIZE, data);
        DoneMeansReadThrough(s, VERIFY_BUF_SIZE, data);
        if !old(h).failed {
          FaithfulStorageVerifies(s, VERIFY_BUF_SIZE, data);
        }
      }
    }

    method Abort() returns (status: WriterStatus)
      requires Valid()
      modifies this
      ensures Valid() && status == (if old(c).initialized then WriterOk else WriterParam) && View() == Aborted(old(View()))
    {
      if !c.initialized {
        return WriterParam;
      }
      c := c.(active := false, finalized := false, expectedSize := 0, receivedSize := 0, payloadHash := 0,
              verifyHash := 0, verifyOffset := 0, verifyActive := false, slotPrepared := false);
      return WriterOk;
    }
  }
}
