/** What VERIFIED promises to the caller that is about to apply the update: the image is in the slot. */
module IapVerdict {
  import opened Runs
  import opened Wire
  import opened Flash
  import opened IapSession
  import opened Iap

  /** The slot starts with the image the last Finalize closed. */
  predicate HoldsImage(s: State) {
    Held(s.mem, s.c.slotAddr, |s.h.accepted|) == s.h.accepted
  }

  /** As long as no storage operation has failed: while VERIFIED is out, the image is in the slot. */
  predicate ImageStands(m: Machine) {
    m.v.state == Verified && !m.w.h.failed ==> HoldsImage(m.w)
  }

  /** `data` at `offset` is not what the image has there. */
  predicate Alters(image: seq<bv8>, offset: nat, data: seq<bv8>) {
    exists i :: 0 <= i < |data| && offset + i < |image| && data[i] != image[offset + i]
  }

  /** A session begun while VERIFIED is out erases part of the image. */
  predicate ErasesImage(m: Machine, call: Call) {
    && call.Begin? && m.v.state == Verified && !m.w.c.slotPrepared
    && var (check, len) := CheckBegin(m.w.c, call.imageSize);
       check == WriterOk == call.status && Alters(m.w.h.accepted, 0, Blank(len))
  }

  /** A chunk taken while VERIFIED is out overwrites part of the image with something else. */
  predicate OverwritesImage(m: Machine, call: Call) {
    && call.WriteChunk? && m.v.state == Verified
    && CheckChunk(m.w.c, call.offset, |call.data|) == WriterOk == call.status && Alters(m.w.h.accepted, call.offset, call.data)
  }

  /** A pass ends well on a slot prepared for another image: what it hashed there was, at least in its last step, erased flash. */
  predicate PassesErased(m: Machine, call: Call) {
    && call.Poll? && m.w.c.slotPrepared && m.v.state in {Pending, Verifying}
    && Polled(m, call.data).v.state == Verified && Alters(m.w.h.accepted, 0, Blank(|m.w.h.accepted|))
  }

  predicate TakesImageAway(m: Machine, call: Call) {
    !m.w.h.failed && (ErasesImage(m, call) || OverwritesImage(m, call) || PassesErased(m, call))
  }

  lemma PatchedImage(mem: seq<bv8>, slot: nat, image: seq<bv8>, offset: nat, data: seq<bv8>)
    requires Held(mem, slot, |image|) == image
    requires FLASH_BASE <= slot + offset && slot + offset - FLASH_BASE + |data| <= |mem|
    ensures Held(Patch(mem, slot + offset - FLASH_BASE, data), slot, |image|) == image <==> !Alters(image, offset, data)
  {
    if image != [] {
      PatchedAt(mem, slot - FLASH_BASE, image, offset, data);
    }
  }

  lemma PatchedAt(mem: seq<bv8>, at: nat, image: seq<bv8>, offset: nat, data: seq<bv8>)
    requires at + |image| <= |mem| && mem[at..at + |image|] == image && at + offset + |data| <= |mem|
    ensures Patch(mem, at + offset, data)[at..at + |image|] == image <==> !Alters(image, offset, data)
  {
    var held := Patch(mem, at + offset, data)[at..at + |image|];
    forall k | 0 <= k < |image|
      ensures held[k] == if offset <= k < offset + |data| then data[k - offset] else image[k]
    {
      assert image[k] == mem[at + k];
    }
    if Alters(image, offset, data) {
      var i :| 0 <= i < |data| && offset + i < |image| && data[i] != image[offset + i];
      assert held[offset + i] != image[offset + i];
    } else {
      forall k | 0 <= k < |image|
        ensures held[k] == image[k]
      {
        if offset <= k < offset + |data| {
          var i := k - offset;
          assert data[i] == image[offset + i];
        }
      }
    }
  }

  lemma BeginImage(m: Machine, call: Call, m': Machine)
    requires ImageStands(m) && Step(m, call, m') && call.Begin?
    ensures ImageStands(m') <==> !TakesImageAway(m, call)
  {
    var (check, len) := CheckBegin(m.w.c, call.imageSize);
    if check == WriterOk == call.status && !m.w.c.slotPrepared && m.v.state == Verified && !m.w.h.failed {
      PatchedImage(m.w.mem, m.w.c.slotAddr, m.w.h.accepted, 0, Blank(len));
    }
  }

  lemma ChunkImage(m: Machine, call: Call, m': Machine)
    requires ImageStands(m) && Step(m, call, m') && call.WriteChunk?
    ensures ImageStands(m') <==> !TakesImageAway(m, call)
  {
    if CheckChunk(m.w.c, call.offset, |call.data|) == WriterOk == call.status && m.v.state == Verified && !m.w.h.failed {
      PatchedImage(m.w.mem, m.w.c.slotAddr, m.w.h.accepted, call.offset, call.data);
    }
  }

  /** Up to the first failure a closed image is in the slot, unless the slot was prepared again: then nothing is. */
  lemma ClosedImage(s: State)
    requires Inv(s) && s.c.finalized && !s.h.failed
    ensures if s.c.slotPrepared then HoldsImage(s) <==> !Alters(s.h.accepted, 0, Blank(|s.h.accepted|)) else HoldsImage(s)
  {
    if s.c.slotPrepared {
      var n := |s.h.accepted|;
      assert Held(s.mem, s.c.slotAddr, n) == Held(s.mem, s.c.slotAddr, s.c.slotSize)[..n] == Blank(n);
    }
  }

  lemma PollImage(m: Machine, call: Call, m': Machine)
    requires Inv(m.w) && ImageStands(m) && Step(m, call, m') && call.Poll?
    ensures ImageStands(m') <==> !TakesImageAway(m, call)
  {
    StepKeepsSession(m.w, VERIFY_STEP_BYTES, call.data);
    if m'.v.state == Verified && m.v.state != Verified && !m.w.h.failed {
      ClosedImage(m.w);
    }
  }

  lemma FinalizeImage(m: Machine)
    requires Inv(m.w) && ImageStands(m)
    ensures ImageStands(m.(w := Finalized(m.w)))
  {
    if CheckFinalize(m.w.c) == WriterOk && !m.w.h.failed {
      FinalizeKeeps(m.w);
      ClosedImage(Finalized(m.w));
    }
  }

  /** Every call keeps the image in the slot while VERIFIED is out and nothing has failed, except exactly those three. */
  lemma ImageKeptExactly(m: Machine, call: Call, m': Machine)
    requires Inv(m.w) && ImageStands(m) && Step(m, call, m')
    ensures ImageStands(m') <==> !TakesImageAway(m, call)
  {
    match call
    case Begin(_, _) => BeginImage(m, call, m');
    case WriteChunk(_, _, _) => ChunkImage(m, call, m');
    case Poll(_) => PollImage(m, call, m');
    case Finalize => FinalizeImage(m);
    case Prepare(_) | Abort | Reset | Request =>
  }

  // ---------------------------------------------------------------- runs

  ghost predicate NextKeepsImage(m: Machine, m': Machine) {
    exists call :: Step(m, call, m') && !TakesImageAway(m, call)
  }

  ghost predicate ImageInv(m: Machine) {
    Inv(m.w) && ImageStands(m)
  }

  lemma KeepsImage(x: Machine, y: Machine)
    requires ImageInv(x) && NextKeepsImage(x, y)
    ensures ImageInv(y)
  {
    var call :| Step(x, call, y) && !TakesImageAway(x, call);
    StepKeeps(x, call, y);
    ImageKeptExactly(x, call, y);
  }

  /** In every run without such a call: as long as nothing has failed, whoever finds VERIFIED finds the image in the slot. */
  lemma VerifiedMeansInSlot(m0: Machine, m: Machine)
    requires Fresh(m0) && Leads(NextKeepsImage, m0, m)
    ensures ImageStands(m)
  {
    forall x, y | ImageInv(x) && NextKeepsImage(x, y)
      ensures ImageInv(y)
    {
      KeepsImage(x, y);
    }
    Invariant(NextKeepsImage, ImageInv, m0, m);
  }

  /** A session begins only when no verdict is out, and no verification runs on a slot prepared for the next image. */
  ghost predicate NextOrderly(m: Machine, m': Machine) {
    exists call :: Step(m, call, m') && (call.Begin? ==> m.v.state == Iap.Idle) && (call.Poll? ==> !m.w.c.slotPrepared)
  }

  ghost predicate OrderlyInv(m: Machine) {
    QuietSession(m) && ImageStands(m)
  }

  lemma OrderlyKeeps(x: Machine, y: Machine)
    requires OrderlyInv(x) && NextOrderly(x, y)
    ensures OrderlyInv(y)
  {
    var call :| Step(x, call, y) && (call.Begin? ==> x.v.state == Iap.Idle) && (call.Poll? ==> !x.w.c.slotPrepared);
    TidyKeeps(x, y);
    ImageKeptExactly(x, call, y);
  }

  /** Callers that keep to this are safe: VERIFIED means both that the image was read through and that it is in the slot. */
  lemma OrderlyCallersSuffice(m0: Machine, m: Machine)
    requires Fresh(m0) && Leads(NextOrderly, m0, m)
    ensures VerdictHolds(m) && ImageStands(m)
  {
    forall x, y | OrderlyInv(x) && NextOrderly(x, y)
      ensures OrderlyInv(y)
    {
      OrderlyKeeps(x, y);
    }
    Invariant(NextOrderly, OrderlyInv, m0, m);
  }

  /**
   * One that does not, in every slot and without any failure: an image that is not all erased flash is verified, and
   * the next session begins. VERIFIED is still out, and so a request to apply the update goes ahead, but where the image
   * was there is erased flash.
   */
  lemma ErasedUnderVerdict(slot: nat, size: nat, mem: seq<bv8>, image: seq<bv8>) returns (m0: Machine, m: Machine)
    requires IsSlot(slot, size) && |mem| == FLASH_LIMIT - FLASH_BASE && |image| == WORD_SIZE && image != Blank(WORD_SIZE)
    ensures Fresh(m0) && m0.w.c.slotAddr == slot && m0.w.c.slotSize == size && m0.w.mem == mem
    ensures Leads(Next, m0, m) && !m.w.h.failed && m.v.state == Verified && m.w.h.accepted == image
    ensures Held(m.w.mem, slot, WORD_SIZE) == Blank(WORD_SIZE) && !ImageStands(m)
  {
    var verified;
    m0, verified := UploadsAndVerifies(slot, size, mem, image);
    m := Starts(m0, verified);
    assert Held(m.w.mem, slot, WORD_SIZE) == Blank(WORD_SIZE);
  }
}
