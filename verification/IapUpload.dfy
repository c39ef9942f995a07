/** What a caller may count on: an upload in order is taken piece by piece, closes, and is verified after so many polls. */
module IapUpload {
  import opened Runs
  import opened Wire
  import opened Fnv
  import opened Flash
  import opened IapSession
  import opened Iap
  import opened IapVerdict

  // ---------------------------------------------------------------- what is turned down

  /** A slot is accepted exactly if it is whole erase units, and these whole program units. */
  lemma InitAcceptedExactly(size: nat, e: nat, p: nat)
    ensures InitCheck(size, e, p) == WriterOk <==> 0 < size && e != 0 && size % e == 0 && p != 0 && e % p == 0
    ensures InitCheck(size, e, p) in {WriterOk, WriterParam, WriterAlign} && (InitCheck(size, e, p) == WriterParam <==> size == 0)
  {
    if e != 0 {
      RemainderIsMod(size, e);
    }
    if p != 0 {
      RemainderIsMod(e, p);
    }
  }

  predicate IsOpen(c: Context) {
    c.initialized && c.active && !c.finalized
  }

  /** A chunk is accepted exactly in an open session, in sequence, in whole program units and within the image announced;
      and each reason for turning one down is a true one. */
  lemma ChunkAcceptedExactly(c: Context, offset: nat, len: nat)
    requires 0 < c.progSize
    ensures CheckChunk(c, offset, len) == WriterOk <==>
              && IsOpen(c) && 0 < len < TWO_32 && offset == c.receivedSize && offset + len <= c.expectedSize
              && offset % c.progSize == 0 && len % c.progSize == 0
    ensures match CheckChunk(c, offset, len)
            case WriterOk => true
            case WriterParam => len == 0 || TWO_32 <= len
            case WriterState => !IsOpen(c)
            case WriterSequence => offset != c.receivedSize
            case WriterAlign => offset % c.progSize != 0 || len % c.progSize != 0
            case WriterRange => c.expectedSize < offset + len
            case _ => false
  {
    RemainderIsMod(offset, c.progSize);
    RemainderIsMod(len, c.progSize);
  }

  lemma {:induction false} NoMultipleBetween(a: nat, b: nat, e: nat)
    requires IsAligned(a, e) && IsAligned(b, e) && a < b + e
    ensures a <= b
    decreases a
  {
    if a >= e && b >= e {
      NoMultipleBetween(a - e, b - e, e);
    }
  }

  /** Begin goes to the storage exactly with no session open and an image of whole program units that fits the slot; it
      erases the fewest erase units that hold the image. */
  lemma BeginAcceptedExactly(c: Context, imageSize: nat)
    requires 0 < c.progSize && IsAligned(c.slotSize, c.eraseSize) && c.slotSize < TWO_32
    ensures var (check, len) := CheckBegin(c, imageSize);
            && (check == WriterOk <==> c.initialized && !c.active && 0 < imageSize <= c.slotSize && imageSize % c.progSize == 0)
            && (check == WriterOk ==> imageSize <= len < imageSize + c.eraseSize && IsAligned(len, c.eraseSize))
            && (match check
                case WriterOk => true
                case WriterParam => !c.initialized
                case WriterState => c.active
                case WriterRange => imageSize == 0 || c.slotSize < imageSize
                case WriterAlign => imageSize % c.progSize != 0
                case _ => false)
  {
    RemainderIsMod(imageSize, c.progSize);
    if 0 < imageSize <= c.slotSize {
      RoundsIntoSlot(imageSize, c.eraseSize, c.slotSize);
    }
  }

  lemma RoundsIntoSlot(size: nat, e: nat, slot: nat)
    requires IsAligned(slot, e) && size <= slot < TWO_32
    ensures RoundUp(size, e).Rounded? && RoundUp(size, e).value <= slot
  {
    var rem := Remainder(size, e);
    if rem != 0 {
      RemainderSmallAdd(size, e - rem, e);
      NoMultipleBetween(size - rem + e, slot, e);
    } else {
      NoMultipleBetween(size, slot, e);
    }
  }

  // ---------------------------------------------------------------- an upload

  /** The pieces sent one after the other, each at the place behind the one before it. */
  ghost predicate Sent(s: State, offset: nat, pieces: seq<seq<bv8>>, answers: seq<WriterStatus>, s': State)
    decreases |pieces|
  {
    && |answers| == |pieces|
    && if pieces == [] then s' == s
       else exists mid :: ChunkTaken(s, mid, offset, pieces[0], answers[0])
                          && Sent(mid, offset + |pieces[0]|, pieces[1..], answers[1..], s')
  }

  /** A cutting into whole program units. */
  predicate InUnits(pieces: seq<seq<bv8>>, unit: nat) {
    forall i :: 0 <= i < |pieces| ==> pieces[i] != [] && IsAligned(|pieces[i]|, unit)
  }

  predicate AllOk(answers: seq<WriterStatus>) {
    forall i :: 0 <= i < |answers| ==> answers[i] == WriterOk
  }

  lemma AllOkSnoc(answers: seq<WriterStatus>)
    requires answers != [] && answers[0] == WriterOk && AllOk(answers[1..])
    ensures AllOk(answers)
  {
    assert answers == [answers[0]] + answers[1..];
  }

  lemma InUnitsRest(pieces: seq<seq<bv8>>, unit: nat)
    requires InUnits(pieces, unit) && pieces != []
    ensures pieces[0] != [] && IsAligned(|pieces[0]|, unit) && InUnits(pieces[1..], unit)
  {
    forall i | 0 <= i < |pieces[1..]|
      ensures pieces[1..][i] != [] && IsAligned(|pieces[1..][i]|, unit)
    {
      assert pieces[1..][i] == pieces[i + 1];
    }
  }

  lemma {:induction false} FailuresStay(s: State, offset: nat, pieces: seq<seq<bv8>>, answers: seq<WriterStatus>, s': State)
    requires Sent(s, offset, pieces, answers, s') && s.h.failed
    ensures s'.h.failed
    decreases |pieces|
  {
    if pieces != [] {
      var mid :| ChunkTaken(s, mid, offset, pieces[0], answers[0]) && Sent(mid, offset + |pieces[0]|, pieces[1..], answers[1..], s');
      FailuresStay(mid, offset + |pieces[0]|, pieces[1..], answers[1..], s');
    }
  }

  /** A piece that is due is taken, unless the storage fails. */
  lemma PieceIsTaken(s: State, piece: seq<bv8>, answer: WriterStatus, mid: State)
    requires Inv(s) && s.c.active && ChunkTaken(s, mid, s.c.receivedSize, piece, answer) && !mid.h.failed
    requires piece != [] && IsAligned(|piece|, s.c.progSize) && IsAligned(s.c.receivedSize, s.c.progSize)
    requires s.c.receivedSize + |piece| <= s.c.expectedSize
    ensures Inv(mid) && answer == WriterOk && mid.h.payload == s.h.payload + piece && mid.h.accepted == s.h.accepted
    ensures mid.c == s.c.(receivedSize := s.c.receivedSize + |piece|, payloadHash := mid.c.payloadHash)
    ensures IsAligned(mid.c.receivedSize, s.c.progSize) && |mid.mem| == |s.mem|
  {
    assert CheckChunk(s.c, s.c.receivedSize, |piece|) == WriterOk;
    ChunkKeeps(s, mid, s.c.receivedSize, piece, answer);
    RemainderAdd(s.c.receivedSize, |piece|, s.c.progSize);
  }

  /** An open session with room for `n` more bytes, so far in whole program units. */
  ghost predicate Due(s: State, n: nat) {
    Inv(s) && s.c.active && IsAligned(s.c.receivedSize, s.c.progSize) && s.c.receivedSize + n <= s.c.expectedSize
  }

  /** From one state of a session to a later one, with this much more taken. */
  ghost predicate Took(s: State, image: seq<bv8>, s': State) {
    && s'.h.payload == s.h.payload + image && |s'.mem| == |s.mem|
    && s'.c == s.c.(receivedSize := s.c.receivedSize + |image|, payloadHash := s'.c.payloadHash)
  }

  lemma TookBoth(s: State, a: seq<bv8>, mid: State, b: seq<bv8>, s': State)
    requires Took(s, a, mid) && Took(mid, b, s')
    ensures Took(s, a + b, s')
  {
    assert s.h.payload + a + b == s.h.payload + (a + b);
  }

  lemma TookNothing(s: State)
    ensures Took(s, [], s)
  {
  }

  /** The first of the pieces, and what is sent after it. */
  lemma FirstPiece(s: State, pieces: seq<seq<bv8>>, answers: seq<WriterStatus>, s': State) returns (mid: State)
    requires Due(s, |Joined(pieces)|) && Sent(s, s.c.receivedSize, pieces, answers, s') && !s'.h.failed
    requires InUnits(pieces, s.c.progSize) && pieces != []
    ensures Due(mid, |Joined(pieces[1..])|) && Sent(mid, mid.c.receivedSize, pieces[1..], answers[1..], s')
    ensures answers != [] && answers[0] == WriterOk && Took(s, pieces[0], mid)
    ensures InUnits(pieces[1..], s.c.progSize)
  {
    var first, more := pieces[0], pieces[1..];
    mid :| ChunkTaken(s, mid, s.c.receivedSize, first, answers[0]) && Sent(mid, s.c.receivedSize + |first|, more, answers[1..], s');
    if mid.h.failed {
      FailuresStay(mid, s.c.receivedSize + |first|, more, answers[1..], s');
    }
    InUnitsRest(pieces, s.c.progSize);
    PieceIsTaken(s, first, answers[0], mid);
  }

  lemma {:induction false} PiecesAreTaken(s: State, pieces: seq<seq<bv8>>, answers: seq<WriterStatus>, s': State)
    requires Due(s, |Joined(pieces)|) && Sent(s, s.c.receivedSize, pieces, answers, s') && !s'.h.failed
    requires InUnits(pieces, s.c.progSize)
    ensures Due(s', 0) && AllOk(answers) && Took(s, Joined(pieces), s')
    decreases |pieces|
  {
    if pieces == [] {
      TookNothing(s);
    } else {
      var mid := FirstPiece(s, pieces, answers, s');
      PiecesAreTaken(mid, pieces[1..], answers[1..], s');
      AllOkSnoc(answers);
      TookBoth(s, pieces[0], mid, Joined(pieces[1..]), s');
    }
  }

  /**
   * A session begun for an image, and the image sent in any cutting into whole program units: unless the storage fails,
   * every piece is answered OK, and the session closes with exactly that image.
   */
  lemma UploadSucceeds(s0: State, s: State, s': State, pieces: seq<seq<bv8>>, answers: seq<WriterStatus>)
    requires Inv(s0) && BeginStep(s0, s, |Joined(pieces)|, WriterOk) && CheckBegin(s0.c, |Joined(pieces)|).0 == WriterOk
    requires InUnits(pieces, s0.c.progSize) && Sent(s, 0, pieces, answers, s') && !s'.h.failed
    ensures Inv(s') && AllOk(answers) && CheckFinalize(s'.c) == WriterOk && |s'.mem| == |s.mem|
    ensures Finalized(s').c.finalized && Finalized(s').h.accepted == Joined(pieces)
    ensures s'.c.expectedSize == |Joined(pieces)| && !s'.c.slotPrepared && s'.h.payload == Joined(pieces)
  {
    BeginKeeps(s0, s, |Joined(pieces)|, WriterOk);
    PiecesAreTaken(s, pieces, answers, s');
    assert [] + Joined(pieces) == Joined(pieces);
  }

  // ---------------------------------------------------------------- the background verification

  ghost predicate IsPoll(m: Machine, m': Machine) {
    exists data :: Step(m, Poll(data), m')
  }

  ghost predicate Polls(m: Machine, k: nat, m': Machine) {
    LeadsIn(IsPoll, k, m, m')
  }

  /** A verification asked for and `done` bytes into the image. */
  ghost predicate UnderWay(m: Machine, done: nat) {
    && Inv(m.w) && |m.w.mem| == FLASH_LIMIT - FLASH_BASE
    && m.w.c.finalized && !m.w.c.active && !m.w.c.slotPrepared && !m.w.h.failed && done < m.w.c.expectedSize
    && if done == 0 then m.v.state == Pending && !m.w.c.verifyActive
       else m.v == Runtime(Verifying, done, m.w.c.expectedSize) && m.w.c.verifyActive && m.w.c.verifyOffset == done
  }

  lemma OnePoll(m: Machine, done: nat, data: seq<bv8>, m': Machine)
    requires UnderWay(m, done) && Step(m, Poll(data), m')
    ensures SameSession(m.w, m'.w) && Inv(m'.w)
    ensures if done + 256 < m.w.c.expectedSize then UnderWay(m', done + 256)
            else m'.v == Runtime(Verified, m.w.c.expectedSize, m.w.c.expectedSize) && !m'.w.h.failed
  {
    StepKeeps(m, Poll(data), m');
    StepKeepsSession(m.w, VERIFY_STEP_BYTES, data);
    assert Delivers(m.w, VERIFY_STEP_BYTES, data);
    FaithfulStorageVerifies(m.w, VERIFY_STEP_BYTES, data);
    PollReads(m.w, done, data);
  }

  /** The step a poll takes finds the storage refusing the read. */
  predicate ReadRefused(s: State) {
    var c := PassStarted(s.c);
    c.verifyOffset < c.expectedSize && ReadCheck(c, StepLength(c, VERIFY_STEP_BYTES)) != FlashOk
  }

  /**
   * When a verification that is asked for or running fails: exactly if the image is no longer closed, the storage refuses
   * the read, or the image has been read to its end and does not hash like the payload. It is VERIFIED exactly at the end
   * of a pass that does, and until then it goes on.
   */
  lemma PollFailsExactly(m: Machine, data: seq<bv8>, m': Machine)
    requires Inv(m.w) && m.v.state in {Pending, Verifying} && Step(m, Poll(data), m')
    ensures var ended := m'.w.c.verifyOffset == m'.w.c.expectedSize;
            && (m'.v.state == Failed <==> !m.w.c.finalized || ReadRefused(m.w) || (ended && !ReadThrough(m'.w)))
            && (m'.v.state == Verified <==> m.w.c.finalized && !ReadRefused(m.w) && ended && ReadThrough(m'.w))
            && m'.v.state in {Verifying, Verified, Failed}
  {
    if m.w.c.finalized {
      assert Delivers(m.w, VERIFY_STEP_BYTES, data);
      DoneMeansReadThrough(m.w, VERIFY_STEP_BYTES, data);
    }
  }

  /** After an abort nothing of the session is left: no chunk is taken, nothing is closed or verified, and the next session
      erases, also if the slot had been prepared. */
  lemma AbortedIsOver(s: State, offset: nat, len: nat, maxStep: nat, data: seq<bv8>, imageSize: nat, s': State)
    requires s.c.initialized && 0 < len < TWO_32 && 0 < maxStep
    ensures var a := Aborted(s);
            && CheckChunk(a.c, offset, len) == WriterState && CheckFinalize(a.c) == WriterState
            && VerifyStepped(a, maxStep, data).status == WriterState
            && Requested(Machine(a, IDLE_RUNTIME)).state == Failed
            && a.mem == s.mem && a.trace == s.trace && a.c.slotAddr == s.c.slotAddr && a.c.slotSize == s.c.slotSize
    ensures var a := Aborted(s);
            BeginStep(a, s', imageSize, WriterOk) && CheckBegin(a.c, imageSize).0 == WriterOk ==>
              Wiped(a.mem, a.trace, s'.mem, s'.trace, a.c.slotAddr, CheckBegin(a.c, imageSize).1)
  {
  }

  /** A step of the pass moves on by 256 bytes, or to the end. */
  lemma PollReads(s: State, done: nat, data: seq<bv8>)
    requires Inv(s) && s.c.finalized && !s.c.active && Delivers(s, VERIFY_STEP_BYTES, data)
    requires |s.mem| == FLASH_LIMIT - FLASH_BASE && !s.h.failed && !s.c.slotPrepared && done < s.c.expectedSize
    requires if s.c.verifyActive then s.c.verifyOffset == done else done == 0
    ensures var r, n := VerifyStepped(s, VERIFY_STEP_BYTES, data), Min(done + 256, s.c.expectedSize);
            && r.s.c.verifyOffset == n && (r.done <==> n == s.c.expectedSize)
            && (r.status == WriterOk && !r.done ==> r.s.c.verifyActive)
  {
    StartKeeps(s);
    FaithfulRead(Started(s), StepLength(Started(s).c, VERIFY_STEP_BYTES));
  }

  /** A verdict that is out stays as it is when polled. */
  lemma PollAfterwards(m: Machine, data: seq<bv8>, m': Machine)
    requires m.v.state == Verified && Step(m, Poll(data), m')
    ensures m' == m
  {
  }

  /** From a verification asked for to where it is `done` bytes later, or at its end. */
  ghost predicate Progress(m: Machine, done: nat, m': Machine) {
    && SameSession(m.w, m'.w) && Inv(m'.w) && !m'.w.h.failed
    && if done < m.w.c.expectedSize then UnderWay(m', done)
       else m'.v == Runtime(Verified, m.w.c.expectedSize, m.w.c.expectedSize)
  }

  lemma NextProgress(m: Machine, done: nat, mid: Machine, m': Machine)
    requires Progress(m, done, mid) && IsPoll(mid, m')
    ensures Progress(m, done + 256, m')
  {
    var data :| Step(mid, Poll(data), m');
    if done < m.w.c.expectedSize {
      OnePoll(mid, done, data, m');
    } else {
      PollAfterwards(mid, data, m');
    }
  }

  lemma PollsProgress(m: Machine, k: nat, m': Machine)
    requires Progress(m, 0, m) && Polls(m, k, m')
    ensures Progress(m, 256 * k, m')
  {
    var inv := (j: nat, x: Machine) => Progress(m, 256 * j, x);
    forall j: nat, x: Machine, y: Machine | inv(j, x) && IsPoll(x, y)
      ensures inv(j + 1, y)
    {
      NextProgress(m, 256 * j, x, y);
      assert 256 * (j + 1) == 256 * j + 256;
    }
    InvariantIn(IsPoll, inv, k, m, m');
  }

  /**
   * A verification asked for on faithful storage, polled `k` times: it has got 256 bytes further with each poll, and
   * says so, until the image is read through; from then on it is VERIFIED.
   */
  lemma PollsVerify(m: Machine, k: nat, m': Machine)
    requires Inv(m.w) && |m.w.mem| == FLASH_LIMIT - FLASH_BASE && m.v.state == Pending
    requires m.w.c.finalized && !m.w.c.slotPrepared && !m.w.h.failed && !m.w.c.verifyActive
    requires 0 < k && Polls(m, k, m')
    ensures m'.v == if 256 * k < m.w.c.expectedSize then Runtime(Verifying, 256 * k, m.w.c.expectedSize)
                    else Runtime(Verified, m.w.c.expectedSize, m.w.c.expectedSize)
    ensures Inv(m'.w) && SameSession(m.w, m'.w) && !m'.w.h.failed
  {
    assert UnderWay(m, 0) && Progress(m, 0, m);
    PollsProgress(m, k, m');
  }

  /**
   * The whole way, for every image and every cutting of it: begun, sent in order, closed, asked for and polled often
   * enough, it is VERIFIED and in the slot, unless a storage operation fails.
   */
  lemma UpdateSucceeds(s0: State, s: State, s': State, v: Runtime, pieces: seq<seq<bv8>>, answers: seq<WriterStatus>,
                       k: nat, m: Machine)
    requires Inv(s0) && |s0.mem| == FLASH_LIMIT - FLASH_BASE && !s0.c.active && !s0.h.failed
    requires CheckBegin(s0.c, |Joined(pieces)|).0 == WriterOk && BeginStep(s0, s, |Joined(pieces)|, WriterOk)
    requires InUnits(pieces, s0.c.progSize) && Sent(s, 0, pieces, answers, s') && !s'.h.failed
    requires var closed := Machine(Finalized(s'), v); Polls(closed.(v := Requested(closed)), k, m)
    requires |Joined(pieces)| <= 256 * k
    ensures AllOk(answers) && m.v.state == Verified && !m.w.h.failed
    ensures m.w.h.accepted == Joined(pieces) && HoldsImage(m.w)
  {
    UploadSucceeds(s0, s, s', pieces, answers);
    ClosedVerifies(s', v, k, m);
  }

  /** A session closed on faithful storage, asked for and polled to its end. */
  lemma ClosedVerifies(s: State, v: Runtime, k: nat, m: Machine)
    requires Inv(s) && |s.mem| == FLASH_LIMIT - FLASH_BASE && CheckFinalize(s.c) == WriterOk && !s.c.slotPrepared && !s.h.failed
    requires var closed := Machine(Finalized(s), v); Polls(closed.(v := Requested(closed)), k, m)
    requires s.c.expectedSize <= 256 * k
    ensures m.v.state == Verified && !m.w.h.failed && m.w.h.accepted == s.h.payload && HoldsImage(m.w)
  {
    FinalizeKeeps(s);
    var closed := Machine(Finalized(s), v);
    PollsVerify(closed.(v := Requested(closed)), k, m);
    ClosedImage(m.w);
  }
}
