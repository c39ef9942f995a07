/** FwUpdateHandoff.c and the bootloader's side of it: a one-shot request in flash that survives power cuts. */
module Handoff {
  import opened Runs
  import opened Flash
  import opened Wire

  const MAGIC: bv32 := 0x46574844
  const VERSION: bv32 := 1
  const REQUEST_APPLY: bv32 := 0x4150504C
  const CRC_SALT: bv32 := 0xA5A5A5A5

  /** FwUpdateHandoffRecordType: one flash word of eight 32-bit fields. */
  datatype Record = Record(magic: bv32, version: bv32, request: bv32, requestInv: bv32, crc: bv32,
                           reserved0: bv32, reserved1: bv32, reserved2: bv32)

  const ONES: bv32 := 0xFFFFFFFF
  const ERASED := Record(ONES, ONES, ONES, ONES, ONES, ONES, ONES, ONES)

  function Crc(r: Record): bv32 {
    r.magic ^ r.version ^ r.request ^ r.requestInv ^ CRC_SALT
  }

  /** What RequestApply programs. */
  function Apply(): Record {
    var r := Record(MAGIC, VERSION, REQUEST_APPLY, !REQUEST_APPLY, 0, 0, 0, 0);
    r.(crc := Crc(r))
  }

  predicate RecordIsValid(r: Record) {
    && r.magic == MAGIC && r.version == VERSION && r.request == REQUEST_APPLY && r.requestInv == !REQUEST_APPLY
    && r.crc == Crc(r)
  }

  // ---------------------------------------------------------------- cells

  predicate BitsIn(a: bv32, b: bv32) {
    a & b == a
  }

  /** The eight words of a record, as they lie in the flash word. */
  function Word(r: Record, i: nat): bv32
    requires i < 8
  {
    match i
    case 0 => r.magic
    case 1 => r.version
    case 2 => r.request
    case 3 => r.requestInv
    case 4 => r.crc
    case 5 => r.reserved0
    case 6 => r.reserved1
    case _ => r.reserved2
  }

  /** Every bit set in `a` is set in `b`. */
  predicate In(a: Record, b: Record) {
    forall i: nat :: i < 8 ==> BitsIn(Word(a, i), Word(b, i))
  }

  /** An erase can only set bits; one that fails or is cut off may leave any of them set. */
  predicate CanEraseTo(old': Record, new': Record, ok: bool) {
    if ok then new' == ERASED else In(old', new')
  }

  /** Programming can only clear bits, those that the record has clear; if it fails or is cut off, some of them. */
  predicate CanProgramWord(o: bv32, n: bv32, t: bv32, ok: bool) {
    BitsIn(n, o) && BitsIn(o & t, n) && (ok ==> n == o & t)
  }

  predicate CanProgramTo(old': Record, new': Record, ok: bool) {
    forall i: nat :: i < 8 ==> CanProgramWord(Word(old', i), Word(new', i), Word(Apply(), i), ok)
  }

  lemma BitChain(t: bv32, o: bv32, n: bv32)
    requires BitsIn(t, o) && BitsIn(o, n)
    ensures BitsIn(t, n) && (n == t ==> o == t)
  {
  }

  lemma BitMeet(t: bv32, o: bv32, n: bv32, ok: bool)
    requires BitsIn(t, o) && CanProgramWord(o, n, t, ok)
    ensures BitsIn(t, n) && (ok ==> n == t)
  {
  }

  lemma ValidWords(r: Record)
    ensures RecordIsValid(r) <==> forall i: nat :: i < 5 ==> Word(r, i) == Word(Apply(), i)
  {
    assert RecordIsValid(r) <==> Word(r, 0) == Word(Apply(), 0) && Word(r, 1) == Word(Apply(), 1) && Word(r, 2) == Word(Apply(), 2)
                                 && Word(r, 3) == Word(Apply(), 3) && Word(r, 4) == Word(Apply(), 4);
  }

  /** An erase that does not finish forges no request, and leaves every bit a request needs. */
  lemma RaisingForgesNothing(old': Record, new': Record)
    requires In(Apply(), old') && In(old', new')
    ensures In(Apply(), new')
    ensures RecordIsValid(new') ==> RecordIsValid(old')
  {
    forall i: nat | i < 8
      ensures BitsIn(Word(Apply(), i), Word(new', i))
      ensures Word(new', i) == Word(Apply(), i) ==> Word(old', i) == Word(Apply(), i)
    {
      BitChain(Word(Apply(), i), Word(old', i), Word(new', i));
    }
    ValidWords(new');
    ValidWords(old');
  }

  lemma BelowErased(r: Record)
    ensures In(r, ERASED)
  {
  }

  lemma EraseForgesNothing(old': Record, new': Record, ok: bool)
    requires In(Apply(), old') && CanEraseTo(old', new', ok)
    ensures In(Apply(), new')
    ensures RecordIsValid(new') ==> !ok && RecordIsValid(old')
  {
    if ok {
      BelowErased(Apply());
    } else {
      RaisingForgesNothing(old', new');
    }
  }

  lemma SameWords(a: Record, b: Record)
    requires forall i: nat :: i < 8 ==> Word(a, i) == Word(b, i)
    ensures a == b
  {
    assert Word(a, 0) == Word(b, 0) && Word(a, 1) == Word(b, 1) && Word(a, 2) == Word(b, 2) && Word(a, 3) == Word(b, 3);
    assert Word(a, 4) == Word(b, 4) && Word(a, 5) == Word(b, 5) && Word(a, 6) == Word(b, 6) && Word(a, 7) == Word(b, 7);
  }

  lemma ProgramKeepsBits(old': Record, new': Record, ok: bool)
    requires In(Apply(), old') && CanProgramTo(old', new', ok)
    ensures In(Apply(), new')
    ensures ok ==> new' == Apply()
  {
    forall i: nat | i < 8
      ensures BitsIn(Word(Apply(), i), Word(new', i))
      ensures ok ==> Word(new', i) == Word(Apply(), i)
    {
      BitMeet(Word(Apply(), i), Word(old', i), Word(new', i), ok);
    }
    if ok {
      SameWords(new', Apply());
    }
  }

  // ---------------------------------------------------------------- application and bootloader

  /** Where the processor is: the application, inside RequestApply or withdrawing a request, or the bootloader. */
  datatype Place = Running | Erasing | Programming | Checking | Withdrawing | Starting | Clearing | Activating

  /** `acted` counts the bootloader's boot_set_pending_multi calls and `failed` its erases that reported failure, both
      since the last program operation on the marker, finished or not; `recorded` says that a program operation has
      come after the last completed erase. */
  datatype State = State(marker: Record, place: Place, acted: nat, failed: nat, recorded: bool)

  const FACTORY := State(ERASED, Starting, 0, 0, false)

  datatype Action =
    | Request
    | Withdraw
    | Erase(ok: bool, left: Record)
    | Program(ok: bool, left: Record)
    | ReadBack
    | PowerCut(left: Record)
    | Boot
    | Activate(imagePresent: bool)

  /** What a power cut leaves of the marker. */
  predicate CutLeaves(s: State, left: Record) {
    match s.place
    case Erasing | Withdrawing | Clearing => CanEraseTo(s.marker, left, false)
    case Programming => CanProgramTo(s.marker, left, false)
    case Running | Checking | Starting | Activating => left == s.marker
  }

  predicate Enabled(s: State, a: Action) {
    match a
    case Request | Withdraw => s.place == Running
    case Erase(ok, left) => s.place in {Erasing, Withdrawing, Clearing} && CanEraseTo(s.marker, left, ok)
    case Program(ok, left) => s.place == Programming && CanProgramTo(s.marker, left, ok)
    case ReadBack => s.place == Checking
    case PowerCut(left) => CutLeaves(s, left)
    case Boot => s.place == Starting
    case Activate(_) => s.place == Activating
  }

  function Do(s: State, a: Action): State {
    match a
    case Request => s.(place := if RecordIsValid(s.marker) then Running else Erasing)
    case Withdraw => s.(place := Withdrawing)
    case Erase(ok, left) =>
      s.(marker := left, recorded := s.recorded && !ok,
         place := if s.place == Clearing then Activating else if ok && s.place == Erasing then Programming else Running,
         failed := s.failed + if s.place == Clearing && !ok then 1 else 0)
    case Program(ok, left) =>
      s.(marker := left, acted := 0, failed := 0, recorded := true, place := if ok then Checking else Running)
    case ReadBack => s.(place := Running)
    case PowerCut(left) =>
      s.(marker := left, place := Starting,
         acted := if s.place == Programming then 0 else s.acted,
         failed := if s.place == Programming then 0 else s.failed,
         recorded := s.recorded || s.place == Programming)
    case Boot => s.(place := if RecordIsValid(s.marker) then Clearing else Running)
    case Activate(imagePresent) => s.(place := Running, acted := s.acted + if imagePresent then 1 else 0)
  }

  /** RequestApply answers OK in this action. */
  predicate AnswersOk(s: State, a: Action) {
    || (a.Request? && RecordIsValid(s.marker))
    || (a.ReadBack? && s.marker == Apply())
  }

  ghost predicate Next(s: State, s': State) {
    exists a :: Enabled(s, a) && s' == Do(s, a)
  }

  ghost predicate Inv(s: State) {
    && In(Apply(), s.marker)
    && (RecordIsValid(s.marker) ==> s.recorded)
    && (s.place in {Erasing, Programming} ==> !RecordIsValid(s.marker))
    && (s.place == Programming ==> s.marker == ERASED)
    && (s.place == Checking ==> s.marker == Apply())
    && (s.place == Clearing ==> RecordIsValid(s.marker))
  }

  /** What Inv says besides the bits, from what is known of the two markers. */
  lemma PlacesFit(s: State, a: Action)
    requires Inv(s) && Enabled(s, a) && In(Apply(), Do(s, a).marker)
    requires a.Erase? || (a.PowerCut? && s.place in {Erasing, Withdrawing, Clearing}) ==>
               (RecordIsValid(Do(s, a).marker) ==> RecordIsValid(s.marker) && !(a.Erase? && a.ok))
    requires a.Program? && a.ok ==> Do(s, a).marker == Apply()
    ensures Inv(Do(s, a))
  {
  }

  predicate TouchesMarker(s: State, a: Action) {
    a.Erase? || a.Program? || (a.PowerCut? && s.place in {Erasing, Withdrawing, Clearing, Programming})
  }

  lemma QuietStepKeeps(s: State, a: Action)
    requires Inv(s) && Enabled(s, a) && !TouchesMarker(s, a)
    ensures Inv(Do(s, a))
  {
    assert Do(s, a).marker == s.marker;
  }

  lemma EraseStepKeeps(s: State, a: Action)
    requires Inv(s) && Enabled(s, a) && TouchesMarker(s, a) && s.place != Programming
    ensures Inv(Do(s, a))
  {
    assert Do(s, a).marker == a.left;
    EraseForgesNothing(s.marker, a.left, a.Erase? && a.ok);
    PlacesFit(s, a);
  }

  lemma ProgramStepKeeps(s: State, a: Action)
    requires Inv(s) && Enabled(s, a) && TouchesMarker(s, a) && s.place == Programming
    ensures Inv(Do(s, a))
  {
    assert Do(s, a).marker == a.left;
    ProgramKeepsBits(s.marker, a.left, a.Program? && a.ok);
    PlacesFit(s, a);
  }

  lemma StepKeeps(s: State, a: Action)
    requires Inv(s) && Enabled(s, a)
    ensures Inv(Do(s, a))
  {
    if !TouchesMarker(s, a) {
      QuietStepKeeps(s, a);
    } else if s.place == Programming {
      ProgramStepKeeps(s, a);
    } else {
      EraseStepKeeps(s, a);
    }
  }

  lemma ReachableInv(s: State)
    requires Leads(Next, FACTORY, s)
    ensures Inv(s)
  {
    assert Inv(FACTORY);
    forall x, y | Inv(x) && Next(x, y)
      ensures Inv(y)
    {
      var a :| Enabled(x, a) && y == Do(x, a);
      StepKeeps(x, a);
    }
    Invariant(Next, Inv, FACTORY, s);
  }

  /** A request is seen only if the record was programmed after the last completed erase of the marker. */
  lemma SeenMeansRecorded(s: State)
    requires Leads(Next, FACTORY, s) && RecordIsValid(s.marker)
    ensures s.recorded
  {
    ReachableInv(s);
  }

  /** The read back never disagrees once programming reported success, and OK means that the request stands. */
  lemma OkMeansRequested(s: State, a: Action)
    requires Leads(Next, FACTORY, s) && Enabled(s, a)
    ensures AnswersOk(s, a) ==> RecordIsValid(Do(s, a).marker)
    ensures a.ReadBack? ==> AnswersOk(s, a)
  {
    ReachableInv(s);
  }

  // ---------------------------------------------------------------- how often a request is acted on

  /** Requests outstanding: one that stands in the marker, and one the bootloader has cleared and not yet acted on. */
  function Outstanding(s: State): nat {
    (if RecordIsValid(s.marker) then 1 else 0) + (if s.place == Activating then 1 else 0)
  }

  /** The record programmed last has been acted on, or may yet be, at most once more than clears of it have failed. */
  predicate AllowedFor(s: State) {
    s.acted + Outstanding(s) <= 1 + s.failed
  }

  lemma AllowanceHolds(s: State, a: Action)
    requires Inv(s) && AllowedFor(s) && Enabled(s, a)
    ensures AllowedFor(Do(s, a))
  {
    if a.Erase? {
      EraseForgesNothing(s.marker, a.left, a.ok);
    } else if a.PowerCut? && s.place in {Erasing, Withdrawing, Clearing} {
      EraseForgesNothing(s.marker, a.left, false);
    }
  }

  ghost predicate AllowedInv(s: State) {
    Inv(s) && AllowedFor(s)
  }

  /**
   * Over any sequence of requests, reboots and power cuts, each record programmed is acted on at most once,
   * and once more for every clear of it that reported failure.
   */
  lemma ActivatedAtMostOncePerRecord(s: State)
    requires Leads(Next, FACTORY, s)
    ensures s.acted + Outstanding(s) <= 1 + s.failed
    ensures s.failed == 0 ==> s.acted <= 1
  {
    assert AllowedInv(FACTORY);
    forall x, y | AllowedInv(x) && Next(x, y)
      ensures AllowedInv(y)
    {
      var a :| Enabled(x, a) && y == Do(x, a);
      StepKeeps(x, a);
      AllowanceHolds(x, a);
    }
    Invariant(Next, AllowedInv, FACTORY, s);
  }

  lemma Then(s0: State, s: State, a: Action)
    requires Leads(Next, s0, s) && Enabled(s, a)
    ensures Leads(Next, s0, Do(s, a))
  {
    assert Next(s, Do(s, a));
    Advance(Next, s0, s, Do(s, a));
  }

  lemma SelfIn(r: Record)
    ensures In(r, r)
  {
  }

  /** From the factory state to a request that stands and has not been acted on. */
  lemma FirstRequest() returns (s: State)
    ensures Leads(Next, FACTORY, s) && s == State(Apply(), Running, 0, 0, true)
  {
    Stays(Next, FACTORY);
    Then(FACTORY, FACTORY, Boot);
    var s1 := State(ERASED, Running, 0, 0, false);
    Then(FACTORY, s1, Request);
    var s2 := s1.(place := Erasing);
    Then(FACTORY, s2, Erase(true, ERASED));
    var s3 := s1.(place := Programming);
    Then(FACTORY, s3, Program(true, Apply()));
    var s4 := State(Apply(), Checking, 0, 0, true);
    Then(FACTORY, s4, ReadBack);
    s := s4.(place := Running);
  }

  /**
   * The bound is reached: for every n there is a run in which a single program operation is followed by n failed
   * clears and n activations, with the request still standing for one more.
   */
  lemma {:induction false} BoundIsReached(n: nat) returns (s: State)
    ensures Leads(Next, FACTORY, s) && s == State(Apply(), Running, n, n, true) && Outstanding(s) == 1
  {
    if n == 0 {
      s := FirstRequest();
    } else {
      var t := BoundIsReached(n - 1);
      Then(FACTORY, t, PowerCut(t.marker));
      var t1 := t.(place := Starting);
      Then(FACTORY, t1, Boot);
      var t2 := t.(place := Clearing);
      SelfIn(Apply());
      Then(FACTORY, t2, Erase(false, Apply()));
      var t3 := t.(place := Activating, failed := n);
      Then(FACTORY, t3, Activate(true));
      s := t.(acted := n, failed := n);
    }
  }

  /** Such a run, shortest: one program operation, one failed clear, two activations. */
  lemma ActedTwice() returns (s: State)
    ensures Leads(Next, FACTORY, s) && s == State(ERASED, Running, 2, 1, false)
  {
    var t := BoundIsReached(1);
    Then(FACTORY, t, PowerCut(t.marker));
    var t1 := t.(place := Starting);
    Then(FACTORY, t1, Boot);
    var t2 := t.(place := Clearing);
    Then(FACTORY, t2, Erase(true, ERASED));
    var t3 := Do(t2, Erase(true, ERASED));
    Then(FACTORY, t3, Activate(true));
    s := Do(t3, Activate(true));
  }

  /** One boot, from reset to the running application, with an image in the secondary slot. */
  function Booted(s: State, ok: bool, left: Record): State {
    Do(Do(Do(s, Boot), Erase(ok, left)), Activate(true))
  }

  /**
   * The bootloader ignores the result of its clear: the same record is acted on again at the next boot exactly
   * when the erase failed and set none of the bits that are checked.
   */
  lemma ActedOnAgain(s: State, ok: bool, left: Record)
    requires Inv(s) && s.place == Starting && RecordIsValid(s.marker) && CanEraseTo(s.marker, left, ok)
    ensures Booted(s, ok, left).acted == s.acted + 1
    ensures RecordIsValid(Booted(s, ok, left).marker) <==>
              !ok && left.magic == s.marker.magic && left.version == s.marker.version && left.request == s.marker.request
              && left.requestInv == s.marker.requestInv && left.crc == s.marker.crc
  {
    EraseForgesNothing(s.marker, left, ok);
  }

  // ---------------------------------------------------------------- the code, uninterrupted

  datatype HandoffStatus = HandoffOk | HandoffParam | HandoffFlash | HandoffState

  /** What FwUpdateHandoff_GetMarkerAddress_Hook answers; the weak default answers nothing. */
  datatype Hook = NoMarker | MarkerAt(address: nat)

  function MarkerLocation(hook: Hook): HandoffStatus {
    match hook
    case NoMarker => HandoffState
    case MarkerAt(address) =>
      if address < FLASH_BASE || address > TWO_32 - 1 - SECTOR_SIZE || address + SECTOR_SIZE > FLASH_LIMIT
         || address % SECTOR_SIZE != 0
      then HandoffState
      else HandoffOk
  }

  /** A marker is accepted exactly when the flash driver would erase its sector; then it also reads and programs it. */
  lemma LocatedMeansUsable(address: nat)
    requires address < TWO_32
    ensures MarkerLocation(MarkerAt(address)) == HandoffOk <==> AddressCheck(address, SECTOR_SIZE, EraseAccess) == FlashOk
    ensures MarkerLocation(MarkerAt(address)) == HandoffOk ==>
              AddressCheck(address, WORD_SIZE, ReadAccess) == FlashOk && AddressCheck(address, WORD_SIZE, WriteAccess) == FlashOk
  {
  }

  /** The actions one undisturbed RequestApply takes, and its answer: it stops at the first flash operation that fails. */
  predicate ApplyOps(ops: seq<Action>, standing: bool, status: HandoffStatus) {
    if standing then ops == [Request] && status == HandoffOk
    else
      && 2 <= |ops| <= 4 && ops[0] == Request && ops[1].Erase?
      && (|ops| == 2 <==> !ops[1].ok)
      && (|ops| >= 3 ==> ops[2].Program? && (|ops| == 3 <==> !ops[2].ok))
      && (|ops| == 4 ==> ops[3] == ReadBack)
      && status == if |ops| == 4 then HandoffOk else HandoffFlash
  }

  class Updater {
    const hook: Hook
    var marker: Record
    ghost var s: State   // where the machine above stands

    ghost predicate Valid()
      reads this
    {
      Inv(s) && s.marker == marker
    }

    constructor (hook: Hook)
      ensures Valid() && this.hook == hook && s == FACTORY
    {
      this.hook := hook;
      marker := ERASED;
      s := FACTORY;
    }

    /** Flash_Erase on the marker's sector. */
    method EraseMarker() returns (ok: bool)
      requires Valid() && s.place in {Erasing, Withdrawing, Clearing}
      modifies this
      ensures Valid() && s == Do(old(s), Erase(ok, marker)) && CanEraseTo(old(marker), marker, ok)
    {
      ok := *;
      var left: Record := *;
      if ok {
        left := ERASED;
      } else if !In(marker, left) {
        left := ERASED;
      }
      ghost var a := Erase(ok, left);
      assert !ok && left == ERASED ==> In(marker, left) by { BelowErased(marker); }
      StepKeeps(s, a);
      s := Do(s, a);
      marker := left;
    }

    /** Flash_Write of the record on the marker. */
    method ProgramMarker() returns (ok: bool)
      requires Valid() && s.place == Programming
      modifies this
      ensures Valid() && s == Do(old(s), Program(ok, marker)) && CanProgramTo(old(marker), marker, ok)
    {
      ok := *;
      var left: Record := *;
      if ok || !CanProgramTo(marker, left, false) {
        left := Apply();
      }
      ghost var a := Program(ok, left);
      assert CanProgramTo(marker, Apply(), true);
      StepKeeps(s, a);
      s := Do(s, a);
      marker := left;
    }

    method RequestApply() returns (status: HandoffStatus, ghost ops: seq<Action>)
      requires Valid() && s.place == Running
      modifies this
      ensures Valid() && s.place == Running && Leads(Next, old(s), s)
      ensures MarkerLocation(hook) != HandoffOk ==> status == MarkerLocation(hook) && s == old(s)
      ensures MarkerLocation(hook) == HandoffOk ==> ApplyOps(ops, RecordIsValid(old(marker)), status)
      ensures RecordIsValid(old(marker)) ==> marker == old(marker)
      ensures status == HandoffOk ==> RecordIsValid(marker)
    {
      Stays(Next, s);
      ops := [];
      if MarkerLocation(hook) != HandoffOk {
        return MarkerLocation(hook), ops;
      }
      ghost var s0 := s;
      StepKeeps(s, Request);
      Then(s0, s, Request);
      s := Do(s, Request);
      ops := [Request];
      if RecordIsValid(marker) {
        return HandoffOk, ops;
      }
      status, ops := WriteRecord(s0);
    }

    /** Erase, program, read back. */
    method WriteRecord(ghost s0: State) returns (status: HandoffStatus, ghost ops: seq<Action>)
      requires Valid() && s.place == Erasing && Leads(Next, s0, s)
      modifies this
      ensures Valid() && s.place == Running && Leads(Next, s0, s) && ApplyOps(ops, false, status)
      ensures status == HandoffOk ==> RecordIsValid(marker)
    {
      ghost var s1 := s;
      var ok := EraseMarker();
      ghost var erase := Erase(ok, marker);
      Then(s0, s1, erase);
      if !ok {
        return HandoffFlash, [Request, erase];
      }
      ghost var program;
      status, program := ProgramRecord(s0);
      ops := [Request, erase, program] + if program.ok then [ReadBack] else [];
    }

    method ProgramRecord(ghost s0: State) returns (status: HandoffStatus, ghost program: Action)
      requires Valid() && s.place == Programming && Leads(Next, s0, s)
      modifies this
      ensures Valid() && s.place == Running && Leads(Next, s0, s) && program.Program?
      ensures status == if program.ok then HandoffOk else HandoffFlash
      ensures status == HandoffOk ==> RecordIsValid(marker)
    {
      ghost var s1 := s;
      var ok := ProgramMarker();
      program := Program(ok, marker);
      Then(s0, s1, program);
      if !ok {
        return HandoffFlash, program;
      }
      StepKeeps(s, ReadBack);
      Then(s0, s, ReadBack);
      s := Do(s, ReadBack);
      return if marker != Apply() then HandoffFlash else HandoffOk, program;
    }

    method IsApplyRequested() returns (requested: bool)
      ensures requested <==> MarkerLocation(hook) == HandoffOk && RecordIsValid(marker)
    {
      if MarkerLocation(hook) != HandoffOk {
        return false;
      }
      return RecordIsValid(marker);
    }

    /** The bootloader's clear, or the running application's. */
    method ClearApplyRequest() returns (status: HandoffStatus)
      requires Valid() && s.place in {Running, Clearing}
      modifies this
      ensures Valid() && Leads(Next, old(s), s)
      ensures MarkerLocation(hook) != HandoffOk ==> status == MarkerLocation(hook) && s == old(s)
      ensures MarkerLocation(hook) == HandoffOk ==>
                && status in {HandoffOk, HandoffFlash} && CanEraseTo(old(marker), marker, status == HandoffOk)
                && s == Do(if old(s.place) == Running then Do(old(s), Withdraw) else old(s), Erase(status == HandoffOk, marker))
      ensures status == HandoffOk ==> !RecordIsValid(marker)
      ensures RecordIsValid(marker) ==> RecordIsValid(old(marker))
    {
      Stays(Next, s);
      if MarkerLocation(hook) != HandoffOk {
        return MarkerLocation(hook);
      }
      ghost var s0 := s;
      if s.place == Running {
        StepKeeps(s, Withdraw);
        Then(s0, s, Withdraw);
        s := Do(s, Withdraw);
      }
      ghost var s1 := s;
      var ok := EraseMarker();
      EraseForgesNothing(s1.marker, marker, ok);
      Then(s0, s1, Erase(ok, marker));
      return if ok then HandoffOk else HandoffFlash;
    }

    /** boot_activate_pending_if_image_present; `magic` is the secondary slot's first word, 0 if it cannot be read. */
    method BootActivate(areaOpens: bool, magic: bv32, imageMagic: bv32) returns (pending: bool)
      requires Valid() && s.place == Starting
      modifies this
      ensures Valid() && Leads(Next, old(s), s)
      ensures if MarkerLocation(hook) == HandoffOk then s.place == Running else s == old(s)
      ensures pending <==> MarkerLocation(hook) == HandoffOk && RecordIsValid(old(marker)) && areaOpens && magic == imageMagic
      ensures s.acted == old(s).acted + if pending then 1 else 0
      ensures !RecordIsValid(old(marker)) ==> marker == old(marker)
    {
      ghost var s0 := s;
      Stays(Next, s);
      var requested := IsApplyRequested();
      if MarkerLocation(hook) == HandoffOk {
        StepKeeps(s, Boot);
        Then(s0, s, Boot);
        s := Do(s, Boot);
      }
      if !requested {
        return false;
      }
      ghost var s1 := s;
      var ignored := ClearApplyRequest();
      Then(s0, s1, Erase(ignored == HandoffOk, marker));
      pending := areaOpens && magic == imageMagic;
      StepKeeps(s, Activate(pending));
      Then(s0, s, Activate(pending));
      s := Do(s, Activate(pending));
    }
  }
}
