/** SequenceChecker.c: counts the numbers skipped in a wrapping sequence. */
module SequenceChecker {
  import opened Wire

  const UINT32_MAX := TWO_32 - 1

  datatype ScStatus = ScOk | ScInitMissing | ScInvParam | ScSequenceError

  /** How far the sequence moved from `prev` to `id`, counting up and wrapping past `wrap`; zero for a repeat. */
  function Distance(prev: nat, id: nat, wrap: nat): (d: nat)
    requires prev <= wrap && id <= wrap
    ensures d <= wrap && Remainder(prev + d, wrap + 1) == id
  {
    if id >= prev then id - prev
    else assert Remainder(id, wrap + 1) == id; (wrap - prev) + id + 1
  }

  function Gap(prev: nat, id: nat, wrap: nat): nat
    requires prev <= wrap && id <= wrap
  {
    var d := Distance(prev, id, wrap);
    if d == 0 then 0 else d - 1
  }

  class Checker {
    var initialized: bool
    var previousId: nat
    var gapCount: nat
    var missingCount: nat
    var wrapIndex: nat

    ghost predicate Valid()
      reads this
    {
      previousId <= UINT32_MAX && gapCount <= UINT32_MAX && missingCount <= UINT32_MAX && wrapIndex <= UINT32_MAX
      && (initialized ==> 0 < wrapIndex && previousId <= wrapIndex)
    }

    constructor ()
      ensures Valid() && !initialized
    {
      initialized, previousId, gapCount, missingCount, wrapIndex := false, 0, 0, 0, 0;
    }

    method Init(index: nat, wrap: nat) returns (status: ScStatus)
      requires Valid() && index <= UINT32_MAX && wrap <= UINT32_MAX
      modifies this
      ensures Valid()
      ensures status == if wrap == 0 || index > wrap then ScInvParam else ScOk
      ensures status == ScOk ==> initialized && previousId == index && wrapIndex == wrap && gapCount == 0 && missingCount == 0
      ensures status != ScOk ==> unchanged(this)
    {
      if wrap == 0 || index > wrap {
        return ScInvParam;
      }
      previousId, gapCount, missingCount, wrapIndex, initialized := index, 0, 0, wrap, true;
      return ScOk;
    }

    /** A repeated number is an error that leaves the count alone; any other adds the numbers skipped,
        stopping at the 32-bit maximum. */
    method CheckSequence(newIndex: nat) returns (status: ScStatus)
      requires Valid() && newIndex <= UINT32_MAX
      modifies this`previousId, this`gapCount, this`missingCount
      ensures Valid()
      ensures status == if !initialized then ScInitMissing else if newIndex > wrapIndex then ScInvParam
                        else if newIndex == old(previousId) then ScSequenceError else ScOk
      ensures status == ScInitMissing || status == ScInvParam ==> unchanged(this)
      ensures status == ScOk || status == ScSequenceError ==>
                && previousId == newIndex
                && gapCount == Gap(old(previousId), newIndex, wrapIndex)
                && missingCount == Min(old(missingCount) + gapCount, UINT32_MAX)
    {
      if !initialized {
        return ScInitMissing;
      }
      if newIndex > wrapIndex {
        return ScInvParam;
      }
      if newIndex == previousId {
        gapCount := 0;
        return ScSequenceError;
      }
      var delta: nat;
      if newIndex > previousId {
        delta := newIndex - previousId;
      } else {
        delta := (wrapIndex - previousId) + newIndex + 1;
      }
      if delta == 1 {
        gapCount := 0;
      } else if 1 < delta {
        gapCount := delta - 1;
      }
      if UINT32_MAX - missingCount >= gapCount {
        missingCount := missingCount + gapCount;
      } else {
        missingCount := UINT32_MAX;
      }
      previousId := newIndex;
      return ScOk;
    }

    method GetMissingCount() returns (status: ScStatus, cnt: nat)
      requires Valid()
      ensures status == if initialized then ScOk else ScInitMissing
      ensures status == ScOk ==> cnt == missingCount
    {
      if !initialized {
        return ScInitMissing, 0;
      }
      return ScOk, missingCount;
    }

    method Reset(index: nat) returns (status: ScStatus)
      requires Valid() && index <= UINT32_MAX
      modifies this`previousId, this`gapCount, this`missingCount
      ensures Valid()
      ensures status == if !initialized then ScSequenceError else if index > wrapIndex then ScInvParam else ScOk
      ensures status == ScOk ==> previousId == index && gapCount == 0 && missingCount == 0
      ensures status != ScOk ==> unchanged(this)
    {
      if !initialized {
        return ScSequenceError;
      }
      if wrapIndex == 0 || index > wrapIndex {
        return ScInvParam;
      }
      previousId, gapCount, missingCount := index, 0, 0;
      return ScOk;
    }
  }
}
