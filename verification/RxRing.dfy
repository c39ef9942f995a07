/** buffers.h: the fixed-slot ring between the receive interrupt and the bridge task. */
module RxRing {
  import opened Wire

  datatype PutResult = PutOk | PutFull

  class RingBuffer<T(0)> {
    const slots: array<T>
    var head: nat
    var tail: nat
    var elementCount: nat
    var isFull: bool
    ghost var queue: seq<T>

    /** Slot of the element at logical offset `pos`. */
    ghost function SlotOf(pos: nat): nat
      reads this
    {
      if tail + pos < slots.Length then tail + pos else tail + pos - slots.Length
    }

    ghost predicate Valid()
      reads this, slots
    {
      && 0 < slots.Length && head < slots.Length && tail < slots.Length
      && |queue| == elementCount <= slots.Length
      && head == SlotOf(elementCount)
      && (isFull <==> elementCount == slots.Length)
      && forall i :: 0 <= i < |queue| ==> queue[i] == slots[SlotOf(i)]
    }

    constructor (length: nat)
      requires 0 < length
      ensures Valid() && queue == [] && slots.Length == length && fresh(slots)
    {
      slots := new T[length];
      head, tail, elementCount, isFull, queue := 0, 0, 0, false, [];
    }

    static function WrapIndex(index: nat, length: nat): (r: nat)
      requires index < 2 * length
      ensures r == if index >= length then index - length else index
    {
      assert index >= length ==> Remainder(index - length, length) == index - length;
      Remainder(index, length)
    }

    /** Counted from head and tail alone, with the full flag telling the two empty-looking cases apart. */
    function Count(): (n: nat)
      requires Valid()
      reads this, slots
      ensures n == |queue|
    {
      if head == tail then (if isFull then slots.Length else 0)
      else if head > tail then head - tail
      else slots.Length - (tail - head)
    }

    method PeekAt(pos: nat) returns (found: bool, element: T)
      requires Valid()
      ensures found <==> pos < |queue|
      ensures found ==> element == queue[pos]
    {
      if pos >= Count() {
        return false, slots[0];
      }
      var phys := WrapIndex(tail + pos, slots.Length);
      return true, slots[phys];
    }

    /** Takes the slot at head without filling it: its old content becomes the newest element. */
    method Reserve() returns (reserved: bool, slot: nat)
      requires Valid()
      modifies this`head, this`elementCount, this`isFull, this`queue
      ensures Valid()
      ensures reserved <==> |old(queue)| < slots.Length
      ensures reserved ==> slot < slots.Length && queue == old(queue) + [slots[slot]]
      ensures reserved ==> slot == SlotOf(|old(queue)|)
      ensures !reserved ==> queue == old(queue)
    {
      if isFull {
        return false, 0;
      }
      slot := head;
      queue := queue + [slots[head]];
      head := WrapIndex(head + 1, slots.Length);
      elementCount := elementCount + 1;
      if elementCount == slots.Length {
        isFull := true;
      }
      return true, slot;
    }

    /** The write through the pointer that Reserve returned. */
    method FillReserved(slot: nat, element: T)
      requires Valid() && 0 < |queue| && slot == SlotOf(|queue| - 1) && slot < slots.Length
      modifies slots, this`queue
      ensures Valid() && queue == old(queue)[..|old(queue)| - 1] + [element]
    {
      slots[slot] := element;
      queue := queue[..|queue| - 1] + [element];
    }

    method Put(element: T) returns (res: PutResult)
      requires Valid()
      modifies slots, this`head, this`elementCount, this`isFull, this`queue
      ensures Valid()
      ensures res == if |old(queue)| == slots.Length then PutFull else PutOk
      ensures queue == if res.PutOk? then old(queue) + [element] else old(queue)
    {
      if isFull {
        return PutFull;
      }
      slots[head] := element;
      queue := queue + [element];
      head := head + 1;
      elementCount := elementCount + 1;
      head := WrapIndex(head, slots.Length);
      if elementCount == slots.Length {
        isFull := true;
      }
      return PutOk;
    }

    method Pop() returns (found: bool, element: T)
      requires Valid()
      modifies this`tail, this`elementCount, this`isFull, this`queue
      ensures Valid()
      ensures found <==> old(queue) != []
      ensures found ==> element == old(queue)[0] && queue == old(queue)[1..]
      ensures !found ==> queue == old(queue)
    {
      if elementCount == 0 {
        return false, slots[0];
      }
      element := slots[tail];
      tail := tail + 1;
      elementCount := elementCount - 1;
      tail := WrapIndex(tail, slots.Length);
      isFull := false;
      queue := queue[1..];
      return true, element;
    }
  }
}
