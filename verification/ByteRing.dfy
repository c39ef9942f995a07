/**
 * The lwrb byte ring: one producer pointer, one consumer pointer, one byte always kept free.
 * `Ring` is its meaning (the read pointer and the unread bytes); the class works on the array.
 */
module ByteRing {
  import opened Wire

  datatype Ring = Ring(size: nat, r: nat, data: seq<byte>) {

    ghost predicate Valid() {
      r < size && |data| < size
    }

    function W(): nat
      requires r < size
    {
      if r + |data| < size then r + |data| else r + |data| - size
    }

    function Free(): nat
      requires |data| < size
    {
      size - 1 - |data|
    }

    function LinearRead(): nat
      requires r < size
    {
      Min(|data|, size - r)
    }

    function LinearWrite(): nat
      requires Valid()
    {
      if r + |data| < size then (if r == 0 then size - |data| - 1 else size - r - |data|) else Free()
    }

    /** How much of `src` fits is written; the rest is dropped. */
    function Write(src: seq<byte>): (Ring, nat)
      requires |data| < size
    {
      var n := Min(Free(), |src|);
      (this.(data := data + src[..n]), n)
    }

    function Skip(len: nat): Ring
      requires Valid()
    {
      var n := Min(len, |data|);
      this.(r := if r + n < size then r + n else r + n - size, data := data[n..])
    }

    function Peek(skip: nat, len: nat): seq<byte> {
      if skip >= |data| then [] else data[skip..skip + Min(len, |data| - skip)]
    }

    function Reset(): Ring {
      this.(r := 0, data := [])
    }

    /** A store through the linear read address: overwrites the oldest unread bytes in place. */
    function Overwrite(src: seq<byte>): Ring
      requires |src| <= |data|
    {
      this.(data := src + data[|src|..])
    }
  }

  class LwRb {
    const buff: array<byte>
    var r: nat
    var w: nat
    ghost var v: Ring  // what the pointers and the array stand for

    /** Array index of the i-th unread byte. */
    ghost function At(i: nat): nat
      reads this
    {
      if r + i < buff.Length then r + i else r + i - buff.Length
    }

    ghost predicate Valid()
      reads this, buff
    {
      && v.Valid() && v.size == buff.Length && v.r == r && v.W() == w
      && forall i :: 0 <= i < |v.data| ==> v.data[i] == buff[At(i)]
    }

    constructor (storage: array<byte>)
      requires storage.Length > 0
      ensures Valid() && buff == storage && v == Ring(storage.Length, 0, [])
    {
      buff := storage;
      r, w := 0, 0;
      v := Ring(storage.Length, 0, []);
    }

    function GetFull(): (n: nat)
      reads this, buff
      requires Valid()
      ensures n == |v.data|
    {
      if w >= r then w - r else buff.Length - (r - w)
    }

    function GetFree(): (n: nat)
      reads this, buff
      requires Valid()
      ensures n == v.Free()
    {
      var used := if w >= r then w - r else buff.Length - (r - w);
      buff.Length - used - 1
    }

    function LinearReadLength(): (n: nat)
      reads this, buff
      requires Valid()
      ensures n == v.LinearRead()
    {
      if w > r then w - r else if r > w then buff.Length - r else 0
    }

    function LinearWriteLength(): (n: nat)
      reads this, buff
      requires Valid()
      ensures n == v.LinearWrite()
    {
      if w >= r then (if r == 0 then buff.Length - w - 1 else buff.Length - w) else r - w - 1
    }

    method Write(src: seq<byte>) returns (n: nat)
      requires Valid()
      modifies this`w, this`v, buff
      ensures Valid()
      ensures (v, n) == old(v).Write(src)
    {
      n := Min(GetFree(), |src|);
      var tail := Min(buff.Length - w, n);
      forall i | 0 <= i < tail { buff[w + i] := src[i]; }
      if tail < n {
        forall i | 0 <= i < n - tail { buff[i] := src[tail + i]; }
        w := n - tail;
      } else {
        w := if w + tail >= buff.Length then 0 else w + tail;
      }
      v := v.Write(src).0;
      forall i | 0 <= i < |v.data|
        ensures v.data[i] == buff[At(i)]
      {
        if i < |old(v.data)| {
          assert old(v.data[i]) == old(buff[At(i)]) == buff[At(i)];
        }
      }
    }

    method Skip(len: nat)
      requires Valid()
      modifies this`r, this`v
      ensures Valid()
      ensures v == old(v).Skip(len)
    {
      var n := Min(len, GetFull());
      r := r + n;
      if r >= buff.Length {
        r := r - buff.Length;
      }
      v := v.Skip(len);
    }

    method Peek(skip: nat, len: nat) returns (data: seq<byte>)
      requires Valid()
      ensures data == v.Peek(skip, len)
    {
      var full := GetFull();
      if skip >= full {
        return [];
      }
      var from := if r + skip >= buff.Length then r + skip - buff.Length else r + skip;
      var n := Min(full - skip, len);
      var tail := Min(buff.Length - from, n);
      data := buff[from..from + tail] + buff[..n - tail];
      assert forall i :: 0 <= i < n ==> data[i] == v.data[skip + i];
    }

    method Reset()
      requires Valid()
      modifies this`r, this`w, this`v
      ensures Valid()
      ensures v == old(v).Reset()
    {
      w, r := 0, 0;
      v := v.Reset();
    }

    /** memcpy to the linear read address. */
    method CopyToReadAddress(src: seq<byte>)
      requires Valid()
      requires |src| <= LinearReadLength()
      modifies buff, this`v
      ensures Valid()
      ensures v == old(v).Overwrite(src)
    {
      forall i | 0 <= i < |src| { buff[r + i] := src[i]; }
      v := v.Overwrite(src);
    }

    /** The bytes in the linear region at the read address are the oldest unread ones: a block handed
        out by address is exactly what the ring holds. */
    lemma LinearRegion(len: nat)
      requires Valid() && len <= LinearReadLength()
      ensures r + len <= buff.Length
      ensures buff[r..r + len] == v.data[..len]
    {
    }
  }
}
