/** Bytes and little-endian words as the firmware and the host tools lay them out. */
module Wire {

  newtype byte = x: int | 0 <= x < 0x100

  const TWO_32 := 0x1_0000_0000

  /** The four bytes of `n` truncated to 32 bits, least significant first. */
  function U32(n: nat): (b: seq<byte>)
    ensures |b| == 4
  {
    [(n % 0x100) as byte, (n / 0x100 % 0x100) as byte, (n / 0x1_0000 % 0x100) as byte, (n / 0x100_0000 % 0x100) as byte]
  }

  function FromU32(b: seq<byte>): nat
    requires |b| == 4
  {
    b[0] as nat + 0x100 * b[1] as nat + 0x1_0000 * b[2] as nat + 0x100_0000 * b[3] as nat
  }

  lemma U32RoundTrip(n: nat)
    ensures FromU32(U32(n)) == n % TWO_32
  {
    assert n / 0x1_0000 == n / 0x100 / 0x100;
    assert n / 0x100_0000 == n / 0x1_0000 / 0x100;
    assert n / TWO_32 == n / 0x100_0000 / 0x100;
  }

  lemma U32Exact(n: nat)
    requires n < TWO_32
    ensures FromU32(U32(n)) == n
  {
    U32RoundTrip(n);
  }

  function Min(a: nat, b: nat): nat {
    if a <= b then a else b
  }

  /**
   * C's unsigned `a % b`, by taking `b` away. Block offsets are written with it rather than with
   * `%` so that proofs about blocks stay linear; RemainderIsMod says it is the same number.
   */
  function Remainder(a: nat, b: nat): (r: nat)
    requires 0 < b
    ensures r < b
  {
    if a < b then a else Remainder(a - b, b)
  }

  lemma {:induction false} RemainderIsMod(a: nat, b: nat)
    requires 0 < b
    ensures Remainder(a, b) == a % b
  {
    if a < b {
      DivUnique(a, b, 0, a);
    } else {
      RemainderIsMod(a - b, b);
      var q, r := (a - b) / b, (a - b) % b;
      assert a == (q + 1) * b + r by {
        assert a - b == q * b + r;
        assert (q + 1) * b == q * b + b;
      }
      DivUnique(a, b, q + 1, r);
    }
  }

  lemma DivUnique(a: nat, b: nat, q: nat, r: nat)
    requires 0 < b && r < b && a == q * b + r
    ensures a / b == q && a % b == r
  {
    var q', r' := a / b, a % b;
    assert a == q' * b + r';
    if q < q' {
      ScaleGap(q, q', b);
    } else if q' < q {
      ScaleGap(q', q, b);
    }
  }

  lemma ScaleGap(q: nat, q': nat, b: nat)
    requires q < q'
    ensures q * b + b <= q' * b
  {
    var d := q' - q - 1;
    assert q' * b == (q + 1 + d) * b == q * b + b + d * b;
  }

  lemma {:induction false} RemainderOfMultiple(n: nat, b: nat)
    requires 0 < b
    ensures Remainder(n * b, b) == 0
  {
    if n > 0 {
      assert n * b == (n - 1) * b + b;
      RemainderOfMultiple(n - 1, b);
    }
  }

  lemma {:induction false} RemainderAdd(a: nat, c: nat, b: nat)
    requires 0 < b && Remainder(a, b) == 0
    ensures Remainder(a + c, b) == Remainder(c, b)
  {
    if a >= b {
      RemainderAdd(a - b, c, b);
    }
  }

  /** An 8-bit counter steps on and wraps. */
  function Increment(cnt: byte): byte {
    if cnt == 0xFF then 0 else cnt + 1
  }

  lemma {:induction false} RemainderSmallAdd(a: nat, d: nat, b: nat)
    requires d < b
    ensures var r := Remainder(a, b) + d; Remainder(a + d, b) == if r < b then r else r - b
  {
    if a >= b {
      RemainderSmallAdd(a - b, d, b);
    }
  }

  /** Two numbers leave the same remainder exactly when their difference leaves none. */
  lemma {:induction false} SameRemainder(a: nat, d: nat, b: nat)
    requires 0 < b
    ensures Remainder(a + d, b) == Remainder(a, b) <==> Remainder(d, b) == 0
  {
    if d >= b {
      SameRemainder(a, d - b, b);
    } else {
      RemainderSmallAdd(a, d, b);
    }
  }
}
