/** What a string of unread ring bytes means when it starts at a block boundary. */
module BlockRing {
  import opened Wire
  import opened BlockFormat

  function Body(b: seq<byte>): seq<Entry> {
    if |b| < HEADER_SIZE then [] else Entries(b[HEADER_SIZE..])
  }

  /** Empty, or a reserved header followed by entries and then padding only. */
  predicate TidyBlock(b: seq<byte>) {
    b == [] || (HEADER_SIZE <= |b| && Tidy(b[HEADER_SIZE..]))
  }

  /** The block being filled: what follows the last whole block. */
  function OpenBlock(bs: nat, d: seq<byte>): (o: seq<byte>)
    requires 0 < bs
    ensures |o| < bs
    decreases |d|
  {
    if |d| < bs then d else OpenBlock(bs, d[bs..])
  }

  /** The entries of the whole blocks. */
  function DecodeClosed(bs: nat, d: seq<byte>): seq<Entry>
    requires 0 < bs
    decreases |d|
  {
    if |d| < bs then [] else Body(d[..bs]) + DecodeClosed(bs, d[bs..])
  }

  /** Every entry in the ring, oldest first. */
  function Decode(bs: nat, d: seq<byte>): seq<Entry>
    requires 0 < bs
    decreases |d|
  {
    if |d| < bs then Body(d) else Body(d[..bs]) + Decode(bs, d[bs..])
  }

  predicate TidyRing(bs: nat, d: seq<byte>)
    requires 0 < bs
    decreases |d|
  {
    if |d| < bs then TidyBlock(d) else TidyBlock(d[..bs]) && TidyRing(bs, d[bs..])
  }

  /** Every whole block holds an entry. */
  predicate NoEmptyBlock(bs: nat, d: seq<byte>)
    requires 0 < bs
    decreases |d|
  {
    |d| < bs || (Body(d[..bs]) != [] && NoEmptyBlock(bs, d[bs..]))
  }

  lemma {:induction false} OpenBlockLength(bs: nat, d: seq<byte>)
    requires 0 < bs
    ensures |OpenBlock(bs, d)| == Remainder(|d|, bs)
    decreases |d|
  {
    if |d| >= bs {
      OpenBlockLength(bs, d[bs..]);
    }
  }

  lemma {:induction false} DecodeSplit(bs: nat, d: seq<byte>)
    requires 0 < bs
    ensures Decode(bs, d) == DecodeClosed(bs, d) + Body(OpenBlock(bs, d))
    ensures TidyRing(bs, d) ==> TidyBlock(OpenBlock(bs, d))
    decreases |d|
  {
    if |d| >= bs {
      DecodeSplit(bs, d[bs..]);
    }
  }

  lemma {:induction false} AppendDecodes(bs: nat, d: seq<byte>, x: seq<byte>)
    requires 0 < bs && |OpenBlock(bs, d)| + |x| <= bs
    ensures var o := OpenBlock(bs, d) + x;
            OpenBlock(bs, d + x) == (if |o| == bs then [] else o) && Decode(bs, d + x) == DecodeClosed(bs, d) + Body(o)
    decreases |d|
  {
    var y := d + x;
    if |d| >= bs {
      AppendDecodes(bs, d[bs..], x);
      assert y[..bs] == d[..bs] && y[bs..] == d[bs..] + x;
      Regroup(Body(d[..bs]), DecodeClosed(bs, d[bs..]), Body(OpenBlock(bs, d) + x));
    } else {
      OneBlock(bs, y);
    }
  }

  lemma Regroup<T>(a: seq<T>, b: seq<T>, c: seq<T>)
    ensures a + (b + c) == a + b + c
  {
  }

  lemma OneBlock(bs: nat, y: seq<byte>)
    requires |y| <= bs && 0 < bs
    ensures Decode(bs, y) == [] + Body(y) && OpenBlock(bs, y) == if |y| == bs then [] else y
  {
    if |y| == bs {
      assert y[..bs] == y && y[bs..] == [] && Body(y) + [] == Body(y);
    }
    assert [] + Body(y) == Body(y);
  }

  lemma {:induction false} AppendIsTidy(bs: nat, d: seq<byte>, x: seq<byte>)
    requires 0 < bs && |OpenBlock(bs, d)| + |x| <= bs && TidyRing(bs, d) && TidyBlock(OpenBlock(bs, d) + x)
    ensures TidyRing(bs, d + x)
    ensures NoEmptyBlock(bs, d) && (|OpenBlock(bs, d) + x| == bs ==> Body(OpenBlock(bs, d) + x) != []) ==> NoEmptyBlock(bs, d + x)
    decreases |d|
  {
    var y := d + x;
    if |d| >= bs {
      AppendIsTidy(bs, d[bs..], x);
      assert y[..bs] == d[..bs] && y[bs..] == d[bs..] + x;
    } else if |y| == bs {
      assert y[..bs] == y && y[bs..] == [];
    }
  }

  /** Writing into the open block changes the meaning of the open block and of nothing else. */
  lemma Append(bs: nat, d: seq<byte>, x: seq<byte>)
    requires 0 < bs && TidyRing(bs, d)
    requires |OpenBlock(bs, d)| + |x| <= bs
    requires TidyBlock(OpenBlock(bs, d) + x)
    ensures var o := OpenBlock(bs, d) + x;
            && TidyRing(bs, d + x)
            && OpenBlock(bs, d + x) == (if |o| == bs then [] else o)
            && Decode(bs, d + x) == DecodeClosed(bs, d) + Body(o)
            && (NoEmptyBlock(bs, d) && (|o| == bs ==> Body(o) != []) ==> NoEmptyBlock(bs, d + x))
  {
    AppendDecodes(bs, d, x);
    AppendIsTidy(bs, d, x);
  }

  lemma AppendHeader(bs: nat, d: seq<byte>, z: seq<byte>)
    requires |z| == HEADER_SIZE < bs && TidyRing(bs, d) && OpenBlock(bs, d) == []
    ensures TidyRing(bs, d + z) && OpenBlock(bs, d + z) == z && Decode(bs, d + z) == Decode(bs, d)
    ensures NoEmptyBlock(bs, d) ==> NoEmptyBlock(bs, d + z)
  {
    assert [] + z == z && z[HEADER_SIZE..] == [];
    Append(bs, d, z);
    DecodeSplit(bs, d);
  }

  lemma AppendPads(bs: nat, d: seq<byte>, p: seq<byte>)
    requires 0 < bs && TidyRing(bs, d) && Padding(p)
    requires var o := OpenBlock(bs, d); o != [] && |o| + |p| <= bs
    ensures TidyRing(bs, d + p) && Decode(bs, d + p) == Decode(bs, d)
    ensures var o := OpenBlock(bs, d) + p; OpenBlock(bs, d + p) == if |o| == bs then [] else o
    ensures NoEmptyBlock(bs, d) && Body(OpenBlock(bs, d)) != [] ==> NoEmptyBlock(bs, d + p)
    ensures |OpenBlock(bs, d) + p| < bs ==> Body(OpenBlock(bs, d + p)) == Body(OpenBlock(bs, d))
  {
    DecodeSplit(bs, d);
    var o := OpenBlock(bs, d);
    assert (o + p)[HEADER_SIZE..] == o[HEADER_SIZE..] + p;
    AppendPadding(o[HEADER_SIZE..], p);
    Append(bs, d, p);
  }

  predicate Gapless(o: seq<byte>) {
    o == [] || (HEADER_SIZE <= |o| && Rest(o[HEADER_SIZE..]) == [])
  }

  lemma AppendWellFormed(bs: nat, d: seq<byte>, e: Entry)
    requires 0 < bs && TidyRing(bs, d) && WellFormed(e)
    requires var o := OpenBlock(bs, d); o != [] && Gapless(o) && |o| + |e| <= bs
    ensures TidyRing(bs, d + e) && Decode(bs, d + e) == Decode(bs, d) + [e]
    ensures Gapless(OpenBlock(bs, d + e))
    ensures NoEmptyBlock(bs, d) ==> NoEmptyBlock(bs, d + e)
    ensures OpenBlock(bs, d + e) != [] ==> Body(OpenBlock(bs, d + e)) != []
  {
    DecodeSplit(bs, d);
    BodyGrows(OpenBlock(bs, d), e);
    Append(bs, d, e);
    Regroup(DecodeClosed(bs, d), Body(OpenBlock(bs, d)), [e]);
  }

  /** One more entry in a block. */
  lemma BodyGrows(o: seq<byte>, e: Entry)
    requires o != [] && Gapless(o) && WellFormed(e)
    ensures Body(o + e) == Body(o) + [e] && Gapless(o + e) && TidyBlock(o + e)
  {
    assert (o + e)[HEADER_SIZE..] == o[HEADER_SIZE..] + e;
    BlockFormat.AppendEntry(o[HEADER_SIZE..], e);
  }

  /** The header is not part of the meaning. */
  lemma OverwriteHeader(bs: nat, d: seq<byte>, h: seq<byte>)
    requires |h| == HEADER_SIZE < bs <= |d|
    ensures var d' := h + d[HEADER_SIZE..];
            && d'[..bs] == h + d[HEADER_SIZE..bs] && d'[bs..] == d[bs..]
            && Decode(bs, d') == Decode(bs, d)
            && OpenBlock(bs, d') == OpenBlock(bs, d)
            && (TidyRing(bs, d) ==> TidyRing(bs, d'))
            && (NoEmptyBlock(bs, d) ==> NoEmptyBlock(bs, d'))
  {
    var d' := h + d[HEADER_SIZE..];
    assert d'[..bs] == h + d[HEADER_SIZE..bs];
    assert d'[bs..] == d[bs..];
    assert d'[..bs][HEADER_SIZE..] == d[..bs][HEADER_SIZE..];
  }

  // ---------------------------------------------------------------- alignment

  lemma {:induction false} AlignedGap(a: nat, b: nat, bs: nat)
    requires 0 < bs && a < b && Remainder(a, bs) == 0 && Remainder(b, bs) == 0
    ensures a + bs <= b
  {
    if a >= bs {
      AlignedGap(a - bs, b - bs, bs);
    }
  }
}
