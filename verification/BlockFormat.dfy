/**
 * The log block as it lies in the staging ring and on the card: a 20-byte header, entries
 * without gaps, then 0xFF padding. `Entries` and `Rest` give every byte string its meaning;
 * the firmware's walk, the host's walk and the header it is checked against all refer to them.
 */
module BlockFormat {
  import opened Wire

  const HEADER_SIZE := 20
  const ENTRY_HEADER_SIZE := 3
  const FRAME_FIXED_SIZE := 14
  const SYNC_SIZE := 11
  const LOG_VERSION: byte := 2
  const PADDING: byte := 0xFF

  const TYPE_FRAME: byte := 1
  const TYPE_SYNC: byte := 2
  const TYPE_MARKER: byte := 3

  type Entry = seq<byte>

  predicate KnownType(t: byte) {
    t == TYPE_FRAME || t == TYPE_SYNC || t == TYPE_MARKER
  }

  /** An entry whose own header describes it: what every caller of AddEntry passes. */
  predicate WellFormed(e: Entry) {
    ENTRY_HEADER_SIZE <= |e| && e[2] as int == |e| && KnownType(e[0])
  }

  /** The host additionally wants the fixed part of frames and sync entries to be there. */
  predicate HostReadable(e: Entry) {
    && WellFormed(e)
    && (e[0] == TYPE_FRAME ==> FRAME_FIXED_SIZE <= |e|)
    && (e[0] == TYPE_SYNC ==> SYNC_SIZE <= |e|)
  }

  predicate StartsEntry(s: seq<byte>) {
    ENTRY_HEADER_SIZE <= |s| && ENTRY_HEADER_SIZE <= s[2] as int <= |s| && KnownType(s[0])
  }

  function Entries(s: seq<byte>): (es: seq<Entry>)
    decreases |s|
  {
    if StartsEntry(s) then [s[..s[2]]] + Entries(s[s[2]..]) else []
  }

  function Rest(s: seq<byte>): (r: seq<byte>)
    ensures |r| <= |s|
    decreases |s|
  {
    if StartsEntry(s) then Rest(s[s[2]..]) else s
  }

  predicate Padding(s: seq<byte>) {
    forall i :: 0 <= i < |s| ==> s[i] == PADDING
  }

  /** Entries without a gap, then nothing but padding. */
  predicate Tidy(s: seq<byte>) {
    Padding(Rest(s))
  }

  function Concat(es: seq<Entry>): seq<byte> {
    if es == [] then [] else es[0] + Concat(es[1..])
  }

  function Frames(es: seq<Entry>): nat {
    if es == [] then 0 else (if es[0] != [] && es[0][0] == TYPE_FRAME then 1 else 0) + Frames(es[1..])
  }

  lemma {:induction false} FramesConcat(a: seq<Entry>, b: seq<Entry>)
    ensures Frames(a + b) == Frames(a) + Frames(b)
  {
    if a == [] {
      assert a + b == b;
    } else {
      assert (a + b)[1..] == a[1..] + b;
      FramesConcat(a[1..], b);
    }
  }

  lemma {:induction false} ConcatConcat(a: seq<Entry>, b: seq<Entry>)
    ensures Concat(a + b) == Concat(a) + Concat(b)
  {
    if a == [] {
      assert a + b == b;
    } else {
      assert (a + b)[1..] == a[1..] + b;
      ConcatConcat(a[1..], b);
    }
  }

  /** Decoding loses nothing: the entries put end to end, and the rest, are the bytes. */
  lemma {:induction false} DecodeIsExact(s: seq<byte>)
    ensures Concat(Entries(s)) + Rest(s) == s
    ensures forall e :: e in Entries(s) ==> WellFormed(e)
    decreases |s|
  {
    if StartsEntry(s) {
      var t := s[s[2]..];
      DecodeIsExact(t);
      assert ([s[..s[2]]] + Entries(t))[1..] == Entries(t);
      assert s == s[..s[2]] + t;
    }
  }

  /** ... and it is the only reading: a run of well-formed entries then padding decodes to those entries. */
  lemma {:induction false} DecodeConcat(es: seq<Entry>, pad: seq<byte>)
    requires forall e :: e in es ==> WellFormed(e)
    requires Padding(pad)
    ensures Entries(Concat(es) + pad) == es
    ensures Rest(Concat(es) + pad) == pad
  {
    if es == [] {
      assert Concat(es) + pad == pad;
    } else {
      var e := es[0];
      var s := Concat(es) + pad;
      assert e in es;
      assert s == e + (Concat(es[1..]) + pad);
      assert s[..|e|] == e && s[|e|..] == Concat(es[1..]) + pad;
      assert forall x :: x in es[1..] ==> x in es;
      DecodeConcat(es[1..], pad);
    }
  }

  lemma AppendEntry(s: seq<byte>, e: Entry)
    requires Rest(s) == [] && WellFormed(e)
    ensures Entries(s + e) == Entries(s) + [e]
    ensures Rest(s + e) == []
  {
    DecodeIsExact(s);
    var es := Entries(s) + [e];
    ConcatConcat(Entries(s), [e]);
    assert Concat([e]) == e;
    assert s + e == Concat(es) + [];
    DecodeConcat(es, []);
  }

  lemma AppendPadding(s: seq<byte>, p: seq<byte>)
    requires Tidy(s) && Padding(p)
    ensures Entries(s + p) == Entries(s)
    ensures Rest(s + p) == Rest(s) + p
  {
    DecodeIsExact(s);
    assert s + p == Concat(Entries(s)) + (Rest(s) + p);
    DecodeConcat(Entries(s), Rest(s) + p);
  }

  lemma {:induction false} EntriesCoverBytes(s: seq<byte>)
    ensures Entries(s) == [] <==> |Rest(s)| == |s|
    decreases |s|
  {
    if StartsEntry(s) {
      var t := s[s[2]..];
      assert |Rest(t)| <= |t| < |s|;
    }
  }

  /** One step of a decoding walk. */
  lemma EntriesStep(s: seq<byte>)
    ensures if StartsEntry(s)
            then var t := s[s[2]..];
                 && |Entries(s)| == 1 + |Entries(t)| && Rest(s) == Rest(t)
                 && Frames(Entries(s)) == (if s[0] == TYPE_FRAME then 1 else 0) + Frames(Entries(t))
            else Entries(s) == [] && Rest(s) == s
  {
    if StartsEntry(s) {
      var t := s[s[2]..];
      assert ([s[..s[2]]] + Entries(t))[1..] == Entries(t);
    }
  }

  lemma {:induction false} EntriesCount(s: seq<byte>)
    ensures |Entries(s)| <= |s|
    decreases |s|
  {
    if StartsEntry(s) {
      EntriesCount(s[s[2]..]);
    }
  }

  // ---------------------------------------------------------------- block header

  datatype BlockHeader = BlockHeader(
    version: byte, headerSize: byte, epoch: byte, cnt: byte,
    blockSize: nat, blockFill: nat, ingressFrames: nat, entriesCount: nat)

  function EncodeHeader(h: BlockHeader): (b: seq<byte>)
    ensures |b| == HEADER_SIZE
  {
    [h.version, h.headerSize, h.epoch, h.cnt]
    + U32(h.blockSize) + U32(h.blockFill) + U32(h.ingressFrames) + U32(h.entriesCount)
  }

  datatype Option<+T> = None | Some(value: T)

  /** The host's header reader, current layout; other header sizes are not read as current blocks. */
  function ReadBlockHeader(b: seq<byte>): (h: Option<BlockHeader>) {
    if |b| < 2 || b[1] as int != HEADER_SIZE || |b| < HEADER_SIZE then None
    else Some(BlockHeader(b[0], b[1], b[2], b[3],
                          FromU32(b[4..8]), FromU32(b[8..12]), FromU32(b[12..16]), FromU32(b[16..20])))
  }

  predicate Representable(h: BlockHeader) {
    && h.headerSize as int == HEADER_SIZE
    && h.blockSize < TWO_32 && h.blockFill < TWO_32 && h.ingressFrames < TWO_32 && h.entriesCount < TWO_32
  }

  lemma FieldSlices(p: seq<byte>, w: seq<byte>, x: seq<byte>, y: seq<byte>, z: seq<byte>, body: seq<byte>)
    requires |p| == |w| == |x| == |y| == |z| == 4
    ensures var b := p + w + x + y + z + body;
            b[..4] == p && b[4..8] == w && b[8..12] == x && b[12..16] == y && b[16..20] == z
  {
  }

  lemma FieldsRoundTrip(w: nat, x: nat, y: nat, z: nat)
    requires w < TWO_32 && x < TWO_32 && y < TWO_32 && z < TWO_32
    ensures FromU32(U32(w)) == w && FromU32(U32(x)) == x && FromU32(U32(y)) == y && FromU32(U32(z)) == z
  {
    U32Exact(w);
    U32Exact(x);
    U32Exact(y);
    U32Exact(z);
  }

  /** What the firmware writes the host reads back, field for field, whatever follows the header. */
  lemma HeaderRoundTrip(h: BlockHeader, body: seq<byte>)
    requires Representable(h)
    ensures ReadBlockHeader(EncodeHeader(h) + body) == Some(h)
  {
    var p := [h.version, h.headerSize, h.epoch, h.cnt];
    var w, x, y, z := U32(h.blockSize), U32(h.blockFill), U32(h.ingressFrames), U32(h.entriesCount);
    var b := EncodeHeader(h) + body;
    assert b == p + w + x + y + z + body;
    FieldSlices(p, w, x, y, z, body);
    assert b[0] == b[..4][0] && b[1] == b[..4][1] && b[2] == b[..4][2] && b[3] == b[..4][3];
    FieldsRoundTrip(h.blockSize, h.blockFill, h.ingressFrames, h.entriesCount);
  }

  // ---------------------------------------------------------------- a finished block

  /**
   * A block the firmware hands to the card: at least one entry, nothing but padding after
   * the last one, and a header that says exactly how far the entries reach and how many they are.
   */
  predicate Described(bs: nat, b: seq<byte>, h: BlockHeader) {
    && HEADER_SIZE < bs == |b|
    && ReadBlockHeader(b) == Some(h)
    && Tidy(b[HEADER_SIZE..])
    && Entries(b[HEADER_SIZE..]) != []
    && h.version == LOG_VERSION
    && h.blockSize == bs
    && h.blockFill == bs - |Rest(b[HEADER_SIZE..])|
    && h.entriesCount == |Entries(b[HEADER_SIZE..])|
  }

  predicate SelfDescribed(bs: nat, b: seq<byte>) {
    ReadBlockHeader(b).Some? && Described(bs, b, ReadBlockHeader(b).value)
  }
}
