/** The streaming 32-bit FNV-1a hash of the update writer (draft-eastlake-fnv, section 2). */
module Fnv {

  const OFFSET_BASIS: bv32 := 2166136261
  const PRIME: bv32 := 16777619

  function Mix(hash: bv32, b: bv8): bv32 {
    (hash ^ (b as bv32)) * PRIME
  }

  /** The hash of `data` continued from `seed`. */
  function Hash(seed: bv32, data: seq<bv8>): bv32 {
    if data == [] then seed else Mix(Hash(seed, data[..|data| - 1]), data[|data| - 1])
  }

  /** IapWriter_HashBytes */
  method HashBytes(seed: bv32, data: seq<bv8>) returns (hash: bv32)
    ensures hash == Hash(seed, data)
  {
    hash := seed;
    var i := 0;
    while i < |data|
      invariant 0 <= i <= |data|
      invariant hash == Hash(seed, data[..i])
    {
      assert data[..i + 1][..i] == data[..i];
      hash := Mix(hash, data[i]);
      i := i + 1;
    }
    assert data[..|data|] == data;
  }

  /** Hashing in two pieces is hashing in one. */
  lemma {:induction false} HashSplit(seed: bv32, a: seq<bv8>, b: seq<bv8>)
    ensures Hash(seed, a + b) == Hash(Hash(seed, a), b)
  {
    if b == [] {
      assert a + b == a;
    } else {
      var k := |b| - 1;
      assert (a + b)[..|a| + k] == a + b[..k];
      HashSplit(seed, a, b[..k]);
    }
  }

  /** The byte goes in before the multiplication: it clears the lowest byte of the hash exactly if it equals it. */
  lemma StepCancels(hash: bv32, b: bv8)
    ensures Mix(hash, b) & 0xFF == 0 <==> b as bv32 == hash & 0xFF
  {
  }

  lemma HashSnoc(data: seq<bv8>, b: bv8, more: seq<bv8>)
    requires more == data + [b]
    ensures Hash(OFFSET_BASIS, more) == Mix(Hash(OFFSET_BASIS, data), b)
  {
    assert more[..|data|] == data;
  }

  /** One byte more, with the hashes before and after it. */
  lemma HashGoesOn(data: seq<bv8>, b: bv8, more: seq<bv8>, before: bv32, after: bv32)
    requires more == data + [b] && Hash(OFFSET_BASIS, data) == before && Mix(before, b) == after
    ensures Hash(OFFSET_BASIS, more) == after
  {
    HashSnoc(data, b, more);
  }

  lemma StepsOfFoobar()
    ensures Mix(0x811C9DC5, 0x66) == 0xE30C2799 && Mix(0xE30C2799, 0x6F) == 0x6222E842 && Mix(0x6222E842, 0x6F) == 0xA9F37ED7
    ensures Mix(0xA9F37ED7, 0x62) == 0x3F5076EF && Mix(0x3F5076EF, 0x61) == 0x39AAA18A && Mix(0x39AAA18A, 0x72) == 0xBF9CF968
    ensures Mix(0x811C9DC5, 0x61) == 0xE40C292C
  {
  }

  /** The draft's values for the empty string, "a" and "foobar". */
  lemma PublishedValues(empty: seq<bv8>, a: seq<bv8>, foobar: seq<bv8>)
    requires empty == [] && a == [0x61] && foobar == [0x66, 0x6F, 0x6F, 0x62, 0x61, 0x72]
    ensures Hash(OFFSET_BASIS, empty) == 0x811C9DC5
    ensures Hash(OFFSET_BASIS, a) == 0xE40C292C
    ensures Hash(OFFSET_BASIS, foobar) == 0xBF9CF968
  {
    StepsOfFoobar();
    HashGoesOn(empty, 0x61, a, 0x811C9DC5, 0xE40C292C);
    assert foobar[..0] == empty && foobar[..6] == foobar;
    HashGoesOn(foobar[..0], 0x66, foobar[..1], 0x811C9DC5, 0xE30C2799);
    HashGoesOn(foobar[..1], 0x6F, foobar[..2], 0xE30C2799, 0x6222E842);
    HashGoesOn(foobar[..2], 0x6F, foobar[..3], 0x6222E842, 0xA9F37ED7);
    HashGoesOn(foobar[..3], 0x62, foobar[..4], 0xA9F37ED7, 0x3F5076EF);
    HashGoesOn(foobar[..4], 0x61, foobar[..5], 0x3F5076EF, 0x39AAA18A);
    HashGoesOn(foobar[..5], 0x72, foobar[..6], 0x39AAA18A, 0xBF9CF968);
  }

  function Joined(pieces: seq<seq<bv8>>): seq<bv8> {
    if pieces == [] then [] else pieces[0] + Joined(pieces[1..])
  }

  function HashPieces(seed: bv32, pieces: seq<seq<bv8>>): bv32
    decreases |pieces|
  {
    if pieces == [] then seed else HashPieces(Hash(seed, pieces[0]), pieces[1..])
  }

  /** Any two ways of cutting the same bytes give the same hash: that of one pass. */
  lemma {:induction false} HashIsSplitIndependent(seed: bv32, pieces: seq<seq<bv8>>)
    ensures HashPieces(seed, pieces) == Hash(seed, Joined(pieces))
    decreases |pieces|
  {
    if pieces != [] {
      HashIsSplitIndependent(Hash(seed, pieces[0]), pieces[1..]);
      HashSplit(seed, pieces[0], Joined(pieces[1..]));
    }
  }
}
