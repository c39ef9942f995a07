/** fdcan_utils.c: the search for CAN bit timings and the codec of the bit timing register. */
module BitTiming {
  import opened Wire

  // ---------------------------------------------------------------- words

  /** Bitwise or. */
  function Or(a: nat, b: nat): nat {
    if a == 0 then b
    else if b == 0 then a
    else 2 * Or(a / 2, b / 2) + if a % 2 == 1 || b % 2 == 1 then 1 else 0
  }

  predicate IsPowerOfTwo(n: nat) {
    n == 1 || (0 < n && n % 2 == 0 && IsPowerOfTwo(n / 2))
  }

  lemma Halve(hi: nat, scale: nat)
    requires scale % 2 == 0
    ensures hi * scale == 2 * (hi * (scale / 2))
  {
    var half := scale / 2;
    assert scale == 2 * half;
    assert hi * (2 * half) == 2 * (hi * half);
  }

  /** Doubling one word and keeping the lowest bit of the other. */
  lemma OrDouble(a: nat, b: nat)
    ensures Or(2 * a, b) == 2 * Or(a, b / 2) + b % 2
  {
  }

  /** `n` doubled until the scale is reached. */
  function Doubled(n: nat, scale: nat): nat
    requires IsPowerOfTwo(scale)
  {
    if scale == 1 then n else 2 * Doubled(n, scale / 2)
  }

  lemma {:induction false} DoubledIs(n: nat, scale: nat)
    requires IsPowerOfTwo(scale)
    ensures Doubled(n, scale) == n * scale
  {
    if scale > 1 {
      DoubledIs(n, scale / 2);
      Halve(n, scale);
    }
  }

  lemma {:induction false} OrBelow(hi: nat, lo: nat, scale: nat)
    requires IsPowerOfTwo(scale) && lo < scale
    ensures Or(Doubled(hi, scale), lo) == Doubled(hi, scale) + lo
  {
    if scale > 1 {
      OrBelow(hi, lo / 2, scale / 2);
      OrDouble(Doubled(hi, scale / 2), lo);
    }
  }

  /** Fields that do not overlap add up. */
  lemma OrDisjoint(hi: nat, lo: nat, scale: nat)
    requires IsPowerOfTwo(scale) && lo < scale
    ensures Or(hi * scale, lo) == hi * scale + lo
  {
    DoubledIs(hi, scale);
    OrBelow(hi, lo, scale);
  }

  lemma PowersOfTwo()
    ensures IsPowerOfTwo(0x10) && IsPowerOfTwo(0x100) && IsPowerOfTwo(0x1_0000) && IsPowerOfTwo(0x100_0000)
  {
    assert IsPowerOfTwo(4);
    assert IsPowerOfTwo(0x10);
    assert IsPowerOfTwo(0x40);
    assert IsPowerOfTwo(0x100);
    assert IsPowerOfTwo(0x400);
    assert IsPowerOfTwo(0x1000);
    assert IsPowerOfTwo(0x4000);
    assert IsPowerOfTwo(0x1_0000);
    assert IsPowerOfTwo(0x4_0000);
    assert IsPowerOfTwo(0x10_0000);
    assert IsPowerOfTwo(0x40_0000);
  }

  /** Or with a field below the given place. */
  lemma Or4(hi: nat, lo: nat)
    requires lo < 0x10
    ensures Or(0x10 * hi, lo) == 0x10 * hi + lo
  {
    PowersOfTwo();
    OrDisjoint(hi, lo, 0x10);
  }

  lemma Or8(hi: nat, lo: nat)
    requires lo < 0x100
    ensures Or(0x100 * hi, lo) == 0x100 * hi + lo
  {
    PowersOfTwo();
    OrDisjoint(hi, lo, 0x100);
  }

  lemma Or16(hi: nat, lo: nat)
    requires lo < 0x1_0000
    ensures Or(0x1_0000 * hi, lo) == 0x1_0000 * hi + lo
  {
    PowersOfTwo();
    OrDisjoint(hi, lo, 0x1_0000);
  }

  /** The lowest bit, for zero words too. */
  lemma OrHalves(a: nat, b: nat)
    ensures Or(a, b) == 2 * Or(a / 2, b / 2) + if a % 2 == 1 || b % 2 == 1 then 1 else 0
  {
  }

  lemma OrHalved(a: nat, b: nat, x: nat, z: nat, w: nat, bit: nat)
    requires a / 2 == x && b / 2 == z && Or(x, z) == w && bit == if a % 2 == 1 || b % 2 == 1 then 1 else 0
    ensures Or(a, b) == 2 * w + bit
  {
    OrHalves(a, b);
  }

  lemma OrStep(a: nat, b: nat, r: nat, x: nat, z: nat, w: nat, lo: nat)
    requires a == 2 * x && b == 2 * z && r == 2 * w && Or(x + lo / 2, z) == w + lo / 2
    ensures Or(a + lo, b) == r + lo
  {
    OrHalved(a + lo, b, x + lo / 2, z, w + lo / 2, lo % 2);
  }

  /** Two words that meet above the given place only. */
  lemma {:induction false} OrAbove(hi: nat, lo: nat, k: nat, scale: nat)
    requires IsPowerOfTwo(scale) && lo < scale
    ensures Or(Doubled(hi, scale) + lo, Doubled(k, scale)) == Doubled(Or(hi, k), scale) + lo
  {
    if scale > 1 {
      var half, w := scale / 2, Or(hi, k);
      OrAbove(hi, lo / 2, k, half);
      OrStep(Doubled(hi, scale), Doubled(k, scale), Doubled(w, scale), Doubled(hi, half), Doubled(k, half), Doubled(w, half), lo);
    }
  }

  lemma OrTop(hi: nat, lo: nat, k: nat)
    requires lo < 0x100_0000
    ensures Or(hi * 0x100_0000 + lo, k * 0x100_0000) == Or(hi, k) * 0x100_0000 + lo
  {
    PowersOfTwo();
    OrAbove(hi, lo, k, 0x100_0000);
    DoubledIs(hi, 0x100_0000);
    DoubledIs(k, 0x100_0000);
    DoubledIs(Or(hi, k), 0x100_0000);
  }

  /** One bit or'd in. */
  lemma OrBit(bit: nat, k: nat)
    requires bit <= 1
    ensures Or(bit, k) == if bit == 1 && k % 2 == 0 then k + 1 else k
  {
    if bit == 1 && k > 0 {
      OrHalves(1, k);
    }
  }

  /** C's left shift on 32 bits, by as many places as `scale` has. */
  function Shl(x: nat, scale: nat): nat {
    x * scale % TWO_32
  }

  function Byte(x: int): nat {
    x % 0x100
  }

  /** Unsigned 32-bit subtraction of one. */
  function LessOne(x: nat): nat {
    if x == 0 then TWO_32 - 1 else x - 1
  }

  // ---------------------------------------------------------------- the register

  datatype Timing = Timing(prescaler: nat, seg1: nat, seg2: nat, sjw: nat)

  function Register(t: Timing, dataPhase: bool): nat {
    if dataPhase then
      Or(Or(Or(Shl(LessOne(t.prescaler), 0x1_0000), Shl(LessOne(t.sjw), 0x100)), Shl(LessOne(t.seg1), 0x10)), LessOne(t.seg2))
    else
      Or(Or(Or(Shl(LessOne(t.prescaler), 0x1_0000), Shl(LessOne(t.sjw), 0x100_0000)), Shl(LessOne(t.seg1), 0x100)), LessOne(t.seg2))
  }

  function GetPrescaler(b: seq<byte>, dataPhase: bool): nat
    requires |b| == 4
  {
    PrescalerOf(FromU32(b), dataPhase)
  }

  function PrescalerOf(reg: nat, dataPhase: bool): nat {
    if dataPhase then reg / 0x1_0000 % 0x20 + 1 else reg / 0x1_0000 % 0x200 + 1
  }

  function GetSeg1(b: seq<byte>, dataPhase: bool): nat
    requires |b| == 4
  {
    Seg1Of(FromU32(b), dataPhase)
  }

  function Seg1Of(reg: nat, dataPhase: bool): nat {
    Byte(if dataPhase then reg / 0x10 % 0x10 + 1 else reg / 0x100 % 0x100 + 1)
  }

  function GetSeg2(b: seq<byte>, dataPhase: bool): nat
    requires |b| == 4
  {
    Seg2Of(FromU32(b), dataPhase)
  }

  function Seg2Of(reg: nat, dataPhase: bool): nat {
    if dataPhase then reg % 0x10 + 1 else reg % 0x80 + 1
  }

  function GetSJW(b: seq<byte>, dataPhase: bool): nat
    requires |b| == 4
  {
    SjwOf(FromU32(b), dataPhase)
  }

  function SjwOf(reg: nat, dataPhase: bool): nat {
    if dataPhase then reg / 0x100 % 0x10 + 1 else reg / 0x100_0000 % 0x80 + 1
  }

  function Decoded(b: seq<byte>, dataPhase: bool): Timing
    requires |b| == 4
  {
    Timing(GetPrescaler(b, dataPhase), GetSeg1(b, dataPhase), GetSeg2(b, dataPhase), GetSJW(b, dataPhase))
  }

  function Fields(reg: nat, dataPhase: bool): Timing {
    Timing(PrescalerOf(reg, dataPhase), Seg1Of(reg, dataPhase), Seg2Of(reg, dataPhase), SjwOf(reg, dataPhase))
  }

  lemma DecodedWord(reg: nat, dataPhase: bool)
    requires reg < TWO_32
    ensures Decoded(U32(reg), dataPhase) == Fields(reg, dataPhase)
  {
    U32Exact(reg);
  }

  /** The highest byte of the nominal register: the jump width field, with the ninth bit of the prescaler or'd into
      its lowest bit. */
  function TopByte(t: Timing): (top: nat)
    requires 1 <= t.prescaler <= 512
    ensures top < 0x100
  {
    var field := LessOne(t.sjw) % 0x100;
    if t.prescaler > 256 && field % 2 == 0 then field + 1 else field
  }

  /** What the decoders make of the nominal register of a timing. */
  function NominalReadBack(t: Timing): Timing
    requires 1 <= t.prescaler <= 512 && 1 <= t.seg2
  {
    Timing(1 + (t.prescaler - 1) % 0x100 + 0x100 * (TopByte(t) % 2), t.seg1, 1 + (t.seg2 - 1) % 0x80, 1 + TopByte(t) % 0x80)
  }

  lemma NominalParts(reg: nat, top: nat, p: nat, s1: nat, s2: nat)
    requires top < 0x100 && p < 0x100 && s1 < 0xFF && s2 < 0x100
    requires reg == 0x100_0000 * top + 0x1_0000 * p + 0x100 * s1 + s2
    ensures Fields(reg, false) == Timing(1 + p + 0x100 * (top % 2), 1 + s1, 1 + s2 % 0x80, 1 + top % 0x80) && reg < TWO_32
  {
    var high := p + 0x100 * top;
    DivUnique(reg, 0x1_0000, high, 0x100 * s1 + s2);
    DivUnique(high, 0x200, top / 2, p + 0x100 * (top % 2));
    DivUnique(reg, 0x100_0000, top, 0x1_0000 * p + 0x100 * s1 + s2);
    DivUnique(reg, 0x100, s1 + 0x100 * high, s2);
    DivUnique(s1 + 0x100 * high, 0x100, high, s1);
    DivUnique(reg, 0x80, 0x200 * high + 2 * s1 + s2 / 0x80, s2 % 0x80);
  }

  lemma DataParts(reg: nat, p: nat, j: nat, s1: nat, s2: nat)
    requires p < 0x20 && j < 0x10 && s1 < 0x10 && s2 < 0x10
    requires reg == 0x1_0000 * p + 0x100 * j + 0x10 * s1 + s2
    ensures Fields(reg, true) == Timing(1 + p, 1 + s1, 1 + s2, 1 + j) && reg < TWO_32
  {
    DivUnique(reg, 0x1_0000, p, 0x100 * j + 0x10 * s1 + s2);
    DivUnique(reg, 0x100, j + 0x100 * p, 0x10 * s1 + s2);
    DivUnique(j + 0x100 * p, 0x10, 0x10 * p, j);
    DivUnique(reg, 0x10, s1 + 0x10 * (j + 0x100 * p), s2);
    DivUnique(s1 + 0x10 * (j + 0x100 * p), 0x10, j + 0x100 * p, s1);
  }

  lemma ShiftedToTop(x: nat)
    ensures Shl(x, 0x100_0000) == x % 0x100 * 0x100_0000
  {
    DivUnique(x * 0x100_0000, TWO_32, x / 0x100, x % 0x100 * 0x100_0000);
  }

  lemma NominalRegister(t: Timing)
    requires 1 <= t.prescaler <= 512 && 1 <= t.seg1 <= 255 && 1 <= t.seg2 <= 255
    ensures Register(t, false)
         == 0x100_0000 * TopByte(t) + 0x1_0000 * ((t.prescaler - 1) % 0x100) + 0x100 * (t.seg1 - 1) + t.seg2 - 1
  {
    var p, s1, s2 := t.prescaler - 1, t.seg1 - 1, t.seg2 - 1;
    ShiftedToTop(LessOne(t.sjw));
    assert Shl(p, 0x1_0000) == 0x1_0000 * p;
    assert Shl(s1, 0x100) == 0x100 * s1;
    assert p == 0x100 * (p / 0x100) + p % 0x100;
    NominalFields(p / 0x100, p % 0x100, LessOne(t.sjw) % 0x100, s1, s2);
  }

  lemma NominalFields(bit: nat, p: nat, k: nat, s1: nat, s2: nat)
    requires bit <= 1 && p < 0x100 && k < 0x100 && s1 < 0x100 && s2 < 0x100
    ensures Or(Or(Or(0x1_0000 * (0x100 * bit + p), k * 0x100_0000), 0x100 * s1), s2)
         == 0x100_0000 * (if bit == 1 && k % 2 == 0 then k + 1 else k) + 0x1_0000 * p + 0x100 * s1 + s2
  {
    OrTop(bit, 0x1_0000 * p, k);
    OrBit(bit, k);
    UpperFields(bit * 0x100_0000 + 0x1_0000 * p, k * 0x100_0000, p + 0x100 * Or(bit, k), s1, s2);
  }

  lemma UpperFields(x: nat, y: nat, a: nat, s1: nat, s2: nat)
    requires Or(x, y) == 0x1_0000 * a && s1 < 0x100 && s2 < 0x100
    ensures Or(Or(Or(x, y), 0x100 * s1), s2) == 0x1_0000 * a + 0x100 * s1 + s2
  {
    Or16(a, 0x100 * s1);
    Or8(s1 + 0x100 * a, s2);
  }

  lemma NominalWord(t: Timing, reg: nat)
    requires 1 <= t.prescaler <= 512 && 1 <= t.seg1 <= 255 && 1 <= t.seg2 <= 255
    requires reg == 0x100_0000 * TopByte(t) + 0x1_0000 * ((t.prescaler - 1) % 0x100) + 0x100 * (t.seg1 - 1) + t.seg2 - 1
    ensures Fields(reg, false) == NominalReadBack(t) && reg < TWO_32
  {
    NominalParts(reg, TopByte(t), (t.prescaler - 1) % 0x100, t.seg1 - 1, t.seg2 - 1);
  }

  /**
   * Every nominal timing the search can write, read back. The prescaler field as decoded has nine bits, the
   * highest of which is also the lowest of the jump width field: the timing comes back exactly when both want the
   * same bit there, and segment 2 and jump width fit seven bits.
   */
  lemma NominalDecodes(t: Timing)
    requires 1 <= t.prescaler <= 512 && 1 <= t.seg1 <= 255 && 1 <= t.seg2 <= 255 && t.sjw < TWO_32
    ensures Decoded(U32(Register(t, false)), false) == NominalReadBack(t)
    ensures NominalReadBack(t) == t <==>
              t.seg2 <= 128 && 1 <= t.sjw <= 128 && (t.prescaler > 256 <==> t.sjw % 2 == 0)
  {
    var reg := Register(t, false);
    NominalRegister(t);
    NominalWord(t, reg);
    DecodedWord(reg, false);
    ReadBackExactly(t);
  }

  lemma ReadBackExactly(t: Timing)
    requires 1 <= t.prescaler <= 512 && 1 <= t.seg2 <= 255 && t.sjw < TWO_32
    ensures NominalReadBack(t).seg2 == t.seg2 <==> t.seg2 <= 128
    ensures NominalReadBack(t).prescaler == t.prescaler <==> t.prescaler > 256 || t.sjw % 2 == 1
    ensures NominalReadBack(t).sjw == t.sjw <==> 1 <= t.sjw <= 128 && (t.prescaler <= 256 || t.sjw % 2 == 0)
    ensures NominalReadBack(t).prescaler == t.prescaler + 256 || NominalReadBack(t).prescaler == t.prescaler
  {
    ParityOfField(t.sjw);
    HighPrescaler(t.prescaler - 1);
  }

  lemma ParityOfField(sjw: nat)
    requires sjw < TWO_32
    ensures LessOne(sjw) % 0x100 % 2 == 0 <==> sjw % 2 == 1
    ensures 1 <= sjw <= 128 ==> LessOne(sjw) % 0x100 == sjw - 1
  {
    var x := LessOne(sjw);
    var q, r := x / 0x100, x % 0x100;
    DivUnique(x, 2, 0x80 * q + r / 2, r % 2);
  }

  lemma HighPrescaler(p: nat)
    requires p < 0x200
    ensures p % 0x100 == if p < 0x100 then p else p - 0x100
  {
  }

  lemma DataRegister(t: Timing)
    requires 1 <= t.prescaler <= 32 && 1 <= t.seg1 <= 16 && 1 <= t.seg2 <= 16 && 1 <= t.sjw <= 16
    ensures Register(t, true) == 0x1_0000 * (t.prescaler - 1) + 0x100 * (t.sjw - 1) + 0x10 * (t.seg1 - 1) + t.seg2 - 1
  {
    var p, j, s1, s2 := t.prescaler - 1, t.sjw - 1, t.seg1 - 1, t.seg2 - 1;
    assert Shl(p, 0x1_0000) == 0x1_0000 * p;
    assert Shl(j, 0x100) == 0x100 * j;
    assert Shl(s1, 0x10) == 0x10 * s1;
    DataFields(p, j, s1, s2);
  }

  lemma DataFields(p: nat, j: nat, s1: nat, s2: nat)
    requires j < 0x100 && s1 < 0x10 && s2 < 0x10
    ensures Or(Or(Or(0x1_0000 * p, 0x100 * j), 0x10 * s1), s2) == 0x1_0000 * p + 0x100 * j + 0x10 * s1 + s2
  {
    Or16(p, 0x100 * j);
    var a := j + 0x100 * p;
    Or8(a, 0x10 * s1);
    var b := s1 + 0x10 * a;
    Or4(b, s2);
  }

  lemma DataWord(t: Timing, reg: nat)
    requires 1 <= t.prescaler <= 32 && 1 <= t.seg1 <= 16 && 1 <= t.seg2 <= 16 && 1 <= t.sjw <= 16
    requires reg == 0x1_0000 * (t.prescaler - 1) + 0x100 * (t.sjw - 1) + 0x10 * (t.seg1 - 1) + t.seg2 - 1
    ensures Fields(reg, true) == t && reg < TWO_32
  {
    DataParts(reg, t.prescaler - 1, t.sjw - 1, t.seg1 - 1, t.seg2 - 1);
  }

  lemma DataFieldsAreNarrow(b: seq<byte>)
    requires |b| == 4
    ensures Decoded(b, true).seg1 <= 16 && Decoded(b, true).seg2 <= 16 && 1 <= Decoded(b, true).sjw <= 16
  {
  }

  /** The data phase register gives a timing back exactly when segments and jump width fit their four bits. */
  lemma DataDecodes(t: Timing)
    requires 1 <= t.prescaler <= 32 && 1 <= t.seg1 && 1 <= t.seg2
    ensures Decoded(U32(Register(t, true)), true) == t <==> t.seg1 <= 16 && t.seg2 <= 16 && 1 <= t.sjw <= 16
  {
    if t.seg1 <= 16 && t.seg2 <= 16 && 1 <= t.sjw <= 16 {
      DataRegister(t);
      DataWord(t, Register(t, true));
      DecodedWord(Register(t, true), true);
    } else {
      DataFieldsAreNarrow(U32(Register(t, true)));
    }
  }

  // ---------------------------------------------------------------- the search

  const SAMPLE_POINT_FACTOR := 10000
  const RES_OK := 0
  const RES_NOT_OK := 1

  datatype Config = Config(clock: nat, bitrate: nat, samplePoint: nat, sjw: nat, dataPhase: bool)

  predicate ValidConfig(c: Config) {
    0 < c.clock < TWO_32 && 0 < c.bitrate < TWO_32 && c.samplePoint < TWO_32 && c.sjw < TWO_32
  }

  function MaxTq(c: Config): (m: nat)
    requires ValidConfig(c)
    ensures m <= 512 && m <= c.clock / c.bitrate
  {
    if c.clock / c.bitrate > 512 then 512 else c.clock / c.bitrate
  }

  function Prescaler(c: Config, tq: nat): nat
    requires ValidConfig(c) && 0 < tq
  {
    c.clock / (c.bitrate * tq)
  }

  /** The time quantum count divides the bit well, and the prescaler fits and gives the bit rate. */
  predicate Divides(c: Config, tq: nat)
    requires ValidConfig(c) && 0 < tq
  {
    var p := Prescaler(c, tq);
    && tq * c.samplePoint % TWO_32 % SAMPLE_POINT_FACTOR == 0
    && 0 < p <= (if c.dataPhase then 32 else 512)
    && c.clock / (p * tq) == c.bitrate
  }

  function Seg1(c: Config, tq: nat): nat {
    Byte(LessOne(tq * c.samplePoint % TWO_32 / SAMPLE_POINT_FACTOR))
  }

  function Seg2(c: Config, tq: nat): nat {
    Byte(tq - Seg1(c, tq) - 1)
  }

  /** The loop stops at this time quantum count. */
  predicate Works(c: Config, tq: nat)
    requires ValidConfig(c) && 0 < tq
  {
    Divides(c, tq) && Seg1(c, tq) > 0 && Seg2(c, tq) > 0
  }

  function Chosen(c: Config, tq: nat): Timing
    requires ValidConfig(c) && 0 < tq
  {
    Timing(Prescaler(c, tq), Seg1(c, tq), Seg2(c, tq), Min(c.sjw, Seg2(c, tq)))
  }

  lemma Quotient(a: nat, b: nat, q: nat)
    requires 0 < b
    ensures a / b == q <==> q * b <= a < q * b + b
  {
    DivUnique(a, b, a / b, a % b);
    if q * b <= a < q * b + b {
      DivUnique(a, b, q, a - q * b);
    }
  }

  /** No product of the search wraps. */
  lemma TotalFits(c: Config, tq: nat)
    requires ValidConfig(c) && 0 < tq <= MaxTq(c)
    ensures 0 < c.bitrate * tq <= c.clock && Prescaler(c, tq) * tq <= c.clock
  {
    var m := c.clock / c.bitrate;
    Quotient(c.clock, c.bitrate, m);
    Monotone(tq, m, c.bitrate);
    Quotient(c.clock, c.bitrate * tq, Prescaler(c, tq));
    Monotone(1, c.bitrate, Prescaler(c, tq) * tq);
    assert Prescaler(c, tq) * (c.bitrate * tq) == c.bitrate * (Prescaler(c, tq) * tq);
  }

  lemma Monotone(a: nat, b: nat, k: nat)
    requires a <= b
    ensures a * k <= b * k
  {
    assert (b - a) * k >= 0;
  }

  /**
   * A timing as one would ask for it: `tq` quanta, the first `q` of them before the sample point, whole and with room in
   * a byte for either part, and a prescaler `p` in range that is the clock over the bit's quanta and gives the bit rate.
   */
  predicate Suits(c: Config, tq: nat, q: nat, p: nat) {
    && 8 <= tq <= 512 && c.bitrate * tq <= c.clock
    && q * SAMPLE_POINT_FACTOR == tq * c.samplePoint && 2 <= q <= 256 && 1 <= tq - q <= 255
    && 1 <= p <= (if c.dataPhase then 32 else 512)
    && p * (c.bitrate * tq) <= c.clock < (p + 1) * (c.bitrate * tq)
    && c.bitrate * (p * tq) <= c.clock < (c.bitrate + 1) * (p * tq)
  }

  function SuitedTiming(c: Config, tq: nat, q: nat, p: nat): Timing
    requires 1 <= q <= tq
  {
    Timing(p, q - 1, tq - q, Min(c.sjw, tq - q))
  }

  lemma InSearch(c: Config, tq: nat)
    requires ValidConfig(c) && 0 < tq <= 512
    ensures tq <= MaxTq(c) <==> c.bitrate * tq <= c.clock
  {
    var m := c.clock / c.bitrate;
    Quotient(c.clock, c.bitrate, m);
    if tq <= m {
      Monotone(tq, m, c.bitrate);
    } else {
      Monotone(m + 1, tq, c.bitrate);
      assert (m + 1) * c.bitrate == m * c.bitrate + c.bitrate;
    }
  }

  lemma SuitedDivides(c: Config, tq: nat, q: nat, p: nat)
    requires ValidConfig(c) && Suits(c, tq, q, p)
    ensures Prescaler(c, tq) == p && Divides(c, tq) && tq * c.samplePoint % TWO_32 == q * SAMPLE_POINT_FACTOR
  {
    var step, k := c.bitrate * tq, p * tq;
    assert 0 < step by { Monotone(1, c.bitrate, tq); }
    assert 0 < k by { Monotone(1, p, tq); }
    assert (p + 1) * step == p * step + step;
    assert (c.bitrate + 1) * k == c.bitrate * k + k;
    Quotient(c.clock, step, p);
    Quotient(c.clock, k, c.bitrate);
    DivUnique(q * SAMPLE_POINT_FACTOR, TWO_32, 0, q * SAMPLE_POINT_FACTOR);
    DivUnique(q * SAMPLE_POINT_FACTOR, SAMPLE_POINT_FACTOR, q, 0);
  }

  /** The loop stops at such a timing at the latest, and writes it if it does. */
  lemma SuitedWorks(c: Config, tq: nat, q: nat, p: nat)
    requires ValidConfig(c) && Suits(c, tq, q, p)
    ensures tq <= MaxTq(c) && Works(c, tq) && Chosen(c, tq) == SuitedTiming(c, tq, q, p)
  {
    InSearch(c, tq);
    SuitedDivides(c, tq, q, p);
    SuitedSegments(c, tq, q);
  }

  lemma SuitedSegments(c: Config, tq: nat, q: nat)
    requires tq * c.samplePoint % TWO_32 == q * SAMPLE_POINT_FACTOR && 2 <= q <= 256 && 1 <= tq - q <= 255
    ensures Seg1(c, tq) == q - 1 && Seg2(c, tq) == tq - q
  {
    DivUnique(q * SAMPLE_POINT_FACTOR, SAMPLE_POINT_FACTOR, q, 0);
    DivUnique(q - 1, 0x100, 0, q - 1);
    DivUnique(tq - q, 0x100, 0, tq - q);
  }

  lemma AllSuitedWork(c: Config)
    requires ValidConfig(c)
    ensures forall tq: nat, q: nat, p: nat :: Suits(c, tq, q, p) ==>
              tq <= MaxTq(c) && Works(c, tq) && Chosen(c, tq) == SuitedTiming(c, tq, q, p)
  {
    forall tq: nat, q: nat, p: nat | Suits(c, tq, q, p)
      ensures tq <= MaxTq(c) && Works(c, tq) && Chosen(c, tq) == SuitedTiming(c, tq, q, p)
    {
      SuitedWorks(c, tq, q, p);
    }
  }

  /** Success goes to the largest suitable count, and no suitable one is passed over. */
  ghost predicate FindsSuited(c: Config, found: bool, best: nat, bytes: seq<byte>) {
    forall tq: nat, q: nat, p: nat :: Suits(c, tq, q, p) ==>
      found && tq <= best && (tq == best ==> bytes == U32(Register(SuitedTiming(c, tq, q, p), c.dataPhase)))
  }

  method CalculateBitTimingRegister(c: Config, out: array?<byte>) returns (res: nat, ghost tq: nat)
    requires c.clock < TWO_32 && c.bitrate < TWO_32 && c.samplePoint < TWO_32 && c.sjw < TWO_32
    requires out != null ==> out.Length == 4
    modifies out
    ensures out == null || c.clock == 0 || c.bitrate == 0 ==> res == RES_OK && (out != null ==> out[..] == old(out[..]))
    ensures out != null && ValidConfig(c) && res == RES_OK ==>
              && 8 <= tq <= MaxTq(c) && Works(c, tq) && (forall n :: tq < n <= MaxTq(c) ==> !Works(c, n))
              && out[..] == U32(Register(Chosen(c, tq), c.dataPhase))
    ensures out != null && ValidConfig(c) ==> FindsSuited(c, res == RES_OK, tq, out[..])
    ensures out != null && ValidConfig(c) && res != RES_OK ==>
              res == RES_NOT_OK && (forall n :: 8 <= n <= MaxTq(c) ==> !Works(c, n)) && out[..] == old(out[..])
  {
    tq := 0;
    if out == null || c.clock == 0 || c.bitrate == 0 {
      return RES_OK, tq;
    }
    AllSuitedWork(c);
    var n := c.clock / c.bitrate;
    if n > 512 {
      n := 512;
    }
    while n >= 8
      invariant n <= MaxTq(c) && (forall k :: n < k <= MaxTq(c) && 8 <= k ==> !Works(c, k)) && out[..] == old(out[..])
    {
      TotalFits(c, n);
      var total := c.bitrate * n;
      var prescaler := c.clock / total;
      var tooBig := (c.dataPhase && prescaler > 32) || (!c.dataPhase && prescaler > 512);
      if n * c.samplePoint % TWO_32 % SAMPLE_POINT_FACTOR == 0 && prescaler != 0 && !tooBig {
        var actual := c.clock / (prescaler * n);
        if actual == c.bitrate {
          var seg1 := Seg1(c, n);
          var seg2 := Byte(n - seg1 - 1);
          if seg1 > 0 && seg2 > 0 {
            var sjw := if c.sjw > seg2 then seg2 else c.sjw;
            var bytes := U32(Register(Timing(prescaler, seg1, seg2, sjw), c.dataPhase));
            out[0], out[1], out[2], out[3] := bytes[0], bytes[1], bytes[2], bytes[3];
            assert out[..] == bytes;
            return RES_OK, n;
          }
        }
      }
      n := n - 1;
    }
    return RES_NOT_OK, tq;
  }

  // ---------------------------------------------------------------- what a nominal timing means

  /** Time quanta up to the sample point, as the search computes them. */
  function Quanta(c: Config, tq: nat): nat {
    tq * c.samplePoint % TWO_32 / SAMPLE_POINT_FACTOR
  }

  /** The jump width written for these inputs. */
  function JumpWidth(c: Config, tq: nat): nat {
    Min(c.sjw, Byte(tq - Quanta(c, tq)))
  }

  lemma Seg2Is(c: Config, tq: nat)
    ensures Seg2(c, tq) == Byte(tq - Quanta(c, tq))
  {
    var q := Quanta(c, tq);
    var s1 := LessOne(q);
    var a := s1 / 0x100;
    assert s1 == 0x100 * a + Byte(s1);
    SameByte(tq - Byte(s1) - 1, if q == 0 then tq else tq - q, if q == 0 then -1 else a);
  }

  lemma SameByte(x: int, y: int, n: int)
    requires x == y + 0x100 * n
    ensures Byte(x) == Byte(y)
  {
  }

  predicate GivesRate(c: Config, prescaler: nat, tq: nat) {
    prescaler * tq != 0 && c.clock / (prescaler * tq) == c.bitrate
  }

  predicate IsSmaller(r: int, x: int, y: int) {
    r == if x <= y then x else y
  }

  /** The segments have room in their fields: up to 256 quanta before the sample point and up to 128 after it. */
  predicate SegmentsFit(c: Config, tq: nat) {
    && 0 < c.samplePoint < SAMPLE_POINT_FACTOR
    && tq * c.samplePoint <= 256 * SAMPLE_POINT_FACTOR && tq * (SAMPLE_POINT_FACTOR - c.samplePoint) <= 128 * SAMPLE_POINT_FACTOR
  }

  /** These segments make up the bit and put the sample point where it was asked for. */
  predicate SegmentsRight(c: Config, tq: nat, seg1: nat, seg2: nat) {
    1 + seg1 + seg2 == tq && (1 + seg1) * SAMPLE_POINT_FACTOR == tq * c.samplePoint
  }

  lemma QuantaAre(c: Config, tq: nat)
    requires tq <= 512 && c.samplePoint <= SAMPLE_POINT_FACTOR && tq * c.samplePoint % TWO_32 % SAMPLE_POINT_FACTOR == 0
    ensures tq * c.samplePoint == Quanta(c, tq) * SAMPLE_POINT_FACTOR
  {
    var x := tq * c.samplePoint;
    Monotone(c.samplePoint, SAMPLE_POINT_FACTOR, tq);
    assert x == c.samplePoint * tq;
    DivUnique(x, TWO_32, 0, x);
  }

  /** For a sample point inside the bit, where both parts have room in a byte, the loop stops at the suitable counts and at
      no other. */
  lemma WorksExactly(c: Config, tq: nat)
    requires ValidConfig(c) && 8 <= tq <= MaxTq(c) && 0 < c.samplePoint <= SAMPLE_POINT_FACTOR
    requires Quanta(c, tq) <= 256 && tq - Quanta(c, tq) <= 255
    ensures Works(c, tq) <==> Suits(c, tq, Quanta(c, tq), Prescaler(c, tq))
  {
    if Works(c, tq) {
      WorkingSuits(c, tq, Quanta(c, tq), Prescaler(c, tq));
    }
    if Suits(c, tq, Quanta(c, tq), Prescaler(c, tq)) {
      SuitedWorks(c, tq, Quanta(c, tq), Prescaler(c, tq));
    }
  }

  lemma WorkingSuits(c: Config, tq: nat, q: nat, p: nat)
    requires ValidConfig(c) && 8 <= tq <= MaxTq(c) && 0 < c.samplePoint <= SAMPLE_POINT_FACTOR && Works(c, tq)
    requires q == Quanta(c, tq) <= 256 && tq - q <= 255 && p == Prescaler(c, tq)
    ensures Suits(c, tq, q, p)
  {
    InSearch(c, tq);
    QuantaAre(c, tq);
    assert 0 < tq * c.samplePoint <= tq * SAMPLE_POINT_FACTOR by {
      Monotone(1, c.samplePoint, tq);
      Monotone(c.samplePoint, SAMPLE_POINT_FACTOR, tq);
    }
    WorkingSegments(c, tq, q);
    WorkingPrescaler(c, tq, p);
  }

  lemma WorkingPrescaler(c: Config, tq: nat, p: nat)
    requires ValidConfig(c) && 8 <= tq && p == Prescaler(c, tq) && 0 < p && c.clock / (p * tq) == c.bitrate
    ensures p * (c.bitrate * tq) <= c.clock < (p + 1) * (c.bitrate * tq)
    ensures c.bitrate * (p * tq) <= c.clock < (c.bitrate + 1) * (p * tq)
  {
    var step, k := c.bitrate * tq, p * tq;
    assert 0 < step by { Monotone(1, c.bitrate, tq); }
    assert 0 < k by { Monotone(1, p, tq); }
    assert (p + 1) * step == p * step + step;
    assert (c.bitrate + 1) * k == c.bitrate * k + k;
    Quotient(c.clock, step, p);
    Quotient(c.clock, k, c.bitrate);
  }

  lemma WorkingSegments(c: Config, tq: nat, q: nat)
    requires q == Quanta(c, tq) <= 256 && tq <= 512 && tq - q <= 255 && Seg1(c, tq) > 0 && Seg2(c, tq) > 0
    requires 0 < q <= tq
    ensures 2 <= q && 1 <= tq - q
  {
    Seg2Is(c, tq);
    DivUnique(q - 1, 0x100, 0, q - 1);
  }

  lemma Complement(c: Config, tq: nat)
    requires c.samplePoint <= SAMPLE_POINT_FACTOR
    ensures tq * (SAMPLE_POINT_FACTOR - c.samplePoint) == tq * SAMPLE_POINT_FACTOR - tq * c.samplePoint
  {
  }

  lemma FittingSegments(c: Config, tq: nat)
    requires 8 <= tq <= 512 && SegmentsFit(c, tq) && tq * c.samplePoint % TWO_32 % SAMPLE_POINT_FACTOR == 0
    ensures Seg1(c, tq) == Quanta(c, tq) - 1 && Seg2(c, tq) == tq - Quanta(c, tq) && 1 <= Seg2(c, tq) <= 128
    ensures SegmentsRight(c, tq, Seg1(c, tq), Seg2(c, tq))
  {
    var q := Quanta(c, tq);
    QuantaAre(c, tq);
    Complement(c, tq);
    Monotone(1, c.samplePoint, tq);
    Monotone(1, SAMPLE_POINT_FACTOR - c.samplePoint, tq);
    assert tq * c.samplePoint == c.samplePoint * tq && tq * (SAMPLE_POINT_FACTOR - c.samplePoint) == (SAMPLE_POINT_FACTOR - c.samplePoint) * tq;
    assert 1 <= q <= 256 && 1 <= tq - q <= 128;
    DivUnique(q - 1, 0x100, 0, q - 1);
    DivUnique(tq - q, 0x100, 0, tq - q);
  }

  lemma RightSegmentsFit(c: Config, tq: nat, seg1: nat, seg2: nat)
    requires SegmentsRight(c, tq, seg1, seg2) && seg1 <= 255 && 1 <= seg2 <= 128
    ensures SegmentsFit(c, tq)
  {
    assert tq * c.samplePoint == c.samplePoint * tq;
    if c.samplePoint >= SAMPLE_POINT_FACTOR {
      Monotone(SAMPLE_POINT_FACTOR, c.samplePoint, tq);
    } else {
      Complement(c, tq);
    }
  }

  /** An accepted timing, read back, makes up the bit with the sample point asked for exactly when both parts have room. */
  lemma SegmentsAddUp(c: Config, tq: nat)
    requires ValidConfig(c) && 8 <= tq <= 512 && Works(c, tq)
    ensures SegmentsRight(c, tq, Seg1(c, tq), 1 + (Seg2(c, tq) - 1) % 0x80) <==> SegmentsFit(c, tq)
  {
    if SegmentsFit(c, tq) {
      FittingSegments(c, tq);
    }
    if SegmentsRight(c, tq, Seg1(c, tq), 1 + (Seg2(c, tq) - 1) % 0x80) {
      RightSegmentsFit(c, tq, Seg1(c, tq), 1 + (Seg2(c, tq) - 1) % 0x80);
    }
  }

  lemma PrescalerGivesRate(c: Config, tq: nat)
    requires ValidConfig(c) && 0 < tq && Works(c, tq)
    ensures GivesRate(c, Prescaler(c, tq), tq)
  {
    Monotone(1, Prescaler(c, tq), tq);
  }

  /** A prescaler 256 too large never gives the bit rate. */
  lemma LargerPrescalerIsWrong(c: Config, tq: nat)
    requires ValidConfig(c) && 0 < tq
    ensures !GivesRate(c, Prescaler(c, tq) + 256, tq)
  {
    var p, step := Prescaler(c, tq), c.bitrate * tq;
    Quotient(c.clock, step, p);
    var k := (p + 256) * tq;
    Monotone(p + 1, p + 256, step);
    assert (p + 1) * step == p * step + step;
    assert (p + 256) * step == c.bitrate * k;
    Quotient(c.clock, k, c.bitrate);
  }

  /**
   * Any nominal timing that the search accepts, read back by the decoders, in terms of what was asked for. The
   * segments are right exactly when they have room. With a prescaler up to 256 the bit rate is right exactly for an
   * odd jump width, above it always; the jump width itself is right exactly if it fits and, with a prescaler above
   * 256, is even.
   */
  lemma NominalMeaning(c: Config, tq: nat, d: Timing)
    requires ValidConfig(c) && !c.dataPhase && 8 <= tq <= MaxTq(c) && Works(c, tq)
    requires d == Decoded(U32(Register(Chosen(c, tq), false)), false)
    ensures SegmentsRight(c, tq, d.seg1, d.seg2) <==> SegmentsFit(c, tq)
    ensures GivesRate(c, d.prescaler, tq) <==> Prescaler(c, tq) > 256 || JumpWidth(c, tq) % 2 == 1
    ensures d.sjw == JumpWidth(c, tq) <==>
              1 <= JumpWidth(c, tq) <= 128 && (Prescaler(c, tq) <= 256 || JumpWidth(c, tq) % 2 == 0)
    ensures SegmentsFit(c, tq) ==> IsSmaller(JumpWidth(c, tq), c.sjw, tq - tq * c.samplePoint / SAMPLE_POINT_FACTOR)
  {
    NominalDecodes(Chosen(c, tq));
    ChosenReadBack(c, tq, d);
  }

  lemma ChosenReadBack(c: Config, tq: nat, d: Timing)
    requires ValidConfig(c) && !c.dataPhase && 8 <= tq <= MaxTq(c) && Works(c, tq) && d == NominalReadBack(Chosen(c, tq))
    ensures SegmentsRight(c, tq, d.seg1, d.seg2) <==> SegmentsFit(c, tq)
    ensures GivesRate(c, d.prescaler, tq) <==> Prescaler(c, tq) > 256 || JumpWidth(c, tq) % 2 == 1
    ensures d.sjw == JumpWidth(c, tq) <==>
              1 <= JumpWidth(c, tq) <= 128 && (Prescaler(c, tq) <= 256 || JumpWidth(c, tq) % 2 == 0)
    ensures SegmentsFit(c, tq) ==> IsSmaller(JumpWidth(c, tq), c.sjw, tq - tq * c.samplePoint / SAMPLE_POINT_FACTOR)
  {
    Seg2Is(c, tq);
    ReadBackMeaning(c, tq, Chosen(c, tq));
    if SegmentsFit(c, tq) {
      FittingJumpWidth(c, tq);
    }
  }

  lemma FittingJumpWidth(c: Config, tq: nat)
    requires 8 <= tq <= 512 && SegmentsFit(c, tq) && tq * c.samplePoint % TWO_32 % SAMPLE_POINT_FACTOR == 0
    ensures IsSmaller(JumpWidth(c, tq), c.sjw, tq - tq * c.samplePoint / SAMPLE_POINT_FACTOR)
  {
    FittingSegments(c, tq);
    QuantaAre(c, tq);
    Seg2Is(c, tq);
    DivUnique(tq * c.samplePoint, SAMPLE_POINT_FACTOR, Quanta(c, tq), 0);
  }

  lemma ReadBackMeaning(c: Config, tq: nat, t: Timing)
    requires ValidConfig(c) && 8 <= tq <= 512 && Works(c, tq)
    requires t == Timing(Prescaler(c, tq), Seg1(c, tq), Seg2(c, tq), t.sjw) && 1 <= t.prescaler <= 512 && t.sjw < TWO_32
    ensures var d := NominalReadBack(t);
            && (SegmentsRight(c, tq, d.seg1, d.seg2) <==> SegmentsFit(c, tq))
            && (GivesRate(c, d.prescaler, tq) <==> t.prescaler > 256 || t.sjw % 2 == 1)
            && (d.sjw == t.sjw <==> 1 <= t.sjw <= 128 && (t.prescaler <= 256 || t.sjw % 2 == 0))
  {
    ReadBackExactly(t);
    SegmentsAddUp(c, tq);
    PrescalerGivesRate(c, tq);
    LargerPrescalerIsWrong(c, tq);
  }

  /** 500 kbit/s from 80 MHz with a jump width of two: the prescaler is 1 and is read back as 257. */
  lemma EvenJumpWidthMisreads(c: Config, d: Timing)
    requires c == Config(80_000_000, 500_000, 8750, 2, false)
    requires d == Decoded(U32(Register(Chosen(c, 160), false)), false)
    ensures ValidConfig(c) && MaxTq(c) == 160 && Works(c, 160)
    ensures Prescaler(c, 160) == 1 && d.prescaler == 257
  {
    WorksWith(c, 160, Timing(1, 139, 20, 2));
    ReadBackOf(Chosen(c, 160), d);
  }

  /** 125 kbit/s from 80 MHz: the search settles on 320 quanta, 280 of them before the sample point, and what is
      written is a bit of 64. */
  lemma LongBitIsCut(c: Config, d: Timing)
    requires c == Config(80_000_000, 125_000, 8750, 1, false)
    requires d == Decoded(U32(Register(Chosen(c, 320), false)), false)
    ensures ValidConfig(c) && MaxTq(c) == 512 && Works(c, 320) && forall n :: 320 < n <= MaxTq(c) ==> !Works(c, n)
    ensures d.seg1 == 23 && d.seg2 == 40
  {
    forall n | 320 < n <= 512
      ensures !Works(c, n)
    {
      TooLong(c, n);
    }
    WorksWith(c, 320, Timing(2, 23, 40, 1));
    ReadBackOf(Chosen(c, 320), d);
  }

  lemma WorksWith(c: Config, tq: nat, t: Timing)
    requires c.clock == 80_000_000 && c.samplePoint == 8750 && !c.dataPhase
    requires (c.bitrate == 500_000 && c.sjw == 2 && tq == 160 && t == Timing(1, 139, 20, 2))
             || (c.bitrate == 125_000 && c.sjw == 1 && tq == 320 && t == Timing(2, 23, 40, 1))
    ensures ValidConfig(c) && Works(c, tq) && Chosen(c, tq) == t
  {
  }

  lemma ReadBackOf(t: Timing, d: Timing)
    requires 1 <= t.prescaler <= 2 && 1 <= t.seg1 <= 255 && 1 <= t.seg2 <= 128 && 1 <= t.sjw <= 128
    requires d == Decoded(U32(Register(t, false)), false)
    ensures d.seg1 == t.seg1 && d.seg2 == t.seg2 && d.prescaler == t.prescaler + if t.sjw % 2 == 0 then 256 else 0
  {
    NominalDecodes(t);
    ReadBackExactly(t);
  }

  lemma TooLong(c: Config, n: nat)
    requires c == Config(80_000_000, 125_000, 8750, 1, false) && 320 < n <= 512
    ensures !Works(c, n)
  {
    DivUnique(80_000_000, 125_000 * n, 1, 80_000_000 - 125_000 * n);
    Quotient(80_000_000, n, 125_000);
  }
}
