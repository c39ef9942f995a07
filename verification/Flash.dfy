/** flash.c over a HAL that may fail any program or erase. */
module Flash {
  import opened Wire

  const FLASH_BASE := 0x0800_0000
  const FLASH_BANK2 := 0x0810_0000
  const FLASH_LIMIT := 0x0820_0000  // first address after the flash
  const SECTOR_SIZE := 0x2_0000
  const WORD_SIZE := 32             // one flash word

  datatype FlashStatus = FlashOk | FlashRange | FlashAlign | FlashParam | FlashHw

  /** What the driver does to the chip, in order; `ok` is the HAL's answer. */
  datatype Access =
    | EraseOp(addr: nat, len: nat, ok: bool)
    | ProgramOp(addr: nat, len: nat, ok: bool)
    | ReadOp(addr: nat, len: nat)

  predicate Covers(a: Access, b: nat) {
    a.addr <= b < a.addr + a.len
  }

  /** The byte has been erased and not programmed since; after a failed operation nothing is known of it. */
  predicate IsErased(trace: seq<Access>, b: nat) {
    trace != [] &&
    var last, before := trace[|trace| - 1], trace[..|trace| - 1];
    if Covers(last, b) && !last.ReadOp? then last.EraseOp? && last.ok else IsErased(before, b)
  }

  ghost predicate RangeErased(trace: seq<Access>, addr: nat, len: nat) {
    forall b: nat :: addr <= b < addr + len ==> IsErased(trace, b)
  }

  /** Every byte programmed had been erased since it was last programmed. */
  ghost predicate Disciplined(trace: seq<Access>) {
    trace == [] ||
    var last, before := trace[|trace| - 1], trace[..|trace| - 1];
    Disciplined(before) && (last.ProgramOp? ==> RangeErased(before, last.addr, last.len))
  }

  predicate Within(trace: seq<Access>, lo: nat, hi: nat) {
    forall i :: 0 <= i < |trace| ==> lo <= trace[i].addr && trace[i].addr + trace[i].len <= hi
  }

  lemma TraceSnoc(trace: seq<Access>, a: Access)
    ensures (trace + [a])[..|trace|] == trace
    ensures Disciplined(trace + [a]) <==> Disciplined(trace) && (a.ProgramOp? ==> RangeErased(trace, a.addr, a.len))
    ensures forall b: nat :: IsErased(trace + [a], b) <==>
              if Covers(a, b) && !a.ReadOp? then a.EraseOp? && a.ok else IsErased(trace, b)
  {
    assert (trace + [a])[..|trace|] == trace;
  }

  /** `n` words programmed one after the other. */
  function WordPrograms(addr: nat, n: nat): (t: seq<Access>)
    ensures |t| == n
  {
    if n == 0 then [] else WordPrograms(addr, n - 1) + [ProgramOp(addr + (n - 1) * WORD_SIZE, WORD_SIZE, true)]
  }

  lemma WordProgramsSnoc(trace: seq<Access>, addr: nat, n: nat)
    ensures trace + WordPrograms(addr, n + 1) == trace + WordPrograms(addr, n) + [ProgramOp(addr + n * WORD_SIZE, WORD_SIZE, true)]
  {
  }

  lemma {:induction false} WordProgramsErased(trace: seq<Access>, addr: nat, n: nat, b: nat)
    ensures IsErased(trace + WordPrograms(addr, n), b) <==> IsErased(trace, b) && !(addr <= b < addr + n * WORD_SIZE)
  {
    if n == 0 {
      assert trace + WordPrograms(addr, n) == trace;
    } else {
      WordProgramsErased(trace, addr, n - 1, b);
      WordProgramsSnoc(trace, addr, n - 1);
      TraceSnoc(trace + WordPrograms(addr, n - 1), ProgramOp(addr + (n - 1) * WORD_SIZE, WORD_SIZE, true));
    }
  }

  lemma {:induction false} WordProgramsDisciplined(trace: seq<Access>, addr: nat, n: nat)
    requires Disciplined(trace) && RangeErased(trace, addr, n * WORD_SIZE)
    ensures Disciplined(trace + WordPrograms(addr, n))
  {
    if n == 0 {
      assert trace + WordPrograms(addr, n) == trace;
    } else {
      var before, a := trace + WordPrograms(addr, n - 1), ProgramOp(addr + (n - 1) * WORD_SIZE, WORD_SIZE, true);
      WordProgramsDisciplined(trace, addr, n - 1);
      forall b: nat | a.addr <= b < a.addr + a.len
        ensures IsErased(before, b)
      {
        WordProgramsErased(trace, addr, n - 1, b);
      }
      WordProgramsSnoc(trace, addr, n - 1);
      TraceSnoc(before, a);
    }
  }

  lemma {:induction false} WordProgramsWithin(addr: nat, n: nat)
    ensures Within(WordPrograms(addr, n), addr, addr + n * WORD_SIZE)
  {
    if n > 0 {
      WordProgramsWithin(addr, n - 1);
    }
  }

  lemma WordProgramsMeaning(trace: seq<Access>, addr: nat, n: nat)
    ensures forall b: nat :: IsErased(trace + WordPrograms(addr, n), b) <==>
              IsErased(trace, b) && !(addr <= b < addr + n * WORD_SIZE)
    ensures Disciplined(trace) && RangeErased(trace, addr, n * WORD_SIZE) ==> Disciplined(trace + WordPrograms(addr, n))
    ensures Within(WordPrograms(addr, n), addr, addr + n * WORD_SIZE)
  {
    forall b: nat
      ensures IsErased(trace + WordPrograms(addr, n), b) <==> IsErased(trace, b) && !(addr <= b < addr + n * WORD_SIZE)
    {
      WordProgramsErased(trace, addr, n, b);
    }
    if Disciplined(trace) && RangeErased(trace, addr, n * WORD_SIZE) {
      WordProgramsDisciplined(trace, addr, n);
    }
    WordProgramsWithin(addr, n);
  }

  lemma {:induction false} WordProgramsJoin(addr: nat, m: nat, n: nat)
    ensures WordPrograms(addr, m) + WordPrograms(addr + m * WORD_SIZE, n) == WordPrograms(addr, m + n)
  {
    if n == 0 {
    } else {
      WordProgramsJoin(addr, m, n - 1);
    }
  }

  function SectorErases(addr: nat, n: nat): (t: seq<Access>)
    ensures |t| == n
  {
    if n == 0 then [] else SectorErases(addr, n - 1) + [EraseOp(addr + (n - 1) * SECTOR_SIZE, SECTOR_SIZE, true)]
  }

  lemma {:induction false} SectorErasesMeaning(trace: seq<Access>, addr: nat, n: nat)
    ensures forall b: nat :: IsErased(trace + SectorErases(addr, n), b) <==>
              IsErased(trace, b) || addr <= b < addr + n * SECTOR_SIZE
    ensures Disciplined(trace) ==> Disciplined(trace + SectorErases(addr, n))
    ensures Within(SectorErases(addr, n), addr, addr + n * SECTOR_SIZE)
  {
    if n == 0 {
      assert trace + SectorErases(addr, n) == trace;
    } else {
      var a := EraseOp(addr + (n - 1) * SECTOR_SIZE, SECTOR_SIZE, true);
      SectorErasesMeaning(trace, addr, n - 1);
      assert trace + SectorErases(addr, n) == trace + SectorErases(addr, n - 1) + [a];
      TraceSnoc(trace + SectorErases(addr, n - 1), a);
    }
  }

  datatype AccessType = ReadAccess | WriteAccess | EraseAccess

  /** AddressCheck of the driver. */
  function AddressCheck(addr: nat, len: nat, kind: AccessType): (status: FlashStatus)
    ensures status == FlashOk ==> 0 < len && FLASH_BASE <= addr && addr + len <= FLASH_LIMIT
    ensures status == FlashOk && kind == WriteAccess ==> addr % WORD_SIZE == 0 && len % WORD_SIZE == 0
    ensures status == FlashOk && kind == EraseAccess ==> addr % SECTOR_SIZE == 0 && len % SECTOR_SIZE == 0
  {
    if len == 0 || len > TWO_32 - 1 then FlashParam
    else if addr < FLASH_BASE || FLASH_LIMIT - FLASH_BASE < len then FlashRange
    else if addr > TWO_32 - 1 - len || FLASH_LIMIT < addr + len then FlashRange
    else match kind
      case ReadAccess => FlashOk
      case WriteAccess =>
        if addr % WORD_SIZE != 0 then FlashParam
        else if len % WORD_SIZE != 0 then FlashAlign
        else FlashOk
      case EraseAccess =>
        if addr % SECTOR_SIZE != 0 || len < SECTOR_SIZE || len % SECTOR_SIZE != 0 then FlashAlign else FlashOk
  }

  /** An access is accepted exactly if it is not empty, lies in the flash, and a write is in whole flash words and an erase in
      whole sectors, from one such place on. */
  lemma AcceptedExactly(addr: nat, len: nat, kind: AccessType)
    requires addr < TWO_32
    ensures AddressCheck(addr, len, kind) == FlashOk <==>
              && 0 < len && FLASH_BASE <= addr && addr + len <= FLASH_LIMIT
              && (kind == WriteAccess ==> addr % WORD_SIZE == 0 && len % WORD_SIZE == 0)
              && (kind == EraseAccess ==> addr % SECTOR_SIZE == 0 && len % SECTOR_SIZE == 0)
  {
  }

  const SOURCE_ALIGNMENT := 4

  /** What Flash_Write answers before it touches the chip; a null source buffer is address 0. */
  function WriteCheck(addr: nat, source: nat, len: nat): (status: FlashStatus)
    ensures status == FlashOk <==> AddressCheck(addr, len, WriteAccess) == FlashOk && IsSource(source)
    ensures AddressCheck(addr, len, WriteAccess) != FlashOk ==> status == AddressCheck(addr, len, WriteAccess)
  {
    var check := AddressCheck(addr, len, WriteAccess);
    if check != FlashOk then check
    else if source == 0 then FlashParam
    else if source % SOURCE_ALIGNMENT != 0 then FlashAlign
    else FlashOk
  }

  /** A buffer the flash can be programmed from. */
  predicate IsSource(source: nat) {
    source != 0 && source % SOURCE_ALIGNMENT == 0
  }

  /** A sector of an accepted range is accepted. */
  lemma SectorIsChecked(addr: nat, len: nat, off: nat)
    requires AddressCheck(addr, len, EraseAccess) == FlashOk && addr < TWO_32 && off % SECTOR_SIZE == 0 && off < len
    ensures off + SECTOR_SIZE <= len && AddressCheck(addr + off, SECTOR_SIZE, EraseAccess) == FlashOk
  {
  }

  function Patch(mem: seq<bv8>, at: nat, src: seq<bv8>): (r: seq<bv8>)
    requires at + |src| <= |mem|
    ensures |r| == |mem|
  {
    mem[..at] + src + mem[at + |src|..]
  }

  lemma PatchPatch(mem: seq<bv8>, at: nat, a: seq<bv8>, b: seq<bv8>)
    requires at + |a| + |b| <= |mem|
    ensures Patch(Patch(mem, at, a), at + |a|, b) == Patch(mem, at, a + b)
  {
  }

  function Blank(n: nat): seq<bv8> {
    seq(n, _ => 0xFF)
  }

  /** What the memory holds from `addr` on, when the range lies in it. */
  function Held(mem: seq<bv8>, addr: int, len: nat): seq<bv8> {
    var at := addr - FLASH_BASE;
    if 0 <= at && at + len <= |mem| then mem[at..at + len] else []
  }

  /** The two memories agree outside [lo, hi). */
  ghost predicate SameOutside(m: seq<bv8>, m': seq<bv8>, lo: int, hi: int) {
    |m| == |m'| && forall i :: 0 <= i < |m| && !(lo <= i < hi) ==> m[i] == m'[i]
  }

  lemma OutsideJoin(m: seq<bv8>, m1: seq<bv8>, m2: seq<bv8>, lo: int, mid: int, hi: int, end: int)
    requires SameOutside(m, m1, lo, mid) && SameOutside(m1, m2, mid, hi) && lo <= mid <= hi <= end
    ensures SameOutside(m, m2, lo, end)
  {
  }

  lemma PatchOutside(mem: seq<bv8>, at: nat, src: seq<bv8>)
    requires at + |src| <= |mem|
    ensures SameOutside(mem, Patch(mem, at, src), at, at + |src|)
  {
  }

  /** The accesses since `t0` all lie in [lo, hi). */
  ghost predicate Extends(t0: seq<Access>, t: seq<Access>, lo: nat, hi: nat) {
    t0 <= t && Within(t[|t0|..], lo, hi)
  }

  lemma ExtendsSnoc(t0: seq<Access>, t: seq<Access>, a: Access, lo: nat, hi: nat)
    requires Extends(t0, t, lo, hi) && lo <= a.addr && a.addr + a.len <= hi
    ensures Extends(t0, t + [a], lo, hi)
  {
    assert (t + [a])[|t0|..] == t[|t0|..] + [a];
  }

  /** Nothing but [addr, addr + len) was changed or accessed. */
  ghost predicate Confined(m: seq<bv8>, t: seq<Access>, m': seq<bv8>, t': seq<Access>, addr: nat, len: nat) {
    SameOutside(m, m', addr - FLASH_BASE, addr - FLASH_BASE + len) && Extends(t, t', addr, addr + len)
  }

  /** The last access is one that the hardware failed. */
  ghost predicate EndsInFailure(t: seq<Access>, t': seq<Access>) {
    |t| < |t'| && !t'[|t'| - 1].ReadOp? && !t'[|t'| - 1].ok
  }

  /** `src` was programmed at `addr`, word by word, and nothing else happened. */
  ghost predicate Wrote(m: seq<bv8>, t: seq<Access>, m': seq<bv8>, t': seq<Access>, addr: nat, src: seq<bv8>) {
    && FLASH_BASE <= addr && addr - FLASH_BASE + |src| <= |m| && |src| % WORD_SIZE == 0
    && m' == Patch(m, addr - FLASH_BASE, src)
    && t' == t + WordPrograms(addr, |src| / WORD_SIZE)
  }

  /** [addr, addr + len) was erased, sector by sector, and nothing else happened. */
  ghost predicate Wiped(m: seq<bv8>, t: seq<Access>, m': seq<bv8>, t': seq<Access>, addr: nat, len: nat) {
    && FLASH_BASE <= addr && addr - FLASH_BASE + len <= |m| && len % SECTOR_SIZE == 0
    && m' == Patch(m, addr - FLASH_BASE, Blank(len))
    && t' == t + SectorErases(addr, len / SECTOR_SIZE)
  }

  lemma WroteConfined(m: seq<bv8>, t: seq<Access>, m': seq<bv8>, t': seq<Access>, addr: nat, src: seq<bv8>)
    requires Wrote(m, t, m', t', addr, src)
    ensures Confined(m, t, m', t', addr, |src|)
  {
    WordProgramsMeaning(t, addr, |src| / WORD_SIZE);
    PatchOutside(m, addr - FLASH_BASE, src);
    assert t'[|t|..] == WordPrograms(addr, |src| / WORD_SIZE);
  }

  lemma WipedConfined(m: seq<bv8>, t: seq<Access>, m': seq<bv8>, t': seq<Access>, addr: nat, len: nat)
    requires Wiped(m, t, m', t', addr, len)
    ensures Confined(m, t, m', t', addr, len)
  {
    SectorErasesMeaning(t, addr, len / SECTOR_SIZE);
    PatchOutside(m, addr - FLASH_BASE, Blank(len));
    assert len / SECTOR_SIZE * SECTOR_SIZE == len;
    assert t'[|t|..] == SectorErases(addr, len / SECTOR_SIZE);
  }

  /** What was done so far, and one more access after it, stay inside a range that holds both. */
  lemma ConfinedStep(m: seq<bv8>, t: seq<Access>, m1: seq<bv8>, t1: seq<Access>, m2: seq<bv8>, a: Access,
                     addr: nat, off: nat, len: nat)
    requires Confined(m, t, m1, t1, addr, off) && a.addr == addr + off && off + a.len <= len
    requires SameOutside(m1, m2, a.addr - FLASH_BASE, a.addr - FLASH_BASE + a.len)
    ensures Confined(m, t, m2, t1 + [a], addr, len)
  {
    var lo := addr - FLASH_BASE;
    OutsideJoin(m, m1, m2, lo, lo + off, lo + off + a.len, lo + len);
    ExtendsSnoc(t, t1, a, addr, addr + len);
  }

  lemma WordStep(m: seq<bv8>, t: seq<Access>, m1: seq<bv8>, t1: seq<Access>, m2: seq<bv8>,
                 addr: nat, src: seq<bv8>, offset: nat)
    requires offset + WORD_SIZE <= |src| && offset % WORD_SIZE == 0 && Wrote(m, t, m1, t1, addr, src[..offset])
    requires addr - FLASH_BASE + |src| <= |m|
    requires m2 == Patch(m1, addr + offset - FLASH_BASE, src[offset..offset + WORD_SIZE])
    ensures Wrote(m, t, m2, t1 + [ProgramOp(addr + offset, WORD_SIZE, true)], addr, src[..offset + WORD_SIZE])
  {
    assert src[..offset] + src[offset..offset + WORD_SIZE] == src[..offset + WORD_SIZE];
    PatchPatch(m, addr - FLASH_BASE, src[..offset], src[offset..offset + WORD_SIZE]);
    var n := offset / WORD_SIZE;
    assert (offset + WORD_SIZE) / WORD_SIZE == n + 1 && n * WORD_SIZE == offset;
    assert t1 + [ProgramOp(addr + offset, WORD_SIZE, true)] == t + WordPrograms(addr, n + 1);
  }

  lemma SectorStep(m: seq<bv8>, t: seq<Access>, m1: seq<bv8>, t1: seq<Access>, m2: seq<bv8>,
                   addr: nat, len: nat, off: nat)
    requires off + SECTOR_SIZE <= len && off % SECTOR_SIZE == 0 && Wiped(m, t, m1, t1, addr, off)
    requires addr - FLASH_BASE + len <= |m|
    requires m2 == Patch(m1, addr + off - FLASH_BASE, Blank(SECTOR_SIZE))
    ensures Wiped(m, t, m2, t1 + [EraseOp(addr + off, SECTOR_SIZE, true)], addr, off + SECTOR_SIZE)
  {
    assert Blank(off) + Blank(SECTOR_SIZE) == Blank(off + SECTOR_SIZE);
    PatchPatch(m, addr - FLASH_BASE, Blank(off), Blank(SECTOR_SIZE));
    var n := off / SECTOR_SIZE;
    assert (off + SECTOR_SIZE) / SECTOR_SIZE == n + 1 && n * SECTOR_SIZE == off;
    assert t1 + [EraseOp(addr + off, SECTOR_SIZE, true)] == t + SectorErases(addr, n + 1);
  }

  /** An operation that fails after others went well leaves everything outside the range as it was. */
  lemma WordFails(m: seq<bv8>, t: seq<Access>, m1: seq<bv8>, t1: seq<Access>, m2: seq<bv8>,
                  addr: nat, src: seq<bv8>, offset: nat)
    requires offset + WORD_SIZE <= |src| && Wrote(m, t, m1, t1, addr, src[..offset])
    requires SameOutside(m1, m2, addr + offset - FLASH_BASE, addr + offset - FLASH_BASE + WORD_SIZE)
    ensures Confined(m, t, m2, t1 + [ProgramOp(addr + offset, WORD_SIZE, false)], addr, |src|)
  {
    WroteConfined(m, t, m1, t1, addr, src[..offset]);
    ConfinedStep(m, t, m1, t1, m2, ProgramOp(addr + offset, WORD_SIZE, false), addr, offset, |src|);
  }

  lemma SectorFails(m: seq<bv8>, t: seq<Access>, m1: seq<bv8>, t1: seq<Access>, m2: seq<bv8>,
                    addr: nat, len: nat, off: nat)
    requires off + SECTOR_SIZE <= len && Wiped(m, t, m1, t1, addr, off)
    requires SameOutside(m1, m2, addr + off - FLASH_BASE, addr + off - FLASH_BASE + SECTOR_SIZE)
    ensures Confined(m, t, m2, t1 + [EraseOp(addr + off, SECTOR_SIZE, false)], addr, len)
  {
    WipedConfined(m, t, m1, t1, addr, off);
    ConfinedStep(m, t, m1, t1, m2, EraseOp(addr + off, SECTOR_SIZE, false), addr, off, len);
  }

  class Chip {
    var mem: seq<bv8>
    ghost var trace: seq<Access>

    predicate Valid()
      reads this
    {
      |mem| == FLASH_LIMIT - FLASH_BASE
    }

    constructor (contents: seq<bv8>)
      requires |contents| == FLASH_LIMIT - FLASH_BASE
      ensures Valid() && mem == contents && trace == []
    {
      mem := contents;
      trace := [];
    }

    /** HAL_FLASH_Program on one flash word: if it fails, the word may hold anything. */
    method ProgramWord(addr: nat, word: seq<bv8>) returns (ok: bool)
      requires Valid() && FLASH_BASE <= addr && addr + WORD_SIZE <= FLASH_LIMIT && |word| == WORD_SIZE
      modifies this
      ensures Valid()
      ensures trace == old(trace) + [ProgramOp(addr, WORD_SIZE, ok)]
      ensures ok ==> mem == Patch(old(mem), addr - FLASH_BASE, word)
      ensures SameOutside(old(mem), mem, addr - FLASH_BASE, addr - FLASH_BASE + WORD_SIZE)
    {
      ok := *;
      var cells: seq<bv8> := *;
      if ok || |cells| != WORD_SIZE {
        cells := word;
      }
      PatchOutside(mem, addr - FLASH_BASE, cells);
      mem := Patch(mem, addr - FLASH_BASE, cells);
      trace := trace + [ProgramOp(addr, WORD_SIZE, ok)];
    }

    /** HAL_FLASHEx_Erase on one sector of a bank. */
    method EraseBankSector(bank2: bool, sector: nat) returns (ok: bool)
      requires Valid() && sector < (FLASH_BANK2 - FLASH_BASE) / SECTOR_SIZE
      modifies this
      ensures Valid()
      ensures var addr := (if bank2 then FLASH_BANK2 else FLASH_BASE) + sector * SECTOR_SIZE;
              && trace == old(trace) + [EraseOp(addr, SECTOR_SIZE, ok)]
              && (ok ==> mem == Patch(old(mem), addr - FLASH_BASE, Blank(SECTOR_SIZE)))
              && SameOutside(old(mem), mem, addr - FLASH_BASE, addr - FLASH_BASE + SECTOR_SIZE)
    {
      ok := *;
      var addr := (if bank2 then FLASH_BANK2 else FLASH_BASE) + sector * SECTOR_SIZE;
      var cells: seq<bv8> := *;
      if ok || |cells| != SECTOR_SIZE {
        cells := Blank(SECTOR_SIZE);
      }
      PatchOutside(mem, addr - FLASH_BASE, cells);
      mem := Patch(mem, addr - FLASH_BASE, cells);
      trace := trace + [EraseOp(addr, SECTOR_SIZE, ok)];
    }

    method EraseSector(addr: nat) returns (status: FlashStatus)
      requires Valid() && addr < TWO_32
      modifies this
      ensures Valid()
      ensures status in {FlashOk, FlashHw} <==> AddressCheck(addr, SECTOR_SIZE, EraseAccess) == FlashOk
      ensures status !in {FlashOk, FlashHw} ==> mem == old(mem) && trace == old(trace)
      ensures status == FlashOk ==> mem == Patch(old(mem), addr - FLASH_BASE, Blank(SECTOR_SIZE))
      ensures status in {FlashOk, FlashHw} ==> trace == old(trace) + [EraseOp(addr, SECTOR_SIZE, status == FlashOk)]
      ensures SameOutside(old(mem), mem, addr - FLASH_BASE, addr - FLASH_BASE + SECTOR_SIZE)
    {
      status := AddressCheck(addr, SECTOR_SIZE, EraseAccess);
      if status != FlashOk {
        return status;
      }
      var bank2 := addr >= FLASH_BANK2;
      var sector := if bank2 then (addr - FLASH_BANK2) / SECTOR_SIZE else (addr - FLASH_BASE) / SECTOR_SIZE;
      var ok := EraseBankSector(bank2, sector);
      return if ok then FlashOk else FlashHw;
    }

    /** Flash_Erase: sector by sector, stopping at the first failure. */
    method Erase(addr: nat, len: nat) returns (status: FlashStatus)
      requires Valid() && addr < TWO_32
      modifies this
      ensures Valid()
      ensures AddressCheck(addr, len, EraseAccess) != FlashOk ==>
                status == AddressCheck(addr, len, EraseAccess) && mem == old(mem) && trace == old(trace)
      ensures AddressCheck(addr, len, EraseAccess) == FlashOk ==> status in {FlashOk, FlashHw}
      ensures status == FlashHw ==> EndsInFailure(old(trace), trace)
      ensures status == FlashOk ==> Wiped(old(mem), old(trace), mem, trace, addr, len)
      ensures Confined(old(mem), old(trace), mem, trace, addr, len)
    {
      status := AddressCheck(addr, len, EraseAccess);
      if status != FlashOk {
        return status;
      }
      var off := 0;
      ghost var m0, t0 := mem, trace;
      ghost var m, t := m0, t0;
      while off < len
        invariant 0 <= off <= len && off % SECTOR_SIZE == 0
        invariant Valid() && mem == m && trace == t
        invariant Wiped(m0, t0, m, t, addr, off)
      {
        SectorIsChecked(addr, len, off);
        status := EraseSector(addr + off);
        if status != FlashOk {
          SectorFails(m0, t0, m, t, mem, addr, len, off);
          return status;
        }
        SectorStep(m0, t0, m, t, mem, addr, len, off);
        m, t := mem, trace;
        off := off + SECTOR_SIZE;
      }
      WipedConfined(m0, t0, m, t, addr, len);
      return FlashOk;
    }

    /** Flash_Write of `src`, which lies at the address `source`: flash word by flash word, stopping at the first failure. */
    method Write(addr: nat, source: nat, src: seq<bv8>) returns (status: FlashStatus)
      requires Valid() && addr < TWO_32
      modifies this
      ensures Valid()
      ensures var check := WriteCheck(addr, source, |src|);
              if check != FlashOk then status == check && mem == old(mem) && trace == old(trace) else status in {FlashOk, FlashHw}
      ensures status == FlashHw ==> EndsInFailure(old(trace), trace)
      ensures status == FlashOk ==> Wrote(old(mem), old(trace), mem, trace, addr, src)
      ensures Confined(old(mem), old(trace), mem, trace, addr, |src|)
    {
      status := AddressCheck(addr, |src|, WriteAccess);
      if status != FlashOk {
        return status;
      }
      if source == 0 {
        return FlashParam;
      }
      if source % SOURCE_ALIGNMENT != 0 {
        return FlashAlign;
      }
      var offset := 0;
      ghost var m0, t0 := mem, trace;
      ghost var m, t := m0, t0;
      while offset < |src|
        invariant 0 <= offset <= |src| && offset % WORD_SIZE == 0
        invariant Valid() && mem == m && trace == t
        invariant Wrote(m0, t0, m, t, addr, src[..offset])
      {
        var ok := ProgramWord(addr + offset, src[offset..offset + WORD_SIZE]);
        if !ok {
          WordFails(m0, t0, m, t, mem, addr, src, offset);
          return FlashHw;
        }
        WordStep(m0, t0, m, t, mem, addr, src, offset);
        m, t := mem, trace;
        offset := offset + WORD_SIZE;
      }
      assert src[..|src|] == src;
      WroteConfined(m0, t0, m, t, addr, src);
      return FlashOk;
    }

    method Read(addr: nat, len: nat) returns (status: FlashStatus, data: seq<bv8>)
      requires Valid() && addr < TWO_32
      modifies this`trace
      ensures Valid()
      ensures status == AddressCheck(addr, len, ReadAccess)
      ensures status == FlashOk ==> data == Held(mem, addr, len) && |data| == len
      ensures trace == if status == FlashOk then old(trace) + [ReadOp(addr, len)] else old(trace)
    {
      status := AddressCheck(addr, len, ReadAccess);
      if status != FlashOk {
        return status, [];
      }
      trace := trace + [ReadOp(addr, len)];
      return FlashOk, Held(mem, addr, len);
    }
  }
}
