/** IapFlashAdapter.c: the writer's storage callbacks over the flash driver. */
module FlashAdapter {
  import opened Wire
  import opened Flash

  const BOUNCE_SIZE := 1024

  datatype StorageStatus = StorageOk | StorageParam | StorageRange | StorageAlign | StorageVerify | StorageIo

  function MapFlashStatus(s: FlashStatus): StorageStatus {
    match s
    case FlashOk => StorageOk
    case FlashParam => StorageParam
    case FlashRange => StorageRange
    case FlashAlign => StorageAlign
    case FlashHw => StorageIo
  }

  lemma WroteJoin(m: seq<bv8>, t: seq<Access>, m1: seq<bv8>, t1: seq<Access>, m2: seq<bv8>, t2: seq<Access>,
                  addr: nat, a: seq<bv8>, b: seq<bv8>)
    requires Wrote(m, t, m1, t1, addr, a) && Wrote(m1, t1, m2, t2, addr + |a|, b)
    ensures Wrote(m, t, m2, t2, addr, a + b)
  {
    PatchPatch(m, addr - FLASH_BASE, a, b);
    var i, j := |a| / WORD_SIZE, |b| / WORD_SIZE;
    WholeWords(|a|, |b|);
    WordProgramsJoin(addr, i, j);
    TraceJoin(t, WordPrograms(addr, i), WordPrograms(addr + |a|, j));
  }

  lemma WholeWords(x: nat, y: nat)
    requires x % WORD_SIZE == 0 && y % WORD_SIZE == 0
    ensures (x + y) % WORD_SIZE == 0 && (x + y) / WORD_SIZE == x / WORD_SIZE + y / WORD_SIZE
    ensures x / WORD_SIZE * WORD_SIZE == x
  {
  }

  lemma TraceJoin(t: seq<Access>, a: seq<Access>, b: seq<Access>)
    ensures t + a + b == t + (a + b)
  {
  }

  ghost predicate WroteUpTo(m: seq<bv8>, t: seq<Access>, m': seq<bv8>, t': seq<Access>, addr: nat, src: seq<bv8>) {
    if src == [] then m' == m && t' == t else Wrote(m, t, m', t', addr, src)
  }

  lemma ChunkStep(m: seq<bv8>, t: seq<Access>, m1: seq<bv8>, t1: seq<Access>, m2: seq<bv8>, t2: seq<Access>,
                  addr: nat, src: seq<bv8>, offset: nat, n: nat)
    requires offset + n <= |src| && 0 < n
    requires WroteUpTo(m, t, m1, t1, addr, src[..offset]) && Wrote(m1, t1, m2, t2, addr + offset, src[offset..offset + n])
    ensures WroteUpTo(m, t, m2, t2, addr, src[..offset + n])
  {
    assert src[..offset] + src[offset..offset + n] == src[..offset + n];
    if offset > 0 {
      WroteJoin(m, t, m1, t1, m2, t2, addr, src[..offset], src[offset..offset + n]);
    }
  }

  /** What was written so far and one more access to the chunk after it stay inside the range. */
  lemma ChunkConfined(m: seq<bv8>, t: seq<Access>, m1: seq<bv8>, t1: seq<Access>, m2: seq<bv8>, t2: seq<Access>,
                      addr: nat, src: seq<bv8>, offset: nat, n: nat)
    requires offset + n <= |src| && offset % WORD_SIZE == 0
    requires WroteUpTo(m, t, m1, t1, addr, src[..offset]) && Confined(m1, t1, m2, t2, addr + offset, n)
    ensures Confined(m, t, m2, t2, addr, |src|)
  {
    if offset > 0 {
      WroteConfined(m, t, m1, t1, addr, src[..offset]);
    }
    assert t2[|t|..] == t1[|t|..] + t2[|t1|..];
  }

  /** The next chunk: as much as the bounce buffer takes, in whole flash words. */
  function ChunkLength(left: nat, maxChunk: nat): (n: nat)
    requires 0 < maxChunk && maxChunk % WORD_SIZE == 0
    ensures n <= left && n <= maxChunk && n % WORD_SIZE == 0
    ensures 0 < left && left % WORD_SIZE == 0 ==> 0 < n
  {
    if left > maxChunk then maxChunk
    else if left >= WORD_SIZE then (left / WORD_SIZE) * WORD_SIZE
    else 0
  }

  lemma ChunkIsChecked(addr: nat, len: nat, offset: nat, n: nat)
    requires addr < TWO_32 && AddressCheck(addr, len, WriteAccess) == FlashOk
    requires 0 < n && offset + n <= len && offset % WORD_SIZE == 0 && n % WORD_SIZE == 0
    ensures AddressCheck(addr + offset, n, WriteAccess) == FlashOk
  {
  }

  class Adapter {
    const chip: Chip
    const maxChunk: nat
    const bounce: array<bv8>
    const bounceAddress: nat  // where the bounce buffer lies

    ghost predicate Valid()
      reads this, chip
    {
      && chip.Valid() && bounce.Length == BOUNCE_SIZE && IsSource(bounceAddress)
      && 0 < maxChunk <= BOUNCE_SIZE && maxChunk % WORD_SIZE == 0
    }

    /** IapFlashAdapter_InitOps: the largest chunk is the bounce buffer in whole flash words. */
    constructor (chip: Chip, bounceAddress: nat)
      requires chip.Valid() && IsSource(bounceAddress)
      ensures Valid() && this.chip == chip && fresh(bounce)
    {
      this.chip := chip;
      this.bounceAddress := bounceAddress;
      maxChunk := (BOUNCE_SIZE / WORD_SIZE) * WORD_SIZE;
      bounce := new bv8[BOUNCE_SIZE];
    }

    method Erase(addr: nat, len: nat) returns (status: StorageStatus)
      requires Valid() && addr < TWO_32
      modifies chip
      ensures Valid()
      ensures status == StorageOk ==> Wiped(old(chip.mem), old(chip.trace), chip.mem, chip.trace, addr, len)
      ensures status != StorageOk ==> AddressCheck(addr, len, EraseAccess) != FlashOk || EndsInFailure(old(chip.trace), chip.trace)
      ensures if AddressCheck(addr, len, EraseAccess) == FlashOk then status in {StorageOk, StorageIo}
              else status == MapFlashStatus(AddressCheck(addr, len, EraseAccess))
      ensures Confined(old(chip.mem), old(chip.trace), chip.mem, chip.trace, addr, len)
    {
      var s := chip.Erase(addr, len);
      return MapFlashStatus(s);
    }

    /**
     * Chunk by chunk through the bounce buffer. When it reports OK, chip and access trace are what one
     * plain write of the whole source would have left, which for an empty source is nothing; whatever it
     * reports, it stays inside the range.
     */
    method Write(addr: nat, src: seq<bv8>) returns (status: StorageStatus)
      requires Valid() && addr < TWO_32 && |src| < TWO_32
      modifies chip, bounce
      ensures Valid()
      ensures status == StorageOk ==> WroteUpTo(old(chip.mem), old(chip.trace), chip.mem, chip.trace, addr, src)
      ensures Confined(old(chip.mem), old(chip.trace), chip.mem, chip.trace, addr, |src|)
      ensures status != StorageOk ==> AddressCheck(addr, |src|, WriteAccess) != FlashOk || EndsInFailure(old(chip.trace), chip.trace)
      ensures AddressCheck(addr, |src|, WriteAccess) == FlashOk ==> status in {StorageOk, StorageIo}
    {
      status := StorageOk;
      var left, offset := |src|, 0;
      ghost var m0, t0 := chip.mem, chip.trace;
      ghost var m, t := m0, t0;
      while left > 0
        invariant 0 <= offset && 0 <= left && offset + left == |src| && offset % WORD_SIZE == 0
        invariant Valid() && chip.mem == m && chip.trace == t
        invariant WroteUpTo(m0, t0, m, t, addr, src[..offset])
        invariant status == StorageOk
        invariant offset > 0 ==> addr + offset <= FLASH_LIMIT
      {
        var copyLen := ChunkLength(left, maxChunk);
        if copyLen == 0 {
          assert AddressCheck(addr, |src|, WriteAccess) != FlashOk;
          ChunkConfined(m0, t0, m, t, m, t, addr, src, offset, 0);
          return StorageAlign;
        }
        status := WriteNext(addr, src, offset, copyLen, m0, t0);
        if status != StorageOk {
          return status;
        }
        m, t := chip.mem, chip.trace;
        offset := offset + copyLen;
        left := left - copyLen;
      }
      assert src[..|src|] == src;
      ChunkConfined(m0, t0, m, t, m, t, addr, src, offset, 0);
    }

    /** The next `n` bytes of the source, after `offset` of them were written since the chip was at (m0, t0). */
    method WriteNext(addr: nat, src: seq<bv8>, offset: nat, n: nat, ghost m0: seq<bv8>, ghost t0: seq<Access>)
        returns (status: StorageStatus)
      requires Valid() && addr + offset < TWO_32 && 0 < n <= BOUNCE_SIZE && offset + n <= |src|
      requires offset % WORD_SIZE == 0 && n % WORD_SIZE == 0
      requires WroteUpTo(m0, t0, chip.mem, chip.trace, addr, src[..offset])
      modifies chip, bounce
      ensures Valid()
      ensures status == StorageOk ==> WroteUpTo(m0, t0, chip.mem, chip.trace, addr, src[..offset + n]) && addr + offset + n <= FLASH_LIMIT
      ensures status != StorageOk ==> Confined(m0, t0, chip.mem, chip.trace, addr, |src|)
      ensures status != StorageOk ==> AddressCheck(addr, |src|, WriteAccess) != FlashOk || EndsInFailure(t0, chip.trace)
      ensures AddressCheck(addr, |src|, WriteAccess) == FlashOk ==> status in {StorageOk, StorageIo}
    {
      ghost var m, t := chip.mem, chip.trace;
      if AddressCheck(addr, |src|, WriteAccess) == FlashOk {
        ChunkIsChecked(addr, |src|, offset, n);
      }
      status := WriteBounced(addr + offset, src[offset..offset + n]);
      if status == StorageOk {
        ChunkStep(m0, t0, m, t, chip.mem, chip.trace, addr, src, offset, n);
      } else {
        ChunkConfined(m0, t0, m, t, chip.mem, chip.trace, addr, src, offset, n);
      }
    }

    /** One chunk: copied to the bounce buffer and written from there. */
    method WriteBounced(addr: nat, chunk: seq<bv8>) returns (status: StorageStatus)
      requires Valid() && 0 < |chunk| <= BOUNCE_SIZE && addr < TWO_32
      modifies chip, bounce
      ensures Valid()
      ensures status == StorageOk ==> Wrote(old(chip.mem), old(chip.trace), chip.mem, chip.trace, addr, chunk)
      ensures Confined(old(chip.mem), old(chip.trace), chip.mem, chip.trace, addr, |chunk|)
      ensures status != StorageOk ==> AddressCheck(addr, |chunk|, WriteAccess) != FlashOk || EndsInFailure(old(chip.trace), chip.trace)
      ensures AddressCheck(addr, |chunk|, WriteAccess) == FlashOk ==> status in {StorageOk, StorageIo}
    {
      forall i | 0 <= i < |chunk| { bounce[i] := chunk[i]; }
      assert bounce[..|chunk|] == chunk;
      var s := chip.Write(addr, bounceAddress, bounce[..|chunk|]);
      status := MapFlashStatus(s);
    }

    method Read(addr: nat, len: nat) returns (status: StorageStatus, data: seq<bv8>)
      requires Valid() && addr < TWO_32
      modifies chip`trace
      ensures Valid()
      ensures status == MapFlashStatus(AddressCheck(addr, len, ReadAccess))
      ensures status == StorageOk ==>
                data == Held(old(chip.mem), addr, len) && |data| == len && chip.trace == old(chip.trace) + [ReadOp(addr, len)]
      ensures status != StorageOk ==> chip.trace == old(chip.trace)
    {
      var s;
      s, data := chip.Read(addr, len);
      status := MapFlashStatus(s);
    }

    function EraseSize(): nat { SECTOR_SIZE }
    function ProgSize(): nat { WORD_SIZE }
  }
}
