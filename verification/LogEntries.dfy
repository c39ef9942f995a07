/** How the poll loop turns a received frame into an entry, and what the host reads out of it. */
module LogEntries {
  import opened Wire
  import opened BlockFormat

  /** The packed 16-bit word of a frame: DLC 4 bits, data length 7 bits, FDF, BRS, ESI, IDE. */
  datatype CanFrame = CanFrame(
    dlc: nat, dataLen: nat, fdf: bool, brs: bool, esi: bool, ide: bool,
    timestamp: nat, id: nat, channel: byte, data: seq<byte>)
  {
    predicate Valid() {
      && dlc < 0x10 && |data| == 64 && dataLen <= 64
      && timestamp < TWO_32 && id < TWO_32
    }
  }

  function Bit(b: bool): nat {
    if b then 1 else 0
  }

  /** DLC in the low nibble, IDE, FDF, BRS and ESI above it. */
  function DlcFlags(f: CanFrame): byte
    requires f.Valid()
  {
    (f.dlc + 0x10 * Bit(f.ide) + 0x20 * Bit(f.fdf) + 0x40 * Bit(f.brs) + 0x80 * Bit(f.esi)) as byte
  }

  /** appCanLogFillEntry; the total length is an 8-bit sum. */
  function FrameEntry(f: CanFrame): (e: Entry)
    requires f.Valid()
    ensures HostReadable(e)
  {
    [TYPE_FRAME, ENTRY_HEADER_SIZE as byte, ((FRAME_FIXED_SIZE + f.dataLen) % 0x100) as byte]
    + U32(f.timestamp) + U32(f.id) + [f.channel, DlcFlags(f), f.dataLen as byte] + f.data[..f.dataLen]
  }

  /** CanLogManager_EmitSyncEntry: the low word comes from the frame, the high word from the clock. */
  function SyncEntry(absTime: nat, frameTimestamp: nat): (e: Entry)
    ensures HostReadable(e)
  {
    [TYPE_SYNC, ENTRY_HEADER_SIZE as byte, SYNC_SIZE as byte] + U32(frameTimestamp) + U32(absTime / TWO_32)
  }

  datatype HostFrame = HostFrame(
    timestamp: nat, id: nat, channel: byte, dlc: nat, ide: bool, fdf: bool, brs: bool, esi: bool, data: seq<byte>)

  /** What the host unpacks from a frame entry. */
  function ReadFrame(e: Entry): HostFrame
    requires FRAME_FIXED_SIZE <= |e|
  {
    var flags := e[12] as nat;
    var payload := e[FRAME_FIXED_SIZE..];
    HostFrame(FromU32(e[3..7]), FromU32(e[7..11]), e[11],
              flags % 0x10, flags / 0x10 % 2 == 1, flags / 0x20 % 2 == 1, flags / 0x40 % 2 == 1, flags / 0x80 % 2 == 1,
              payload[..Min(Min(e[13] as nat, |payload|), 64)])
  }

  lemma FlagsRoundTrip(dlc: nat, ide: bool, fdf: bool, brs: bool, esi: bool)
    requires dlc < 0x10
    ensures var b := dlc + 0x10 * Bit(ide) + 0x20 * Bit(fdf) + 0x40 * Bit(brs) + 0x80 * Bit(esi);
            && b % 0x10 == dlc && (b / 0x10 % 2 == 1) == ide && (b / 0x20 % 2 == 1) == fdf
            && (b / 0x40 % 2 == 1) == brs && (b / 0x80 % 2 == 1) == esi
  {
  }

  lemma FrameParts(head: seq<byte>, ts: seq<byte>, id: seq<byte>, last: seq<byte>, payload: seq<byte>)
    requires |head| == 3 && |ts| == |id| == 4 && |last| == 3
    ensures var e := head + ts + id + last + payload;
            && e[3..7] == ts && e[7..11] == id && e[11] == last[0] && e[12] == last[1] && e[13] == last[2] && e[14..] == payload
  {
  }

  /** The host gets back every field of the frame and its payload. */
  lemma FrameRoundTrip(f: CanFrame)
    requires f.Valid()
    ensures ReadFrame(FrameEntry(f))
         == HostFrame(f.timestamp, f.id, f.channel, f.dlc, f.ide, f.fdf, f.brs, f.esi, f.data[..f.dataLen])
  {
    var e := FrameEntry(f);
    FrameParts(e[..3], U32(f.timestamp), U32(f.id), [f.channel, DlcFlags(f), f.dataLen as byte], f.data[..f.dataLen]);
    U32Exact(f.timestamp);
    U32Exact(f.id);
    FlagsRoundTrip(f.dlc, f.ide, f.fdf, f.brs, f.esi);
  }

  /** Low and high word of a sync entry put together are the clock, when both were taken in the same epoch. */
  lemma SyncRoundTrip(absTime: nat, frameTimestamp: nat)
    requires absTime < TWO_32 * TWO_32
    ensures var e := SyncEntry(absTime, frameTimestamp);
            && FromU32(e[3..7]) == frameTimestamp % TWO_32
            && FromU32(e[7..11]) == absTime / TWO_32
            && (frameTimestamp % TWO_32 == absTime % TWO_32 ==>
                  FromU32(e[7..11]) * TWO_32 + FromU32(e[3..7]) == absTime)
  {
    var e := SyncEntry(absTime, frameTimestamp);
    assert e[3..7] == U32(frameTimestamp) && e[7..11] == U32(absTime / TWO_32);
    U32RoundTrip(frameTimestamp);
    U32RoundTrip(absTime / TWO_32);
  }
}
