/** The staging buffer as the firmware writes it: statics, loops and calls into the byte ring. */
module CanLogBuffer {
  import opened Wire
  import opened BlockFormat
  import opened ByteRing
  import opened LogSteps
  import opened Runs

  class Buffer {
    const bs: nat
    const epoch: byte
    const rb: LwRb
    var blockCount: byte
    var frames1: nat
    var frames2: nat

    ghost predicate Valid()
      reads this, rb, rb.buff
    {
      rb.Valid() && HEADER_SIZE + ENTRY_HEADER_SIZE < bs < TWO_32 && Remainder(rb.buff.Length, bs) == 0
    }

    ghost function State(): (s: LogState)
      reads this, rb, rb.buff
      requires Valid()
      ensures s.Ok()
    {
      LogState(bs, rb.v, frames1, frames2, blockCount, epoch)
    }

    constructor (blockSize: nat, blocks: nat, epochCount: byte)
      requires HEADER_SIZE + ENTRY_HEADER_SIZE < blockSize < TWO_32 && 0 < blocks
      ensures Valid() && fresh(rb) && fresh(rb.buff)
      ensures State() == LogState(blockSize, Ring(blocks * blockSize, 0, []), 0, 0, 0, epochCount)
    {
      var storage := new byte[blocks * blockSize];
      RemainderOfMultiple(blocks, blockSize);
      assert blocks * blockSize >= blockSize;
      rb := new LwRb(storage);
      bs, epoch := blockSize, epochCount;
      blockCount, frames1, frames2 := 0, 0, 0;
    }

    /** The ring pointer's offset in its block, in terms of the abstract ring. */
    lemma Pointers()
      requires Valid()
      ensures rb.w == rb.v.W() && rb.r == rb.v.r
    {
    }

    /** The padding loop shared by AddEntry and FillBlockWithPadding; false if the ring took less than a chunk. */
    method WriteChunks(padLen: nat, ghost s0: LogState, ghost p0: Producer, ghost p: Producer) returns (ok: bool)
      requires Valid() && 0 < padLen <= rb.GetFree()
      requires p == FillPad(padLen) || (p.AddPad? && p.left == padLen && ProducerOk(p))
      requires ProducerLeads(s0, p0, State(), p)
      modifies rb`w, rb`v, rb.buff
      ensures Valid() && rb.GetFree() + padLen == old(rb.GetFree())
      ensures ok && ProducerLeads(s0, p0, State(), if p.AddPad? then AddLoop(p.e) else Returned(Status.Ok))
    {
      var left: nat := padLen;
      ghost var s := State();
      while left > 0
        invariant Valid() && State() == s && left <= padLen
        invariant ProducerLeads(s0, p0, s, if left > 0 then p.(left := left)
                                           else if p.AddPad? then AddLoop(p.e) else Returned(Status.Ok))
        invariant rb.GetFree() + (padLen - left) == old(rb.GetFree())
      {
        ProducerPads(s0, p0, s, p.(left := left), left);
        var chunk := if left > PADDING_CHUNK then PADDING_CHUNK else left;
        var n := rb.Write(Pads(chunk));
        s := s.(ring := rb.v);
        if n != chunk {
          return false;
        }
        left := left - chunk;
      }
      return true;
    }

    method AddEntry(entry: Entry) returns (status: Status)
      requires Valid() && ENTRY_HEADER_SIZE <= |entry|
      modifies this`frames1, rb`w, rb`v, rb.buff
      ensures Valid()
      ensures ProducerLeads(old(State()), AddLoop(entry), State(), Returned(status))
    {
      ghost var s0 := State();
      ghost var s := s0;
      Stays(ProducerTakes, (s0, AddLoop(entry)));
      while true
        invariant Valid() && State() == s
        invariant ProducerLeads(s0, AddLoop(entry), s, AddLoop(entry))
        decreases rb.GetFree()
      {
        Pointers();
        var offset := Remainder(rb.w, bs);
        var space := bs - offset;
        var free := rb.GetFree();
        ProducerPasses(s0, AddLoop(entry), s, entry);

        if offset == 0 {
          if free < HEADER_SIZE {
            return BufferFull;
          }
          var n := rb.Write(Zeros(HEADER_SIZE));
          s := s.(ring := rb.v);
          if n != HEADER_SIZE {
            return WriteHeader;
          }
          continue;
        }

        if |entry| > space {
          if space > free {
            return BufferFull;
          }
          var ok := WriteChunks(space, s0, AddLoop(entry), AddPad(entry, space));
          s := State();
          if !ok {
            return WritePadding;
          }
          continue;
        }

        if |entry| > free {
          return BufferFull;
        }
        var n := rb.Write(entry);
        if n == |entry| {
          if entry[0] == TYPE_FRAME {
            frames1 := frames1 + 1;
          }
          return Status.Ok;
        }
        return WriteEntry;
      }
    }

    method FillBlockWithPadding() returns (status: Status)
      requires Valid()
      modifies rb`w, rb`v, rb.buff
      ensures Valid()
      ensures ProducerLeads(old(State()), FillStart, State(), Returned(status))
    {
      ghost var s0 := State();
      ghost var s := s0;
      Stays(ProducerTakes, (s0, FillStart));
      ProducerAdvance(s0, FillStart, s, FillStart);
      Pointers();
      var offset := Remainder(rb.w, bs);
      if offset == 0 {
        return Status.Ok;
      }
      var padLen := bs - offset;
      var free := rb.GetFree();
      var linear := rb.LinearWriteLength();
      ProducerAdvance(s0, FillStart, s, FillDecide(free));
      if free < padLen || linear < padLen {
        return NotOk;
      }
      var ok := WriteChunks(padLen, s0, FillStart, FillPad(padLen));
      if !ok {
        return NotOk;
      }
      return Status.Ok;
    }

    method IsBlockReady() returns (ready: bool)
      requires Valid()
      ensures ready <==> BlockReady(State())
    {
      Pointers();
      var misaligned := Remainder(rb.r, bs);
      var full := rb.GetFull();
      var linear := rb.LinearReadLength();
      if misaligned != 0 {
        var toBoundary := bs - misaligned;
        if full <= toBoundary {
          return false;
        }
        if linear <= toBoundary {
          return false;
        }
        full := full - toBoundary;
        linear := linear - toBoundary;
      }
      ready := full >= bs && linear >= bs;
    }

    /** The walk over the entries of the block at the read address. */
    method WalkBlock(ghost s0: LogState, ghost c0: Consumer) returns (offset: nat, frames: nat, count: nat)
      requires Valid() && bs <= rb.LinearReadLength()
      requires ConsumerLeads(s0, c0, State(), ReadWalk(HEADER_SIZE, 0, 0))
      ensures HEADER_SIZE <= offset <= bs
      ensures ConsumerLeads(s0, c0, State(), ReadFinish(offset, frames, count))
    {
      ghost var s := State();
      var avail := Min(rb.GetFull(), bs);
      offset, frames, count := HEADER_SIZE, 0, 0;
      while true
        invariant HEADER_SIZE <= offset <= bs
        invariant ConsumerLeads(s0, c0, s, ReadWalk(offset, frames, count))
        decreases bs - offset
      {
        ConsumerWalks(s0, c0, s, offset, frames, count);
        if avail - offset < ENTRY_HEADER_SIZE {
          break;
        }
        var h := rb.Peek(offset, ENTRY_HEADER_SIZE);
        if |h| != ENTRY_HEADER_SIZE || h[2] as nat < ENTRY_HEADER_SIZE || h[2] as nat > bs
           || (h[0] != TYPE_FRAME && h[0] != TYPE_SYNC && h[0] != TYPE_MARKER)
           || offset + h[2] as nat > avail {
          break;
        }
        offset := offset + h[2] as nat;
        frames := if h[0] == TYPE_FRAME then frames + 1 else frames;
        count := count + 1;
      }
    }

    /** Counts the block and writes its header in place. */
    method FinishBlock(offset: nat, frames: nat, count: nat, ghost s0: LogState, ghost c0: Consumer)
      requires Valid() && bs <= rb.LinearReadLength() && HEADER_SIZE < offset <= bs
      requires ConsumerLeads(s0, c0, State(), ReadFinish(offset, frames, count))
      modifies this`blockCount, rb`v, rb.buff
      ensures Valid()
      ensures ConsumerLeads(s0, c0, State(), InFlight(frames))
    {
      ConsumerFinishes(s0, c0, State(), offset, frames, count);
      var header := BlockHeader(LOG_VERSION, HEADER_SIZE as byte, epoch, blockCount, bs, offset, frames1 % TWO_32, count);
      blockCount := Increment(blockCount);
      rb.CopyToReadAddress(EncodeHeader(header));
    }

    /** Some(frame count): the block is the `bs` bytes at the read address. */
    method ReadNextBlock() returns (frameCount: Option<nat>)
      requires Valid()
      modifies this`blockCount, rb`r, rb`w, rb`v, rb.buff
      ensures Valid()
      ensures ConsumerLeads(old(State()), ReadStart, State(),
                            if frameCount.Some? then InFlight(frameCount.value) else ReadFailed)
    {
      ghost var s0 := State();
      ghost var s := s0;
      Stays(ConsumerTakes, (s0, ReadStart));
      ConsumerAdvance(s0, ReadStart, s, ReadStart);
      Pointers();
      var misaligned := Remainder(rb.r, bs);
      if misaligned != 0 {
        var need := bs - misaligned;
        if rb.GetFull() < need {
          return None;
        }
        ConsumerAdvance(s0, ReadStart, s, ReadSkip(need));
        rb.Skip(need);
        s := State();
      }
      ConsumerSamples(s0, ReadStart, s);
      var avail := Min(rb.GetFull(), bs);
      var linear := rb.LinearReadLength();
      if avail < HEADER_SIZE + ENTRY_HEADER_SIZE {
        return None;
      }
      if linear < bs {
        return None;
      }
      // The linear region is part of what is unread, so avail is bs and there is no partial block to pad.
      var offset, frames, count := WalkBlock(s0, ReadStart);
      if offset == HEADER_SIZE {
        ConsumerAdvance(s0, ReadStart, s, ReadFinish(offset, frames, count));
        return None;
      }
      FinishBlock(offset, frames, count, s0, ReadStart);
      frameCount := Some(frames);
    }

    method Consume(len: nat, frameCount: nat)
      requires Valid()
      modifies this`frames2, rb`r, rb`w, rb`v
      ensures Valid()
      ensures State() == ConsumerStep(ConsumerStep(old(State()), ConsumeSkip(len, frameCount)).0, ConsumeCheck).0
    {
      rb.Skip(len);
      frames2 := frames2 + frameCount;
      Pointers();
      if rb.GetFull() == 0 && Remainder(rb.r, bs) != 0 {
        rb.Reset();
      }
    }
  }
}
