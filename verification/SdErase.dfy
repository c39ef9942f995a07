/** SD_Spi_EraseAll of Sd.c against a card that may answer anything (SD Physical Layer Simplified
    Specification, section 4.3.5: CMD32 and CMD33 set the range, CMD38 erases it). */
module SdErase {
  import opened Wire

  const ERASE_CHUNK_BLOCKS := 4096
  const ERASE_BUSY_TIMEOUT_ATTEMPTS := 15625 * 300

  datatype Status =
    | SdOk | SdNotOk | SdUnsupportedCardType | SdCapacityOverflow | SdCsdFailed
    | SdEraseStartFailed | SdEraseEndFailed | SdEraseCmdFailed | SdNoGoingIdle

  /** The fields of the CSD register the erase looks at. */
  datatype Csd = Csd(structure: nat, cSize: nat)

  /** SD_Spi_TotalBlocks512 */
  function TotalBlocks512(csd: Csd): (r: (Status, nat))
    ensures r.0 == SdOk ==> 0 < r.1 < TWO_32 && r.1 == (csd.cSize + 1) * 1024
    ensures r.0 == SdOk <==> csd.structure == 1 && (csd.cSize + 1) * 1024 < TWO_32
    ensures r.0 != SdOk ==> r.1 == 0
  {
    if csd.structure != 1 then (SdUnsupportedCardType, 0)
    else if (csd.cSize + 1) * 1024 > TWO_32 - 1 then (SdCapacityOverflow, 0)
    else (SdOk, (csd.cSize + 1) * 1024)
  }

  /** One command and its R1 response; `ready` says that the card left the busy state in time. */
  datatype Exchange =
    | EraseStart(block: nat, response: byte)
    | EraseEnd(block: nat, response: byte)
    | EraseGo(response: byte, ready: bool)

  datatype Range = Range(first: nat, last: nat)

  /** The three commands that erase a range, all accepted, and the card ready again. */
  predicate Erases(t: seq<Exchange>) {
    && |t| == 3
    && t[0].EraseStart? && t[0].response == 0
    && t[1].EraseEnd? && t[1].response == 0
    && t[2].EraseGo? && t[2].response == 0 && t[2].ready
  }

  /** The ranges a conversation has erased, in order. */
  function Completed(t: seq<Exchange>): seq<Range> {
    if t == [] then []
    else if |t| >= 3 && Erases(t[|t| - 3..]) then Completed(t[..|t| - 3]) + [Range(t[|t| - 3].block, t[|t| - 2].block)]
    else Completed(t[..|t| - 1])
  }

  /** The ranges lie end to end from block 0 up to block `n`. */
  predicate Tile(rs: seq<Range>, n: nat) {
    if rs == [] then n == 0
    else
      var r := rs[|rs| - 1];
      r.first <= r.last && r.last + 1 == n && Tile(rs[..|rs| - 1], r.first)
  }

  lemma {:induction false} TilesCoverOnce(rs: seq<Range>, n: nat, b: nat)
    requires Tile(rs, n)
    ensures b < n <==> exists i :: 0 <= i < |rs| && rs[i].first <= b <= rs[i].last
    ensures forall i, j :: 0 <= i < j < |rs| ==> rs[i].last < rs[j].first
  {
    if rs != [] {
      var r := rs[|rs| - 1];
      var rest := rs[..|rs| - 1];
      TilesCoverOnce(rest, r.first, b);
      TilesBelow(rest, r.first);
      forall i | 0 <= i < |rest|
        ensures rs[i] == rest[i]
      {
      }
      if b < n {
        if b < r.first {
          var i :| 0 <= i < |rest| && rest[i].first <= b <= rest[i].last;
          assert rs[i] == rest[i];
        } else {
          assert rs[|rs| - 1].first <= b <= rs[|rs| - 1].last;
        }
      }
    }
  }

  lemma {:induction false} TilesBelow(rs: seq<Range>, n: nat)
    requires Tile(rs, n)
    ensures forall i :: 0 <= i < |rs| ==> rs[i].first <= rs[i].last < n
  {
    if rs != [] {
      TilesBelow(rs[..|rs| - 1], rs[|rs| - 1].first);
    }
  }

  /** Commands that come to nothing add no range. */
  lemma FailedAttempt(t: seq<Exchange>, e: Exchange)
    requires e.EraseGo? ==> e.response != 0 || !e.ready
    ensures Completed(t + [e]) == Completed(t)
  {
    assert (t + [e])[..|t|] == t;
    if |t| >= 2 {
      assert (t + [e])[|t| - 2..][2] == e;
    }
  }

  lemma ErasedRange(t: seq<Exchange>, first: nat, last: nat)
    ensures Completed(t + [EraseStart(first, 0), EraseEnd(last, 0), EraseGo(0, true)]) == Completed(t) + [Range(first, last)]
  {
    var u := t + [EraseStart(first, 0), EraseEnd(last, 0), EraseGo(0, true)];
    assert u[|u| - 3..] == [EraseStart(first, 0), EraseEnd(last, 0), EraseGo(0, true)];
    assert u[..|u| - 3] == t;
  }

  lemma TileSnoc(rs: seq<Range>, n: nat, last: nat)
    requires Tile(rs, n) && n <= last
    ensures Tile(rs + [Range(n, last)], last + 1)
  {
    assert (rs + [Range(n, last)])[..|rs|] == rs;
  }

  predicate Refused(e: Exchange) {
    e.response != 0
  }

  /** How many commands the card has turned down. */
  function Refusals(t: seq<Exchange>): nat {
    if t == [] then 0 else Refusals(t[..|t| - 1]) + if Refused(t[|t| - 1]) then 1 else 0
  }

  lemma RefusalsSnoc(t: seq<Exchange>, e: Exchange)
    ensures Refusals(t + [e]) == Refusals(t) + if Refused(e) then 1 else 0
    ensures Silences(t + [e]) == Silences(t) + if e.response == 0xFF then 1 else 0
  {
    assert (t + [e])[..|t|] == t;
  }

  /** How many commands the card has not answered. */
  function Silences(t: seq<Exchange>): nat {
    if t == [] then 0 else Silences(t[..|t| - 1]) + if t[|t| - 1].response == 0xFF then 1 else 0
  }

  /** The last command was not answered. */
  predicate Unanswered(t: seq<Exchange>) {
    t != [] && t[|t| - 1].response == 0xFF
  }

  /** The blocks asked for after so many refusals, from `first` on and within the card. */
  function LastOfChunk(refusals: nat, first: nat, total: nat): int {
    Min(first + (if refusals == 0 then ERASE_CHUNK_BLOCKS else 1), total) - 1
  }

  /** An end that follows a start ends a chunk of the size that is due. */
  predicate DueChunk(t: seq<Exchange>, i: nat, total: nat)
    requires 0 < i < |t|
  {
    t[i - 1].EraseStart? && t[i].EraseEnd? ==> t[i].block == LastOfChunk(Refusals(t[..i - 1]), t[i - 1].block, total)
  }

  predicate DueChunks(t: seq<Exchange>, total: nat) {
    forall i :: 0 < i < |t| ==> DueChunk(t, i, total)
  }

  lemma DueSnoc(t: seq<Exchange>, e: Exchange, total: nat)
    requires DueChunks(t, total)
    requires t != [] && t[|t| - 1].EraseStart? && e.EraseEnd? ==>
               e.block == LastOfChunk(Refusals(t[..|t| - 1]), t[|t| - 1].block, total)
    ensures DueChunks(t + [e], total)
  {
    var u := t + [e];
    forall i | 0 < i < |u|
      ensures DueChunk(u, i, total)
    {
      assert u[..i - 1] == t[..i - 1];
      assert i < |t| ==> DueChunk(t, i, total);
    }
  }

  /** What the loop answers when it gives up on this exchange. */
  function Verdict(e: Exchange): Status {
    match e
    case EraseStart(_, response) => if response != 0 then SdEraseStartFailed else SdOk
    case EraseEnd(_, response) => if response != 0 then SdEraseEndFailed else SdOk
    case EraseGo(response, ready) => if response != 0 then SdEraseCmdFailed else if !ready then SdNoGoingIdle else SdOk
  }

  /** Giving up is justified: the card did not get ready, did not answer at all, or turned down a single block too. */
  predicate GaveUp(t: seq<Exchange>, res: Status) {
    && t != [] && res == Verdict(t[|t| - 1]) != SdOk
    && (Refused(t[|t| - 1]) && t[|t| - 1].response != 0xFF ==> Refusals(t) == 2)
  }

  class Card {
    ghost var trace: seq<Exchange>

    constructor ()
      ensures trace == []
    {
      trace := [];
    }

    /** CMD32 */
    method SendEraseStart(block: nat) returns (response: byte)
      modifies this
      ensures trace == old(trace) + [EraseStart(block, response)]
    {
      response := *;
      trace := trace + [EraseStart(block, response)];
    }

    /** CMD33 */
    method SendEraseEnd(block: nat) returns (response: byte)
      modifies this
      ensures trace == old(trace) + [EraseEnd(block, response)]
    {
      response := *;
      trace := trace + [EraseEnd(block, response)];
    }

    /** CMD38 and, if it is accepted, the wait for the card to leave the busy state. */
    method SendErase() returns (response: byte, attempts: nat)
      modifies this
      ensures trace == old(trace) + [EraseGo(response, attempts < ERASE_BUSY_TIMEOUT_ATTEMPTS)]
    {
      response := *;
      attempts := 0;
      if response == 0 {
        var r: byte := *;
        while r != 0xFF && attempts + 1 < ERASE_BUSY_TIMEOUT_ATTEMPTS
          invariant attempts < ERASE_BUSY_TIMEOUT_ATTEMPTS
          decreases ERASE_BUSY_TIMEOUT_ATTEMPTS - attempts
        {
          attempts := attempts + 1;
          r := *;
        }
        if r != 0xFF {
          attempts := attempts + 1;
        }
      }
      trace := trace + [EraseGo(response, attempts < ERASE_BUSY_TIMEOUT_ATTEMPTS)];
    }

    /** CMD32, CMD33 and CMD38 for one range, stopping at the first that does not go well; `response` is the last one. */
    method EraseRange(first: nat, last: nat, ghost total: nat) returns (res: Status, response: byte)
      requires DueChunks(trace, total) && last == LastOfChunk(Refusals(trace), first, total)
      modifies this
      ensures DueChunks(trace, total) && Silences(trace) == Silences(old(trace)) + if response == 0xFF then 1 else 0
      ensures res == SdOk ==> Completed(trace) == Completed(old(trace)) + [Range(first, last)]
      ensures res != SdOk ==> Completed(trace) == Completed(old(trace))
      ensures Refusals(trace) == Refusals(old(trace)) + if response != 0 then 1 else 0
      ensures trace != [] && res == Verdict(trace[|trace| - 1]) && response == trace[|trace| - 1].response
    {
      ghost var t := trace;
      response := SendEraseStart(first);
      DueSnoc(t, EraseStart(first, response), total);
      FailedAttempt(t, EraseStart(first, response));
      RefusalsSnoc(t, EraseStart(first, response));
      if response != 0 {
        return SdEraseStartFailed, response;
      }
      ghost var t1 := trace;
      response := SendEraseEnd(last);
      assert t1[..|t1| - 1] == t;
      DueSnoc(t1, EraseEnd(last, response), total);
      FailedAttempt(t1, EraseEnd(last, response));
      RefusalsSnoc(t1, EraseEnd(last, response));
      if response != 0 {
        return SdEraseEndFailed, response;
      }
      ghost var t2 := trace;
      var attempts;
      response, attempts := SendErase();
      ghost var e := EraseGo(response, attempts < ERASE_BUSY_TIMEOUT_ATTEMPTS);
      DueSnoc(t2, e, total);
      RefusalsSnoc(t2, e);
      if response != 0 || attempts >= ERASE_BUSY_TIMEOUT_ATTEMPTS {
        FailedAttempt(t2, e);
        return if response != 0 then SdEraseCmdFailed else SdNoGoingIdle, response;
      }
      assert trace == t + [EraseStart(first, 0), EraseEnd(last, 0), EraseGo(0, true)];
      ErasedRange(t, first, last);
      return SdOk, response;
    }

    /**
     * Erases the whole card in chunks; if the card refuses a chunk it goes on block by block. Whatever the
     * card answers, it comes to an end, the ranges erased lie end to end from block 0 up to `done`, OK means
     * that they are the whole card, and it gives up only with cause. `done` is written to `out`, if there is one.
     */
    method EraseAll(csdStatus: Status, csd: Csd, out: array?<nat>) returns (res: Status, ghost done: nat)
      requires trace == [] && (out != null ==> out.Length == 1)
      modifies this, out
      ensures out != null ==> out[0] == done
      ensures csdStatus != SdOk ==> res == csdStatus && done == 0 && trace == []
      ensures csdStatus == SdOk && TotalBlocks512(csd).0 != SdOk ==> res == TotalBlocks512(csd).0 && done == 0 && trace == []
      ensures csdStatus == SdOk && TotalBlocks512(csd).0 == SdOk ==>
                && Tile(Completed(trace), done) && done <= TotalBlocks512(csd).1
                && (res == SdOk <==> done == TotalBlocks512(csd).1)
                && (if res == SdOk then Refusals(trace) <= 1 else GaveUp(trace, res))
                && DueChunks(trace, TotalBlocks512(csd).1) && Silences(trace) == (if Unanswered(trace) then 1 else 0)
                && (res == SdOk ==> !Unanswered(trace))
    {
      done := 0;
      if out != null {
        out[0] := 0;
      }
      if csdStatus != SdOk {
        return csdStatus, done;
      }
      var capacity := TotalBlocks512(csd);
      res := capacity.0;
      var total := capacity.1;
      if res != SdOk {
        return res, done;
      }
      var eraseBlockSize := 1;
      var currentBlock := 0;
      var chunkLimit := ERASE_CHUNK_BLOCKS;
      while currentBlock < total
        invariant currentBlock == done <= total && res == SdOk
        invariant out != null ==> out[0] == done
        invariant Tile(Completed(trace), currentBlock) && DueChunks(trace, total) && Silences(trace) == 0
        invariant chunkLimit == (if Refusals(trace) == 0 then ERASE_CHUNK_BLOCKS else 1) && Refusals(trace) <= 1
        decreases total - currentBlock, chunkLimit
      {
        var remaining := total - currentBlock;
        var chunk := if remaining > chunkLimit then chunkLimit else remaining;
        ghost var before := Completed(trace);
        var attempt, response := EraseRange(currentBlock, currentBlock + chunk - 1, total);
        if response != 0 && chunkLimit > eraseBlockSize && response != 0xFF {
          chunkLimit := eraseBlockSize;
          continue;
        }
        if attempt != SdOk {
          return attempt, done;
        }
        TileSnoc(before, currentBlock, currentBlock + chunk - 1);
        currentBlock := currentBlock + chunk;
        done := currentBlock;
        if out != null {
          out[0] := currentBlock;
          res := SdOk;
        }
      }
    }
  }
}
