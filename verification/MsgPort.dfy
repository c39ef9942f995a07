/** fdcan_msg_port.c: frames grouped into pages, pages queued in a message buffer. */
module MsgPort {

  const PAGE_ENTRIES := 10

  function Flatten<T>(pages: seq<seq<T>>): seq<T> {
    if pages == [] then [] else pages[0] + Flatten(pages[1..])
  }

  lemma {:induction false} FlattenSnoc<T>(pages: seq<seq<T>>, page: seq<T>)
    ensures Flatten(pages + [page]) == Flatten(pages) + page
  {
    if pages == [] {
      assert pages + [page] == [page];
      assert Flatten([page]) == page + Flatten([]);
    } else {
      assert (pages + [page])[1..] == pages[1..] + [page];
      FlattenSnoc(pages[1..], page);
    }
  }

  /** The rest of the page being read, the queued pages, the open page. */
  function Waiting<T>(page: seq<T>, index: nat, queued: seq<seq<T>>, open: seq<T>): seq<T>
    requires index <= |page|
  {
    page[|page| - index..] + Flatten(queued) + open
  }

  lemma NextPage<T>(page: seq<T>, queued: seq<seq<T>>, open: seq<T>)
    requires queued != []
    ensures Waiting(page, 0, queued, open) == Waiting(queued[0], |queued[0]|, queued[1..], open)
  {
    assert page[|page|..] == [] && queued[0][0..] == queued[0];
    assert [] + Flatten(queued) == Flatten(queued) == queued[0] + Flatten(queued[1..]);
  }

  lemma TakeFrame<T>(page: seq<T>, index: nat, queued: seq<seq<T>>, open: seq<T>)
    requires 0 < index <= |page|
    ensures Waiting(page, index, queued, open) == [page[|page| - index]] + Waiting(page, index - 1, queued, open)
  {
    var f := [page[|page| - index]];
    var rest := page[|page| - index + 1..];
    assert page[|page| - index..] == f + rest;
    assert f + rest + Flatten(queued) + open == f + (rest + Flatten(queued) + open);
  }

  lemma PageSent<T>(page: seq<T>, index: nat, queued: seq<seq<T>>, open: seq<T>)
    requires index <= |page|
    ensures Waiting(page, index, queued + [open], []) == Waiting(page, index, queued, open)
  {
    FlattenSnoc(queued, open);
  }

  lemma FrameAdded<T>(page: seq<T>, index: nat, queued: seq<seq<T>>, open: seq<T>, frame: T)
    requires index <= |page|
    ensures Waiting(page, index, queued, open + [frame]) == Waiting(page, index, queued, open) + [frame]
  {
    assert page[|page| - index..] + Flatten(queued) + (open + [frame]) == page[|page| - index..] + Flatten(queued) + open + [frame];
  }

  lemma HandOver<T>(delivered: seq<T>, frame: seq<T>, rest: seq<T>)
    ensures delivered + (frame + rest) == delivered + frame + rest
  {
  }

  /** What a flush comes to: nothing left in the open page, the send given up, or a task that still waits in it. */
  datatype Flushed = Empty | Failed | Waits

  function Taken(room: nat, offered: nat): nat {
    if offered < room then offered else room
  }

  class Port<T> {
    const capacity: nat            // whole pages the message buffer holds
    const waitsForever: bool       // a send with portMAX_DELAY has no timeout: INCLUDE_vTaskSuspend
    var pageReceive: seq<T>
    var queued: seq<seq<T>>
    var pageRead: seq<T>
    var indexRead: nat
    var dropCount: nat
    ghost var offered: nat         // frames handed to Receive
    ghost var delivered: seq<T>    // frames handed out by Read
    ghost var accepted: seq<T>     // frames Receive took
    ghost var falselyDropped: nat  // frames counted as dropped by a failed flush, yet kept in the open page
    ghost var flushFailed: bool    // whether a flush of a non-empty page has failed

    ghost predicate Valid()
      reads this
    {
      && |pageReceive| <= PAGE_ENTRIES && indexRead <= |pageRead| && |queued| <= capacity
      && (forall p :: p in queued ==> p != [])
      && accepted == delivered + Pending()
      && offered + falselyDropped == |accepted| + dropCount
      && (flushFailed <==> falselyDropped > 0)
      && (waitsForever && 0 < capacity ==> !flushFailed)
    }

    /** The open page has frames and the message buffer no room for it, nor will it have without a Read. */
    ghost predicate Blocked()
      reads this
    {
      pageReceive != [] && |queued| >= capacity
    }

    ghost function Pending(): seq<T>
      reads this
      requires indexRead <= |pageRead|
    {
      Waiting(pageRead, indexRead, queued, pageReceive)
    }

    constructor (pages: nat, waitsForever: bool)
      ensures Valid() && Pending() == [] && delivered == [] && accepted == []
      ensures capacity == pages && this.waitsForever == waitsForever
      ensures offered == 0 && dropCount == 0 && !flushFailed && pageReceive == [] && queued == []
    {
      capacity, this.waitsForever := pages, waitsForever;
      pageReceive, queued, pageRead, indexRead, dropCount := [], [], [], 0, 0;
      offered, delivered, accepted, falselyDropped, flushFailed := 0, [], [], 0, false;
    }

    /** A full page is sent on; if the buffer has no room for it, this frame is dropped and counted. */
    method Receive(frame: T)
      requires Valid()
      modifies this`pageReceive, this`queued, this`dropCount, this`offered, this`accepted
      ensures Valid() && offered == old(offered) + 1
      ensures if |old(pageReceive)| == PAGE_ENTRIES && |old(queued)| == capacity
              then accepted == old(accepted) && dropCount == old(dropCount) + 1 && Pending() == old(Pending())
              else accepted == old(accepted) + [frame] && dropCount == old(dropCount) && Pending() == old(Pending()) + [frame]
      ensures |old(pageReceive)| < PAGE_ENTRIES ==> pageReceive == old(pageReceive) + [frame] && queued == old(queued)
      ensures |old(pageReceive)| == PAGE_ENTRIES && |old(queued)| == capacity ==> pageReceive == old(pageReceive) && queued == old(queued)
    {
      offered := offered + 1;
      if |pageReceive| >= PAGE_ENTRIES {
        if |queued| < capacity {
          PageSent(pageRead, indexRead, queued, pageReceive);
          queued := queued + [pageReceive];
          pageReceive := [];
        } else {
          dropCount := dropCount + 1;
          return;
        }
      }
      if |pageReceive| < PAGE_ENTRIES {
        FrameAdded(pageRead, indexRead, queued, pageReceive, frame);
        HandOver(delivered, Pending(), [frame]);
        pageReceive := pageReceive + [frame];
        accepted := accepted + [frame];
      }
    }

    /** Takes the next page off the message buffer when the last one has been read. */
    method LoadPage()
      requires Valid() && indexRead == 0
      modifies this`queued, this`pageRead, this`indexRead
      ensures Valid() && Pending() == old(Pending())
      ensures indexRead > 0 <==> old(queued) != []
    {
      if queued != [] {
        NextPage(pageRead, queued, pageReceive);
        assert queued[0] in queued && forall p :: p in queued[1..] ==> p in queued;
        pageRead, queued, indexRead := queued[0], queued[1..], |queued[0]|;
      } else {
        indexRead := 0;
      }
    }

    /** The oldest frame not yet read, unless there is only an open page. */
    method Read() returns (found: bool, frame: seq<T>)
      requires Valid()
      modifies this`queued, this`pageRead, this`indexRead, this`delivered
      ensures Valid()
      ensures found <==> old(indexRead) > 0 || old(queued) != []
      ensures found ==> |frame| == 1 && delivered == old(delivered) + frame && old(Pending()) == frame + Pending()
      ensures !found ==> delivered == old(delivered) && Pending() == old(Pending())
    {
      if indexRead == 0 {
        LoadPage();
      }
      if indexRead == 0 {
        return false, [];
      }
      TakeFrame(pageRead, indexRead, queued, pageReceive);
      frame := [pageRead[|pageRead| - indexRead]];
      HandOver(delivered, frame, Waiting(pageRead, indexRead - 1, queued, pageReceive));
      indexRead := indexRead - 1;
      delivered := delivered + frame;
      return true, frame;
    }

    /**
     * Sends the open page. With a full message buffer the task waits, and if waiting ends without room, or the buffer is
     * too small for any page, the send fails. The task that flushes is the one that reads, so no Read comes meanwhile.
     */
    method Flush() returns (r: Flushed)
      requires Valid()
      modifies this`pageReceive, this`queued, this`dropCount, this`falselyDropped, this`flushFailed
      ensures Valid() && Pending() == old(Pending())
      ensures r == Empty <==> !old(Blocked())
      ensures r == Waits <==> old(Blocked()) && waitsForever && 0 < capacity
      ensures r == Empty ==> pageReceive == [] && dropCount == old(dropCount)
                             && queued == old(queued) + (if old(pageReceive) == [] then [] else [old(pageReceive)])
      ensures r != Empty ==> pageReceive == old(pageReceive) && queued == old(queued)
      ensures dropCount == old(dropCount) + if r == Failed then |pageReceive| else 0
      ensures flushFailed == (old(flushFailed) || r == Failed)
    {
      if |pageReceive| == 0 {
        return Empty;
      }
      if |queued| < capacity {
        PageSent(pageRead, indexRead, queued, pageReceive);
        queued := queued + [pageReceive];
        pageReceive := [];
        return Empty;
      }
      if waitsForever && 0 < capacity {
        return Waits;
      }
      dropCount := dropCount + |pageReceive|;
      falselyDropped := falselyDropped + |pageReceive|;
      flushFailed := true;
      return Failed;
    }

    /**
     * What the bridge hands over while the task waits in its flush: the open page fills up, the rest is dropped and
     * counted, nothing is delivered, and the flush still waits.
     */
    method ReceiveWhileBlocked(frames: seq<T>)
      requires Valid() && Blocked()
      modifies this`pageReceive, this`queued, this`dropCount, this`offered, this`accepted
      ensures Valid() && Blocked() && queued == old(queued) && offered == old(offered) + |frames|
      ensures var n := Taken(PAGE_ENTRIES - |old(pageReceive)|, |frames|);
              && pageReceive == old(pageReceive) + frames[..n]
              && Pending() == old(Pending()) + frames[..n] && accepted == old(accepted) + frames[..n]
              && dropCount == old(dropCount) + |frames| - n
    {
      var k := 0;
      while k < |frames|
        invariant 0 <= k <= |frames| && Valid() && Blocked() && queued == old(queued) && offered == old(offered) + k
        invariant var n := Taken(PAGE_ENTRIES - |old(pageReceive)|, k);
                  && pageReceive == old(pageReceive) + frames[..n]
                  && Pending() == old(Pending()) + frames[..n] && accepted == old(accepted) + frames[..n]
                  && dropCount == old(dropCount) + k - n
      {
        Receive(frames[k]);
        assert frames[..k + 1] == frames[..k] + [frames[k]];
        k := k + 1;
      }
    }

    /** Frames come out in the order they were taken, and the books balance exactly when no flush of a
        non-empty page has failed: such a flush counts frames as dropped that stay in the page. Where a flush
        waits without limit none fails. */
    lemma Accounts()
      requires Valid()
      ensures delivered <= accepted && accepted[|delivered|..] == Pending()
      ensures offered == |delivered| + |Pending()| + dropCount <==> !flushFailed
      ensures waitsForever && 0 < capacity ==> offered == |delivered| + |Pending()| + dropCount
    {
    }
  }

  /** Every port can get there: its buffer full and a frame in the open page, so that the flush waits. */
  method FlushWaitsForever<T>(pages: nat, frame: T) returns (p: Port<T>, r: Flushed)
    requires 0 < pages
    ensures fresh(p) && p.Valid() && p.Blocked() && p.capacity == pages && r == Waits
  {
    p := new Port<T>(pages, true);
    var k := 0;
    while k < pages
      invariant 0 <= k <= pages && fresh(p) && p.Valid() && p.capacity == pages && p.waitsForever
      invariant |p.queued| == k && p.pageReceive == []
    {
      p.Receive(frame);
      r := p.Flush();
      k := k + 1;
    }
    p.Receive(frame);
    r := p.Flush();
  }
}
