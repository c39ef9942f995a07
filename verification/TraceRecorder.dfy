/** The peak-centred trace recorder of instrumentation.c. */
module TraceRecorder {

  const COUNT_MAX := 4002
  const PRE := (COUNT_MAX - 1) / 2
  const POST := COUNT_MAX - PRE - 1
  const TRIGGER := 12480

  datatype Entry = Entry(timestamp: nat, value: nat)

  // ---------------------------------------------------------------- what is to be recorded

  /** Position `p` is the last occurrence of the largest value of the stream. */
  predicate IsPeak(s: seq<Entry>, p: nat) {
    && p < |s|
    && (forall j :: 0 <= j <= p ==> s[j].value <= s[p].value)
    && (forall j :: p < j < |s| ==> s[j].value < s[p].value)
  }

  lemma PeakIsUnique(s: seq<Entry>, p: nat, q: nat)
    requires IsPeak(s, p) && IsPeak(s, q)
    ensures p == q
  {
    assert s[p].value <= s[q].value && s[q].value <= s[p].value;
  }

  /** The peak, high enough to be of interest, has just got the last of the entries to come after it. */
  predicate Complete(s: seq<Entry>) {
    |s| > POST && IsPeak(s, |s| - 1 - POST) && s[|s| - 1 - POST].value >= TRIGGER
  }

  /** One more entry is kept unless the stream was complete without it. */
  function Keep(kept: seq<Entry>, e: Entry): seq<Entry> {
    if Complete(kept) then kept else kept + [e]
  }

  /** The stream up to the first point at which it is complete. */
  function Kept(stream: seq<Entry>): seq<Entry> {
    if stream == [] then [] else Keep(Kept(stream[..|stream| - 1]), stream[|stream| - 1])
  }

  lemma KeptSnoc(stream: seq<Entry>, k: nat)
    requires k < |stream|
    ensures Kept(stream[..k + 1]) == Keep(Kept(stream[..k]), stream[k])
  {
    assert stream[..k + 1][..k] == stream[..k];
  }

  lemma {:induction false} KeptIsFirstComplete(stream: seq<Entry>)
    ensures Kept(stream) <= stream
    ensures Kept(stream) == stream || Complete(Kept(stream))
    ensures forall n: nat :: n < |Kept(stream)| ==> !Complete(stream[..n])
  {
    if stream != [] {
      var before := stream[..|stream| - 1];
      KeptIsFirstComplete(before);
      forall n: nat | n < |Kept(stream)|
        ensures !Complete(stream[..n])
      {
        assert stream[..n] == before[..n];
        if n == |before| {
          assert stream[..n] == before;
        }
      }
    }
  }

  /** The stretch of the stream around `p`: up to PRE entries before it, and all that came since. */
  function Window(s: seq<Entry>, p: nat): seq<Entry>
    requires p < |s|
  {
    s[if p < PRE then 0 else p - PRE..]
  }

  function Last(w: seq<Entry>, n: nat): seq<Entry> {
    if |w| <= n then w else w[|w| - n..]
  }

  lemma NewPeak(s: seq<Entry>, p: nat, e: Entry)
    requires IsPeak(s, p) && s[p].value <= e.value
    ensures IsPeak(s + [e], |s|) && Window(s + [e], |s|) == Last(Window(s, p), PRE) + [e]
  {
  }

  lemma SamePeak(s: seq<Entry>, p: nat, e: Entry)
    requires IsPeak(s, p) && e.value < s[p].value
    ensures IsPeak(s + [e], p) && Window(s + [e], p) == Window(s, p) + [e]
  {
  }

  lemma FirstPeak(s: seq<Entry>, e: Entry)
    requires (forall j :: 0 <= j < |s| ==> s[j].value < TRIGGER) && TRIGGER <= e.value
    ensures IsPeak(s + [e], |s|) && Window(s + [e], |s|) == Last(s, PRE) + [e]
  {
  }

  lemma CompleteExactly(s: seq<Entry>, p: nat)
    requires IsPeak(s, p) && s[p].value >= TRIGGER
    ensures Complete(s) <==> |s| == p + 1 + POST
  {
    if Complete(s) {
      PeakIsUnique(s, p, |s| - 1 - POST);
    }
  }

  // ---------------------------------------------------------------- the recorder

  datatype Phase = Rolling | PostTrigger | Frozen

  /** Before the trigger: nothing high enough yet, and the window holds the last entries. */
  ghost predicate Waiting(seen: seq<Entry>, window: seq<Entry>) {
    && (forall j :: 0 <= j < |seen| ==> seen[j].value < TRIGGER)
    && window == Last(seen, PRE)
  }

  /** After it: the peak was `post` entries ago, and the window is the stretch of the stream around it. */
  ghost predicate Centred(seen: seq<Entry>, window: seq<Entry>, peakValue: nat, post: nat) {
    && post < |seen| && IsPeak(seen, |seen| - 1 - post) && peakValue == seen[|seen| - 1 - post].value >= TRIGGER
    && window == Window(seen, |seen| - 1 - post)
  }

  lemma WaitOn(seen: seq<Entry>, window: seq<Entry>, e: Entry)
    requires Waiting(seen, window) && e.value < TRIGGER
    ensures Waiting(seen + [e], Last(window + [e], PRE)) && !Complete(seen + [e])
  {
  }

  lemma Triggered(seen: seq<Entry>, window: seq<Entry>, e: Entry)
    requires Waiting(seen, window) && e.value >= TRIGGER
    ensures Centred(seen + [e], window + [e], e.value, 0) && !Complete(seen + [e])
  {
    FirstPeak(seen, e);
    CompleteExactly(seen + [e], |seen|);
  }

  lemma Recentred(seen: seq<Entry>, window: seq<Entry>, peakValue: nat, post: nat, e: Entry)
    requires Centred(seen, window, peakValue, post) && peakValue <= e.value
    ensures Centred(seen + [e], Last(window, PRE) + [e], e.value, 0) && !Complete(seen + [e])
  {
    NewPeak(seen, |seen| - 1 - post, e);
    CompleteExactly(seen + [e], |seen|);
  }

  lemma Followed(seen: seq<Entry>, window: seq<Entry>, peakValue: nat, post: nat, e: Entry)
    requires Centred(seen, window, peakValue, post) && e.value < peakValue
    ensures Centred(seen + [e], window + [e], peakValue, post + 1)
    ensures Complete(seen + [e]) <==> post + 1 == POST
  {
    SamePeak(seen, |seen| - 1 - post, e);
    CompleteExactly(seen + [e], |seen| - 1 - post);
  }

  /** The circular buffer from its oldest entry on. */
  function Unroll(ring: seq<Entry>, at: nat, valid: nat): seq<Entry>
    requires |ring| == PRE && at < PRE && valid <= PRE
  {
    if valid == PRE then ring[at..] + ring[..at] else ring[..valid]
  }

  /** Where the k-th oldest entry lies. */
  function Slot(at: nat, valid: nat, k: nat): nat
    requires at < PRE && k < valid <= PRE
  {
    var i := (if valid == PRE then at else 0) + k;
    if i >= PRE then i - PRE else i
  }

  lemma UnrollAt(ring: seq<Entry>, at: nat, valid: nat, k: nat)
    requires |ring| == PRE && at < PRE && k < valid <= PRE
    ensures Unroll(ring, at, valid)[k] == ring[Slot(at, valid, k)]
  {
  }

  /** Storing over the oldest entry, or into the first free place. */
  lemma RollOn(ring: seq<Entry>, at: nat, valid: nat, e: Entry)
    requires |ring| == PRE && at < PRE && valid <= PRE && (valid < PRE ==> at == valid)
    ensures Unroll(ring[at := e], if at + 1 >= PRE then 0 else at + 1, if valid < PRE then valid + 1 else valid)
            == Last(Unroll(ring, at, valid) + [e], PRE)
  {
    var old' := Unroll(ring, at, valid);
    if valid == PRE {
      assert Last(old' + [e], PRE) == old'[1..] + [e];
    } else if at + 1 < PRE {
      assert Last(old' + [e], PRE) == old' + [e];
    } else {
      assert ring[at := e] == old' + [e];
    }
  }

  class Recorder {
    const data: array<Entry>
    var phase: Phase
    var peakValue: nat
    var preWrite: nat
    var preValid: nat
    var writeIndex: nat
    var postCount: nat
    var storedCount: nat
    ghost var window: seq<Entry>   // what the array holds, oldest first

    ghost predicate HoldsRolling()
      reads this, data
    {
      && data.Length == COUNT_MAX && preWrite < PRE && preValid <= PRE && (preValid < PRE ==> preWrite == preValid)
      && window == Unroll(data[..PRE], preWrite, preValid)
    }

    ghost predicate Holds()
      reads this, data
    {
      data.Length == COUNT_MAX && |window| == writeIndex == storedCount <= COUNT_MAX && data[..writeIndex] == window
    }

    /** The stream up to the freeze, and where the recorder stands in it. */
    ghost predicate Follows(seen: seq<Entry>)
      reads this
    {
      if phase == Rolling then Waiting(seen, window) && !Complete(seen)
      else Centred(seen, window, peakValue, postCount) && (if phase == Frozen then Complete(seen) else postCount < POST)
    }

    /** The recorder after exactly the entries `seen`. */
    ghost predicate Valid(seen: seq<Entry>)
      reads this, data
    {
      (if phase == Rolling then HoldsRolling() && storedCount == preValid else Holds()) && Follows(seen)
    }

    constructor ()
      ensures Valid([]) && fresh(data)
    {
      data := new Entry[COUNT_MAX](_ => Entry(0, 0));
      phase, peakValue, preWrite, preValid := Rolling, 0, 0, 0;
      writeIndex, postCount, storedCount := 0, 0, 0;
      window := [];
    }

    method StoreRolling(entry: Entry)
      requires HoldsRolling()
      modifies this`preWrite, this`preValid, this`storedCount, this`window, data
      ensures HoldsRolling() && storedCount == preValid && window == Last(old(window) + [entry], PRE)
    {
      ghost var ring := data[..PRE];
      RollOn(ring, preWrite, preValid, entry);
      data[preWrite] := entry;
      assert data[..PRE] == ring[preWrite := entry];
      preWrite := preWrite + 1;
      if preWrite >= PRE {
        preWrite := 0;
      }
      if preValid < PRE {
        preValid := preValid + 1;
      }
      storedCount := preValid;
      window := Last(window + [entry], PRE);
    }

    /** The circular buffer in chronological order at the start of the array, by way of its upper half. */
    method LinearizePreTrigger()
      requires HoldsRolling()
      modifies data
      ensures data[..preValid] == window
    {
      CopyUp(data[..PRE]);
      CopyDown();
    }

    method CopyUp(ghost ring: seq<Entry>)
      requires HoldsRolling() && ring == data[..PRE]
      modifies data
      ensures data[PRE + 1..PRE + 1 + preValid] == window
    {
      var start := if preValid == PRE then preWrite else 0;
      var i := 0;
      while i < preValid
        invariant 0 <= i <= preValid
        invariant data[..PRE] == ring && data[PRE + 1..PRE + 1 + i] == window[..i]
      {
        var source := start + i;
        if source >= PRE {
          source := source - PRE;
        }
        UnrollAt(ring, preWrite, preValid, i);
        var entry := data[source];
        assert entry == ring[source] == window[i];
        PutUpper(i, entry);
        i := i + 1;
      }
    }

    /** One more entry in the upper half. */
    method PutUpper(i: nat, entry: Entry)
      requires data.Length == COUNT_MAX && i < PRE
      modifies data
      ensures data[..PRE] == old(data[..PRE])
      ensures data[PRE + 1..PRE + 1 + i + 1] == old(data[PRE + 1..PRE + 1 + i]) + [entry]
    {
      data[PRE + 1 + i] := entry;
    }

    method CopyDown()
      requires data.Length == COUNT_MAX && |window| == preValid <= PRE && data[PRE + 1..PRE + 1 + preValid] == window
      modifies data
      ensures data[..preValid] == window
    {
      var i := 0;
      while i < preValid
        invariant 0 <= i <= preValid
        invariant data[PRE + 1..PRE + 1 + preValid] == window && data[..i] == window[..i]
      {
        assert data[PRE + 1 + i] == data[PRE + 1..PRE + 1 + preValid][i];
        data[i] := data[PRE + 1 + i];
        i := i + 1;
      }
    }

    method StartPostTrigger(entry: Entry)
      requires HoldsRolling()
      modifies this, data
      ensures Holds() && phase == PostTrigger && postCount == 0 && window == old(window) + [entry]
      ensures peakValue == old(peakValue)
    {
      LinearizePreTrigger();
      data[preValid] := entry;
      writeIndex := preValid + 1;
      postCount := 0;
      storedCount := writeIndex;
      phase := PostTrigger;
      window := window + [entry];
    }

    /** memmove of `n` entries to the start of the array. */
    method MoveDown(from: nat, n: nat)
      requires from + n <= data.Length
      modifies data
      ensures data[..n] == old(data[from..from + n])
    {
      forall k | 0 <= k < n { data[k] := data[from + k]; }
    }

    method Put(at: nat, entry: Entry)
      requires at < data.Length
      modifies data
      ensures data[..at + 1] == old(data[..at]) + [entry]
    {
      data[at] := entry;
    }

    /** The last PRE entries, or all there are, at the start of the array. */
    method KeepLast() returns (keep: nat)
      requires Holds()
      modifies data
      ensures keep <= PRE && data[..keep] == Last(window, PRE)
    {
      keep := writeIndex;
      if keep > PRE {
        keep := PRE;
      }
      if keep > 0 {
        MoveDown(writeIndex - keep, keep);
      }
    }

    /** Keeps at most PRE of the entries so far, by memmove, and puts the new peak after them. */
    method RecenterOnNewPeak(entry: Entry)
      requires Holds()
      modifies this, data
      ensures Holds() && phase == old(phase) && postCount == 0 && window == Last(old(window), PRE) + [entry]
      ensures peakValue == old(peakValue)
    {
      var keep := KeepLast();
      Put(keep, entry);
      writeIndex := keep + 1;
      postCount := 0;
      storedCount := writeIndex;
      window := Last(window, PRE) + [entry];
    }

    method StorePostTrigger(entry: Entry)
      requires Holds()
      modifies this, data
      ensures Holds() && peakValue == old(peakValue)
      ensures old(writeIndex) < COUNT_MAX ==>
                && window == old(window) + [entry] && postCount == old(postCount) + 1
                && phase == if postCount >= POST then Frozen else old(phase)
      ensures old(writeIndex) >= COUNT_MAX ==> window == old(window) && postCount == old(postCount) && phase == Frozen
    {
      if writeIndex >= COUNT_MAX {
        phase := Frozen;
        return;
      }
      data[writeIndex] := entry;
      writeIndex := writeIndex + 1;
      postCount := postCount + 1;
      storedCount := writeIndex;
      window := window + [entry];
      if postCount >= POST {
        phase := Frozen;
      }
    }

    method EnterRolling(ghost seen: seq<Entry>, entry: Entry)
      requires Valid(seen) && phase == Rolling
      modifies this, data
      ensures Valid(seen + [entry])
    {
      if entry.value >= TRIGGER {
        Triggered(seen, window, entry);
        peakValue := entry.value;
        StartPostTrigger(entry);
      } else {
        WaitOn(seen, window, entry);
        StoreRolling(entry);
      }
    }

    method EnterPostTrigger(ghost seen: seq<Entry>, entry: Entry)
      requires Valid(seen) && phase == PostTrigger
      modifies this, data
      ensures Valid(seen + [entry])
    {
      if entry.value >= peakValue {
        Recentred(seen, window, peakValue, postCount, entry);
        peakValue := entry.value;
        RecenterOnNewPeak(entry);
      } else {
        Followed(seen, window, peakValue, postCount, entry);
        NeverFull(seen, window, peakValue, postCount);
        StorePostTrigger(entry);
      }
    }

    /** One entry of the stream; `seen` are those kept so far, and a frozen recorder keeps no more. */
    method TraceEntry(ghost seen: seq<Entry>, timestamp: nat, value: nat)
      requires Valid(seen)
      modifies this, data
      ensures Valid(Keep(seen, Entry(timestamp, value)))
    {
      var entry := Entry(timestamp, value);
      NotYet(seen);
      if phase == Rolling {
        EnterRolling(seen, entry);
      } else if phase == PostTrigger {
        EnterPostTrigger(seen, entry);
      }
    }

    lemma FrozenHolds(seen: seq<Entry>) returns (p: nat)
      requires Valid(seen) && phase == Frozen
      ensures IsPeak(seen, p) && |seen| == p + 1 + POST
      ensures storedCount <= data.Length && data[..storedCount] == Window(seen, p)
    {
      p := FrozenWindow(seen, window, peakValue, postCount);
    }

    lemma NotYet(seen: seq<Entry>)
      requires Valid(seen)
      ensures phase == Frozen <==> Complete(seen)
    {
      if phase == PostTrigger {
        CompleteExactly(seen, |seen| - 1 - postCount);
      }
    }
  }

  /** The window has room while entries after the peak are still to come: the early freeze never happens. */
  lemma NeverFull(seen: seq<Entry>, window: seq<Entry>, peakValue: nat, post: nat)
    requires Centred(seen, window, peakValue, post) && post < POST
    ensures |window| < COUNT_MAX
  {
  }

  /**
   * What a frozen recorder holds, in terms of the stream alone: the last occurrence of the largest value,
   * the PRE entries before it or all there are, and the POST entries after it.
   */
  lemma FrozenWindow(seen: seq<Entry>, window: seq<Entry>, peakValue: nat, post: nat) returns (p: nat)
    requires Centred(seen, window, peakValue, post) && Complete(seen)
    ensures IsPeak(seen, p) && |seen| == p + 1 + POST && window == Window(seen, p)
    ensures var at := if p < PRE then p else PRE;
            at < |window| && window[at] == seen[p] && |window| == at + 1 + POST
  {
    p := |seen| - 1 - POST;
    CompleteExactly(seen, |seen| - 1 - post);
  }

  /**
   * The recorder after any stream at all, from start-up: it stands where the kept part of the stream puts it, and once
   * it is frozen the array holds the window around the last of the largest values kept, and nothing else is counted.
   */
  method TraceAll(stream: seq<Entry>) returns (r: Recorder, ghost p: nat)
    ensures r.Valid(Kept(stream)) && (r.phase == Frozen <==> Complete(Kept(stream)))
    ensures r.phase == Frozen ==>
              && IsPeak(Kept(stream), p) && |Kept(stream)| == p + 1 + POST
              && r.storedCount <= r.data.Length && r.data[..r.storedCount] == Window(Kept(stream), p)
  {
    r := new Recorder();
    var k := 0;
    while k < |stream|
      invariant 0 <= k <= |stream| && fresh(r) && fresh(r.data)
      invariant r.Valid(Kept(stream[..k]))
    {
      KeptSnoc(stream, k);
      r.TraceEntry(Kept(stream[..k]), stream[k].timestamp, stream[k].value);
      k := k + 1;
    }
    assert stream[..k] == stream;
    r.NotYet(Kept(stream));
    p := 0;
    if r.phase == Frozen {
      p := r.FrozenHolds(Kept(stream));
    }
  }
}
