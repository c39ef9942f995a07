/** compare_traces.py: which frames of the reference trace the logger lost. */
module CompareTraces {
  import opened Wire

  datatype Frame = Frame(timestamp: real, channel: nat, canId: nat)

  /** A frame at its absolute position in the channel's sequence. */
  datatype Sample = Sample(pos: nat, ts: real)

  // ---------------------------------------------------------------- extract_channel

  function OnChannel(frames: seq<Frame>, channel: nat): seq<Frame> {
    if frames == [] then []
    else
      var f := frames[|frames| - 1];
      OnChannel(frames[..|frames| - 1], channel) + if f.channel == channel then [f] else []
  }

  predicate Increasing(ps: seq<nat>) {
    forall i, j :: 0 <= i < j < |ps| ==> ps[i] < ps[j]
  }

  /** `at` are the places of the channel's frames in the trace, and `kept` those frames. */
  predicate PlacesOf(frames: seq<Frame>, channel: nat, at: seq<nat>, kept: seq<Frame>) {
    && Increasing(at) && |at| == |kept|
    && (forall i :: 0 <= i < |at| ==> at[i] < |frames| && kept[i] == frames[at[i]])
    && (forall k :: 0 <= k < |frames| ==> (frames[k].channel == channel <==> k in at))
  }

  lemma PlacesSnoc(frames: seq<Frame>, channel: nat, at: seq<nat>, kept: seq<Frame>, f: Frame)
    requires PlacesOf(frames, channel, at, kept)
    ensures f.channel == channel ==> PlacesOf(frames + [f], channel, at + [|frames|], kept + [f])
    ensures f.channel != channel ==> PlacesOf(frames + [f], channel, at, kept)
  {
    var more, at' := frames + [f], at + [|frames|];
    assert forall i :: 0 <= i < |at| ==> more[at[i]] == frames[at[i]];
    assert forall k :: k in at ==> k < |frames|;
    assert forall k :: 0 <= k < |frames| ==> more[k] == frames[k] && (k in at' <==> k in at);
    assert |frames| in at' by { assert at'[|at|] == |frames|; }
  }

  /** What is kept of a trace is the frames of the channel, all of them, once each and in their order. */
  lemma {:induction false} KeepsTheChannel(frames: seq<Frame>, channel: nat) returns (at: seq<nat>)
    ensures PlacesOf(frames, channel, at, OnChannel(frames, channel))
  {
    if frames == [] {
      at := [];
    } else {
      var n := |frames| - 1;
      var earlier := KeepsTheChannel(frames[..n], channel);
      assert frames == frames[..n] + [frames[n]];
      PlacesSnoc(frames[..n], channel, earlier, OnChannel(frames[..n], channel), frames[n]);
      var before := OnChannel(frames[..n], channel);
      assert frames[n].channel != channel ==> OnChannel(frames, channel) == before + [] == before;
      at := if frames[n].channel == channel then earlier + [n] else earlier;
    }
  }

  /** How often the ids of a channel have stepped down. */
  function Cycle(fs: seq<Frame>): nat {
    if |fs| < 2 then 0
    else Cycle(fs[..|fs| - 1]) + if fs[|fs| - 1].canId < fs[|fs| - 2].canId then 1 else 0
  }

  function Positioned(fs: seq<Frame>, modulo: nat): (r: seq<Sample>)
    ensures |r| == |fs|
  {
    if fs == [] then []
    else
      var f := fs[|fs| - 1];
      Positioned(fs[..|fs| - 1], modulo) + [Sample(Cycle(fs) * modulo + f.canId, f.timestamp)]
  }

  method ExtractChannel(frames: seq<Frame>, channel: nat, modulo: nat) returns (result: seq<Sample>)
    ensures result == Positioned(OnChannel(frames, channel), modulo)
  {
    result := [];
    var prev: int := -1;
    var cycle := 0;
    var k := 0;
    ghost var kept: seq<Frame> := [];
    while k < |frames|
      invariant k <= |frames| && kept == OnChannel(frames[..k], channel)
      invariant result == Positioned(kept, modulo) && cycle == Cycle(kept)
      invariant prev == if kept == [] then -1 else kept[|kept| - 1].canId
    {
      var f := frames[k];
      assert frames[..k + 1][..k] == frames[..k];
      k := k + 1;
      if f.channel != channel {
        continue;
      }
      if prev >= 0 && f.canId < prev {
        cycle := cycle + 1;
      }
      assert (kept + [f])[..|kept|] == kept;
      kept := kept + [f];
      result := result + [Sample(cycle * modulo + f.canId, f.timestamp)];
      prev := f.canId;
    }
    assert frames[..k] == frames;
  }

  /** The frames carry their true positions modulo `modulo` as ids. */
  predicate Carry(fs: seq<Frame>, truth: seq<nat>, modulo: nat)
    requires 0 < modulo
  {
    |fs| == |truth| && forall i :: 0 <= i < |fs| ==> fs[i].canId == truth[i] % modulo
  }

  predicate SmallGaps(truth: seq<nat>, modulo: nat) {
    forall i :: 0 < i < |truth| ==> truth[i] - truth[i - 1] < modulo
  }

  /** The true positions, counted from the start of the first frame's cycle. */
  predicate Recovered(samples: seq<Sample>, truth: seq<nat>, modulo: nat)
    requires 0 < modulo
  {
    |samples| == |truth| && forall i :: 0 <= i < |truth| ==> samples[i].pos == truth[i] - truth[0] / modulo * modulo
  }

  lemma Wraps(a: nat, b: nat, m: nat)
    requires 0 < m && a < b < a + m
    ensures b / m == a / m + if b % m < a % m then 1 else 0
  {
    var q, r := a / m, a % m;
    assert a == q * m + r;
    if r + (b - a) < m {
      DivUnique(b, m, q, r + (b - a));
    } else {
      assert (q + 1) * m == q * m + m;
      DivUnique(b, m, q + 1, r + (b - a) - m);
    }
  }

  lemma {:induction false} CyclesAreTrue(fs: seq<Frame>, truth: seq<nat>, modulo: nat)
    requires 0 < modulo && Carry(fs, truth, modulo) && Increasing(truth) && SmallGaps(truth, modulo) && fs != []
    ensures truth[|truth| - 1] / modulo == truth[0] / modulo + Cycle(fs)
  {
    var n := |fs|;
    if n > 1 {
      CyclesAreTrue(fs[..n - 1], truth[..n - 1], modulo);
      Wraps(truth[n - 2], truth[n - 1], modulo);
    }
  }

  lemma SmallGapsAreRecovered(fs: seq<Frame>, truth: seq<nat>, modulo: nat)
    requires 0 < modulo && Carry(fs, truth, modulo) && Increasing(truth) && SmallGaps(truth, modulo)
    ensures Recovered(Positioned(fs, modulo), truth, modulo)
  {
    forall i | 0 <= i < |truth|
      ensures Positioned(fs, modulo)[i].pos == truth[i] - truth[0] / modulo * modulo
    {
      PositionedAt(fs, modulo, i);
      CyclesAreTrue(fs[..i + 1], truth[..i + 1], modulo);
      LastIsRecovered(Cycle(fs[..i + 1]), truth[0], truth[i], modulo);
    }
  }

  lemma LastIsRecovered(cycles: nat, first: nat, last: nat, m: nat)
    requires 0 < m && last / m == first / m + cycles
    ensures cycles * m + last % m == last - first / m * m
  {
    assert last == last / m * m + last % m;
    assert (first / m + cycles) * m == first / m * m + cycles * m;
  }

  /** What is extracted never moves on by a whole cycle at once. */
  lemma StepsAreSmall(fs: seq<Frame>, truth: seq<nat>, modulo: nat, i: nat)
    requires 0 < modulo && Carry(fs, truth, modulo) && 0 < i < |fs|
    ensures Positioned(fs, modulo)[i].pos < Positioned(fs, modulo)[i - 1].pos + modulo
  {
    PositionedAt(fs, modulo, i);
    PositionedAt(fs, modulo, i - 1);
    assert fs[..i + 1][..i] == fs[..i];
    assert (Cycle(fs[..i]) + 1) * modulo == Cycle(fs[..i]) * modulo + modulo;
  }

  lemma {:induction false} PositionedAt(fs: seq<Frame>, modulo: nat, i: nat)
    requires i < |fs|
    ensures Positioned(fs, modulo)[i].pos == Cycle(fs[..i + 1]) * modulo + fs[i].canId
    ensures Positioned(fs, modulo)[i].ts == fs[i].timestamp
  {
    if i < |fs| - 1 {
      PositionedAt(fs[..|fs| - 1], modulo, i);
      assert fs[..|fs| - 1][..i + 1] == fs[..i + 1];
    } else {
      assert fs[..i + 1] == fs;
    }
  }

  /** Extraction recovers the true positions, up to the first cycle, exactly when every gap is below the modulus. */
  lemma RecoveredExactlyForSmallGaps(fs: seq<Frame>, truth: seq<nat>, modulo: nat)
    requires 0 < modulo && Carry(fs, truth, modulo) && Increasing(truth)
    ensures Recovered(Positioned(fs, modulo), truth, modulo) <==> SmallGaps(truth, modulo)
  {
    if SmallGaps(truth, modulo) {
      SmallGapsAreRecovered(fs, truth, modulo);
    } else {
      var i :| 0 < i < |truth| && truth[i] - truth[i - 1] >= modulo;
      StepsAreSmall(fs, truth, modulo, i);
    }
  }

  // ---------------------------------------------------------------- find_lost

  datatype Burst = Burst(start: nat, end: nat, tsStart: real, tsEnd: real, count: nat)

  predicate Ascending(s: seq<Sample>) {
    forall i, j :: 0 <= i < j < |s| ==> s[i].pos < s[j].pos
  }

  predicate Has(s: seq<Sample>, pos: nat) {
    exists k :: 0 <= k < |s| && s[k].pos == pos
  }

  /** The samples of the reference that the logger does not have. */
  function Missing(reference: seq<Sample>, logger: seq<Sample>): seq<Sample> {
    if reference == [] then []
    else
      var x := reference[|reference| - 1];
      Missing(reference[..|reference| - 1], logger) + if Has(logger, x.pos) then [] else [x]
  }

  function Extend(b: Burst, x: Sample): Burst {
    b.(end := x.pos, tsEnd := x.ts, count := b.count + 1)
  }

  /** Runs of consecutive positions, as long as they go. */
  function Grouped(s: seq<Sample>): seq<Burst> {
    if s == [] then []
    else
      var x, g := s[|s| - 1], Grouped(s[..|s| - 1]);
      if g != [] && x.pos == g[|g| - 1].end + 1 then g[..|g| - 1] + [Extend(g[|g| - 1], x)]
      else g + [Burst(x.pos, x.pos, x.ts, x.ts, 1)]
  }

  lemma GroupedSnoc(s: seq<Sample>, x: Sample)
    ensures var g := Grouped(s);
            Grouped(s + [x]) == if g != [] && x.pos == g[|g| - 1].end + 1 then g[..|g| - 1] + [Extend(g[|g| - 1], x)]
                                else g + [Burst(x.pos, x.pos, x.ts, x.ts, 1)]
  {
    assert (s + [x])[..|s|] == s;
  }

  datatype Pending = None | Open(b: Burst)

  /** The bursts with the open one flushed. */
  function With(bursts: seq<Burst>, current: Pending): seq<Burst> {
    if current.Open? then bursts + [current.b] else bursts
  }

  /** The open burst ends at the position last looked at or before; a flushed one ends before it. */
  predicate Behind(bursts: seq<Burst>, current: Pending, last: int) {
    if current.Open? then current.b.end <= last else bursts == [] || bursts[|bursts| - 1].end < last
  }

  /** A lost sample extends the open burst if it follows it, and opens one otherwise. */
  lemma LostStep(bursts: seq<Burst>, current: Pending, lost: seq<Sample>, x: Sample, last: int)
    requires With(bursts, current) == Grouped(lost) && Behind(bursts, current, last) && last < x.pos
    ensures Grouped(lost + [x]) ==
              if current.Open? && x.pos == current.b.end + 1 then bursts + [Extend(current.b, x)]
              else With(bursts, current) + [Burst(x.pos, x.pos, x.ts, x.ts, 1)]
  {
    GroupedSnoc(lost, x);
    if current.Open? {
      assert Grouped(lost)[..|bursts|] == bursts;
    }
  }

  /** The first `n` samples lie before the position. */
  predicate AllBefore(logger: seq<Sample>, n: nat, pos: nat)
    requires n <= |logger|
  {
    forall k :: 0 <= k < n ==> logger[k].pos < pos
  }

  /** A sample that is lost extends the open burst, or the open burst is flushed and another one begins. */
  method AddLost(bursts: seq<Burst>, current: Pending, x: Sample, ghost lost: seq<Sample>, ghost last: int)
      returns (bursts': seq<Burst>, current': Pending)
    requires With(bursts, current) == Grouped(lost) && Behind(bursts, current, last) && last < x.pos
    ensures With(bursts', current') == Grouped(lost + [x]) && Behind(bursts', current', x.pos)
  {
    LostStep(bursts, current, lost, x, last);
    if current.Open? && x.pos == current.b.end + 1 {
      return bursts, Open(Extend(current.b, x));
    }
    return With(bursts, current), Open(Burst(x.pos, x.pos, x.ts, x.ts, 1));
  }

  /** Where the merge-join stands: what is lost among the first `ci` samples, as bursts flushed and one that may go on. */
  ghost predicate Stands(canoe: seq<Sample>, logger: seq<Sample>, ci: nat, li: nat, bursts: seq<Burst>, current: Pending)
  {
    && ci <= |canoe| && li <= |logger|
    && (ci < |canoe| ==> AllBefore(logger, li, canoe[ci].pos))
    && With(bursts, current) == Grouped(Missing(canoe[..ci], logger))
    && Behind(bursts, current, LastPos(canoe, ci))
  }

  function LastPos(canoe: seq<Sample>, ci: nat): int
    requires ci <= |canoe|
  {
    if ci == 0 then -1 else canoe[ci - 1].pos
  }

  lemma AtTheStart(canoe: seq<Sample>, logger: seq<Sample>)
    ensures Stands(canoe, logger, 0, 0, [], None)
  {
  }

  lemma AtTheEnd(canoe: seq<Sample>, logger: seq<Sample>, li: nat, bursts: seq<Burst>, current: Pending)
    requires Stands(canoe, logger, |canoe|, li, bursts, current)
    ensures With(bursts, current) == Grouped(Missing(canoe, logger))
  {
    assert canoe[..|canoe|] == canoe;
  }

  lemma StepPast(canoe: seq<Sample>, logger: seq<Sample>, ci: nat, li: nat, bursts: seq<Burst>, current: Pending)
    requires Stands(canoe, logger, ci, li, bursts, current) && Ascending(logger)
    requires ci < |canoe| && li < |logger| && logger[li].pos < canoe[ci].pos
    ensures Stands(canoe, logger, ci, li + 1, bursts, current)
  {
  }

  lemma StepBoth(canoe: seq<Sample>, logger: seq<Sample>, ci: nat, li: nat, bursts: seq<Burst>, current: Pending)
    requires Stands(canoe, logger, ci, li, bursts, current) && Ascending(canoe) && Ascending(logger)
    requires ci < |canoe| && li < |logger| && logger[li].pos == canoe[ci].pos
    ensures Stands(canoe, logger, ci + 1, li + 1, With(bursts, current), None)
  {
    MissingSnoc(canoe, logger, ci, li);
    assert Missing(canoe[..ci], logger) + [] == Missing(canoe[..ci], logger);
  }

  lemma StepLost(canoe: seq<Sample>, logger: seq<Sample>, ci: nat, li: nat, bursts: seq<Burst>, current: Pending,
                 bursts': seq<Burst>, current': Pending)
    requires Stands(canoe, logger, ci, li, bursts, current) && Ascending(canoe) && Ascending(logger)
    requires ci < |canoe| && (li < |logger| ==> canoe[ci].pos < logger[li].pos)
    requires With(bursts', current') == Grouped(Missing(canoe[..ci], logger) + [canoe[ci]])
    requires Behind(bursts', current', canoe[ci].pos)
    ensures Stands(canoe, logger, ci + 1, li, bursts', current')
  {
    MissingSnoc(canoe, logger, ci, li);
  }

  method FindLost(canoe: seq<Sample>, logger: seq<Sample>) returns (bursts: seq<Burst>)
    requires Ascending(canoe) && Ascending(logger)
    ensures bursts == Grouped(Missing(canoe, logger))
  {
    bursts := [];
    var current := None;
    var ci, li := 0, 0;
    AtTheStart(canoe, logger);
    while ci < |canoe|
      invariant Stands(canoe, logger, ci, li, bursts, current)
      decreases |canoe| - ci, |logger| - li
    {
      var x := canoe[ci];
      if li < |logger| && logger[li].pos < x.pos {
        StepPast(canoe, logger, ci, li, bursts, current);
        li := li + 1;
        continue;
      }
      if li < |logger| && logger[li].pos == x.pos {
        StepBoth(canoe, logger, ci, li, bursts, current);
        bursts, current := With(bursts, current), None;
        ci, li := ci + 1, li + 1;
      } else {
        var more, open := AddLost(bursts, current, x, Missing(canoe[..ci], logger), LastPos(canoe, ci));
        StepLost(canoe, logger, ci, li, bursts, current, more, open);
        bursts, current := more, open;
        ci := ci + 1;
      }
    }
    AtTheEnd(canoe, logger, li, bursts, current);
    bursts := With(bursts, current);
  }

  lemma MissingAt(s: seq<Sample>, x: Sample, logger: seq<Sample>)
    ensures Missing(s + [x], logger) == Missing(s, logger) + if Has(logger, x.pos) then [] else [x]
  {
    assert (s + [x])[..|s|] == s;
  }

  lemma MissingSnoc(canoe: seq<Sample>, logger: seq<Sample>, ci: nat, li: nat)
    requires ci < |canoe| && Ascending(logger) && li <= |logger| && AllBefore(logger, li, canoe[ci].pos)
    requires li < |logger| ==> canoe[ci].pos <= logger[li].pos
    ensures Missing(canoe[..ci + 1], logger) ==
              Missing(canoe[..ci], logger) + if li < |logger| && logger[li].pos == canoe[ci].pos then [] else [canoe[ci]]
  {
    InLoggerHere(logger, li, canoe[ci].pos);
    MissingNext(canoe, logger, ci);
  }

  lemma MissingNext(canoe: seq<Sample>, logger: seq<Sample>, ci: nat)
    requires ci < |canoe|
    ensures Missing(canoe[..ci + 1], logger) ==
              Missing(canoe[..ci], logger) + if Has(logger, canoe[ci].pos) then [] else [canoe[ci]]
  {
    assert canoe[..ci + 1] == canoe[..ci] + [canoe[ci]];
    MissingAt(canoe[..ci], canoe[ci], logger);
  }

  lemma InLoggerHere(logger: seq<Sample>, li: nat, pos: nat)
    requires Ascending(logger) && li <= |logger| && AllBefore(logger, li, pos)
    requires li < |logger| ==> pos <= logger[li].pos
    ensures Has(logger, pos) <==> li < |logger| && logger[li].pos == pos
  {
  }

  // ---------------------------------------------------------------- what the bursts are

  lemma {:induction false} MissingExactly(reference: seq<Sample>, logger: seq<Sample>, x: Sample)
    ensures x in Missing(reference, logger) <==> x in reference && !Has(logger, x.pos)
  {
    if reference != [] {
      var n := |reference| - 1;
      MissingExactly(reference[..n], logger, x);
      assert reference == reference[..n] + [reference[n]];
    }
  }

  lemma {:induction false} MissingAscends(reference: seq<Sample>, logger: seq<Sample>)
    requires Ascending(reference)
    ensures Ascending(Missing(reference, logger))
  {
    if reference != [] {
      var n := |reference| - 1;
      MissingAscends(reference[..n], logger);
      forall x | x in Missing(reference[..n], logger)
        ensures x.pos < reference[n].pos
      {
        MissingExactly(reference[..n], logger, x);
      }
    }
  }

  /** Every burst is a run of consecutive positions with its count, and bursts neither touch nor overlap. */
  predicate Separate(g: seq<Burst>) {
    && (forall i :: 0 <= i < |g| ==> g[i].start <= g[i].end && g[i].count == g[i].end - g[i].start + 1)
    && (forall i, j :: 0 <= i < j < |g| ==> g[i].end + 1 < g[j].start)
  }

  predicate Covers(g: seq<Burst>, pos: nat) {
    exists i :: 0 <= i < |g| && g[i].start <= pos <= g[i].end
  }

  lemma SeparateSnoc(g: seq<Burst>, b: Burst)
    requires Separate(g) && b.start <= b.end && b.count == b.end - b.start + 1
    requires g != [] ==> g[|g| - 1].end + 1 < b.start
    ensures Separate(g + [b])
  {
  }

  lemma SeparateExtend(g: seq<Burst>, x: Sample)
    requires Separate(g) && g != [] && x.pos == g[|g| - 1].end + 1
    ensures Separate(g[..|g| - 1] + [Extend(g[|g| - 1], x)])
  {
  }

  lemma {:induction false} GroupedSeparate(s: seq<Sample>)
    requires Ascending(s)
    ensures Separate(Grouped(s))
    ensures if s == [] then Grouped(s) == [] else Grouped(s) != [] && Grouped(s)[|Grouped(s)| - 1].end == s[|s| - 1].pos
  {
    if s != [] {
      var n := |s| - 1;
      var x, g := s[n], Grouped(s[..n]);
      GroupedSeparate(s[..n]);
      if g != [] && x.pos == g[|g| - 1].end + 1 {
        SeparateExtend(g, x);
      } else {
        SeparateSnoc(g, Burst(x.pos, x.pos, x.ts, x.ts, 1));
      }
    }
  }

  lemma {:induction false} GroupedCovers(s: seq<Sample>, pos: nat)
    ensures Covers(Grouped(s), pos) <==> Has(s, pos)
    ensures Grouped(s) != [] ==> Grouped(s)[|Grouped(s)| - 1].start <= Grouped(s)[|Grouped(s)| - 1].end
  {
    if s != [] {
      var n := |s| - 1;
      GroupedCovers(s[..n], pos);
      GroupedCoversSnoc(s[..n], s[n], pos);
      assert s == s[..n] + [s[n]];
    }
  }

  lemma GroupedCoversSnoc(s: seq<Sample>, x: Sample, pos: nat)
    requires Covers(Grouped(s), pos) <==> Has(s, pos)
    requires Grouped(s) != [] ==> Grouped(s)[|Grouped(s)| - 1].start <= Grouped(s)[|Grouped(s)| - 1].end
    ensures var g := Grouped(s + [x]);
            (Covers(g, pos) <==> Has(s + [x], pos)) && g != [] && g[|g| - 1].start <= g[|g| - 1].end
  {
    var g := Grouped(s);
    GroupedSnoc(s, x);
    HasSnoc(s, x, pos);
    if g != [] && x.pos == g[|g| - 1].end + 1 {
      CoversExtend(g, x, pos);
    } else {
      CoversSnoc(g, Burst(x.pos, x.pos, x.ts, x.ts, 1), pos);
    }
  }

  lemma CoversExtend(g: seq<Burst>, x: Sample, pos: nat)
    requires g != [] && x.pos == g[|g| - 1].end + 1 && g[|g| - 1].start <= g[|g| - 1].end
    ensures Covers(g[..|g| - 1] + [Extend(g[|g| - 1], x)], pos) <==> Covers(g, pos) || pos == x.pos
  {
    var rest, b := g[..|g| - 1], g[|g| - 1];
    assert g == rest + [b];
    CoversSnoc(rest, b, pos);
    CoversSnoc(rest, Extend(b, x), pos);
  }

  lemma HasSnoc(s: seq<Sample>, x: Sample, pos: nat)
    ensures Has(s + [x], pos) <==> Has(s, pos) || x.pos == pos
  {
    if Has(s, pos) {
      var k :| 0 <= k < |s| && s[k].pos == pos;
      assert (s + [x])[k] == s[k];
    }
    assert (s + [x])[|s|] == x;
  }

  lemma CoversSnoc(g: seq<Burst>, b: Burst, pos: nat)
    ensures Covers(g + [b], pos) <==> Covers(g, pos) || b.start <= pos <= b.end
  {
    if Covers(g, pos) {
      var k :| 0 <= k < |g| && g[k].start <= pos <= g[k].end;
      assert (g + [b])[k] == g[k];
    }
    assert (g + [b])[|g|] == b;
  }

  /**
   * The bursts reported are separate maximal runs, in order, and they cover exactly the positions that are in
   * the reference and not in the logger.
   */
  lemma BurstsAreTheLosses(canoe: seq<Sample>, logger: seq<Sample>, pos: nat)
    requires Ascending(canoe)
    ensures var g := Grouped(Missing(canoe, logger));
            Separate(g) && (Covers(g, pos) <==> Has(canoe, pos) && !Has(logger, pos))
  {
    var lost := Missing(canoe, logger);
    MissingAscends(canoe, logger);
    GroupedSeparate(lost);
    GroupedCovers(lost, pos);
    if Has(lost, pos) {
      var k :| 0 <= k < |lost| && lost[k].pos == pos;
      MissingExactly(canoe, logger, lost[k]);
    }
    if Has(canoe, pos) && !Has(logger, pos) {
      var k :| 0 <= k < |canoe| && canoe[k].pos == pos;
      MissingExactly(canoe, logger, canoe[k]);
    }
  }

  /** Where a burst starts and ends there are samples, and it carries their time stamps. */
  predicate TimesFrom(s: seq<Sample>, b: Burst) {
    Sample(b.start, b.tsStart) in s && Sample(b.end, b.tsEnd) in s
  }

  predicate AllTimesFrom(s: seq<Sample>, g: seq<Burst>) {
    forall i :: 0 <= i < |g| ==> TimesFrom(s, g[i])
  }

  lemma TimesFromMore(s: seq<Sample>, more: seq<Sample>, g: seq<Burst>)
    requires AllTimesFrom(s, g) && forall x :: x in s ==> x in more
    ensures AllTimesFrom(more, g)
  {
    forall i | 0 <= i < |g|
      ensures TimesFrom(more, g[i])
    {
      assert TimesFrom(s, g[i]);
    }
  }

  lemma {:induction false} GroupedTimes(s: seq<Sample>)
    ensures AllTimesFrom(s, Grouped(s))
  {
    if s != [] {
      var n := |s| - 1;
      var x, g := s[n], Grouped(s[..n]);
      GroupedTimes(s[..n]);
      assert s == s[..n] + [x];
      TimesFromMore(s[..n], s, g);
      if g != [] {
        assert TimesFrom(s, g[|g| - 1]);
      }
    }
  }

  /** The frame of the trace that is `pos` in its channel's sequence, and when it was sent. */
  ghost predicate SentAt(fs: seq<Frame>, modulo: nat, pos: nat, ts: real) {
    exists i :: 0 <= i < |fs| && Positioned(fs, modulo)[i].pos == pos && fs[i].timestamp == ts
  }

  /** A burst reported carries the time stamps of the first and of the last frame lost in it, in terms of the frames of the
      reference trace. */
  lemma BurstTimes(fs: seq<Frame>, logger: seq<Sample>, modulo: nat, i: nat)
    requires i < |Grouped(Missing(Positioned(fs, modulo), logger))|
    ensures var b := Grouped(Missing(Positioned(fs, modulo), logger))[i];
            && SentAt(fs, modulo, b.start, b.tsStart) && SentAt(fs, modulo, b.end, b.tsEnd)
            && !Has(logger, b.start) && !Has(logger, b.end)
  {
    var lost := Missing(Positioned(fs, modulo), logger);
    var b := Grouped(lost)[i];
    GroupedTimes(lost);
    assert TimesFrom(lost, b);
    LostFrame(fs, logger, modulo, Sample(b.start, b.tsStart));
    LostFrame(fs, logger, modulo, Sample(b.end, b.tsEnd));
  }

  lemma LostFrame(fs: seq<Frame>, logger: seq<Sample>, modulo: nat, x: Sample)
    requires x in Missing(Positioned(fs, modulo), logger)
    ensures SentAt(fs, modulo, x.pos, x.ts) && !Has(logger, x.pos)
  {
    MissingExactly(Positioned(fs, modulo), logger, x);
    var i :| 0 <= i < |fs| && Positioned(fs, modulo)[i] == x;
    PositionedAt(fs, modulo, i);
  }
}
