/** The ring of fixed-size log files the blocks are spread over. */
module FileRing {
  import opened Wire

  type Block = seq<byte>

  /** (i + 1) % count */
  function Next(i: nat, count: nat): (n: nat)
    requires i < count
    ensures n == if i + 1 < count then i + 1 else 0
  {
    assert Remainder(0, count) == 0;
    Remainder(i + 1, count)
  }

  /** The next `n` files from file `i` on in ring order, each read whole. */
  function ReadFrom(files: seq<seq<Block>>, i: nat, n: nat): seq<Block>
    requires i < |files|
    decreases n
  {
    if n == 0 then [] else files[i] + ReadFrom(files, Next(i, |files|), n - 1)
  }

  /** Reading the log: from the tail file to the head file, the head only up to its write position. */
  function ReadOut(files: seq<seq<Block>>, tail: nat, head: nat, pos: nat): seq<Block>
    requires tail < |files| && head < |files| && pos <= |files[head]|
  {
    ReadFrom(files, tail, if tail <= head then head - tail else head + |files| - tail) + files[head][..pos]
  }

  function Flatten(parts: seq<seq<Block>>): seq<Block> {
    if parts == [] then [] else parts[0] + Flatten(parts[1..])
  }

  lemma {:induction false} FlattenConcat(a: seq<seq<Block>>, b: seq<seq<Block>>)
    ensures Flatten(a + b) == Flatten(a) + Flatten(b)
  {
    if a == [] {
      assert a + b == b;
    } else {
      assert (a + b)[1..] == a[1..] + b;
      FlattenConcat(a[1..], b);
    }
  }

  lemma ScaleSucc(k: nat, n: nat)
    ensures (k + 1) * n == k * n + n
  {
  }

  lemma {:induction false} FlattenLength(parts: seq<seq<Block>>, n: nat)
    requires forall p :: p in parts ==> |p| == n
    ensures |Flatten(parts)| == |parts| * n
  {
    if parts != [] {
      var first, rest := parts[0], parts[1..];
      assert first in parts && forall p :: p in rest ==> p in parts;
      FlattenLength(rest, n);
      ScaleSucc(|rest|, n);
      assert |Flatten(parts)| == |first| + |Flatten(rest)|;
    }
  }

  /** `done` is what lies in the files from `tail` on. */
  predicate LieFrom(files: seq<seq<Block>>, i: nat, done: seq<seq<Block>>)
    requires i < |files|
    decreases |done|
  {
    done == [] || (files[i] == done[0] && LieFrom(files, Next(i, |files|), done[1..]))
  }

  lemma {:induction false} ReadsDone(files: seq<seq<Block>>, i: nat, done: seq<seq<Block>>)
    requires i < |files| && LieFrom(files, i, done)
    ensures ReadFrom(files, i, |done|) == Flatten(done)
    decreases |done|
  {
    if done != [] {
      ReadsDone(files, Next(i, |files|), done[1..]);
    }
  }

  function Ahead(i: nat, n: nat, count: nat): nat {
    if i + n < count then i + n else i + n - count
  }

  /** Rewriting the file just past the finished ones does not disturb them; finishing it extends them. */
  lemma {:induction false} LieFromUpdate(files: seq<seq<Block>>, i: nat, done: seq<seq<Block>>, f: seq<Block>)
    requires i < |files| && |done| < |files| && LieFrom(files, i, done)
    ensures LieFrom(files[Ahead(i, |done|, |files|) := f], i, done)
    ensures LieFrom(files[Ahead(i, |done|, |files|) := f], i, done + [f])
    decreases |done|
  {
    if done != [] {
      assert Ahead(Next(i, |files|), |done| - 1, |files|) == Ahead(i, |done|, |files|);
      LieFromUpdate(files, Next(i, |files|), done[1..], f);
      assert (done + [f])[1..] == done[1..] + [f];
    }
  }

  /** A full head file joins the finished ones; if that makes a full circle, the oldest gives way. */
  lemma Rotate(files: seq<seq<Block>>, tail: nat, done: seq<seq<Block>>, head: nat)
    requires tail < |files| && |done| < |files| && LieFrom(files, tail, done) && head == Ahead(tail, |done|, |files|)
    ensures var n, all, next := |files|, done + [files[head]], Next(head, |files|);
            && Flatten(all) == Flatten(done) + files[head]
            && LieFrom(files, tail, all)
            && (|all| < n ==> next == Ahead(tail, |all|, n))
            && (|all| == n ==> next == tail && LieFrom(files, Next(tail, n), all[1..])
                               && next == Ahead(Next(tail, n), n - 1, n)
                               && Flatten(all) == all[0] + Flatten(all[1..]))
  {
    assert files[head := files[head]] == files;
    LieFromUpdate(files, tail, done, files[head]);
    FlattenConcat(done, [files[head]]);
    assert Flatten([files[head]]) == files[head];
  }

  /** Blocks per file: the file size in blocks, rounded up. */
  function BlocksFor(size: nat, bs: nat): (n: nat)
    requires 0 < bs
    ensures 0 < size ==> 0 < n
  {
    if size == 0 then 0 else if size <= bs then 1 else 1 + BlocksFor(size - bs, bs)
  }

  lemma {:induction false} BlocksForIsCeiling(size: nat, bs: nat)
    requires 0 < bs
    ensures BlocksFor(size, bs) == (size + bs - 1) / bs
  {
    if size == 0 {
      DivUnique(size + bs - 1, bs, 0, bs - 1);
    } else if size <= bs {
      DivUnique(size + bs - 1, bs, 1, size - 1);
    } else {
      BlocksForIsCeiling(size - bs, bs);
      var q, r := (size - 1) / bs, (size - 1) % bs;
      ScaleSucc(q, bs);
      DivUnique(size + bs - 1, bs, q + 1, r);
    }
  }

  /** A file holding `k` blocks has reached its size exactly when `k` has reached BlocksFor. */
  lemma {:induction false} FullAt(size: nat, bs: nat, k: nat)
    requires 0 < bs && 0 < size
    ensures k * bs >= size <==> k >= BlocksFor(size, bs)
  {
    if k > 0 {
      ScaleSucc(k - 1, bs);
      if size > bs {
        FullAt(size - bs, bs, k - 1);
      } else {
        assert (k - 1) * bs >= 0;
      }
    }
  }

  // ---------------------------------------------------------------- the ring as a value

  /** The indices and the write position kept by the log manager, and the files on the card. */
  datatype LogRing = LogRing(files: seq<seq<Block>>, pos: nat, head: nat, tail: nat, wrapped: bool)

  predicate Shape(c: LogRing, per: nat) {
    c.head < |c.files| && c.tail < |c.files| && c.pos <= per && c.pos <= |c.files[c.head]| && forall f :: f in c.files ==> |f| <= per
  }

  /** `done` are the finished files still on the card, oldest first. */
  predicate Finished(c: LogRing, per: nat, done: seq<seq<Block>>)
    requires Shape(c, per)
  {
    && (forall f :: f in done ==> |f| == per)
    && |done| < |c.files| && c.head == Ahead(c.tail, |done|, |c.files|) && LieFrom(c.files, c.tail, done)
    && (if c.wrapped then |done| == |c.files| - 1 else c.tail == 0)
  }

  predicate IsSuffix(s: seq<Block>, of: seq<Block>) {
    |s| <= |of| && of[|of| - |s|..] == s
  }

  function Kept(c: LogRing, done: seq<seq<Block>>): seq<Block>
    requires c.head < |c.files| && c.pos <= |c.files[c.head]|
  {
    Flatten(done) + c.files[c.head][..c.pos]
  }

  predicate Newest(c: LogRing, done: seq<seq<Block>>, history: seq<Block>)
    requires c.head < |c.files| && c.pos <= |c.files[c.head]|
  {
    IsSuffix(Kept(c, done), history) && (!c.wrapped ==> history == Kept(c, done))
  }

  predicate Sound(c: LogRing, per: nat, done: seq<seq<Block>>, history: seq<Block>) {
    Shape(c, per) && Finished(c, per, done) && Newest(c, done, history)
  }

  ghost predicate KeepsNewest(c: LogRing, per: nat, history: seq<Block>) {
    exists done :: Sound(c, per, done, history)
  }

  function Written(c: LogRing, b: Block): LogRing
    requires c.head < |c.files| && c.pos <= |c.files[c.head]|
  {
    var f := c.files[c.head];
    c.(files := c.files[c.head := f[..c.pos] + [b] + (if c.pos < |f| then f[c.pos + 1..] else [])], pos := c.pos + 1)
  }

  lemma WrittenKeeps(c: LogRing, per: nat, done: seq<seq<Block>>, history: seq<Block>, b: Block)
    requires Sound(c, per, done, history) && c.pos < per
    ensures Sound(Written(c, b), per, done, history + [b])
  {
    var c' := Written(c, b);
    var f' := c'.files[c.head];
    assert f'[..c'.pos] == c.files[c.head][..c.pos] + [b];
    assert |f'| <= per && forall f :: f in c'.files ==> f in c.files || f == f';
    LieFromUpdate(c.files, c.tail, done, f');
    var k := Kept(c, done);
    assert Kept(c', done) == k + [b];
    SuffixSnoc(k, history, b);
  }

  lemma SuffixSnoc(s: seq<Block>, of: seq<Block>, b: Block)
    requires IsSuffix(s, of)
    ensures IsSuffix(s + [b], of + [b])
  {
  }

  /** The head moves on to the next file when its file is full, and once wrapped the tail runs ahead of it. */
  function Checked(c: LogRing, per: nat): LogRing
    requires c.head < |c.files|
  {
    if c.pos < per then c
    else
      var n := |c.files|;
      var wrapped := c.wrapped || c.head >= n - 1;
      var head := Next(c.head, n);
      LogRing(c.files, 0, head, if wrapped then Next(head, n) else c.tail, wrapped)
  }

  lemma RotatedIsFinished(c: LogRing, per: nat, done: seq<seq<Block>>) returns (done': seq<seq<Block>>)
    requires Shape(c, per) && Finished(c, per, done) && c.pos == per && |c.files[c.head]| == per
    ensures Shape(Checked(c, per), per) && Finished(Checked(c, per), per, done')
    ensures var all := done + [c.files[c.head]]; Flatten(all) == Kept(c, done) && (done' == all || (Checked(c, per).wrapped && done' == all[1..]))
  {
    var full := c.files[c.head];
    var all := done + [full];
    assert full in c.files && full[..c.pos] == full;
    Rotate(c.files, c.tail, done, c.head);
    done' := if Checked(c, per).wrapped then all[1..] else all;
    assert forall f :: f in all ==> f in done || f == full;
    assert forall f :: f in done' ==> f in all;
  }

  lemma CheckedKeeps(c: LogRing, per: nat, done: seq<seq<Block>>, history: seq<Block>)
    requires Sound(c, per, done, history) && 0 < per
    ensures KeepsNewest(Checked(c, per), per, history) && Checked(c, per).pos < per
  {
    if c.pos < per {
      assert Sound(Checked(c, per), per, done, history);
    } else {
      assert c.files[c.head] in c.files;
      var done' := RotatedIsFinished(c, per, done);
      var all := done + [c.files[c.head]];
      assert Kept(Checked(c, per), done') == Flatten(done');
      if done' != all {
        assert Flatten(all) == all[0] + Flatten(done');
        SuffixOfSuffix(all[0], Flatten(done'), history);
      }
      assert Newest(Checked(c, per), done', history);
      assert Sound(Checked(c, per), per, done', history);
    }
  }

  lemma SuffixOfSuffix(a: seq<Block>, s: seq<Block>, of: seq<Block>)
    requires IsSuffix(a + s, of)
    ensures IsSuffix(s, of)
  {
    assert of[|of| - |s|..] == of[|of| - |a + s|..][|a|..];
  }

  lemma StoreKeeps(c: LogRing, per: nat, history: seq<Block>, b: Block)
    requires KeepsNewest(c, per, history) && c.pos < per
    ensures KeepsNewest(Checked(Written(c, b), per), per, history + [b]) && Checked(Written(c, b), per).pos < per
  {
    var done :| Sound(c, per, done, history);
    WrittenKeeps(c, per, done, history, b);
    CheckedKeeps(Written(c, b), per, done, history + [b]);
  }

  /** The state after storing `history` on a card that held `before`, with fresh statics. */
  function After(before: seq<seq<Block>>, per: nat, history: seq<Block>): (c: LogRing)
    requires before != [] && 0 < per
    ensures |c.files| == |before| && c.head < |c.files| && c.tail < |c.files| && c.pos < per && c.pos <= |c.files[c.head]|
  {
    if history == [] then LogRing(before, 0, 0, 0, false)
    else Checked(Written(After(before, per, history[..|history| - 1]), history[|history| - 1]), per)
  }

  lemma AfterSnoc(before: seq<seq<Block>>, per: nat, history: seq<Block>, b: Block)
    requires before != [] && 0 < per
    ensures After(before, per, history + [b]) == Checked(Written(After(before, per, history), b), per)
  {
    assert (history + [b])[..|history|] == history;
  }

  /** The files may hold anything from before, up to their preallocated size. */
  predicate Preallocated(before: seq<seq<Block>>, per: nat) {
    before != [] && forall f :: f in before ==> |f| <= per
  }

  lemma StartKeepsNewest(before: seq<seq<Block>>, per: nat)
    requires Preallocated(before, per)
    ensures KeepsNewest(LogRing(before, 0, 0, 0, false), per, [])
  {
    assert Sound(LogRing(before, 0, 0, 0, false), per, [], []);
  }

  lemma SnocKeepsNewest(before: seq<seq<Block>>, per: nat, earlier: seq<Block>, b: Block)
    requires before != [] && 0 < per && KeepsNewest(After(before, per, earlier), per, earlier)
    ensures KeepsNewest(After(before, per, earlier + [b]), per, earlier + [b])
  {
    AfterSnoc(before, per, earlier, b);
    StoreKeeps(After(before, per, earlier), per, earlier, b);
  }

  lemma {:induction false} AfterKeepsNewest(before: seq<seq<Block>>, per: nat, history: seq<Block>)
    requires Preallocated(before, per) && 0 < per
    ensures KeepsNewest(After(before, per, history), per, history)
  {
    if history == [] {
      StartKeepsNewest(before, per);
    } else {
      var earlier, b := history[..|history| - 1], history[|history| - 1];
      assert earlier + [b] == history;
      AfterKeepsNewest(before, per, earlier);
      SnocKeepsNewest(before, per, earlier, b);
    }
  }

  lemma ReadOutIsKept(c: LogRing, done: seq<seq<Block>>)
    requires c.head < |c.files| && c.tail < |c.files| && c.pos <= |c.files[c.head]|
    requires |done| < |c.files| && c.head == Ahead(c.tail, |done|, |c.files|) && LieFrom(c.files, c.tail, done)
    ensures ReadOut(c.files, c.tail, c.head, c.pos) == Kept(c, done)
  {
    ReadsDone(c.files, c.tail, done);
  }

  lemma KeptLength(c: LogRing, per: nat, done: seq<seq<Block>>)
    requires c.head < |c.files| && c.pos <= |c.files[c.head]| && forall f :: f in done ==> |f| == per
    ensures |Kept(c, done)| == |done| * per + c.pos
  {
    FlattenLength(done, per);
  }

  lemma NewestIs(c: LogRing, per: nat, history: seq<Block>)
    requires KeepsNewest(c, per, history) && c.head < |c.files| && c.tail < |c.files| && c.pos <= |c.files[c.head]|
    ensures var out := ReadOut(c.files, c.tail, c.head, c.pos);
            IsSuffix(out, history) && |out| == (if c.wrapped then (|c.files| - 1) * per + c.pos else |history|)
  {
    var done :| Sound(c, per, done, history);
    ReadOutIsKept(c, done);
    KeptLength(c, per, done);
  }

  // ---------------------------------------------------------------- how much is kept

  /** After `n` blocks in all, `q` files have been filled. */
  predicate Located(c: LogRing, count: nat, per: nat, n: nat, q: nat)
    requires 0 < count
  {
    n == q * per + c.pos && c.pos < per && c.head == Remainder(q, count) && (c.wrapped <==> count <= q)
  }

  lemma FileFilled(q: nat, count: nat)
    requires 0 < count
    ensures Next(Remainder(q, count), count) == Remainder(q + 1, count)
    ensures count <= q + 1 <==> count <= q || Remainder(q, count) >= count - 1
  {
    if 1 < count {
      RemainderSmallAdd(q, 1, count);
    }
  }

  lemma StoreLocated(c: LogRing, per: nat, n: nat, q: nat, b: Block) returns (q': nat)
    requires c.head < |c.files| && c.pos <= |c.files[c.head]| && Located(c, |c.files|, per, n, q)
    ensures Located(Checked(Written(c, b), per), |c.files|, per, n + 1, q')
  {
    q' := if c.pos + 1 < per then q else q + 1;
    ScaleSucc(q, per);
    FileFilled(q, |c.files|);
  }

  lemma {:induction false} AfterLocated(before: seq<seq<Block>>, per: nat, history: seq<Block>) returns (q: nat)
    requires before != [] && 0 < per
    ensures Located(After(before, per, history), |before|, per, |history|, q)
  {
    if history == [] {
      q := 0;
    } else {
      var earlier := history[..|history| - 1];
      var p := AfterLocated(before, per, earlier);
      q := StoreLocated(After(before, per, earlier), per, |earlier|, p, history[|history| - 1]);
    }
  }

  lemma LocatedIs(c: LogRing, count: nat, per: nat, n: nat, q: nat)
    requires 0 < count && 0 < per && Located(c, count, per, n, q)
    ensures c.pos == Remainder(n, per) && (c.wrapped <==> count * per <= n)
  {
    RemainderOfMultiple(q, per);
    RemainderAdd(q * per, c.pos, per);
    if q < count {
      ScaleGap(q, count, per);
    } else if count < q {
      ScaleGap(count, q, per);
    }
  }

  /** How many of `n` blocks are still there: all of them until every file is full, and from then on those of all
      files but one, and what the head file has taken since. */
  function KeptBlocks(count: nat, per: nat, n: nat): nat
    requires 0 < count && 0 < per
  {
    if n < count * per then n else (count - 1) * per + Remainder(n, per)
  }

  /**
   * Reading the files from tail to head gives the newest blocks, contiguous and in order: everything until the
   * files are full, and from then on the last (count - 1) files' worth and the head's share.
   */
  lemma KeepsTheNewest(before: seq<seq<Block>>, per: nat, history: seq<Block>)
    requires Preallocated(before, per) && 0 < per
    ensures var c := After(before, per, history);
            var out := ReadOut(c.files, c.tail, c.head, c.pos);
            && IsSuffix(out, history) && |out| == KeptBlocks(|before|, per, |history|)
            && c.pos == Remainder(|history|, per) && (c.wrapped <==> |before| * per <= |history|)
  {
    AfterKeepsNewest(before, per, history);
    NewestIs(After(before, per, history), per, history);
    var q := AfterLocated(before, per, history);
    LocatedIs(After(before, per, history), |before|, per, |history|, q);
  }

  // ---------------------------------------------------------------- the files in the order of their numbers

  /** What lies before the write position, and what lies behind it. */
  function Front(c: LogRing): seq<Block>
    requires c.head < |c.files| && c.pos <= |c.files[c.head]|
  {
    Flatten(c.files[..c.head]) + c.files[c.head][..c.pos]
  }

  function Behind(c: LogRing): seq<Block>
    requires c.head < |c.files| && c.pos <= |c.files[c.head]|
  {
    c.files[c.head][c.pos..] + Flatten(c.files[c.head + 1..])
  }

  lemma FrontAndBehind(c: LogRing)
    requires c.head < |c.files| && c.pos <= |c.files[c.head]|
    ensures Flatten(c.files) == Front(c) + Behind(c)
  {
    var f := c.files[c.head];
    assert c.files == c.files[..c.head] + c.files[c.head..];
    FlattenConcat(c.files[..c.head], c.files[c.head..]);
    assert c.files[c.head..][1..] == c.files[c.head + 1..];
    assert f == f[..c.pos] + f[c.pos..];
    assert Flatten(c.files) == Flatten(c.files[..c.head]) + (f[..c.pos] + f[c.pos..] + Flatten(c.files[c.head + 1..]));
  }

  /** Every file before the head is full; before the write position lie the blocks stored last, and behind it, once
      the files have been full, those stored a lap earlier. */
  predicate Laid(c: LogRing, per: nat, history: seq<Block>) {
    && c.head < |c.files| && c.pos <= |c.files[c.head]| && c.pos <= per
    && (forall f :: f in c.files ==> |f| <= per) && (forall i :: 0 <= i < c.head ==> |c.files[i]| == per)
    && |Front(c)| <= |history| && Front(c) == history[|history| - |Front(c)|..]
    && (c.wrapped ==> LaidBehind(c, per, history))
  }

  predicate LaidBehind(c: LogRing, per: nat, history: seq<Block>)
    requires c.head < |c.files| && c.pos <= |c.files[c.head]|
  {
    && (forall f :: f in c.files ==> |f| == per) && |Front(c)| + |Behind(c)| <= |history|
    && Behind(c) == history[|history| - |Front(c)| - |Behind(c)|..|history| - |Front(c)|]
  }

  lemma WrittenFront(c: LogRing, b: Block)
    requires c.head < |c.files| && c.pos <= |c.files[c.head]|
    ensures Front(Written(c, b)) == Front(c) + [b]
    ensures c.pos < |c.files[c.head]| ==> Behind(c) == [c.files[c.head][c.pos]] + Behind(Written(c, b))
  {
    var c' := Written(c, b);
    var f, f' := c.files[c.head], c'.files[c.head];
    assert c'.files[..c.head] == c.files[..c.head] && c'.files[c.head + 1..] == c.files[c.head + 1..];
    assert f'[..c'.pos] == f[..c.pos] + [b];
    assert c.pos < |f| ==> f[c.pos..] == [f[c.pos]] + f'[c'.pos..];
  }

  lemma WrittenLaid(c: LogRing, per: nat, history: seq<Block>, b: Block)
    requires Laid(c, per, history) && c.pos < per
    ensures Laid(Written(c, b), per, history + [b])
  {
    WrittenFront(c, b);
    SuffixSnoc(Front(c), history, b);
    WrittenSizes(c, per, b);
    if c.wrapped {
      assert c.files[c.head] in c.files;
      MiddleMoves(history, b, c.files[c.head][c.pos], Behind(Written(c, b)), |Front(c)|);
    }
  }

  lemma WrittenSizes(c: LogRing, per: nat, b: Block)
    requires c.head < |c.files| && c.pos <= |c.files[c.head]| && c.pos < per && forall f :: f in c.files ==> |f| <= per
    ensures var c' := Written(c, b);
            && (forall f :: f in c'.files ==> |f| <= per)
            && ((forall f :: f in c.files ==> |f| == per) ==> forall f :: f in c'.files ==> |f| == per)
            && forall i :: 0 <= i < c.head ==> c'.files[i] == c.files[i]
  {
    var c' := Written(c, b);
    assert c.files[c.head] in c.files;
    assert forall f :: f in c'.files ==> f in c.files || f == c'.files[c.head];
  }

  /** A stretch that ends `n` before the end loses its first block to the one written at the end. */
  lemma MiddleMoves(history: seq<Block>, b: Block, first: Block, rest: seq<Block>, n: nat)
    requires n + 1 + |rest| <= |history| && [first] + rest == history[|history| - n - 1 - |rest|..|history| - n]
    ensures var h' := history + [b]; rest == h'[|h'| - (n + 1) - |rest|..|h'| - (n + 1)]
  {
    assert rest == ([first] + rest)[1..];
  }

  /** The head file is full and the next one is there: the write position is the same. */
  lemma NextFileLaid(c: LogRing, per: nat, history: seq<Block>, c': LogRing)
    requires Laid(c, per, history) && c.pos == per == |c.files[c.head]| && c.head + 1 < |c.files|
    requires c'.files == c.files && c'.head == c.head + 1 && c'.pos == 0 && c'.wrapped == c.wrapped
    ensures Front(c') == Front(c) && Behind(c') == Behind(c) && Laid(c', per, history)
  {
    FrontMovesOn(c, c');
    BehindMovesOn(c, c');
  }

  lemma FrontMovesOn(c: LogRing, c': LogRing)
    requires c.head + 1 < |c.files| && c.pos == |c.files[c.head]|
    requires c'.files == c.files && c'.head == c.head + 1 && c'.pos == 0
    ensures Front(c') == Front(c)
  {
    var f := c.files[c.head];
    assert f[..c.pos] == f && c.files[..c.head + 1] == c.files[..c.head] + [f];
    FlattenConcat(c.files[..c.head], [f]);
    assert Flatten([f]) == f && c.files[c.head + 1][..0] == [];
  }

  lemma BehindMovesOn(c: LogRing, c': LogRing)
    requires c.head + 1 < |c.files| && c.pos == |c.files[c.head]|
    requires c'.files == c.files && c'.head == c.head + 1 && c'.pos == 0
    ensures Behind(c') == Behind(c)
  {
    assert c.files[c.head][c.pos..] == [] && c.files[c.head + 1][0..] == c.files[c.head + 1];
    assert c.files[c.head + 1..][1..] == c.files[c.head + 2..];
  }

  /** The last file is full: the write position is back at the start, and everything lies behind it. */
  lemma FirstFileLaid(c: LogRing, per: nat, history: seq<Block>, c': LogRing)
    requires Laid(c, per, history) && c.pos == per == |c.files[c.head]| && c.head + 1 == |c.files|
    requires c'.files == c.files && c'.head == c'.pos == 0
    ensures Front(c') == [] && Behind(c') == Front(c) && Laid(c', per, history)
  {
    FrontAndBehind(c);
    FrontAndBehind(c');
    assert c.files[c.head][per..] == [] && c.files[c.head + 1..] == [];
    assert Front(c) + [] == Front(c) && [] + Behind(c') == Behind(c');
    forall f | f in c.files
      ensures |f| == per
    {
      var i :| 0 <= i < |c.files| && c.files[i] == f;
    }
  }

  lemma StoreLaid(c: LogRing, per: nat, history: seq<Block>, b: Block)
    requires Laid(c, per, history) && c.pos < per
    ensures Laid(Checked(Written(c, b), per), per, history + [b])
  {
    var w := Written(c, b);
    WrittenLaid(c, per, history, b);
    if w.pos == per {
      assert w.files[w.head] in w.files;
      if w.head + 1 < |w.files| {
        NextFileLaid(w, per, history + [b], Checked(w, per));
      } else {
        FirstFileLaid(w, per, history + [b], Checked(w, per));
      }
    }
  }

  lemma {:induction false} AfterLaid(before: seq<seq<Block>>, per: nat, history: seq<Block>)
    requires Preallocated(before, per) && 0 < per
    ensures Laid(After(before, per, history), per, history)
  {
    if history != [] {
      var earlier := history[..|history| - 1];
      assert earlier + [history[|history| - 1]] == history;
      AfterLaid(before, per, earlier);
      StoreLaid(After(before, per, earlier), per, earlier, history[|history| - 1]);
    }
  }

  lemma FrontLength(c: LogRing, per: nat, history: seq<Block>)
    requires Laid(c, per, history)
    ensures |Front(c)| == c.head * per + c.pos
    ensures c.wrapped ==> |Front(c)| + |Behind(c)| == |c.files| * per
  {
    var full := c.files[..c.head];
    assert forall f :: f in full ==> exists i :: 0 <= i < c.head && full[i] == f && c.files[i] == f;
    FlattenLength(full, per);
    if c.wrapped {
      FlattenLength(c.files, per);
      FrontAndBehind(c);
    }
  }

  /** The file and the place in it count the blocks of the current lap. */
  lemma {:induction false} PlaceInLap(q: nat, pos: nat, count: nat, per: nat)
    requires 0 < count && pos < per
    ensures Remainder(q * per + pos, count * per) == Remainder(q, count) * per + pos
  {
    if q < count {
      ScaleGap(q, count, per);
    } else {
      PlaceInLap(q - count, pos, count, per);
      assert q * per == (q - count) * per + count * per;
      assert 0 < count * per <= q * per by {
        if count < q {
          ScaleGap(count, q, per);
        }
        ScaleSucc(count - 1, per);
      }
    }
  }

  /** The blocks that all files hold together. */
  function Capacity(count: nat, per: nat): (n: nat)
    ensures 0 < count && 0 < per ==> 0 < n
  {
    assert 0 < count ==> count * per == (count - 1) * per + per;
    count * per
  }

  /**
   * Every file whole, in the order of their numbers: first the blocks of the current lap, up to the last one stored;
   * then, once the files have been full, what is left of the lap before it.
   */
  lemma FilesHoldLaps(before: seq<seq<Block>>, per: nat, history: seq<Block>, all: nat)
    requires Preallocated(before, per) && 0 < per && all == Capacity(|before|, per)
    ensures var c, n, k := After(before, per, history), |history|, Remainder(|history|, all);
            && k <= n && Front(c) == history[n - k..] && Flatten(c.files) == history[n - k..] + Behind(c)
            && (all <= n ==> Behind(c) == history[n - all..n - k])
  {
    var c := After(before, per, history);
    AfterLaid(before, per, history);
    FrontLength(c, per, history);
    FrontAndBehind(c);
    var q := AfterLocated(before, per, history);
    PlaceInLap(q, c.pos, |before|, per);
    LocatedIs(c, |before|, per, |history|, q);
    LapsAre(c, per, history, all);
  }

  /** ... and so, once they have been full, a whole lap. */
  lemma FullFilesHold(before: seq<seq<Block>>, per: nat, history: seq<Block>, all: nat, k: nat, c: LogRing)
    requires Preallocated(before, per) && 0 < per && all == Capacity(|before|, per) <= |history|
    requires c == After(before, per, history) && k == Remainder(|history|, all)
    ensures Flatten(c.files) == history[|history| - k..] + history[|history| - all..|history| - k]
  {
    FilesHoldLaps(before, per, history, all);
  }

  lemma LapsAre(c: LogRing, per: nat, history: seq<Block>, all: nat)
    requires Laid(c, per, history) && 0 < all && |Front(c)| == Remainder(|history|, all)
    requires c.wrapped ==> |Front(c)| + |Behind(c)| == all
    ensures var n, k := |history|, Remainder(|history|, all);
            && k <= n && Front(c) == history[n - k..]
            && (c.wrapped ==> all <= n && Behind(c) == history[n - all..n - k])
  {
  }

  class LogFiles {
    const blockSize: nat
    const fileSize: nat
    const count: nat
    ghost const before: seq<seq<Block>>  // what the files held at start-up
    var files: seq<seq<Block>>
    var pos: nat                         // blocks before the write position of the head file
    var head: nat
    var tail: nat
    var wrapped: bool
    ghost var history: seq<Block>        // every block ever stored

    ghost function PerFile(): (n: nat)
      requires 0 < blockSize
      ensures 0 < fileSize ==> 0 < n
    {
      BlocksFor(fileSize, blockSize)
    }

    ghost function View(): LogRing
      reads this
    {
      LogRing(files, pos, head, tail, wrapped)
    }

    ghost predicate Valid()
      reads this
    {
      0 < blockSize && 0 < fileSize && |before| == count > 0 && View() == After(before, PerFile(), history)
    }

    constructor (blockSize: nat, fileSize: nat, before: seq<seq<Block>>)
      requires 0 < blockSize && 0 < fileSize && before != []
      ensures Valid() && history == [] && this.before == before
      ensures this.blockSize == blockSize && this.fileSize == fileSize && count == |before|
    {
      this.blockSize, this.fileSize, this.count, this.before, files := blockSize, fileSize, |before|, before, before;
      pos, head, tail, wrapped, history := 0, 0, 0, false, [];
    }

    /** One successful block write followed by the rotation check. */
    method Store(b: Block)
      requires Valid()
      modifies this
      ensures Valid() && history == old(history) + [b]
    {
      AfterSnoc(before, PerFile(), history, b);
      WriteAtPosition(b);
      CheckNewFile();
      history := history + [b];
    }

    method WriteAtPosition(b: Block)
      requires head < |files| && pos <= |files[head]|
      modifies this`files, this`pos
      ensures View() == Written(old(View()), b)
    {
      var f := files[head];
      files := files[head := f[..pos] + [b] + (if pos < |f| then f[pos + 1..] else [])];
      pos := pos + 1;
    }

    /** appCanLogCheckNewFileOpenLocked, with the file operations succeeding. */
    method CheckNewFile()
      requires 0 < blockSize && 0 < fileSize && |files| == count && head < count
      modifies this`pos, this`head, this`tail, this`wrapped
      ensures View() == Checked(old(View()), PerFile())
    {
      FullAt(fileSize, blockSize, pos);
      if pos * blockSize >= fileSize {
        if head >= count - 1 {
          wrapped := true;
        }
        head := Next(head, count);
        if wrapped {
          tail := Next(head, count);
        }
        pos := 0;
      }
    }
  }
}
