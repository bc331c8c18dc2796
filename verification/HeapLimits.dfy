/** How far the allocator's promises carry once it grows by frames and frees across them: what
    the code does without the checks it leaves out, and exactly when that is right. */
module HeapLimits {

  import opened Bytes
  import opened HeapSpec
  import opened HeapMemory
  import opened Heap

  // ---------------------------------------------------------------- growing apart

  /** Frame numbers as the bitmap scan yields them. */
  ghost predicate Rising(fs: seq<nat>) {
    && (forall k :: 0 <= k < |fs| ==> fs[k] > 0)
    && (forall j, k :: 0 <= j < k < |fs| ==> fs[j] < fs[k])
  }

  lemma {:induction false} FrameBlocksAt(fs: seq<nat>, k: nat)
    requires k < |fs|
    ensures |FrameBlocks(fs)| == |fs| && FrameBlocks(fs)[k] == FrameBlock(fs[k])
    decreases k, |fs|
  {
    if |fs| > 1 {
      FrameBlocksAt(fs[1..], if k > 0 then k - 1 else 0);
    }
  }

  lemma AllFrameBlocks(fs: seq<nat>)
    ensures |FrameBlocks(fs)| == |fs|
    ensures forall k :: 0 <= k < |fs| ==> FrameBlocks(fs)[k] == FrameBlock(fs[k])
  {
    forall k | 0 <= k < |fs|
      ensures |FrameBlocks(fs)| == |fs| && FrameBlocks(fs)[k] == FrameBlock(fs[k])
    {
      FrameBlocksAt(fs, k);
    }
  }

  lemma AppendedSeparated(bs: seq<Block>, more: seq<Block>, limit: nat)
    requires Separated(bs, limit)
    ensures Separated(bs + more, limit) <==>
            Separated(more, limit) && forall i, k :: 0 <= i < |bs| && 0 <= k < |more| ==> Apart(bs[i], more[k])
  {
    var r := bs + more;
    assert forall i :: 0 <= i < |bs| ==> r[i] == bs[i];
    assert forall k :: 0 <= k < |more| ==> r[|bs| + k] == more[k];
    if Separated(r, limit) {
      forall k | 0 <= k < |more|
        ensures 0 < more[k].addr && End(more[k]) <= limit
      {
        assert r[|bs| + k] == more[k];
      }
      forall j, k | 0 <= j < k < |more|
        ensures Apart(more[j], more[k])
      {
        assert Apart(r[|bs| + j], r[|bs| + k]);
      }
      forall i, k | 0 <= i < |bs| && 0 <= k < |more|
        ensures Apart(bs[i], more[k])
      {
        assert Apart(r[i], r[|bs| + k]);
      }
    }
  }

  lemma FramesSeparated(fs: seq<nat>, limit: nat)
    requires Rising(fs)
    ensures Separated(FrameBlocks(fs), limit) <==> forall k :: 0 <= k < |fs| ==> End(FrameBlock(fs[k])) <= limit
  {
    AllFrameBlocks(fs);
    var r := FrameBlocks(fs);
    if Separated(r, limit) {
      forall k | 0 <= k < |fs|
        ensures End(FrameBlock(fs[k])) <= limit
      {
        assert End(r[k]) <= limit;
      }
    }
  }

  /** The two parts of a split frame are apart from a block exactly when the frame is. */
  lemma CutApart(b: Block, size: nat, x: Block)
    requires size <= b.size
    ensures (forall k :: 0 <= k < |Cut(b, size)| ==> Apart(x, Cut(b, size)[k])) <==> Apart(b, x)
  {
    var cut := Cut(b, size);
    assert forall k :: 0 <= k < |cut| ==> b.addr <= cut[k].addr && End(cut[k]) <= End(b);
    if forall k :: 0 <= k < |cut| ==> Apart(x, cut[k]) {
      assert Apart(x, cut[0]);
      assert |cut| == 2 ==> Apart(x, cut[1]) && cut[1].addr == End(cut[0]) && End(cut[1]) == End(b);
    }
  }

  lemma CutSeparate(b: Block, size: nat, limit: nat)
    requires size <= b.size && b.addr > 0
    ensures Separated(Cut(b, size), limit) <==> End(b) <= limit
  {
    var cut := Cut(b, size);
    if Separated(cut, limit) {
      assert End(cut[|cut| - 1]) == End(b);
    }
  }

  /** A grown list consists of blocks that lie in memory without sharing a byte exactly when the
      frames it took lie in memory apart from the blocks there were. */
  lemma GrowSeparatedExactly(bs: seq<Block>, clear: seq<nat>, size: nat, limit: nat)
    requires Separated(bs, limit) && Rising(clear)
    ensures Separated(Grow(bs, clear, size).blocks, limit) <==> FramesFit(bs, Needed(bs, clear, size), limit)
  {
    var n := FirstFit(bs, size, 0);
    if n < |bs| {
      CutSeparated(bs, n, size, 0, 0, limit);
    } else if clear != [] {
      GrowOutcome(bs, clear, size);
      if size <= FRAME - HEADER {
        OneFrameSeparated(bs, clear[0], size, limit);
        assert Needed(bs, clear, size) == [clear[0]];
      } else {
        AppendedSeparated(bs, FrameBlocks(clear), limit);
        FramesSeparated(clear, limit);
        AllFrameBlocks(clear);
        AllFramesFit(bs, clear, limit);
      }
    }
  }

  lemma OneFrameSeparated(bs: seq<Block>, f: nat, size: nat, limit: nat)
    requires Separated(bs, limit) && f > 0 && size <= FRAME - HEADER
    ensures Separated(bs + Cut(FrameBlock(f), size), limit) <==> FramesFit(bs, [f], limit)
  {
    var b, cut := FrameBlock(f), Cut(FrameBlock(f), size);
    AppendedSeparated(bs, cut, limit);
    CutSeparate(b, size, limit);
    forall i | 0 <= i < |bs|
      ensures Apart(b, bs[i]) <==> forall k :: 0 <= k < |cut| ==> Apart(bs[i], cut[k])
    {
      CutApart(b, size, bs[i]);
    }
    assert FramesFit(bs, [f], limit) <==> End(b) <= limit && forall i :: 0 <= i < |bs| ==> Apart(b, bs[i]) by {
      assert [f][0] == f;
    }
  }

  lemma AllFramesFit(bs: seq<Block>, fs: seq<nat>, limit: nat)
    requires Rising(fs) && |FrameBlocks(fs)| == |fs|
    requires forall k :: 0 <= k < |fs| ==> FrameBlocks(fs)[k] == FrameBlock(fs[k])
    ensures FramesFit(bs, fs, limit) <==>
            && (forall k :: 0 <= k < |fs| ==> End(FrameBlock(fs[k])) <= limit)
            && (forall i, k :: 0 <= i < |bs| && 0 <= k < |fs| ==> Apart(bs[i], FrameBlocks(fs)[k]))
  {
    if forall i, k :: 0 <= i < |bs| && 0 <= k < |fs| ==> Apart(bs[i], FrameBlocks(fs)[k]) {
      forall k, i | 0 <= k < |fs| && 0 <= i < |bs|
        ensures Apart(FrameBlock(fs[k]), bs[i])
      {
        assert Apart(bs[i], FrameBlocks(fs)[k]);
      }
    }
  }

  // ---------------------------------------------------------------- room at boot

  /** What a request on a fresh heap needs: the initial block, no frame left, or frames that
      end below the bitmap, the first one for a request that fits it and all of them for
      a larger one. */
  predicate BootRoom(kernelEnd: nat, totalMemory: nat, size: nat) {
    || size + HEADER <= HEAP_END - HeapStart(kernelEnd, totalMemory)
    || Frames(totalMemory) <= 1
    || FrameAddr(if size <= FRAME - HEADER then 2 else Frames(totalMemory)) <= AlignUp16(kernelEnd)
  }

  /** The frame numbers from `f` up to `max`. */
  function FramesFrom(f: nat, max: nat): seq<nat>
    requires f <= max
  {
    seq(max - f, k requires k >= 0 => f + k)
  }

  lemma FramesTail(f: nat, max: nat)
    requires f < max
    ensures FramesFrom(f, max) != [] && FramesFrom(f, max)[0] == f && FramesFrom(f, max)[1..] == FramesFrom(f + 1, max)
  {
  }

  lemma {:induction false} AllClear(mem: Memory, at: nat, f: nat, max: nat)
    requires f <= max && at + (max + 7) / 8 <= |mem|
    requires forall x: nat :: f <= x < max ==> !FrameTaken(mem, at, x)
    ensures ClearFrom(mem, at, f, max) == FramesFrom(f, max)
    decreases max - f
  {
    if f < max {
      AllClear(mem, at, f + 1, max);
      FramesTail(f, max);
      assert FramesFrom(f, max) == [f] + FramesFrom(f, max)[1..];
    } else {
      assert FramesFrom(f, max) == [];
    }
  }

  /** Frames 1 up to `n` avoid the bitmap and the heap behind it exactly when they end below. */
  lemma FramesBelow(n: nat, at: nat, len: nat, lo: nat, hi: nat, limit: nat)
    requires n > 0 && len > 0 && at + len <= lo < at + len + 16 && lo + HEADER <= hi <= limit && FRAME < hi
    ensures FramesApart([Fresh(lo, hi)], FramesFrom(1, n + 1), at, len, limit) <==> FrameAddr(n + 1) <= at
  {
    var fs := FramesFrom(1, n + 1);
    if FrameAddr(n + 1) > at {
      var f := if at < FrameAddr(2) then 1 else at / 4096;
      assert fs[f - 1] == f;
      assert !OffBitmap(FrameBlock(f), at, len) || !Apart(FrameBlock(f), [Fresh(lo, hi)][0]);
    }
  }

  /** On a fresh heap the frames a request needs are apart from what is in use exactly when the
      request, the kernel's end and the memory size say so. */
  lemma RoomAtBoot(h: KernelHeap, kernelEnd: nat, totalMemory: nat, size: nat)
    requires totalMemory >= FRAME && HeapStart(kernelEnd, totalMemory) + HEADER <= HEAP_END
    requires h.AtBoot(kernelEnd, totalMemory) && h.blocks == [Fresh(h.lo, h.hi)]
    ensures h.RoomFor(size) <==> BootRoom(kernelEnd, totalMemory, size)
  {
    var max, len := h.maxFrames, h.BitmapLen();
    AllClear(h.mem, h.bitmapAt, 1, max);
    var need := Needed(h.blocks, h.Clear(), size);
    assert FirstFit(h.blocks, size, 0) < 1 <==> size <= h.hi - h.lo - HEADER;
    if size > h.hi - h.lo - HEADER && max > 1 {
      var n := if size <= FRAME - HEADER then 1 else max - 1;
      assert need == FramesFrom(1, n + 1);
      FramesBelow(n, h.bitmapAt, len, h.lo, h.hi, |h.mem|);
    }
  }

  /** Requests that fit a frame never need more room than a fresh heap has, whatever the kernel and
      the memory: where the initial block is smaller than a frame, frame 1 is far below it. */
  lemma SmallHasRoom(kernelEnd: nat, totalMemory: nat, size: nat)
    requires totalMemory < WORD && HeapStart(kernelEnd, totalMemory) + HEADER <= HEAP_END && size <= FRAME - HEADER
    ensures BootRoom(kernelEnd, totalMemory, size)
  {
    assert Frames(totalMemory) <= 0x10_0000;
    assert AlignUp16((Frames(totalMemory) + 7) / 8) <= 0x2_0000 + 16;
  }

  // ---------------------------------------------------------------- growing as coded

  /** The link a walk of the list follows; it stops at the null address and outside memory. */
  function Link(m: Memory, x: nat): nat {
    if x == 0 || x + HEADER > |m| then 0 else HeaderAt(m, x).next
  }

  /** Where a walk from `x` is after `n` links. */
  ghost function Trail(m: Memory, x: nat, n: nat): nat {
    if n == 0 then x else Link(m, Trail(m, x, n - 1))
  }

  ghost predicate Ends(m: Memory, x: nat) {
    exists n: nat :: Trail(m, x, n) == 0
  }

  predicate LinksApart(a: nat, b: nat) {
    a + 4 <= b || b + 4 <= a
  }

  /** The blocks of `bs` are linked in memory, their link words apart. */
  ghost predicate Strung(m: Memory, bs: seq<Block>) {
    && bs != []
    && (forall i :: 0 <= i < |bs| ==> 0 < bs[i].addr && bs[i].addr + HEADER <= |m|)
    && (forall i :: 0 <= i < |bs| ==> Link(m, bs[i].addr) == NextTo(bs, i, 0))
    && (forall i, j :: 0 <= i < j < |bs| ==> LinksApart(bs[i].addr, bs[j].addr))
  }

  lemma LaidIsStrung(m: Memory, bs: seq<Block>)
    requires Linked(m, bs) && Separated(bs, |m|) && bs != []
    ensures Strung(m, bs)
  {
    forall i | 0 <= i < |bs|
      ensures Link(m, bs[i].addr) == NextTo(bs, i, 0)
    {
      assert Written(m, bs, i, 0);
    }
    forall i, j | 0 <= i < j < |bs|
      ensures LinksApart(bs[i].addr, bs[j].addr)
    {
      assert Apart(bs[i], bs[j]);
    }
  }

  /** The walk follows the blocks whose links say so. */
  lemma {:induction false} TrailFollows(m: Memory, bs: seq<Block>, k: nat, n: nat)
    requires k < |bs| && forall i :: 0 <= i < k ==> Link(m, bs[i].addr) == bs[i + 1].addr
    requires n <= k
    ensures Trail(m, bs[0].addr, n) == bs[n].addr
    decreases n
  {
    if n > 0 {
      TrailFollows(m, bs, k, n - 1);
    }
  }

  /** A strung list is walked to its end. */
  lemma StrungEnds(m: Memory, bs: seq<Block>)
    requires Strung(m, bs)
    ensures Trail(m, bs[0].addr, |bs|) == 0 && Ends(m, bs[0].addr)
  {
    StrungLinks(m, bs);
    TrailFollows(m, bs, |bs| - 1, |bs| - 1);
  }

  lemma StrungLinks(m: Memory, bs: seq<Block>)
    requires Strung(m, bs)
    ensures forall i :: 0 <= i < |bs| - 1 ==> Link(m, bs[i].addr) == bs[i + 1].addr
    ensures Link(m, bs[|bs| - 1].addr) == 0
  {
    forall i | 0 <= i < |bs| - 1
      ensures Link(m, bs[i].addr) == bs[i + 1].addr
    {
      assert Link(m, bs[i].addr) == NextTo(bs, i, 0);
    }
    assert Link(m, bs[|bs| - 1].addr) == NextTo(bs, |bs| - 1, 0);
  }

  /** A walk that comes to a block linked to itself goes on for ever. */
  lemma {:induction false} TrailLoops(m: Memory, bs: seq<Block>, k: nat, n: nat)
    requires k < |bs| && (forall i :: 0 <= i < k ==> Link(m, bs[i].addr) == bs[i + 1].addr)
    requires Link(m, bs[k].addr) == bs[k].addr
    ensures Trail(m, bs[0].addr, n) == bs[if n < k then n else k].addr
    decreases n
  {
    if n > 0 {
      TrailLoops(m, bs, k, n - 1);
    }
  }

  /** A header stored at `a` would overwrite the link word of `b` without being the header of `b`. */
  predicate Tears(a: nat, b: Block) {
    b.addr != a && b.addr < a + 4 && a < b.addr + HEADER
  }

  ghost predicate Torn(bs: seq<Block>, a: nat) {
    exists k :: 0 <= k < |bs| && Tears(a, bs[k])
  }

  /** Frames tear nothing as long as the blocks start at multiples of sixteen, as on a fresh heap. */
  lemma AlignedNotTorn(bs: seq<Block>, f: nat)
    requires forall k :: 0 <= k < |bs| ==> bs[k].addr % 16 == 0
    ensures !Torn(bs, FrameAddr(f))
  {
    FrameAligned(f);
    forall k | 0 <= k < |bs|
      ensures !Tears(FrameAddr(f), bs[k])
    {
      SixteenApart(FrameAddr(f), bs[k].addr);
    }
  }

  lemma FrameAligned(f: nat)
    ensures FrameAddr(f) % 16 == 0
  {
    assert FrameAddr(f) == 16 * (256 * f);
  }

  lemma SixteenApart(a: nat, b: nat)
    requires a % 16 == 0 && b % 16 == 0
    ensures a == b || a + 16 <= b || b + 16 <= a
  {
    var p, q := a / 16, b / 16;
    assert a == 16 * p && b == 16 * q;
  }

  /** A frame header as `k_malloc` stores it. */
  const FRAME_HEADER: Header := Header(FRAME - HEADER, 1, 0)

  /** The header store keeps the links of the blocks it neither hits nor tears. */
  lemma LinkKept(m0: Memory, m1: Memory, a: nat, h: Header, b: Block)
    requires HeaderSet(m0, m1, a, h) && b.addr != a && !Tears(a, b) && b.addr + HEADER <= |m0|
    ensures Link(m1, b.addr) == Link(m0, b.addr)
  {
  }

  lemma LinkStored(m1: Memory, last: nat, v: nat, x: nat)
    requires last + HEADER <= |m1| && v < WORD && 0 < last && (x == last || LinksApart(x, last))
    ensures Link(PutWord(m1, last + 8, v), x) == if x == last then v else Link(m1, x)
  {
    if 0 < x && x + HEADER <= |m1| {
      WordAfterSplice(m1, last + 8, v, x + 8);
    }
  }

  /** A walk of `bs` comes to a stop at block `e`. */
  ghost predicate StopsAt(m: Memory, bs: seq<Block>, e: nat) {
    && e < |bs| && bs[e].addr + HEADER <= |m|
    && (forall i :: 0 <= i < e ==>
          0 < bs[i].addr && bs[i].addr + HEADER <= |m| && Link(m, bs[i].addr) == bs[i + 1].addr)
    && 0 < bs[e].addr && Link(m, bs[e].addr) == 0
  }

  /** A walk of `bs` goes to block `k` and then round it. */
  ghost predicate Circles(m: Memory, bs: seq<Block>, k: nat)
    requires k < |bs|
  {
    forall n: nat :: Trail(m, bs[0].addr, n) == bs[if n < k then n else k].addr
  }

  lemma HeaderKeepsStrung(m0: Memory, m1: Memory, bs: seq<Block>, a: nat)
    requires Strung(m0, bs) && HeaderSet(m0, m1, a, FRAME_HEADER)
    requires !Torn(bs, a) && forall k :: 0 <= k < |bs| ==> bs[k].addr != a
    ensures Strung(m1, bs) && forall k :: 0 <= k < |bs| ==> LinksApart(bs[k].addr, a)
  {
    forall k | 0 <= k < |bs|
      ensures Link(m1, bs[k].addr) == Link(m0, bs[k].addr) && LinksApart(bs[k].addr, a)
    {
      assert !Tears(a, bs[k]);
      LinkKept(m0, m1, a, FRAME_HEADER, bs[k]);
    }
  }

  /** A block that hits no listed header becomes the end of the list. */
  lemma AppendStrung(m1: Memory, bs: seq<Block>, b: Block)
    requires Strung(m1, bs) && 0 < b.addr < WORD && b.addr + HEADER <= |m1| && Link(m1, b.addr) == 0
    requires forall k :: 0 <= k < |bs| ==> LinksApart(bs[k].addr, b.addr)
    ensures Strung(PutWord(m1, bs[|bs| - 1].addr + 8, b.addr), bs + [b])
  {
    var m2, r := PutWord(m1, bs[|bs| - 1].addr + 8, b.addr), bs + [b];
    AppendedPlaces(m1, bs, b);
    forall k | 0 <= k < |r|
      ensures Link(m2, r[k].addr) == NextTo(r, k, 0)
    {
      AppendedLink(m1, bs, b, k);
    }
  }

  lemma AppendedPlaces(m1: Memory, bs: seq<Block>, b: Block)
    requires Strung(m1, bs) && 0 < b.addr && b.addr + HEADER <= |m1|
    requires forall k :: 0 <= k < |bs| ==> LinksApart(bs[k].addr, b.addr)
    ensures var r := bs + [b];
            && (forall i :: 0 <= i < |r| ==> 0 < r[i].addr && r[i].addr + HEADER <= |m1|)
            && (forall i, j :: 0 <= i < j < |r| ==> LinksApart(r[i].addr, r[j].addr))
  {
  }

  lemma AppendedLink(m1: Memory, bs: seq<Block>, b: Block, k: nat)
    requires Strung(m1, bs) && 0 < b.addr < WORD && b.addr + HEADER <= |m1| && Link(m1, b.addr) == 0 && k <= |bs|
    requires forall k :: 0 <= k < |bs| ==> LinksApart(bs[k].addr, b.addr)
    ensures Link(PutWord(m1, bs[|bs| - 1].addr + 8, b.addr), (bs + [b])[k].addr) == NextTo(bs + [b], k, 0)
  {
    var last, x := bs[|bs| - 1].addr, (bs + [b])[k].addr;
    assert x == last || LinksApart(x, last);
    LinkStored(m1, last, b.addr, x);
  }

  /** Up to a header it hits, a store changes no link. */
  lemma LinksBeforeHit(m0: Memory, m1: Memory, bs: seq<Block>, k: nat)
    requires k < |bs| && Strung(m0, bs) && HeaderSet(m0, m1, bs[k].addr, FRAME_HEADER) && !Torn(bs, bs[k].addr)
    ensures StopsAt(m1, bs, k)
  {
    var a := bs[k].addr;
    forall i | 0 <= i < k
      ensures Link(m1, bs[i].addr) == bs[i + 1].addr
    {
      assert LinksApart(bs[i].addr, a) && !Tears(a, bs[i]);
      LinkKept(m0, m1, a, FRAME_HEADER, bs[i]);
    }
  }

  /** The block that was hit ends up linked to itself. */
  lemma HitCircles(m1: Memory, bs: seq<Block>, k: nat)
    requires StopsAt(m1, bs, k) && bs[k].addr < WORD
    requires forall i :: 0 <= i < k ==> LinksApart(bs[i].addr, bs[k].addr)
    ensures Circles(PutWord(m1, bs[k].addr + 8, bs[k].addr), bs, k)
  {
    var a := bs[k].addr;
    var m2 := PutWord(m1, a + 8, a);
    forall i | 0 <= i < k
      ensures Link(m2, bs[i].addr) == bs[i + 1].addr
    {
      LinkStored(m1, a, a, bs[i].addr);
    }
    LinkStored(m1, a, a, a);
    forall n: nat
      ensures Trail(m2, bs[0].addr, n) == bs[if n < k then n else k].addr
    {
      TrailLoops(m2, bs, k, n);
    }
  }

  /** A torn list: the walk leaves it at the first block whose link word was overwritten, and ends
      exactly when the walk from the address found there does.  Four bytes into a header that
      address is 1, eight bytes into it the size of a frame's block: the outcome then hangs on
      bytes that no allocator call wrote. */
  lemma TornWalk(m0: Memory, m1: Memory, bs: seq<Block>, a: nat, k: nat)
    requires Strung(m0, bs) && HeaderSet(m0, m1, a, FRAME_HEADER) && k < |bs| && Tears(a, bs[k])
    requires forall i :: 0 <= i < k ==> bs[i].addr != a && !Tears(a, bs[i])
    ensures Ends(m1, bs[0].addr) <==> Ends(m1, Link(m1, bs[k].addr))
    ensures a == bs[k].addr + 4 ==> Link(m1, bs[k].addr) == 1
    ensures a == bs[k].addr + 8 ==> Link(m1, bs[k].addr) == FRAME - HEADER
  {
    forall i | 0 <= i < k
      ensures Link(m1, bs[i].addr) == bs[i + 1].addr
    {
      LinkKept(m0, m1, a, FRAME_HEADER, bs[i]);
    }
    TrailFollows(m1, bs, k, k);
    EndsLater(m1, bs[0].addr, k + 1);
  }

  /** A walk ends exactly when its continuation from any point of it does. */
  lemma EndsLater(m: Memory, x: nat, j: nat)
    ensures Ends(m, x) <==> Ends(m, Trail(m, x, j))
  {
    if n: nat :| Trail(m, x, n) == 0 {
      TrailLater(m, x, n, j);
      TrailAdd(m, x, j, n);
    }
    if n: nat :| Trail(m, Trail(m, x, j), n) == 0 {
      TrailAdd(m, x, j, n);
    }
  }

  lemma {:induction false} TrailAdd(m: Memory, x: nat, j: nat, n: nat)
    ensures Trail(m, x, j + n) == Trail(m, Trail(m, x, j), n)
    decreases n
  {
    if n > 0 {
      TrailAdd(m, x, j, n - 1);
      assert j + n - 1 == j + (n - 1);
    }
  }

  lemma {:induction false} TrailLater(m: Memory, x: nat, n: nat, j: nat)
    requires Trail(m, x, n) == 0
    ensures Trail(m, x, j + n) == 0
    decreases j
  {
    if j > 0 {
      TrailLater(m, x, n, j - 1);
      assert j + n - 1 == j - 1 + n;
    }
  }

  /** Block `e` is the listed block at `a`, or the last one when there is none. */
  ghost predicate HitOrLast(bs: seq<Block>, a: nat, e: nat) {
    && e < |bs| && (bs[e].addr == a || e == |bs| - 1)
    && ((exists k :: 0 <= k < |bs| && bs[k].addr == a) ==> bs[e].addr == a)
  }

  lemma StrungStops(m: Memory, bs: seq<Block>)
    requires Strung(m, bs)
    ensures StopsAt(m, bs, |bs| - 1)
  {
  }

  /** Storing a frame header leaves a walk that stops: at the block that was hit, or else at the end. */
  lemma StopAfterHeader(m0: Memory, m1: Memory, bs: seq<Block>, a: nat) returns (e: nat)
    requires Strung(m0, bs) && HeaderSet(m0, m1, a, FRAME_HEADER) && !Torn(bs, a)
    ensures StopsAt(m1, bs, e) && HitOrLast(bs, a, e)
  {
    if k :| 0 <= k < |bs| && bs[k].addr == a {
      e := k;
      LinksBeforeHit(m0, m1, bs, k);
    } else {
      e := |bs| - 1;
      HeaderKeepsStrung(m0, m1, bs, a);
      StrungStops(m1, bs);
    }
  }

  lemma CirclesNeverEnds(m: Memory, bs: seq<Block>, k: nat)
    requires k < |bs| && Circles(m, bs, k) && forall i :: 0 <= i <= k ==> bs[i].addr > 0
    ensures !Ends(m, bs[0].addr)
  {
  }

  /** What linking the frame to the block where the walk stopped makes of the list. */
  ghost predicate AfterStep(m2: Memory, bs: seq<Block>, b: Block, e: nat)
    requires e < |bs|
  {
    if bs[e].addr == b.addr then Circles(m2, bs, e) && !Ends(m2, bs[0].addr)
    else Strung(m2, bs + [b]) && Ends(m2, bs[0].addr)
  }

  lemma AfterHit(m0: Memory, m1: Memory, bs: seq<Block>, b: Block, e: nat)
    requires Strung(m0, bs) && b.addr < WORD && StopsAt(m1, bs, e) && bs[e].addr == b.addr
    ensures AfterStep(PutWord(m1, bs[e].addr + 8, b.addr), bs, b, e)
  {
    forall i | 0 <= i < e
      ensures LinksApart(bs[i].addr, bs[e].addr)
    {
    }
    HitCircles(m1, bs, e);
    CirclesNeverEnds(PutWord(m1, bs[e].addr + 8, b.addr), bs, e);
  }

  lemma AfterAppend(m0: Memory, m1: Memory, bs: seq<Block>, b: Block)
    requires Strung(m0, bs) && 0 < b.addr < WORD && HeaderSet(m0, m1, b.addr, FRAME_HEADER)
    requires !Torn(bs, b.addr) && forall k :: 0 <= k < |bs| ==> bs[k].addr != b.addr
    ensures bs[|bs| - 1].addr + HEADER <= |m1|
    ensures AfterStep(PutWord(m1, bs[|bs| - 1].addr + 8, b.addr), bs, b, |bs| - 1)
  {
    HeaderKeepsStrung(m0, m1, bs, b.addr);
    AppendStrung(m1, bs, b);
    var m2, r := PutWord(m1, bs[|bs| - 1].addr + 8, b.addr), bs + [b];
    StrungEnds(m2, r);
    assert r[0] == bs[0];
  }

  lemma AfterLink(m0: Memory, m1: Memory, bs: seq<Block>, b: Block, e: nat)
    requires Strung(m0, bs) && 0 < b.addr < WORD && HeaderSet(m0, m1, b.addr, FRAME_HEADER)
    requires !Torn(bs, b.addr) && StopsAt(m1, bs, e) && HitOrLast(bs, b.addr, e)
    ensures AfterStep(PutWord(m1, bs[e].addr + 8, b.addr), bs, b, e)
  {
    if bs[e].addr == b.addr {
      AfterHit(m0, m1, bs, b, e);
    } else {
      AfterAppend(m0, m1, bs, b);
    }
  }

  /** No link word of the list lies in the `len` bytes at `at`. */
  ghost predicate LinksOff(bs: seq<Block>, at: nat, len: nat) {
    forall i :: 0 <= i < |bs| ==> bs[i].addr + HEADER <= at || at + len <= bs[i].addr + 8
  }

  /** Bitmap stores leave a list strung whose link words are elsewhere. */
  lemma BitmapKeepsStrung(m0: Memory, m1: Memory, bs: seq<Block>, at: nat, len: nat)
    requires Strung(m0, bs) && LinksOff(bs, at, len) && |m1| == |m0|
    requires forall x :: 0 <= x < |m0| && !(at <= x < at + len) ==> m1[x] == m0[x]
    ensures Strung(m1, bs)
  {
    forall i | 0 <= i < |bs|
      ensures Link(m1, bs[i].addr) == Link(m0, bs[i].addr)
    {
      assert bs[i].addr + HEADER <= at || at + len <= bs[i].addr + 8;
    }
  }

  lemma LinkOnTheWay(m: Memory, bs: seq<Block>, e: nat, n: nat)
    requires StopsAt(m, bs, e) && n <= e
    ensures 0 < bs[n].addr && bs[n].addr + HEADER <= |m|
    ensures HeaderAt(m, bs[n].addr).next == if n < e then bs[n + 1].addr else 0
    ensures n == e <==> HeaderAt(m, bs[n].addr).next == 0
  {
    if n < e {
      assert 0 < bs[n + 1].addr;
    }
    assert Link(m, bs[n].addr) == HeaderAt(m, bs[n].addr).next;
  }

  /** The walk to the last block, wherever it stops. */
  method WalkToStop(h: KernelHeap, ghost bs: seq<Block>, ghost e: nat) returns (last: nat)
    requires StopsAt(h.mem, bs, e) && bs[0].addr == h.lo
    ensures last == bs[e].addr
  {
    last := h.lo;
    ghost var n := 0;
    LinkOnTheWay(h.mem, bs, e, 0);
    while HeaderAt(h.mem, last).next != 0
      invariant 0 <= n <= e && last == bs[n].addr && last + HEADER <= |h.mem|
      invariant n == e <==> HeaderAt(h.mem, last).next == 0
      invariant n < e ==> HeaderAt(h.mem, last).next == bs[n + 1].addr
      decreases e - n
    {
      last := HeaderAt(h.mem, last).next;
      n := n + 1;
      LinkOnTheWay(h.mem, bs, e, n);
    }
  }

  /** What the stores of the growing step leave alone. */
  ghost predicate OnlyGrowth(m0: Memory, m: Memory, frame: nat, last: nat) {
    && |m| == |m0|
    && forall x :: 0 <= x < |m0| && !(frame <= x < frame + HEADER) && !(last + 8 <= x < last + HEADER) ==> m[x] == m0[x]
  }

  lemma GrowthOnly(m0: Memory, m1: Memory, m2: Memory, frame: nat, last: nat)
    requires HeaderSet(m0, m1, frame, FRAME_HEADER) && last + HEADER <= |m1| && frame < WORD
    requires m2 == PutWord(m1, last + 8, frame)
    requires last == frame || frame + 4 <= last || last + HEADER <= frame
    ensures OnlyGrowth(m0, m2, frame, last)
    ensures HeaderAt(m2, frame).size == FRAME - HEADER && HeaderAt(m2, frame).flag == 1
  {
    if last == frame {
      PutNext(m1, last, frame);
    }
  }

  /** The stores that make a frame the end of the list, as coded. */
  method LinkFrame(h: KernelHeap, ghost bs: seq<Block>, frame: nat, ghost f: nat) returns (ghost e: nat)
    requires 0 < frame == FrameAddr(f) && frame + HEADER <= |h.mem| < WORD
    requires Strung(h.mem, bs) && bs[0].addr == h.lo && !Torn(bs, frame)
    modifies h`mem
    ensures |h.mem| == |old(h.mem)| && HitOrLast(bs, frame, e)
    ensures AfterStep(h.mem, bs, FrameBlock(f), e)
    ensures OnlyGrowth(old(h.mem), h.mem, frame, bs[e].addr)
    ensures HeaderAt(h.mem, frame).size == FRAME - HEADER && HeaderAt(h.mem, frame).flag == 1
  {
    ghost var m0, b := h.mem, FrameBlock(f);
    h.SetHeader(frame, FRAME - HEADER, 1, 0);
    ghost var m1 := h.mem;
    e := StopAfterHeader(m0, m1, bs, frame);
    var last := WalkToStop(h, bs, e);
    AfterLink(m0, m1, bs, b, e);
    h.SetNext(last, frame);
    assert !Tears(frame, bs[e]);
    GrowthOnly(m0, m1, h.mem, frame, last);
  }

  /** The growing part of `k_malloc` as coded: take the lowest clear frame, store its header, walk
      to the last block, link the frame there.  Nothing is asked of where the frame lies except
      that it tears no link word.  The next walk of the list ends exactly when the frame does not
      start at a listed block; when it does, the walk goes round that block for ever. */
  method GrowAsCoded(h: KernelHeap, ghost bs: seq<Block>) returns (frame: nat, ghost e: nat)
    requires |h.mem| < WORD && h.bitmapAt + h.BitmapLen() <= |h.mem| && h.maxFrames > 0
    requires Strung(h.mem, bs) && bs[0].addr == h.lo
    requires h.Clear() != [] ==> FrameAddr(h.Clear()[0]) + HEADER <= |h.mem| && !Torn(bs, FrameAddr(h.Clear()[0]))
    requires h.Clear() != [] ==> LinksOff(bs, h.bitmapAt + h.Clear()[0] / 8, 1)
    modifies h`mem
    ensures |h.mem| == |old(h.mem)| && HitOrLast(bs, frame, e)
    ensures frame == if old(h.Clear()) == [] then 0 else FrameAddr(old(h.Clear())[0])
    ensures frame == 0 ==> old(h.Clear()) == [] && h.mem == old(h.mem)
    ensures frame != 0 ==> (Ends(h.mem, h.lo) <==> forall k :: 0 <= k < |bs| ==> bs[k].addr != frame)
    ensures frame != 0 ==> AfterStep(h.mem, bs, FrameBlock(old(h.Clear())[0]), e)
    ensures frame != 0 ==>
              OnlyGrowth(SetFrame(old(h.mem), h.bitmapAt, old(h.Clear())[0]), h.mem, frame, bs[e].addr)
    ensures frame != 0 ==> HeaderAt(h.mem, frame).size == FRAME - HEADER && HeaderAt(h.mem, frame).flag == 1
  {
    ghost var m := h.mem;
    frame := h.AllocateFrame();
    if frame == 0 {
      e := |bs| - 1;
      return;
    }
    BitmapKeepsStrung(m, h.mem, bs, h.bitmapAt + old(h.Clear())[0] / 8, 1);
    e := LinkFrame(h, bs, frame, old(h.Clear())[0]);
  }
}
