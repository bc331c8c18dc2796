/** An oversize request on a heap just set up: `k_malloc` retry by retry, as coded, to its end or
    into its endless search. */
module HeapBoot {

  import opened Bytes
  import opened HeapSpec
  import opened HeapMemory
  import opened Heap
  import opened HeapLimits

  // ---------------------------------------------------------------- the list it builds

  /** The initial block followed by the frames `fs`. */
  function ListOf(lo: nat, hi: nat, fs: seq<nat>): (bs: seq<Block>)
    requires lo + HEADER <= hi
  {
    [Fresh(lo, hi)] + FrameBlocks(fs)
  }

  lemma ListAt(lo: nat, hi: nat, fs: seq<nat>)
    requires lo + HEADER <= hi
    ensures var bs := ListOf(lo, hi, fs);
            |bs| == |fs| + 1 && bs[0] == Fresh(lo, hi) && forall i :: 0 < i < |bs| ==> bs[i] == FrameBlock(fs[i - 1])
  {
    AllFrameBlocks(fs);
  }

  lemma {:induction false} FrameBlocksAppend(fs: seq<nat>, f: nat)
    ensures FrameBlocks(fs + [f]) == FrameBlocks(fs) + [FrameBlock(f)]
  {
    if fs != [] {
      FrameBlocksAppend(fs[1..], f);
      assert (fs + [f])[1..] == fs[1..] + [f];
    } else {
      assert fs + [f] == [f];
    }
  }

  lemma ListAppend(lo: nat, hi: nat, fs: seq<nat>, f: nat)
    requires lo + HEADER <= hi
    ensures ListOf(lo, hi, fs + [f]) == ListOf(lo, hi, fs) + [FrameBlock(f)]
  {
    FrameBlocksAppend(fs, f);
  }

  /** A header at `x` shares no byte with the bitmap. */
  predicate HeaderOff(x: nat, at: nat, len: nat) {
    x + HEADER <= at || at + len <= x
  }

  /** No listed block can hold `size` bytes, by the headers in memory. */
  ghost predicate NoneFits(m: Memory, bs: seq<Block>, size: nat) {
    forall i :: 0 <= i < |bs| ==> bs[i].addr + HEADER <= |m| && HeaderAt(m, bs[i].addr).size < size
  }

  lemma ListAligned(h: KernelHeap, fs: seq<nat>)
    requires Layout(h)
    ensures var bs := ListOf(h.lo, h.hi, fs);
            |bs| == |fs| + 1 && forall i :: 0 <= i < |bs| ==> bs[i].addr % 16 == 0
  {
    ListAt(h.lo, h.hi, fs);
    forall i | 0 < i <= |fs|
      ensures ListOf(h.lo, h.hi, fs)[i].addr % 16 == 0
    {
      FrameAligned(fs[i - 1]);
    }
  }

  // ---------------------------------------------------------------- between two retries

  /** The layout that the retries leave alone. */
  ghost predicate Layout(h: KernelHeap)
    reads h
  {
    && |h.mem| < WORD && h.maxFrames > 0 && FrameAddr(h.maxFrames) <= |h.mem|
    && 0 < h.bitmapAt && h.bitmapAt % 16 == 0 && h.lo % 16 == 0
    && h.bitmapAt + h.BitmapLen() <= h.lo && h.lo + HEADER <= h.hi <= |h.mem|
  }

  /** The search loop of `k_malloc`: the first listed block that is free and large enough by its
      header, or null. */
  method Search(h: KernelHeap, ghost bs: seq<Block>, size: nat, ghost k: nat) returns (p: nat)
    requires Strung(h.mem, bs) && bs[0].addr == h.lo && k <= |bs| && NoneFits(h.mem, bs[..k], size)
    requires k < |bs| ==> HeaderAt(h.mem, bs[k].addr).flag != 0 && HeaderAt(h.mem, bs[k].addr).size >= size
    ensures p == if k < |bs| then bs[k].addr + HEADER else 0
  {
    var current := h.lo;
    ghost var i: nat := 0;
    while current != 0
      invariant 0 <= i <= k && current == (if i < |bs| then bs[i].addr else 0)
      decreases |bs| - i
    {
      assert bs[i].addr + HEADER <= |h.mem| && Link(h.mem, bs[i].addr) == NextTo(bs, i, 0);
      assert i < k ==> bs[..k][i] == bs[i];
      var header := HeaderAt(h.mem, current);
      if header.flag != 0 && header.size >= size {
        return current + HEADER;
      }
      current := header.next;
      i := i + 1;
    }
    p := 0;
  }

  /** Frame `n` has been taken and linked to block `e` of the list, from the memory `m0`. */
  ghost predicate TookFrame(m0: Memory, h: KernelHeap, bs: seq<Block>, n: nat, e: nat)
    reads h
  {
    && h.bitmapAt + n / 8 < |m0| == |h.mem| && HitOrLast(bs, FrameAddr(n), e) && AfterStep(h.mem, bs, FrameBlock(n), e)
    && OnlyGrowth(SetFrame(m0, h.bitmapAt, n), h.mem, FrameAddr(n), bs[e].addr)
    && FrameAddr(n) + HEADER <= |h.mem|
    && HeaderAt(h.mem, FrameAddr(n)).size == FRAME - HEADER && HeaderAt(h.mem, FrameAddr(n)).flag == 1
  }

  /** A whole retry as coded on a list with nothing that fits, `n` being the lowest clear frame or the
      number of frames when there is none. */
  method SearchAndGrow(h: KernelHeap, ghost bs: seq<Block>, size: nat, ghost n: nat) returns (frame: nat, ghost e: nat)
    requires Layout(h) && Strung(h.mem, bs) && bs[0].addr == h.lo && NoneFits(h.mem, bs, size)
    requires if n < h.maxFrames then h.Clear() != [] && h.Clear()[0] == n else h.Clear() == []
    requires n < h.maxFrames ==> !Torn(bs, FrameAddr(n)) && LinksOff(bs, h.bitmapAt + n / 8, 1)
    modifies h`mem
    ensures |h.mem| == |old(h.mem)| && e < |bs| && frame == if n < h.maxFrames then FrameAddr(n) else 0
    ensures n < h.maxFrames ==> n > 0 && TookFrame(old(h.mem), h, bs, n, e)
    ensures frame == 0 ==> h.mem == old(h.mem)
  {
    assert bs[..|bs|] == bs;
    var p := Search(h, bs, size, |bs|);
    frame, e := GrowAsCoded(h, bs);
  }

  /** The frames before the bitmap: 1 up to `g` are listed and taken, the others clear. */
  ghost predicate Retrying(h: KernelHeap, g: nat, size: nat)
    reads h
  {
    && Layout(h) && g < h.maxFrames && h.Clear() == FramesFrom(1 + g, h.maxFrames)
    && (forall f: nat :: 1 <= f <= g ==> HeaderOff(FrameAddr(f), h.bitmapAt, h.BitmapLen()) && FrameAddr(f) != h.lo)
    && Strung(h.mem, BootList(h, g)) && NoneFits(h.mem, BootList(h, g), size)
  }

  function BootList(h: KernelHeap, g: nat): seq<Block>
    requires h.lo + HEADER <= h.hi
  {
    ListOf(h.lo, h.hi, FramesFrom(1, g + 1))
  }

  lemma BootListAt(h: KernelHeap, g: nat)
    requires h.lo + HEADER <= h.hi
    ensures var bs := BootList(h, g);
            |bs| == g + 1 && bs[0] == Fresh(h.lo, h.hi) && forall i :: 0 < i <= g ==> bs[i] == FrameBlock(i)
  {
    ListAt(h.lo, h.hi, FramesFrom(1, g + 1));
  }

  lemma BootListNext(h: KernelHeap, g: nat)
    requires h.lo + HEADER <= h.hi
    ensures BootList(h, g + 1) == BootList(h, g) + [FrameBlock(g + 1)]
  {
    assert FramesFrom(1, g + 2) == FramesFrom(1, g + 1) + [g + 1];
    ListAppend(h.lo, h.hi, FramesFrom(1, g + 1), g + 1);
  }

  /** The stores of a growing step leave the size word of another block, unless the bit lies in it. */
  lemma SizeKept(m0: Memory, m: Memory, at: nat, f: nat, frame: nat, last: nat, x: nat)
    requires at + f / 8 < |m0| && OnlyGrowth(SetFrame(m0, at, f), m, frame, last) && x + HEADER <= |m0|
    requires x % 16 == 0 && frame % 16 == 0 && last % 16 == 0 && x != frame
    requires at + f / 8 < x || x + 4 <= at + f / 8
    ensures HeaderAt(m, x).size == HeaderAt(m0, x).size
  {
    SixteenApart(x, frame);
    SixteenApart(x, last);
  }

  lemma StillNoneFits(m0: Memory, m: Memory, at: nat, f: nat, bs: seq<Block>, b: Block, last: nat, size: nat)
    requires at + f / 8 < |m0| && OnlyGrowth(SetFrame(m0, at, f), m, b.addr, last) && NoneFits(m0, bs, size)
    requires last % 16 == 0 && b.addr % 16 == 0
    requires forall i :: 0 <= i < |bs| ==> bs[i].addr != b.addr && bs[i].addr % 16 == 0
    requires forall i :: 0 <= i < |bs| ==> at + f / 8 < bs[i].addr || bs[i].addr + 4 <= at + f / 8
    requires b.addr + HEADER <= |m| && HeaderAt(m, b.addr).size < size
    ensures NoneFits(m, bs + [b], size)
  {
    forall i | 0 <= i < |bs|
      ensures HeaderAt(m, bs[i].addr).size < size
    {
      SizeKept(m0, m, at, f, b.addr, last, bs[i].addr);
    }
  }

  /** Before a retry: what the growing step asks for. */
  lemma RetryReady(h: KernelHeap, g: nat, size: nat)
    requires Retrying(h, g, size)
    ensures var bs := BootList(h, g);
            && |bs| == g + 1 && bs[0].addr == h.lo && !Torn(bs, FrameAddr(g + 1))
            && LinksOff(bs, h.bitmapAt, h.BitmapLen())
            && (forall i :: 0 <= i <= g ==> bs[i].addr == if i == 0 then h.lo else FrameAddr(i))
            && (forall i :: 0 <= i <= g ==> bs[i].addr % 16 == 0 && HeaderOff(bs[i].addr, h.bitmapAt, h.BitmapLen()))
    ensures h.Clear() == [] <==> g + 1 == h.maxFrames
    ensures g + 1 < h.maxFrames ==> h.Clear()[0] == g + 1 && h.Clear()[1..] == FramesFrom(g + 2, h.maxFrames)
  {
    BootListAt(h, g);
    ListAligned(h, FramesFrom(1, g + 1));
    AlignedNotTorn(BootList(h, g), g + 1);
    if g + 1 < h.maxFrames {
      FramesTail(g + 1, h.maxFrames);
    }
  }

  /** A frame that hit the first block leaves the walk there. */
  lemma HitsFirst(m0: Memory, m: Memory, bs: seq<Block>, b: Block, e: nat)
    requires Strung(m0, bs) && b.addr == bs[0].addr && HitOrLast(bs, b.addr, e) && AfterStep(m, bs, b, e)
    ensures forall n: nat :: Trail(m, bs[0].addr, n) == bs[0].addr
  {
    assert bs[e].addr == b.addr && Circles(m, bs, e);
    assert forall i :: 0 < i < |bs| ==> LinksApart(bs[0].addr, bs[i].addr);
  }

  /** The list after a step whose frame hit nothing. */
  lemma RetryAppends(m0: Memory, h: KernelHeap, g: nat, e: nat, size: nat)
    requires Layout(h) && g + 1 < h.maxFrames && FRAME - HEADER < size && e <= g && |m0| == |h.mem|
    requires var bs := BootList(h, g);
             && |bs| == g + 1 && NoneFits(m0, bs, size)
             && (forall i :: 0 <= i <= g ==> bs[i].addr == if i == 0 then h.lo else FrameAddr(i))
             && (forall i :: 0 <= i <= g ==> bs[i].addr % 16 == 0 && HeaderOff(bs[i].addr, h.bitmapAt, h.BitmapLen()))
             && OnlyGrowth(SetFrame(m0, h.bitmapAt, g + 1), h.mem, FrameAddr(g + 1), bs[e].addr)
             && AfterStep(h.mem, bs, FrameBlock(g + 1), e)
    requires FrameAddr(g + 1) != h.lo && HeaderAt(h.mem, FrameAddr(g + 1)).size == FRAME - HEADER
    ensures NoneFits(h.mem, BootList(h, g + 1), size) && Strung(h.mem, BootList(h, g + 1))
  {
    var bs, b := BootList(h, g), FrameBlock(g + 1);
    FrameAligned(g + 1);
    assert bs[e].addr != b.addr;
    StillNoneFits(m0, h.mem, h.bitmapAt, g + 1, bs, b, bs[e].addr, size);
    BootListNext(h, g);
  }

  /** One retry: nothing is found, and the next frame, if there is one, is taken. */
  method TakeNext(h: KernelHeap, ghost g: nat, size: nat) returns (frame: nat, ghost e: nat)
    requires Retrying(h, g, size) && size > FRAME - HEADER
    modifies h`mem
    ensures |h.mem| == |old(h.mem)| && e <= g && |BootList(h, g)| == g + 1
    ensures frame == if g + 1 < h.maxFrames then FrameAddr(g + 1) else 0
    ensures frame == 0 ==> h.mem == old(h.mem)
    ensures frame != 0 && frame != h.lo ==> e == g
    ensures frame != 0 && frame != h.lo ==>
              NoneFits(h.mem, BootList(h, g + 1), size) && Strung(h.mem, BootList(h, g + 1))
    ensures frame == h.lo ==> Stuck(h, size)
    ensures BootList(h, g)[e].addr == if e == 0 then h.lo else FrameAddr(e)
    ensures frame != 0 ==> OnlyGrowth(SetFrame(old(h.mem), h.bitmapAt, g + 1), h.mem, frame, BootList(h, g)[e].addr)
    ensures frame != 0 ==> HeaderAt(h.mem, frame).size == FRAME - HEADER && HeaderAt(h.mem, frame).flag == 1
  {
    ghost var bs, m0 := BootList(h, g), h.mem;
    RetryReady(h, g, size);
    frame, e := SearchAndGrow(h, bs, size, g + 1);
    if frame == h.lo {
      HitsFirst(m0, h.mem, bs, FrameBlock(g + 1), e);
      StuckAtFirst(h, size);
    } else if frame != 0 {
      assert forall i :: 0 <= i <= g ==> bs[i].addr != frame;
      RetryAppends(m0, h, g, e, size);
    }
  }

  lemma ClearAfter(m0: Memory, m: Memory, at: nat, max: nat, f: nat, frame: nat, last: nat)
    requires 1 <= f < max && at + (max + 7) / 8 <= |m0| && OnlyGrowth(SetFrame(m0, at, f), m, frame, last)
    requires HeaderOff(frame, at, (max + 7) / 8) && HeaderOff(last, at, (max + 7) / 8)
    requires ClearFrom(m0, at, 1, max) == FramesFrom(f, max)
    ensures ClearFrom(m, at, 1, max) == FramesFrom(f + 1, max)
  {
    forall x: nat | 1 <= x < f
      ensures FrameTaken(m0, at, x)
    {
      NotClear(m0, at, 1, max, x);
    }
    FramesTail(f, max);
    NextClear(m0, at, 1, max);
    FrameSet(m0, at, f, max);
    ClearKept(SetFrame(m0, at, f), m, at, max);
  }

  lemma {:induction false} NotClear(m: Memory, at: nat, f: nat, max: nat, x: nat)
    requires f <= x < max && at + (max + 7) / 8 <= |m| && x !in ClearFrom(m, at, f, max)
    ensures FrameTaken(m, at, x)
    decreases max - f
  {
    if f < x {
      NotClear(m, at, f + 1, max, x);
    }
  }

  lemma {:induction false} NextClear(m: Memory, at: nat, f: nat, max: nat)
    requires f <= max && at + (max + 7) / 8 <= |m| && ClearFrom(m, at, f, max) != []
    ensures !FrameTaken(m, at, ClearFrom(m, at, f, max)[0])
    decreases max - f
  {
    if FrameTaken(m, at, f) {
      NextClear(m, at, f + 1, max);
    }
  }

  /** One retry whose frame, if there is one, is off the bitmap: nothing is found and the frame joins
      the list, unless it starts where the heap does, which ends all further searches. */
  method Retry(h: KernelHeap, ghost g: nat, size: nat) returns (frame: nat)
    requires Retrying(h, g, size) && size > FRAME - HEADER
    requires g + 1 < h.maxFrames ==> HeaderOff(FrameAddr(g + 1), h.bitmapAt, h.BitmapLen())
    modifies h`mem
    ensures |h.mem| == |old(h.mem)|
    ensures frame == if g + 1 < h.maxFrames then FrameAddr(g + 1) else 0
    ensures frame == 0 ==> Retrying(h, g, size)
    ensures frame != 0 && frame != h.lo ==> Retrying(h, g + 1, size)
    ensures frame == h.lo ==> Stuck(h, size)
  {
    RetryReady(h, g, size);
    ghost var m0 := h.mem;
    ghost var e: nat;
    frame, e := TakeNext(h, g, size);
    if frame != 0 && frame != h.lo {
      ClearAfter(m0, h.mem, h.bitmapAt, h.maxFrames, g + 1, frame, BootList(h, g)[e].addr);
      RetryDone(h, g, size);
    }
  }

  lemma RetryDone(h: KernelHeap, g: nat, size: nat)
    requires Layout(h) && g + 1 < h.maxFrames && h.Clear() == FramesFrom(g + 2, h.maxFrames)
    requires forall f: nat :: 1 <= f <= g ==> HeaderOff(FrameAddr(f), h.bitmapAt, h.BitmapLen()) && FrameAddr(f) != h.lo
    requires HeaderOff(FrameAddr(g + 1), h.bitmapAt, h.BitmapLen()) && FrameAddr(g + 1) != h.lo
    requires NoneFits(h.mem, BootList(h, g + 1), size) && Strung(h.mem, BootList(h, g + 1))
    ensures Retrying(h, g + 1, size)
  {
  }

  /** The search goes on for ever: every step of it is at a block, and none it comes to fits. */
  ghost predicate Stuck(h: KernelHeap, size: nat)
    reads h
  {
    forall n: nat ::
      var x := Trail(h.mem, h.lo, n); 0 < x && x + HEADER <= |h.mem| && HeaderAt(h.mem, x).size < size
  }

  lemma StuckAtFirst(h: KernelHeap, size: nat)
    requires 0 < h.lo && h.lo + HEADER <= |h.mem| && HeaderAt(h.mem, h.lo).size < size
    requires forall n: nat :: Trail(h.mem, h.lo, n) == h.lo
    ensures Stuck(h, size)
  {
  }

  lemma BootRetrying(h: KernelHeap, kernelEnd: nat, totalMemory: nat, size: nat)
    requires FRAME <= totalMemory <= |h.mem| && h.AtBoot(kernelEnd, totalMemory) && h.Tiled() && h.lo + HEADER <= h.hi
    requires h.blocks == [Fresh(h.lo, h.hi)] && size + HEADER > h.hi - h.lo
    ensures Retrying(h, 0, size)
  {
    AllClear(h.mem, h.bitmapAt, 1, h.maxFrames);
    BootLayout(h, kernelEnd, totalMemory);
    LaidIsStrung(h.mem, h.blocks);
    assert Written(h.mem, h.blocks, 0, 0);
    BootListAt(h, 0);
    assert BootList(h, 0) == h.blocks;
  }

  lemma BootLayout(h: KernelHeap, kernelEnd: nat, totalMemory: nat)
    requires FRAME <= totalMemory <= |h.mem| && h.AtBoot(kernelEnd, totalMemory) && h.Valid() && h.lo + HEADER <= h.hi
    ensures Layout(h)
  {
    assert FrameAddr(Frames(totalMemory)) <= totalMemory;
  }
}
