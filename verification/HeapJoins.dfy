/** Freeing when list neighbours need not be neighbours in memory: what the header stores of `k_free`
    make of the list, and exactly when no byte is lost or gained. */
module HeapJoins {

  import opened Bytes
  import opened HeapSpec
  import opened HeapMemory
  import opened Heap

  // ---------------------------------------------------------------- which bytes a free keeps listed

  predicate In(b: Block, x: int) {
    b.addr <= x < End(b)
  }

  /** Byte `x` belongs to some block of the list. */
  ghost predicate Covers(bs: seq<Block>, x: int) {
    exists k :: 0 <= k < |bs| && In(bs[k], x)
  }

  ghost predicate SameBytes(a: seq<Block>, b: seq<Block>) {
    forall x: int :: Covers(a, x) <==> Covers(b, x)
  }

  /** The two blocks around a freed one follow each other in memory and the freed one follows them:
      the one order besides the right one in which three sizes added up cover the same bytes. */
  predicate Swapped(bs: seq<Block>, i: nat)
    requires i < |bs|
  {
    && 0 < i < |bs| - 1 && bs[i - 1].free && bs[i + 1].free
    && bs[i + 1].addr == End(bs[i - 1]) && bs[i].addr == End(bs[i + 1])
  }

  /** A byte of a listed block is covered after blocks `i` up to `j` were replaced by `b` exactly
      when it is in `b` or in a block that stayed. */
  lemma ReplacedCovers(bs: seq<Block>, i: nat, j: nat, b: Block, x: int)
    requires i <= j <= |bs|
    ensures Covers(Replace(bs, i, j, [b]), x) <==>
            In(b, x) || exists k :: 0 <= k < |bs| && !(i <= k < j) && In(bs[k], x)
  {
    var r := Replace(bs, i, j, [b]);
    if k :| 0 <= k < |bs| && !(i <= k < j) && In(bs[k], x) {
      assert r[if k < i then k else k - j + i + 1] == bs[k];
    }
    if In(b, x) {
      assert r[i] == b;
    }
    if k :| 0 <= k < |r| && In(r[k], x) {
      assert r[k] == if k < i then bs[k] else if k == i then b else bs[k - i - 1 + j];
    }
  }

  /** The stretch of the list that a free replaces by one block, and that block. */
  function Stretch(bs: seq<Block>, i: nat): (r: (nat, nat, Block))
    requires i < |bs|
    ensures r.0 <= i < r.1 <= |bs|
  {
    var left, right := i > 0 && bs[i - 1].free, i + 1 < |bs| && bs[i + 1].free;
    var b := if right then Joined(bs[i], bs[i + 1]) else bs[i].(free := true);
    (if left then i - 1 else i, if right then i + 2 else i + 1, if left then Joined(bs[i - 1], b) else b)
  }

  lemma ReleaseIsReplace(bs: seq<Block>, i: nat)
    requires i < |bs|
    ensures var (p, q, b) := Stretch(bs, i); Release(bs, i) == Replace(bs, p, q, [b])
  {
    var r := JoinRight(bs, i);
    var (p, q, b) := Stretch(bs, i);
    JoinRightIsReplace(bs, i);
    assert i > 0 ==> r[i - 1] == bs[i - 1];
    assert r[i + 1..] == bs[q..];
    if p < i {
      assert r[..i - 1] == bs[..i - 1];
    } else {
      assert r == Replace(bs, p, q, [b]);
    }
  }

  /** If nothing is lost, the joined block holds every block it replaces. */
  lemma PieceInside(bs: seq<Block>, p: nat, q: nat, b: Block, k: nat, limit: nat)
    requires Separated(bs, limit) && p <= k < q <= |bs| && SameBytes(Replace(bs, p, q, [b]), bs)
    ensures b.addr <= bs[k].addr && End(bs[k]) <= End(b)
  {
    OthersApart(bs, k, limit);
    ReplacedCovers(bs, p, q, b, bs[k].addr);
    ReplacedCovers(bs, p, q, b, End(bs[k]) - 1);
    assert Covers(bs, bs[k].addr) && Covers(bs, End(bs[k]) - 1);
  }

  /** A joined block of neighbours holds exactly their bytes. */
  lemma StretchExact(bs: seq<Block>, i: nat, x: int)
    requires i < |bs| && (JoinsAdjacent(bs, i) || Swapped(bs, i))
    ensures var (p, q, b) := Stretch(bs, i);
            In(b, x) <==> In(bs[i], x) || (p < i && In(bs[i - 1], x)) || (i + 1 < q && In(bs[i + 1], x))
  {
  }

  lemma NeighboursSame(bs: seq<Block>, i: nat)
    requires i < |bs| && (JoinsAdjacent(bs, i) || Swapped(bs, i))
    ensures SameBytes(Release(bs, i), bs)
  {
    var (p, q, b) := Stretch(bs, i);
    ReleaseIsReplace(bs, i);
    forall x: int
      ensures Covers(Release(bs, i), x) <==> Covers(bs, x)
    {
      NeighboursAt(bs, i, x);
    }
  }

  lemma NeighboursAt(bs: seq<Block>, i: nat, x: int)
    requires i < |bs| && (JoinsAdjacent(bs, i) || Swapped(bs, i))
    ensures var (p, q, b) := Stretch(bs, i); Covers(Replace(bs, p, q, [b]), x) <==> Covers(bs, x)
  {
    var (p, q, b) := Stretch(bs, i);
    ReplacedCovers(bs, p, q, b, x);
    StretchExact(bs, i, x);
    if k :| 0 <= k < |bs| && In(bs[k], x) {
      assert p <= k < q ==> k == i || (k == i - 1 && p < i) || (k == i + 1 && i + 1 < q);
    }
    if In(b, x) {
      assert Covers(bs, x);
    }
  }

  lemma SameOnlyNeighbours(bs: seq<Block>, i: nat, limit: nat)
    requires Separated(bs, limit) && i < |bs| && SameBytes(Release(bs, i), bs)
    ensures JoinsAdjacent(bs, i) || Swapped(bs, i)
  {
    var (p, q, b) := Stretch(bs, i);
    ReleaseIsReplace(bs, i);
    PieceInside(bs, p, q, b, i, limit);
    OthersApart(bs, i, limit);
    if p < i {
      PieceInside(bs, p, q, b, i - 1, limit);
    }
    if i + 1 < q {
      PieceInside(bs, p, q, b, i + 1, limit);
    }
    if p < i && i + 1 < q {
      OthersApart(bs, i - 1, limit);
      ThreeInside(bs[i - 1], bs[i], bs[i + 1]);
    }
  }

  /** Three separate blocks inside the bytes their sizes add up to from the first one on. */
  lemma ThreeInside(a: Block, b: Block, c: Block)
    requires Apart(a, b) && Apart(a, c) && Apart(b, c)
    requires a.addr <= b.addr && a.addr <= c.addr
    requires End(b) <= End(Joined(a, Joined(b, c))) && End(c) <= End(Joined(a, Joined(b, c)))
    ensures (b.addr == End(a) && c.addr == End(b)) || (c.addr == End(a) && b.addr == End(c))
  {
  }

  /** `k_free` keeps the bytes the list covers exactly when the blocks it joins are neighbours in
      memory, in list order or with the freed one behind the other two. */
  lemma FreeCoversExactly(bs: seq<Block>, i: nat, limit: nat)
    requires Separated(bs, limit) && i < |bs|
    ensures SameBytes(Release(bs, i), bs) <==> JoinsAdjacent(bs, i) || Swapped(bs, i)
  {
    if JoinsAdjacent(bs, i) || Swapped(bs, i) {
      NeighboursSame(bs, i);
    } else if SameBytes(Release(bs, i), bs) {
      SameOnlyNeighbours(bs, i, limit);
    }
  }

  /** The odd order does occur among separate blocks. */
  lemma SwappedWitness(bs: seq<Block>)
    requires bs == [Block(100, 0, true), Block(124, 0, false), Block(112, 0, true)]
    ensures Separated(bs, 200) && !JoinsAdjacent(bs, 1) && SameBytes(Release(bs, 1), bs)
  {
    assert Swapped(bs, 1);
    NeighboursSame(bs, 1);
  }

  // ---------------------------------------------------------------- the stores of k_free

  /** Rewriting one header to stand for a stretch of the list links the shorter list. */
  lemma JoinLinked(m0: Memory, m1: Memory, bs: seq<Block>, i: nat, j: nat, b: Block)
    requires Linked(m0, bs) && HeadersApart(bs, |m0|) && i < j <= |bs| && b.addr == bs[i].addr
    requires HeaderSet(m0, m1, b.addr, Encoded(b, NextTo(bs, j - 1, 0)))
    ensures Linked(m1, Replace(bs, i, j, [b]))
  {
    assert Written(m1, [b], 0, NextTo(bs, j - 1, 0));
    forall k | 0 <= k < |bs| && !(i <= k < j)
      ensures bs[k].addr + HEADER <= |m0| ==> HeaderAt(m1, bs[k].addr) == HeaderAt(m0, bs[k].addr)
    {
      HeaderElsewhere(m0, m1, b.addr, HeaderAt(m1, b.addr), bs[k].addr);
    }
    Relink(m0, m1, bs, i, j, [b]);
  }

  lemma JoinRightLinked(m0: Memory, m1: Memory, bs: seq<Block>, i: nat)
    requires Linked(m0, bs) && HeadersApart(bs, |m0|) && i < |bs|
    requires HeaderSet(m0, m1, bs[i].addr, JoinedHeader(bs, i))
    ensures Linked(m1, JoinRight(bs, i)) && HeadersApart(JoinRight(bs, i), |m1|)
  {
    JoinRightIsReplace(bs, i);
    if i + 1 < |bs| && bs[i + 1].free {
      JoinLinked(m0, m1, bs, i, i + 2, Joined(bs[i], bs[i + 1]));
    } else {
      JoinLinked(m0, m1, bs, i, i + 1, bs[i].(free := true));
    }
    JoinRightHeaders(bs, i, |m0|);
  }

  lemma JoinLeftLinked(m0: Memory, m1: Memory, bs: seq<Block>, i: nat)
    requires Linked(m0, bs) && HeadersApart(bs, |m0|) && i < |bs| && JoinedPrevious(m0, m1, bs, i)
    ensures Linked(m1, JoinLeft(bs, i))
  {
    if i > 0 && bs[i - 1].free {
      JoinLinked(m0, m1, bs, i - 1, i + 1, Joined(bs[i - 1], bs[i]));
    }
  }

  lemma JoinRightHeaders(bs: seq<Block>, i: nat, limit: nat)
    requires HeadersApart(bs, limit) && i < |bs|
    ensures HeadersApart(JoinRight(bs, i), limit)
  {
    var r := JoinRight(bs, i);
    var d := |bs| - |r|;
    assert forall k :: 0 <= k < |r| ==> r[k].addr == bs[if k <= i then k else k + d].addr;
  }

  /** Three separate blocks are no larger together than memory. */
  lemma SizesFit(bs: seq<Block>, i: nat, limit: nat)
    requires Separated(bs, limit) && i < |bs|
    ensures i > 0 ==> JoinRight(bs, i)[i - 1].size + JoinRight(bs, i)[i].size + HEADER < limit
  {
    if i > 0 {
      assert JoinRight(bs, i)[i - 1] == JoinRight(bs, i)[..i][i - 1] == bs[i - 1];
      assert Apart(bs[i - 1], bs[i]) && 0 < bs[i].addr;
      if i + 1 < |bs| {
        assert Apart(bs[i - 1], bs[i + 1]) && Apart(bs[i], bs[i + 1]);
      }
    }
  }

  /** `k_free` as coded, on any list of separate blocks: nothing is asked of where the joined ones
      lie.  The list in memory becomes the model's, sizes added up whatever the addresses, and only
      the headers of the freed block and the one before it are written. */
  method FreeAsCoded(h: KernelHeap, ghost bs: seq<Block>, ptr: nat)
    requires |h.mem| < WORD && bs != [] && bs[0].addr == h.lo && Linked(h.mem, bs) && Separated(bs, |h.mem|)
    requires ptr != 0 ==> IndexOf(bs, ptr, 0) < |bs|
    modifies h`mem
    ensures |h.mem| == |old(h.mem)| && DoFree(bs, ptr).Served? && Linked(h.mem, DoFree(bs, ptr).blocks)
    ensures OthersKept(old(h.mem), h.mem, bs, ptr)
  {
    if ptr == 0 {
      return;
    }
    var block := ptr - HEADER;
    ghost var i := IndexOf(bs, ptr, 0);
    assert Written(h.mem, bs, i, 0);
    if HeaderAt(h.mem, block).flag != 0 {
      return;
    }
    ghost var m0 := h.mem;
    h.StoreJoin(block, bs, i);
    ghost var m1 := h.mem;
    SeparateHeaders(bs, |m0|);
    JoinRightLinked(m0, m1, bs, i);
    SizesFit(bs, i, |m0|);
    ghost var r := JoinRight(bs, i);
    assert i > 0 ==> r[i - 1] == r[..i][i - 1] == bs[i - 1];
    assert r[0].addr == bs[0].addr;
    h.StoreJoinPrevious(block, r, i);
    JoinLeftLinked(m1, h.mem, r, i);
    FreedKeepsOthers(m0, m1, h.mem, bs, i);
  }

  lemma FreedKeepsOthers(m0: Memory, m1: Memory, m2: Memory, bs: seq<Block>, i: nat)
    requires i < |bs| && Separated(bs, |m0|) && HeaderSet(m0, m1, bs[i].addr, JoinedHeader(bs, i)) && |m2| == |m1|
    requires i < |JoinRight(bs, i)| && JoinedPrevious(m1, m2, JoinRight(bs, i), i)
    ensures OthersKept(m0, m2, bs, bs[i].addr + HEADER)
  {
    HeaderKeepsPayloads(m0, m1, bs, i, JoinedHeader(bs, i), |m0|);
    assert i > 0 ==> JoinRight(bs, i)[i - 1] == JoinRight(bs, i)[..i][i - 1] == bs[i - 1];
    forall k, x | 0 <= k < |bs| && !bs[k].free && InPayload(bs[k], x) && x < |m0|
      ensures m2[x] == m1[x]
    {
      if i > 0 && k != i - 1 {
        OthersApart(bs, k, |m0|);
      }
    }
  }

  // ---------------------------------------------------------------- four calls

  /** The first of two requests takes the whole block. */
  lemma TakeWhole(lo: nat, hi: nat, clear: seq<nat>)
    requires lo + HEADER <= hi
    ensures Grow([Fresh(lo, hi)], clear, hi - lo - HEADER)
         == Grown([Fresh(lo, hi).(free := false)], clear, lo + HEADER)
  {
  }

  /** The list when the second has got 100 bytes of frame 1. */
  function WithFrame(first: Block): seq<Block> {
    [first, Block(FRAME, 100, false), Block(FRAME + HEADER + 100, FRAME - 2 * HEADER - 100, true)]
  }

  lemma TakeFromFrame(first: Block, clear: seq<nat>)
    requires !first.free && clear != [] && clear[0] == 1
    ensures Grow([first], clear, 100) == Grown(WithFrame(first), clear[1..], FRAME + HEADER)
  {
    GrowOutcome([first], clear, 100);
    assert FrameAddr(1) == FRAME;
    assert WithFrame(first) == [first] + Cut(FrameBlock(1), 100);
  }

  lemma FreeWhole(first: Block)
    requires !first.free
    ensures DoFree(WithFrame(first), first.addr + HEADER) == Served(WithFrame(first.(free := true)), 0)
    ensures JoinsAdjacent(WithFrame(first), 0) && IndexOf(WithFrame(first), first.addr + HEADER, 0) == 0
  {
    var bs := WithFrame(first);
    assert bs[0] == first && !bs[1].free;
    assert Release(bs, 0) == bs[0 := first.(free := true)] == WithFrame(first.(free := true));
  }

  lemma FreeFramePart(first: Block)
    requires first.free && first.addr != FRAME
    ensures IndexOf(WithFrame(first), FRAME + HEADER, 0) == 1
    ensures DoFree(WithFrame(first), FRAME + HEADER) == Served([first.(size := first.size + FRAME)], 0)
  {
    var bs := WithFrame(first);
    assert IndexOf(bs, FRAME + HEADER, 0) == IndexOf(bs, FRAME + HEADER, 1) == 1;
    var r := JoinRight(bs, 1);
    assert r == [first, Block(FRAME, FRAME - HEADER, true)];
    assert JoinLeft(r, 1) == [Joined(first, r[1])];
  }

  /** Four calls on a fresh heap above frame 1 are enough to go wrong: take the whole initial block,
      take 100 bytes, which come from frame 1, and free both.  Nothing is live, and the one block
      left in memory reaches a frame past the end of the heap. */
  method FreedAcrossFrame(memory: Memory, kernelEnd: nat, totalMemory: nat) returns (h: KernelHeap)
    requires FRAME < kernelEnd && FrameAddr(2) <= totalMemory && |memory| < WORD && FrameAddr(2) <= AlignUp16(kernelEnd)
    requires HeapStart(kernelEnd, totalMemory) + HEADER <= HEAP_END <= |memory|
    ensures fresh(h) && h.lo + HEADER <= h.hi == HEAP_END <= |h.mem|
    ensures Linked(h.mem, [Block(h.lo, h.hi - h.lo - HEADER + FRAME, true)])
    ensures End(Block(h.lo, h.hi - h.lo - HEADER + FRAME, true)) == HEAP_END + FRAME
  {
    h := new KernelHeap(memory, kernelEnd, totalMemory);
    ghost var first := Fresh(h.lo, h.hi).(free := false);
    var whole, part := TakeBoth(h, kernelEnd, totalMemory);
    FreeWhole(first);
    h.Free(whole);
    FreeFramePart(first.(free := true));
    FreeAsCoded(h, h.blocks, part);
  }

  method TakeBoth(h: KernelHeap, ghost kernelEnd: nat, ghost totalMemory: nat) returns (whole: nat, part: nat)
    requires h.Tiled() && h.AtBoot(kernelEnd, totalMemory) && h.lo + HEADER <= h.hi && h.blocks == [Fresh(h.lo, h.hi)]
    requires FrameAddr(2) <= totalMemory && FrameAddr(2) <= AlignUp16(kernelEnd)
    modifies h
    ensures h.Valid() && |h.mem| == |old(h.mem)| && whole == h.lo + HEADER && part == FRAME + HEADER
    ensures h.blocks == WithFrame(Fresh(h.lo, h.hi).(free := false))
  {
    ghost var clear, first := h.Clear(), Fresh(h.lo, h.hi).(free := false);
    LowestClear(h.mem, h.bitmapAt, h.maxFrames);
    TakeWhole(h.lo, h.hi, clear);
    assert FirstFit(h.blocks, h.hi - h.lo - HEADER, 0) == 0;
    whole := h.Malloc(h.hi - h.lo - HEADER);
    TakeFromFrame(first, clear);
    assert Needed(h.blocks, clear, 100) == [1];
    assert FramesFit(h.blocks, [1], |h.mem|);
    part := h.Malloc(100);
  }

  lemma LowestClear(m: Memory, at: nat, max: nat)
    requires max > 1 && at + (max + 7) / 8 <= |m| && !FrameTaken(m, at, 1)
    ensures ClearFrom(m, at, 1, max) != [] && ClearFrom(m, at, 1, max)[0] == 1
  {
  }
}
