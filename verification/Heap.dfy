/** `k_malloc`, `k_free` and `k_realloc` on the bytes of memory. */
module Heap {

  import opened Bytes
  import opened HeapSpec
  import opened HeapMemory

  /** Nothing outside the headers at `a` and `b` differs. */
  ghost predicate SameBeside(mem: Memory, mem': Memory, a: nat, b: nat) {
    && |mem'| == |mem|
    && forall x :: 0 <= x < |mem| && !(a <= x < a + HEADER) && !(b <= x < b + HEADER) ==> mem'[x] == mem[x]
  }

  /** `ALIGN_UP(x, 16)`. */
  function AlignUp16(x: nat): (r: nat)
    ensures r % 16 == 0 && x <= r < x + 16
  {
    (x + 15) / 16 * 16
  }

  const HEAP_END: nat := 0x0F00_0000

  /** Where the first block starts: past the kernel and the aligned frame bitmap. */
  function HeapStart(kernelEnd: nat, totalMemory: nat): nat {
    AlignUp16(kernelEnd) + AlignUp16((Frames(totalMemory) + 7) / 8)
  }

  /** The first block starts at a multiple of sixteen, behind a bitmap with a bit for every frame of
      4096 bytes that starts at the next multiple of sixteen from the kernel's end, and not sixteen
      bytes later than it has to. */
  lemma HeapStartExactly(kernelEnd: nat, totalMemory: nat)
    ensures var at, start := AlignUp16(kernelEnd), HeapStart(kernelEnd, totalMemory);
            && at % 16 == 0 && start % 16 == 0 && kernelEnd <= at < kernelEnd + 16
            && totalMemory / 4096 <= 8 * (start - at) < totalMemory / 4096 + 8 + 8 * 15
  {
  }

  lemma {:induction false} ZeroBits(k: nat)
    ensures !Bit(0, k)
  {
    if k > 0 {
      ZeroBits(k - 1);
    }
  }

  /** A block clear of the frame bitmap. */
  predicate OffBitmap(b: Block, at: nat, len: nat) {
    End(b) <= at || at + len <= b.addr
  }

  /** The frames still to be handed out lie in memory, away from the bitmap and from every
      block.  The source never checks this. */
  ghost predicate FramesApart(bs: seq<Block>, clear: seq<nat>, at: nat, len: nat, limit: nat) {
    && FramesFit(bs, clear, limit)
    && (forall k :: 0 <= k < |clear| ==> OffBitmap(FrameBlock(clear[k]), at, len))
  }

  /** The frames lie in memory, away from every block. */
  ghost predicate FramesFit(bs: seq<Block>, fs: seq<nat>, limit: nat) {
    && (forall k :: 0 <= k < |fs| ==> fs[k] > 0 && End(FrameBlock(fs[k])) <= limit)
    && (forall k, i :: 0 <= k < |fs| && 0 <= i < |bs| ==> Apart(FrameBlock(fs[k]), bs[i]))
  }

  /** A list that is linked in memory, its blocks apart from each other and the bitmap. */
  ghost predicate Laid(mem: Memory, bs: seq<Block>, at: nat, len: nat) {
    && Linked(mem, bs) && Separated(bs, |mem|)
    && forall i :: 0 <= i < |bs| ==> OffBitmap(bs[i], at, len)
  }

  // ---------------------------------------------------------------- splitting

  lemma CutParts(b: Block, size: nat)
    requires size <= b.size
    ensures var cut := Cut(b, size);
            && cut != [] && cut[0].addr == b.addr
            && (forall m :: 0 <= m < |cut| ==> b.addr <= cut[m].addr && End(cut[m]) <= End(b))
            && (forall m, n :: 0 <= m < n < |cut| ==> Apart(cut[m], cut[n]))
  {
  }

  /** The stores of `k_malloc` when it splits `b`: the flag, the new header, then size and next. */
  lemma SplitWritten(m0: Memory, m1: Memory, m2: Memory, m3: Memory, b: Block, size: nat, next: nat)
    requires End(b) <= |m0| && b.size > size + HEADER && HeaderAt(m0, b.addr) == Encoded(b, next)
    requires HeaderSet(m0, m1, b.addr, HeaderAt(m0, b.addr).(flag := 0))
    requires HeaderSet(m1, m2, b.addr + HEADER + size, Header(b.size - size - HEADER, 1, next))
    requires HeaderSet(m2, m3, b.addr, HeaderAt(m2, b.addr).(size := size, next := b.addr + HEADER + size))
    ensures LinkedTo(m3, Cut(b, size), next)
    ensures SameBeside(m0, m3, b.addr, b.addr + HEADER + size)
  {
    var a, rest := b.addr, b.addr + HEADER + size;
    HeaderElsewhere(m1, m2, rest, HeaderAt(m2, rest), a);
    HeaderElsewhere(m2, m3, a, HeaderAt(m3, a), rest);
    var cut := Cut(b, size);
    assert Written(m3, cut, 0, next) && Written(m3, cut, 1, next);
  }

  lemma WholeWritten(m0: Memory, m1: Memory, b: Block, size: nat, next: nat)
    requires End(b) <= |m0| && size <= b.size <= size + HEADER && HeaderAt(m0, b.addr) == Encoded(b, next)
    requires HeaderSet(m0, m1, b.addr, HeaderAt(m0, b.addr).(flag := 0))
    ensures LinkedTo(m1, Cut(b, size), next)
    ensures SameBeside(m0, m1, b.addr, b.addr)
  {
    assert Written(m1, Cut(b, size), 0, next);
  }

  lemma OthersApart(bs: seq<Block>, i: nat, limit: nat)
    requires Separated(bs, limit) && i < |bs|
    ensures forall k :: 0 <= k < |bs| && k != i ==> Apart(bs[i], bs[k])
  {
    forall k | 0 <= k < |bs| && k != i
      ensures Apart(bs[i], bs[k])
    {
      if k < i { assert Apart(bs[k], bs[i]); }
    }
  }

  /** Stores inside block `i` leave the other headers and live payloads alone. */
  lemma StoresInside(mem: Memory, mem': Memory, bs: seq<Block>, i: nat)
    requires Separated(bs, |mem|) && |mem'| == |mem| && i < |bs| && bs[i].free
    requires forall x :: 0 <= x < |mem| && !(bs[i].addr <= x < End(bs[i])) ==> mem'[x] == mem[x]
    ensures forall k :: 0 <= k < |bs| && k != i && bs[k].addr + HEADER <= |mem| ==>
              HeaderAt(mem', bs[k].addr) == HeaderAt(mem, bs[k].addr)
    ensures PayloadsKept(mem, mem', bs)
  {
    OthersApart(bs, i, |mem|);
  }

  /** Handing out part of block `i`: the list is laid out again and no live payload moves. */
  lemma CutLaid(mem: Memory, mem': Memory, bs: seq<Block>, i: nat, size: nat, at: nat, len: nat)
    requires Laid(mem, bs, at, len) && i < |bs| && bs[i].free && size <= bs[i].size
    requires |mem'| == |mem| && LinkedTo(mem', Cut(bs[i], size), NextTo(bs, i, 0))
    requires forall x :: 0 <= x < |mem| && !(bs[i].addr <= x < End(bs[i])) ==> mem'[x] == mem[x]
    ensures Laid(mem', Take(bs, i, size), at, len)
    ensures PayloadsKept(mem, mem', bs)
  {
    CutParts(bs[i], size);
    StoresInside(mem, mem', bs, i);
    Relink(mem, mem', bs, i, i + 1, Cut(bs[i], size));
    CutSeparated(bs, i, size, at, len, |mem|);
  }

  lemma CutSeparated(bs: seq<Block>, i: nat, size: nat, at: nat, len: nat, limit: nat)
    requires Separated(bs, limit) && i < |bs| && size <= bs[i].size
    requires forall k :: 0 <= k < |bs| ==> OffBitmap(bs[k], at, len)
    ensures Separated(Take(bs, i, size), limit)
    ensures forall k :: 0 <= k < |Take(bs, i, size)| ==> OffBitmap(Take(bs, i, size)[k], at, len)
  {
    CutParts(bs[i], size);
    OthersApart(bs, i, limit);
    SeparatedReplace(bs, i, i + 1, Cut(bs[i], size), limit);
  }

  // ---------------------------------------------------------------- appending a frame

  lemma AppendLaid(mem: Memory, mem': Memory, bs: seq<Block>, f: nat, at: nat, len: nat)
    requires Laid(mem, bs, at, len) && bs != [] && |mem'| == |mem|
    requires f > 0 && End(FrameBlock(f)) <= |mem| && OffBitmap(FrameBlock(f), at, len)
    requires forall i :: 0 <= i < |bs| ==> Apart(FrameBlock(f), bs[i])
    requires LinkedTo(mem', [bs[|bs| - 1], FrameBlock(f)], 0)
    requires SameBeside(mem, mem', bs[|bs| - 1].addr, FrameAddr(f))
    ensures Laid(mem', bs + [FrameBlock(f)], at, len)
    ensures PayloadsKept(mem, mem', bs)
  {
    var n, b := |bs|, FrameBlock(f);
    var last := bs[n - 1];
    var piece := [last, b];
    assert Replace(bs, n - 1, n, piece) == bs + [b];
    forall k | 0 <= k < n - 1
      ensures Apart(bs[k], last)
    {
    }
    Relink(mem, mem', bs, n - 1, n, piece);
    assert Separated(piece, |mem|);
    SeparatedReplace(bs, n - 1, n, piece, |mem|);
  }

  // ---------------------------------------------------------------- joining

  /** The block at `k` and the one after it can be joined: they are neighbours in memory. */
  predicate Adjacent(bs: seq<Block>, k: nat)
    requires k + 1 < |bs|
  {
    bs[k + 1].addr == End(bs[k])
  }

  lemma JoinSeparated(bs: seq<Block>, i: nat, j: nat, b: Block, at: nat, len: nat, limit: nat)
    requires Separated(bs, limit) && forall k :: 0 <= k < |bs| ==> OffBitmap(bs[k], at, len)
    requires i < j <= |bs| && j <= i + 2 && (j == i + 2 ==> Adjacent(bs, i))
    requires len > 0 && b.addr == bs[i].addr && End(b) == End(bs[j - 1])
    ensures Separated(Replace(bs, i, j, [b]), limit)
    ensures forall k :: 0 <= k < |Replace(bs, i, j, [b])| ==> OffBitmap(Replace(bs, i, j, [b])[k], at, len)
  {
    OthersApart(bs, i, limit);
    OthersApart(bs, j - 1, limit);
    forall k | 0 <= k < |bs| && !(i <= k < j)
      ensures Apart(b, bs[k])
    {
      assert Apart(bs[i], bs[k]) && Apart(bs[j - 1], bs[k]);
    }
    assert OffBitmap(b, at, len) by {
      assert OffBitmap(bs[i], at, len) && OffBitmap(bs[j - 1], at, len);
    }
    SeparatedReplace(bs, i, j, [b], limit);
  }

  /** Joining blocks `i` up to `j`, neighbours in memory, into `b` over the same bytes. */
  lemma JoinLaid(m0: Memory, m1: Memory, bs: seq<Block>, i: nat, j: nat, b: Block, at: nat, len: nat)
    requires Laid(m0, bs, at, len) && i < j <= |bs| && j <= i + 2 && (j == i + 2 ==> Adjacent(bs, i))
    requires len > 0 && b.addr == bs[i].addr && End(b) == End(bs[j - 1])
    requires HeaderSet(m0, m1, b.addr, Encoded(b, NextTo(bs, j - 1, 0)))
    ensures Laid(m1, Replace(bs, i, j, [b]), at, len)
  {
    JoinSeparated(bs, i, j, b, at, len, |m0|);
    OthersApart(bs, i, |m0|);
    assert Written(m1, [b], 0, NextTo(bs, j - 1, 0));
    forall k | 0 <= k < |bs| && !(i <= k < j)
      ensures bs[k].addr + HEADER <= |m0| ==> HeaderAt(m1, bs[k].addr) == HeaderAt(m0, bs[k].addr)
    {
      assert Written(m0, bs, k, 0) && Apart(bs[i], bs[k]);
      HeaderElsewhere(m0, m1, b.addr, HeaderAt(m1, b.addr), bs[k].addr);
    }
    Relink(m0, m1, bs, i, j, [b]);
  }

  lemma FlagStored(m0: Memory, m1: Memory, bs: seq<Block>, i: nat)
    requires Linked(m0, bs) && Separated(bs, |m0|) && i < |bs| && bs[i].addr + HEADER <= |m0|
    requires HeaderSet(m0, m1, bs[i].addr, HeaderAt(m0, bs[i].addr).(flag := 1))
    ensures HeaderAt(m1, bs[i].addr) == Encoded(bs[i].(free := true), NextTo(bs, i, 0))
    ensures i + 1 < |bs| ==> Written(m1, bs, i + 1, 0)
  {
    assert Written(m0, bs, i, 0);
    if i + 1 < |bs| {
      assert Written(m0, bs, i + 1, 0) && Apart(bs[i], bs[i + 1]);
      HeaderElsewhere(m0, m1, bs[i].addr, HeaderAt(m1, bs[i].addr), bs[i + 1].addr);
    }
  }

  /** What the header of block `i` must say once it is free and has absorbed the next one. */
  function JoinedHeader(bs: seq<Block>, i: nat): Header
    requires i < |bs|
  {
    if i + 1 < |bs| && bs[i + 1].free then Encoded(Joined(bs[i], bs[i + 1]), NextTo(bs, i + 1, 0))
    else Encoded(bs[i].(free := true), NextTo(bs, i, 0))
  }

  lemma JoinRightLaid(m0: Memory, m1: Memory, bs: seq<Block>, i: nat, at: nat, len: nat)
    requires Laid(m0, bs, at, len) && i < |bs| && len > 0
    requires i + 1 < |bs| && bs[i + 1].free ==> Adjacent(bs, i)
    requires HeaderSet(m0, m1, bs[i].addr, JoinedHeader(bs, i))
    ensures Laid(m1, JoinRight(bs, i), at, len)
  {
    JoinRightIsReplace(bs, i);
    if i + 1 < |bs| && bs[i + 1].free {
      JoinLaid(m0, m1, bs, i, i + 2, Joined(bs[i], bs[i + 1]), at, len);
    } else {
      JoinLaid(m0, m1, bs, i, i + 1, bs[i].(free := true), at, len);
    }
  }

  lemma JoinRightIsReplace(bs: seq<Block>, i: nat)
    requires i < |bs|
    ensures JoinRight(bs, i)
         == if i + 1 < |bs| && bs[i + 1].free then Replace(bs, i, i + 2, [Joined(bs[i], bs[i + 1])])
            else Replace(bs, i, i + 1, [bs[i].(free := true)])
  {
  }

  /** Storing in the header at `a`, which belongs to block `i`, moves no live payload. */
  lemma HeaderKeepsPayloads(m0: Memory, m1: Memory, bs: seq<Block>, i: nat, h: Header, limit: nat)
    requires i < |bs| && HeaderSet(m0, m1, bs[i].addr, h) && Separated(bs, limit)
    ensures PayloadsKept(m0, m1, bs)
  {
    forall k, x | 0 <= k < |bs| && !bs[k].free && InPayload(bs[k], x) && x < |m0|
      ensures m1[x] == m0[x]
    {
      if k < i {
        assert Apart(bs[k], bs[i]);
      } else if i < k {
        assert Apart(bs[i], bs[k]);
      }
    }
  }

  /** The clear frames depend on the bitmap's bytes alone. */
  lemma ClearKept(m0: Memory, m1: Memory, at: nat, max: nat)
    requires max > 0 && at + (max + 7) / 8 <= |m0| == |m1|
    requires forall x :: at <= x < at + (max + 7) / 8 ==> m1[x] == m0[x]
    ensures ClearFrom(m1, at, 1, max) == ClearFrom(m0, at, 1, max)
  {
    forall f: nat | 1 <= f < max
      ensures FrameTaken(m1, at, f) == FrameTaken(m0, at, f)
    {
      assert f / 8 < (max + 7) / 8;
    }
    ClearFrame(m0, m1, at, 1, max);
  }

  /** Headers lie in memory, none at the null address, no two sharing a byte. */
  ghost predicate HeadersApart(bs: seq<Block>, limit: nat) {
    && (forall k :: 0 <= k < |bs| ==> 0 < bs[k].addr && bs[k].addr + HEADER <= limit)
    && (forall j, k :: 0 <= j < k < |bs| ==> bs[j].addr + HEADER <= bs[k].addr || bs[k].addr + HEADER <= bs[j].addr)
  }

  lemma SeparateHeaders(bs: seq<Block>, limit: nat)
    requires Separated(bs, limit)
    ensures HeadersApart(bs, limit)
  {
    forall j, k | 0 <= j < k < |bs|
      ensures bs[j].addr + HEADER <= bs[k].addr || bs[k].addr + HEADER <= bs[j].addr
    {
      assert Apart(bs[j], bs[k]);
    }
  }

  /** The header of a free block before `i` stands for both blocks; nothing else is written. */
  ghost predicate JoinedPrevious(m0: Memory, m1: Memory, bs: seq<Block>, i: nat)
    requires i < |bs|
  {
    if i > 0 && bs[i - 1].free
    then HeaderSet(m0, m1, bs[i - 1].addr, Encoded(Joined(bs[i - 1], bs[i]), NextTo(bs, i, 0)))
    else m1 == m0
  }

  lemma OnlyPredecessor(bs: seq<Block>, i: nat, k: nat, limit: nat)
    requires HeadersApart(bs, limit) && i < |bs| && k < |bs| && NextTo(bs, k, 0) == bs[i].addr
    ensures k + 1 == i
  {
    assert forall j :: 0 <= j < |bs| && j != i ==> bs[j].addr != bs[i].addr;
  }

  class KernelHeap {
    var mem: Memory
    const bitmapAt: nat
    const lo: nat
    const hi: nat
    /** `total_memory / FRAME_SIZE`. */
    const maxFrames: nat
    ghost var blocks: seq<Block>

    function BitmapLen(): nat {
      (maxFrames + 7) / 8
    }

    /** The layout part of `initialize_memory_system`: the bitmap at the aligned kernel end,
        only frame 0 reserved in it, and one free block from there to the end of the heap. */
    constructor (memory: Memory, kernelEnd: nat, totalMemory: nat)
      requires kernelEnd > 0 && totalMemory >= FRAME && |memory| < WORD
      requires HeapStart(kernelEnd, totalMemory) + HEADER <= HEAP_END <= |memory|
      ensures Tiled() && lo + HEADER <= hi && blocks == [Fresh(lo, hi)] && |mem| == |memory|
      ensures AtBoot(kernelEnd, totalMemory)
      ensures FrameTaken(mem, bitmapAt, 0)
    {
      var at, size := AlignUp16(kernelEnd), AlignUp16((Frames(totalMemory) + 7) / 8);
      bitmapAt, lo, hi, maxFrames := at, at + size, HEAP_END, Frames(totalMemory);
      var zeroed := Splice(memory, at, seq(size, _ => 0));
      mem := SetFrame(zeroed, at, 0);
      blocks := [Fresh(at + size, HEAP_END)];
      new;
      ghost var m0 := mem;
      SetHeader(lo, hi - lo - HEADER, 1, 0);
      assert Written(mem, blocks, 0, 0);
      FreshIsSound(lo, hi);
      forall f: nat | f < maxFrames
        ensures FrameTaken(mem, bitmapAt, f) <==> f == 0
      {
        assert f / 8 < (maxFrames + 7) / 8 <= size;
        assert zeroed[at + f / 8] == 0;
        ZeroBits(f % 8);
        SetFrameBits(zeroed, at, 0, f);
      }
    }

    /** The layout of a heap just set up, with every frame but frame 0 clear. */
    ghost predicate AtBoot(kernelEnd: nat, totalMemory: nat)
      reads this
    {
      && bitmapAt == AlignUp16(kernelEnd) && lo == HeapStart(kernelEnd, totalMemory) && hi == HEAP_END <= |mem|
      && maxFrames == Frames(totalMemory) && bitmapAt + BitmapLen() <= |mem|
      && forall f: nat :: 1 <= f < maxFrames ==> !FrameTaken(mem, bitmapAt, f)
    }

    ghost predicate Valid()
      reads this
    {
      && |mem| < WORD && maxFrames > 0
      && 0 < bitmapAt && bitmapAt + BitmapLen() <= lo
      && blocks != [] && blocks[0].addr == lo
      && Laid(mem, blocks, bitmapAt, BitmapLen())
      && lo < |mem|
    }

    /** No frame has been appended: the list tiles the initial region. */
    ghost predicate Tiled()
      reads this
    {
      Valid() && Sound(blocks, lo, hi)
    }

    function Clear(): seq<nat>
      requires bitmapAt + BitmapLen() <= |mem| && maxFrames > 0
      reads this
    {
      ClearFrom(mem, bitmapAt, 1, maxFrames)
    }

    /** The frames a request of `size` bytes would take, if any, are apart from what is in use. */
    ghost predicate RoomFor(size: nat)
      requires bitmapAt + BitmapLen() <= |mem| && maxFrames > 0
      reads this
    {
      FramesApart(blocks, Needed(blocks, Clear(), size), bitmapAt, BitmapLen(), |mem|)
    }

    // -------------------------------------------------------------- frames

    /** `allocate_frame`: the address of the lowest clear frame from 1 up, now set, or 0. */
    method AllocateFrame() returns (addr: nat)
      requires bitmapAt + BitmapLen() <= |mem| && maxFrames > 0
      modifies this`mem
      ensures |mem| == |old(mem)|
      ensures forall x :: 0 <= x < |mem| && !(bitmapAt <= x < bitmapAt + BitmapLen()) ==> mem[x] == old(mem)[x]
      ensures old(Clear()) == [] ==> addr == 0 && mem == old(mem)
      ensures old(Clear()) != [] ==> addr == FrameAddr(old(Clear())[0]) > 0 && Clear() == old(Clear())[1..]
      ensures old(Clear()) != [] ==> mem == SetFrame(old(mem), bitmapAt, old(Clear())[0])
    {
      var i := 1;
      while i < maxFrames
        invariant 1 <= i <= maxFrames
        invariant Clear() == ClearFrom(mem, bitmapAt, i, maxFrames)
        invariant forall x: nat :: 1 <= x < i ==> FrameTaken(mem, bitmapAt, x)
      {
        if !FrameTaken(mem, bitmapAt, i) {
          FrameSet(mem, bitmapAt, i, maxFrames);
          mem := SetFrame(mem, bitmapAt, i);
          return FrameAddr(i);
        }
        i := i + 1;
      }
      addr := 0;
    }

    // -------------------------------------------------------------- header fields

    method SetSize(a: nat, v: nat)
      requires a + HEADER <= |mem| && v < WORD
      modifies this`mem
      ensures HeaderSet(old(mem), mem, a, HeaderAt(old(mem), a).(size := v))
    {
      PutSize(mem, a, v);
      mem := PutWord(mem, a, v);
    }

    method SetFlag(a: nat, v: nat)
      requires a + HEADER <= |mem| && v < WORD
      modifies this`mem
      ensures HeaderSet(old(mem), mem, a, HeaderAt(old(mem), a).(flag := v))
    {
      PutFlag(mem, a, v);
      mem := PutWord(mem, a + 4, v);
    }

    method SetNext(a: nat, v: nat)
      requires a + HEADER <= |mem| && v < WORD
      modifies this`mem
      ensures HeaderSet(old(mem), mem, a, HeaderAt(old(mem), a).(next := v))
      ensures mem == PutWord(old(mem), a + 8, v)
    {
      PutNext(mem, a, v);
      mem := PutWord(mem, a + 8, v);
    }

    method SetSizeAndNext(a: nat, size: nat, next: nat)
      requires a + HEADER <= |mem| && size < WORD && next < WORD
      modifies this`mem
      ensures HeaderSet(old(mem), mem, a, HeaderAt(old(mem), a).(size := size, next := next))
    {
      SetSize(a, size);
      SetNext(a, next);
    }

    method SetHeader(a: nat, size: nat, flag: nat, next: nat)
      requires a + HEADER <= |mem| && size < WORD && flag < WORD && next < WORD
      modifies this`mem
      ensures HeaderSet(old(mem), mem, a, Header(size, flag, next))
    {
      SetSize(a, size);
      SetFlag(a, flag);
      SetNext(a, next);
    }

    // -------------------------------------------------------------- k_malloc

    /** Hand out `size` bytes of the block at `current`, splitting it when a header and at
        least one byte remain. */
    method HandOut(current: nat, size: nat, ghost i: nat)
      requires Valid() && i < |blocks| && blocks[i].addr == current && blocks[i].free && size <= blocks[i].size
      modifies this
      ensures Valid() && blocks == Take(old(blocks), i, size)
      ensures |mem| == |old(mem)| && PayloadsKept(old(mem), mem, old(blocks)) && Clear() == old(Clear())
    {
      ghost var m0, b, next := mem, blocks[i], NextTo(blocks, i, 0);
      assert Written(m0, blocks, i, 0);
      var had := HeaderAt(mem, current).size;
      SetFlag(current, 0);
      ghost var m1 := mem;
      if had > Wrap(size + HEADER) {
        var rest := current + HEADER + size;
        SetHeader(rest, had - size - HEADER, 1, HeaderAt(mem, current).next);
        ghost var m2 := mem;
        SetSizeAndNext(current, size, rest);
        SplitWritten(m0, m1, m2, mem, b, size, next);
      } else {
        WholeWritten(m0, m1, b, size, next);
      }
      CutLaid(m0, mem, blocks, i, size, bitmapAt, BitmapLen());
      ClearKept(m0, mem, bitmapAt, maxFrames);
      blocks := Take(blocks, i, size);
    }

    /** Walk to the last block of the list. */
    method LastBlock() returns (last: nat)
      requires blocks != [] && blocks[0].addr == lo && Linked(mem, blocks) && Separated(blocks, |mem|)
      ensures last == blocks[|blocks| - 1].addr && last + HEADER <= |mem|
    {
      last := lo;
      ghost var n := 0;
      assert Written(mem, blocks, 0, 0);
      while HeaderAt(mem, last).next != 0
        invariant 0 <= n < |blocks| && last == blocks[n].addr && Written(mem, blocks, n, 0)
        decreases |blocks| - n
      {
        last := HeaderAt(mem, last).next;
        n := n + 1;
        assert Written(mem, blocks, n, 0);
      }
    }

    /** Append the frame at `addr` as a free block at the end of the list. */
    method AppendFrame(addr: nat, ghost f: nat)
      requires Valid() && addr == FrameAddr(f) && f > 0 && End(FrameBlock(f)) <= |mem|
      requires OffBitmap(FrameBlock(f), bitmapAt, BitmapLen())
      requires forall i :: 0 <= i < |blocks| ==> Apart(FrameBlock(f), blocks[i])
      modifies this
      ensures Valid() && blocks == old(blocks) + [FrameBlock(f)] && |mem| == |old(mem)|
      ensures PayloadsKept(old(mem), mem, old(blocks)) && Clear() == old(Clear())
    {
      ghost var m0 := mem;
      SetHeader(addr, FRAME - HEADER, 1, 0);
      ghost var m1 := mem;
      HeadersKept(m0, m1, blocks, addr);
      var last := LastBlock();
      SetNext(last, addr);
      FrameLinked(m1, mem, blocks, f);
      AppendLaid(m0, mem, blocks, f, bitmapAt, BitmapLen());
      ClearKept(m0, mem, bitmapAt, maxFrames);
      blocks := blocks + [FrameBlock(f)];
    }

    /** `k_malloc`: serve from the list, else append frames one at a time. */
    method Malloc(size: nat) returns (p: nat)
      requires Valid() && RoomFor(size) && size < WORD
      modifies this
      ensures Valid() && |mem| == |old(mem)|
      ensures Grown(blocks, Clear(), p) == Grow(old(blocks), old(Clear()), size)
      ensures PayloadsKept(old(mem), mem, old(blocks))
      decreases |Clear()|
    {
      ghost var clear, m0, bs := Clear(), mem, blocks;
      var current := lo;
      ghost var i: nat := 0;
      while current != 0
        invariant 0 <= i <= |blocks| && current == (if i < |blocks| then blocks[i].addr else 0)
        invariant FirstFit(blocks, size, 0) == FirstFit(blocks, size, i)
        decreases |blocks| - i
      {
        assert Written(mem, blocks, i, 0);
        var h := HeaderAt(mem, current);
        if h.flag != 0 && h.size >= size {
          HandOut(current, size, i);
          return current + HEADER;
        }
        current := h.next;
        i := i + 1;
      }
      var added := AddFrame(size);
      if !added {
        return 0;
      }
      ghost var m1 := mem;
      p := Malloc(size);
      PayloadsChain(m0, m1, mem, bs, FrameBlock(clear[0]));
    }

    /** The growing part of `k_malloc`: the lowest clear frame becomes the last block. */
    method AddFrame(ghost size: nat) returns (added: bool)
      requires Valid() && RoomFor(size) && FirstFit(blocks, size, 0) == |blocks|
      modifies this
      ensures Valid() && |mem| == |old(mem)| && PayloadsKept(old(mem), mem, old(blocks))
      ensures added <==> old(Clear()) != []
      ensures !added ==> blocks == old(blocks) && mem == old(mem)
      ensures added ==> blocks == old(blocks) + [FrameBlock(old(Clear())[0])] && Clear() == old(Clear())[1..]
      ensures RoomFor(size)
    {
      ghost var clear, m0, bs := Clear(), mem, blocks;
      var frame := AllocateFrame();
      if frame == 0 {
        return false;
      }
      ghost var need := Needed(bs, clear, size);
      BitmapStoreLaid(m0, mem, blocks, bitmapAt, BitmapLen());
      NeededNext(bs, clear, size);
      assert FramesApart(bs, need, bitmapAt, BitmapLen(), |mem|) && need[0] == clear[0];
      AppendFrame(frame, need[0]);
      FrameAppended(bs, clear, need, m0, bitmapAt, maxFrames, |mem|);
      added := true;
    }

    // -------------------------------------------------------------- k_free

    /** Mark the block free and let it absorb a free block after it. */
    method AbsorbNext(block: nat, ghost i: nat)
      requires Valid() && i < |blocks| && blocks[i].addr == block && !blocks[i].free
      requires i + 1 < |blocks| && blocks[i + 1].free ==> Adjacent(blocks, i)
      modifies this
      ensures Valid() && blocks == JoinRight(old(blocks), i) && |mem| == |old(mem)|
      ensures PayloadsKept(old(mem), mem, blocks) && Clear() == old(Clear())
    {
      ghost var m0, bs := mem, blocks;
      StoreJoin(block, bs, i);
      JoinRightLaid(m0, mem, bs, i, bitmapAt, BitmapLen());
      blocks := JoinRight(bs, i);
      HeaderKeepsPayloads(m0, mem, blocks, i, HeaderAt(mem, block), |mem|);
      ClearKept(m0, mem, bitmapAt, maxFrames);
    }

    /** The header stores of that. */
    method StoreJoin(block: nat, ghost bs: seq<Block>, ghost i: nat)
      requires Linked(mem, bs) && Separated(bs, |mem|) && |mem| < WORD && i < |bs| && bs[i].addr == block
      modifies this`mem
      ensures HeaderSet(old(mem), mem, block, JoinedHeader(bs, i))
    {
      ghost var m0 := mem;
      SetFlag(block, 1);
      FlagStored(m0, mem, bs, i);
      var next := HeaderAt(mem, block).next;
      if next != 0 && HeaderAt(mem, next).flag != 0 {
        var size := HeaderAt(mem, block).size + HeaderAt(mem, next).size + HEADER;
        assert Apart(bs[i], bs[i + 1]) && End(bs[i]) <= |mem| && End(bs[i + 1]) <= |mem|;
        SetSizeAndNext(block, Wrap(size), HeaderAt(mem, next).next);
      }
    }

    /** Let a free block whose next is `block` absorb it. */
    method AbsorbIntoPrevious(block: nat, ghost i: nat)
      requires Valid() && i < |blocks| && blocks[i].addr == block && blocks[i].free
      requires i > 0 && blocks[i - 1].free ==> Adjacent(blocks, i - 1)
      modifies this
      ensures Valid() && blocks == JoinLeft(old(blocks), i) && |mem| == |old(mem)|
      ensures PayloadsKept(old(mem), mem, blocks) && Clear() == old(Clear())
    {
      ghost var m0, bs := mem, blocks;
      SeparateHeaders(bs, |mem|);
      if i > 0 {
        assert Apart(bs[i - 1], bs[i]) && End(bs[i - 1]) <= |mem| && End(bs[i]) <= |mem|;
      }
      StoreJoinPrevious(block, bs, i);
      if i > 0 && bs[i - 1].free {
        JoinLaid(m0, mem, bs, i - 1, i + 1, Joined(bs[i - 1], bs[i]), bitmapAt, BitmapLen());
        blocks := JoinLeft(bs, i);
        HeaderKeepsPayloads(m0, mem, blocks, i - 1, HeaderAt(mem, bs[i - 1].addr), |mem|);
        ClearKept(m0, mem, bitmapAt, maxFrames);
      }
    }

    /** The walk of `k_free` to a free block whose next is `block`, and the stores there. */
    method StoreJoinPrevious(block: nat, ghost bs: seq<Block>, ghost i: nat)
      requires Linked(mem, bs) && HeadersApart(bs, |mem|) && i < |bs| && bs[i].addr == block && bs[0].addr == lo
      requires |mem| < WORD && (i > 0 ==> bs[i - 1].size + bs[i].size + HEADER < WORD)
      modifies this`mem
      ensures JoinedPrevious(old(mem), mem, bs, i)
    {
      ghost var m0 := mem;
      var current := lo;
      ghost var k: nat := 0;
      while current != 0
        invariant 0 <= k <= |bs| && current == (if k < |bs| then bs[k].addr else 0)
        invariant mem == m0
        invariant k >= i > 0 ==> !bs[i - 1].free
        decreases |bs| - k
      {
        assert Written(m0, bs, k, 0);
        if HeaderAt(mem, current).next == block && HeaderAt(mem, current).flag != 0 {
          OnlyPredecessor(bs, i, k, |m0|);
          assert Written(m0, bs, i, 0);
          var size := HeaderAt(mem, current).size + HeaderAt(mem, block).size + HEADER;
          SetSizeAndNext(current, Wrap(size), HeaderAt(mem, block).next);
          return;
        }
        current := HeaderAt(mem, current).next;
        k := k + 1;
      }
    }

    /** `k_free`.  Sound when the list neighbours it joins are neighbours in memory, which the
        source does not check. */
    method Free(ptr: nat)
      requires Valid()
      requires ptr != 0 ==> IndexOf(blocks, ptr, 0) < |blocks|
      requires ptr != 0 ==> JoinsAdjacent(blocks, IndexOf(blocks, ptr, 0))
      modifies this
      ensures Valid() && |mem| == |old(mem)| && DoFree(old(blocks), ptr) == Served(blocks, 0)
      ensures PayloadsKept(old(mem), mem, blocks) && Clear() == old(Clear())
    {
      if ptr == 0 {
        return;
      }
      var block := ptr - HEADER;
      ghost var i := IndexOf(blocks, ptr, 0);
      assert Written(mem, blocks, i, 0);
      if HeaderAt(mem, block).flag != 0 {
        return;
      }
      ghost var bs, m0 := blocks, mem;
      AbsorbNext(block, i);
      ghost var m1, joined := mem, blocks;
      AbsorbIntoPrevious(block, i);
      ReleasePayloads(m0, m1, mem, joined, i);
    }

    // -------------------------------------------------------------- k_realloc

    /** `memmove`: right for every overlap of the two ranges. */
    method MemMove(dest: nat, src: nat, n: nat)
      requires dest + n <= |mem| && src + n <= |mem|
      modifies this`mem
      ensures mem == Splice(old(mem), dest, old(mem)[src..src + n])
    {
      ghost var m0 := mem;
      if dest == src || n == 0 {
        assert mem == Splice(m0, dest, m0[src..src + n]);
        return;
      }
      if dest < src || dest >= src + n {
        CopyUp(dest, src, n);
      } else {
        CopyDown(dest, src, n);
      }
      assert mem == Splice(m0, dest, m0[src..src + n]);
    }

    method CopyUp(dest: nat, src: nat, n: nat)
      requires dest + n <= |mem| && src + n <= |mem| && (dest < src || dest >= src + n)
      modifies this`mem
      ensures |mem| == |old(mem)| && forall x :: dest <= x < dest + n ==> mem[x] == old(mem)[src + (x - dest)]
      ensures forall x :: 0 <= x < |mem| && !(dest <= x < dest + n) ==> mem[x] == old(mem)[x]
    {
      ghost var m0 := mem;
      var i := 0;
      while i < n
        invariant 0 <= i <= n && |mem| == |m0|
        invariant forall x :: dest <= x < dest + i ==> mem[x] == m0[src + (x - dest)]
        invariant forall x :: 0 <= x < |mem| && !(dest <= x < dest + i) ==> mem[x] == m0[x]
      {
        assert mem[src + i] == m0[src + i];
        mem := mem[dest + i := mem[src + i]];
        i := i + 1;
      }
    }

    method CopyDown(dest: nat, src: nat, n: nat)
      requires dest + n <= |mem| && src + n <= |mem| && src < dest
      modifies this`mem
      ensures |mem| == |old(mem)| && forall x :: dest <= x < dest + n ==> mem[x] == old(mem)[src + (x - dest)]
      ensures forall x :: 0 <= x < |mem| && !(dest <= x < dest + n) ==> mem[x] == old(mem)[x]
    {
      ghost var m0 := mem;
      var i := n;
      while i > 0
        invariant 0 <= i <= n && |mem| == |m0|
        invariant forall x :: dest + i <= x < dest + n ==> mem[x] == m0[src + (x - dest)]
        invariant forall x :: 0 <= x < |mem| && !(dest + i <= x < dest + n) ==> mem[x] == m0[x]
      {
        assert mem[src + i - 1] == m0[src + i - 1];
        mem := mem[dest + i - 1 := mem[src + i - 1]];
        i := i - 1;
      }
    }

    /** The moving case of `k_realloc`: a larger block is found, filled, and the old one freed. */
    method MoveToLarger(ptr: nat, newSize: nat, oldSize: nat, ghost i: nat) returns (p: nat)
      requires Tiled() && RoomFor(newSize) && newSize < WORD
      requires i == IndexOf(blocks, ptr, 0) < |blocks| && !blocks[i].free && ptr != 0
      requires oldSize == blocks[i].size < newSize
      modifies this
      ensures Valid() && |mem| == |old(mem)| && OthersKept(old(mem), mem, old(blocks), ptr)
      ensures PayloadAt(old(mem), ptr, oldSize, mem, if p == 0 then ptr else p)
      ensures DoMalloc(old(blocks), newSize).Served? ==>
                && p == DoMalloc(old(blocks), newSize).ptr
                && Served(blocks, 0) == DoFree(DoMalloc(old(blocks), newSize).blocks, ptr)
    {
      ghost var bs, m0 := blocks, mem;
      p := Malloc(newSize);
      PayloadSlice(m0, mem, bs, i, ptr, oldSize);
      if p == 0 {
        return;
      }
      ghost var m1, grown := mem, blocks;
      ghost var j := FirstFit(bs, newSize, 0);
      ghost var i1 := Place(bs, grown, j, i);
      AfterGrow(bs, old(Clear()), newSize, i, lo, hi);
      MoveAndFree(ptr, p, oldSize, j, i1);
      PayloadTrans(m0, ptr, oldSize, m1, ptr, mem, p);
      MovedOthers(m0, m1, mem, bs, grown, i, j, newSize, p);
    }

    /** Resizing to nothing: exactly the block at `ptr` is live no more. */
    method GiveUp(ptr: nat, ghost i: nat)
      requires Tiled() && ptr != 0 && i == IndexOf(blocks, ptr, 0) < |blocks| && !blocks[i].free
      modifies this
      ensures Tiled() && |mem| == |old(mem)| && DoFree(old(blocks), ptr) == Served(blocks, 0)
      ensures Live(blocks) == LiveBut(old(blocks), ptr)
      ensures OthersKept(old(mem), mem, old(blocks), ptr)
    {
      ghost var bs, m0 := blocks, mem;
      SoundJoins(bs, i, lo, hi);
      Free(ptr);
      FreeKeepsSound(bs, ptr, lo, hi);
      FreeLive(bs, ptr, lo, hi);
      ReleaseOthers(m0, mem, bs, i, |mem|);
    }

    /** `k_realloc` on a heap to which no frame has been added.  A block that moves keeps its
        bytes, every other live payload keeps its own, and a failure changes none. */
    method Realloc(ptr: nat, newSize: nat) returns (p: nat)
      requires Tiled() && newSize < WORD
      requires DoRealloc(blocks, ptr, newSize).Served? || RoomFor(newSize)
      requires ptr != 0 ==> IndexOf(blocks, ptr, 0) < |blocks| && !blocks[IndexOf(blocks, ptr, 0)].free
      modifies this
      ensures Valid() && |mem| == |old(mem)|
      ensures OthersKept(old(mem), mem, old(blocks), ptr)
      ensures DoRealloc(old(blocks), ptr, newSize).Served? ==>
                Tiled() && Served(blocks, p) == DoRealloc(old(blocks), ptr, newSize)
      ensures ptr != 0 && newSize != 0 ==>
                PayloadAt(old(mem), ptr, old(blocks)[IndexOf(old(blocks), ptr, 0)].size, mem, if p == 0 then ptr else p)
      ensures ptr != 0 && newSize == 0 ==>
                p == 0 && Live(blocks) == LiveBut(old(blocks), ptr)
    {
      ghost var bs, m0 := blocks, mem;
      if ptr == 0 {
        p := Malloc(newSize);
        if DoMalloc(bs, newSize).Served? {
          MallocKeepsSound(bs, newSize, lo, hi);
        }
        return;
      }
      ghost var i := IndexOf(blocks, ptr, 0);
      assert Written(mem, bs, i, 0);
      if newSize == 0 {
        GiveUp(ptr, i);
        return 0;
      }
      var oldSize := HeaderAt(mem, ptr - HEADER).size;
      if newSize <= oldSize {
        return ptr;
      }
      p := MoveToLarger(ptr, newSize, oldSize, i);
      if DoMalloc(bs, newSize).Served? {
        MovedIsRealloc(bs, ptr, newSize, lo, hi);
      }
    }

    /** One operation on a heap that can serve it from the initial region. */
    method Perform(op: Op) returns (p: nat)
      requires Tiled() && Do(blocks, op).Served? && Lawful(blocks, op)
      modifies this
      ensures Tiled() && |mem| == |old(mem)| && Served(blocks, p) == Do(old(blocks), op)
      ensures OthersKept(old(mem), mem, old(blocks), if op.Malloc? then 0 else op.ptr)
      ensures op.Realloc? && op.ptr != 0 && op.size != 0 && p != 0 ==>
                PayloadAt(old(mem), op.ptr, old(blocks)[IndexOf(old(blocks), op.ptr, 0)].size, mem, p)
    {
      ghost var bs, m0 := blocks, mem;
      ServedFits(bs, op, |mem|);
      match op
      case Malloc(size) =>
        p := Malloc(size);
        MallocKeepsSound(bs, size, lo, hi);
      case Free(ptr) =>
        p := 0;
        FreeKeepsSound(bs, ptr, lo, hi);
        if ptr != 0 {
          ghost var i := IndexOf(bs, ptr, 0);
          SoundJoins(bs, i, lo, hi);
          Free(ptr);
          FreedOthers(m0, mem, bs, ptr);
        }
      case Realloc(ptr, size) =>
        p := Realloc(ptr, size);
    }

    /** Every run of operations served from the initial region: the list in memory is the
        model's, it tiles the region, its live blocks are exactly those the caller holds by the calls
        and the pointers returned, a block that no operation names keeps its place, and every block
        that is not freed has its bytes at the place it was last moved to. */
    method Session(ops: seq<Op>)
      requires Tiled() && Orderly(blocks, ops)
      modifies this
      ensures Tiled() && |mem| == |old(mem)| && Run(old(blocks), ops).Served? && blocks == Run(old(blocks), ops).blocks
      ensures Held(blocks) == BooksAfter(old(blocks), ops)
      ensures forall b :: b in Live(old(blocks)) && Unnamed(ops, b) ==> Survives(old(mem), mem, blocks, b)
      ensures forall b :: b in Live(old(blocks)) ==>
                Followed(old(mem), mem, blocks, b, MovedTo(old(blocks), ops, b.addr + HEADER))
    {
      ghost var bs, m0 := blocks, mem;
      assert ops[..0] == [];
      AllSurvive(m0, bs, |mem|);
      var n := 0;
      while n < |ops|
        invariant 0 <= n <= |ops| && Tiled() && InRun(m0, mem, bs, blocks, ops, n)
      {
        OneMore(ops, n, bs, m0);
        n := n + 1;
      }
      assert ops[..|ops|] == ops;
      RunBooked(bs, ops, lo, hi);
    }

    method OneMore(ops: seq<Op>, n: nat, ghost bs: seq<Block>, ghost m0: Memory)
      requires Tiled() && n < |ops| && Orderly(bs, ops) && InRun(m0, mem, bs, blocks, ops, n)
      modifies this
      ensures Tiled() && InRun(m0, mem, bs, blocks, ops, n + 1)
    {
      ghost var before, m1 := blocks, mem;
      OrderlyStep(bs, ops, n);
      var p := Perform(ops[n]);
      AllStay(m0, m1, mem, bs, ops, before, ops[n], lo, hi);
      AllFollowed(m0, m1, mem, bs, ops, n, p, lo, hi);
    }

    method MovePayload(ptr: nat, p: nat, n: nat, ghost b: Block)
      requires b.addr + HEADER == p && n <= b.size && End(b) <= |mem| && ptr + n <= |mem|
      modifies this`mem
      ensures PayloadAt(old(mem), ptr, n, mem, p) && OnlyPayload(old(mem), mem, b)
    {
      ghost var m0 := mem;
      MemMove(p, ptr, n);
      MoveInside(m0, mem, b, ptr, n);
    }

    /** The end of `k_realloc`: copy the old payload to block `j`, free the old block `i`. */
    method MoveAndFree(ptr: nat, p: nat, n: nat, ghost j: nat, ghost i: nat)
      requires Valid() && i < |blocks| && j < |blocks| && i != j
      requires blocks[i].addr + HEADER == ptr && !blocks[i].free && n == blocks[i].size
      requires blocks[j].addr + HEADER == p && !blocks[j].free && n <= blocks[j].size
      requires JoinsAdjacent(blocks, i)
      modifies this
      ensures Valid() && |mem| == |old(mem)| && blocks == Release(old(blocks), i)
      ensures DoFree(old(blocks), ptr) == Served(blocks, 0)
      ensures PayloadAt(old(mem), ptr, n, mem, p)
      ensures KeptBeside(old(mem), mem, old(blocks), i, j)
    {
      ghost var bs, m0 := blocks, mem;
      MovePayload(ptr, p, n, blocks[j]);
      ghost var m1 := mem;
      PayloadStoreLaid(m0, m1, bs, j, bitmapAt, BitmapLen());
      IndexUnique(bs, i, |mem|);
      Free(ptr);
      ReleaseOthers(m1, mem, bs, i, |mem|);
      OthersApart(bs, i, |mem|);
      KeptAfterMove(m0, m1, mem, bs, i, j, ptr, n);
    }
  }

  /** The frames to be handed out: all from frame 1 up whose bit is clear, lowest first. */
  lemma ClearExactly(h: KernelHeap, x: nat, i: nat, j: nat)
    requires h.maxFrames > 0 && h.bitmapAt + h.BitmapLen() <= |h.mem|
    ensures x in h.Clear() <==> 1 <= x < h.maxFrames && !FrameTaken(h.mem, h.bitmapAt, x)
    ensures i < j < |h.Clear()| ==> h.Clear()[i] < h.Clear()[j]
  {
    ClearMember(h.mem, h.bitmapAt, 1, h.maxFrames, x);
    if i < j < |h.Clear()| {
      ClearSorted(h.mem, h.bitmapAt, 1, h.maxFrames, i, j);
    }
  }

  /** No operation frees or resizes `b`. */
  ghost predicate Unnamed(ops: seq<Op>, b: Block) {
    forall k :: 0 <= k < |ops| ==> !Names(ops[k], b.addr + HEADER)
  }

  /** `b` is live and holds the bytes it held in `m0`. */
  ghost predicate Survives(m0: Memory, m1: Memory, bs: seq<Block>, b: Block) {
    b in Live(bs) && PayloadAt(m0, b.addr + HEADER, b.size, m1, b.addr + HEADER)
  }

  /** `b`, unless freed, is live with its payload at `q`, holding the bytes it held in `m0`. */
  ghost predicate Followed(m0: Memory, m1: Memory, bs: seq<Block>, b: Block, q: nat) {
    q != 0 ==> LiveAt(bs, q, b.size) && PayloadAt(m0, b.addr + HEADER, b.size, m1, q)
  }

  lemma AllSurvive(m: Memory, bs: seq<Block>, limit: nat)
    requires Separated(bs, limit) && limit == |m|
    ensures forall b :: b in Live(bs) ==>
              Survives(m, m, bs, b) && Followed(m, m, bs, b, MovedTo(bs, [], b.addr + HEADER))
  {
  }

  /** What a served operation keeps: the other payloads, and that of a resized block. */
  ghost predicate Kept(m1: Memory, m2: Memory, bs: seq<Block>, op: Op, p: nat) {
    && OthersKept(m1, m2, bs, if op.Malloc? then 0 else op.ptr)
    && (op.Realloc? && op.ptr != 0 && op.size != 0 && p != 0 && IndexOf(bs, op.ptr, 0) < |bs| ==>
          PayloadAt(m1, op.ptr, bs[IndexOf(bs, op.ptr, 0)].size, m2, p))
  }

  /** Memory `m` with the list `now` after the first `n` operations on `bs` in `m0`. */
  ghost predicate InRun(m0: Memory, m: Memory, bs: seq<Block>, now: seq<Block>, ops: seq<Op>, n: nat)
    requires n <= |ops|
  {
    && |m| == |m0| && Run(bs, ops[..n]).Served? && now == Run(bs, ops[..n]).blocks
    && (forall b :: b in Live(bs) && Unnamed(ops, b) ==> Survives(m0, m, now, b))
    && (forall b :: b in Live(bs) ==> Followed(m0, m, now, b, MovedTo(bs, ops[..n], b.addr + HEADER)))
  }

  lemma AllFollowed(m0: Memory, m1: Memory, m2: Memory, bs: seq<Block>, ops: seq<Op>, n: nat, p: nat, lo: nat, hi: nat)
    requires n < |ops| && Run(bs, ops[..n]).Served? && Run(bs, ops[..n + 1]).Served?
    requires var now := Run(bs, ops[..n]).blocks;
             && Sound(now, lo, hi) && Run(bs, ops[..n + 1]) == Do(now, ops[n]) && Do(now, ops[n]).ptr == p
             && Kept(m1, m2, now, ops[n], p)
             && forall b :: b in Live(bs) ==> Followed(m0, m1, now, b, MovedTo(bs, ops[..n], b.addr + HEADER))
    ensures forall b :: b in Live(bs) ==>
              Followed(m0, m2, Run(bs, ops[..n + 1]).blocks, b, MovedTo(bs, ops[..n + 1], b.addr + HEADER))
  {
    var now := Run(bs, ops[..n]).blocks;
    forall b | b in Live(bs)
      ensures Followed(m0, m2, Run(bs, ops[..n + 1]).blocks, b, MovedTo(bs, ops[..n + 1], b.addr + HEADER))
    {
      MovedToStep(bs, ops, n, b.addr + HEADER);
      FollowOne(m0, m1, m2, now, ops[n], p, MovedTo(bs, ops[..n], b.addr + HEADER), b, lo, hi);
    }
  }

  /** One operation more: every block that stayed stays. */
  lemma AllStay(m0: Memory, m1: Memory, m2: Memory, first: seq<Block>, ops: seq<Op>, bs: seq<Block>, op: Op,
                lo: nat, hi: nat)
    requires Sound(bs, lo, hi) && Do(bs, op).Served? && op in ops
    requires OthersKept(m1, m2, bs, if op.Malloc? then 0 else op.ptr)
    requires forall b :: b in Live(first) && Unnamed(ops, b) ==> Survives(m0, m1, bs, b)
    ensures forall b :: b in Live(first) && Unnamed(ops, b) ==> Survives(m0, m2, Do(bs, op).blocks, b)
  {
    forall b | b in Live(first) && Unnamed(ops, b)
      ensures Survives(m0, m2, Do(bs, op).blocks, b)
    {
      assert Survives(m0, m1, bs, b);
      SurvivesStep(m0, m1, m2, bs, op, b, lo, hi);
    }
  }

  lemma FollowOne(m0: Memory, m1: Memory, m2: Memory, bs: seq<Block>, op: Op, p: nat, q: nat, b: Block,
                  lo: nat, hi: nat)
    requires Sound(bs, lo, hi) && Do(bs, op).Served? && Do(bs, op).ptr == p && Kept(m1, m2, bs, op, p)
    requires Followed(m0, m1, bs, b, q)
    ensures Followed(m0, m2, Do(bs, op).blocks, b, if q == 0 then 0 else MovedBy(bs, op, q))
  {
    if q != 0 && MovedBy(bs, op, q) != 0 {
      MovedStaysLive(bs, op, q, b.size, lo, hi);
      MovedPayload(m1, m2, bs, op, p, q, b.size, lo, hi);
      PayloadTrans(m0, b.addr + HEADER, b.size, m1, q, m2, MovedBy(bs, op, q));
    }
  }

  lemma MovedPayload(m1: Memory, m2: Memory, bs: seq<Block>, op: Op, p: nat, q: nat, n: nat, lo: nat, hi: nat)
    requires Sound(bs, lo, hi) && Do(bs, op).Served? && Do(bs, op).ptr == p && Kept(m1, m2, bs, op, p)
    requires LiveAt(bs, q, n) && q != 0 && MovedBy(bs, op, q) != 0 && q + n <= |m1|
    ensures PayloadAt(m1, q, n, m2, MovedBy(bs, op, q))
  {
    var k := LiveIndex(bs, q, n, lo, hi);
    if Names(op, q) {
      PayloadPrefix(m1, q, bs[k].size, m2, p, n);
    } else {
      assert forall x :: q <= x < q + n ==> InPayload(bs[k], x);
      assert m2[q..q + n] == m1[q..q + n];
    }
  }

  lemma PayloadPrefix(m1: Memory, a: nat, n: nat, m2: Memory, b: nat, k: nat)
    requires PayloadAt(m1, a, n, m2, b) && k <= n
    ensures PayloadAt(m1, a, k, m2, b)
  {
    assert m2[b..b + k] == m2[b..b + n][..k];
    assert m1[a..a + k] == m1[a..a + n][..k];
  }

  lemma SurvivesStep(m0: Memory, m1: Memory, m2: Memory, bs: seq<Block>, op: Op, b: Block, lo: nat, hi: nat)
    requires Sound(bs, lo, hi) && Do(bs, op).Served? && !Names(op, b.addr + HEADER)
    requires Survives(m0, m1, bs, b) && OthersKept(m1, m2, bs, if op.Malloc? then 0 else op.ptr)
    ensures Survives(m0, m2, Do(bs, op).blocks, b)
  {
    OthersStayLive(bs, op, b, lo, hi);
    SurvivesStill(m0, m1, m2, bs, Do(bs, op).blocks, if op.Malloc? then 0 else op.ptr, b);
  }

  lemma SurvivesStill(m0: Memory, m1: Memory, m2: Memory, bs: seq<Block>, after: seq<Block>, ptr: nat, b: Block)
    requires Survives(m0, m1, bs, b) && OthersKept(m1, m2, bs, ptr) && ptr != b.addr + HEADER && b in Live(after)
    ensures Survives(m0, m2, after, b)
  {
    var i :| 0 <= i < |bs| && bs[i] == b;
    PayloadStays(m1, m2, bs, i, ptr);
    PayloadTrans(m0, b.addr + HEADER, b.size, m1, b.addr + HEADER, m2, b.addr + HEADER);
  }

  lemma PayloadStays(m1: Memory, m2: Memory, bs: seq<Block>, i: nat, ptr: nat)
    requires OthersKept(m1, m2, bs, ptr) && i < |bs| && !bs[i].free && bs[i].addr + HEADER != ptr && End(bs[i]) <= |m1|
    ensures PayloadAt(m1, bs[i].addr + HEADER, bs[i].size, m2, bs[i].addr + HEADER)
  {
    assert forall x :: bs[i].addr + HEADER <= x < End(bs[i]) ==> InPayload(bs[i], x);
  }

  lemma ServedFits(bs: seq<Block>, op: Op, limit: nat)
    requires Separated(bs, limit) && Do(bs, op).Served? && Lawful(bs, op) && limit > 0
    ensures !op.Free? ==> op.size < limit
    ensures op.Malloc? ==> DoMalloc(bs, op.size).Served?
  {
  }

  lemma FreedOthers(m0: Memory, m1: Memory, bs: seq<Block>, ptr: nat)
    requires ptr != 0 && DoFree(bs, ptr).Served? && PayloadsKept(m0, m1, DoFree(bs, ptr).blocks)
    ensures OthersKept(m0, m1, bs, ptr)
  {
    var i := IndexOf(bs, ptr, 0);
    if !bs[i].free {
      ReleaseOthers(m0, m1, bs, i, |m0|);
    }
  }

  /** The `n` bytes once at `a` are now at `b`. */
  ghost predicate PayloadAt(m0: Memory, a: nat, n: nat, m1: Memory, b: nat) {
    a + n <= |m0| && b + n <= |m1| && m1[b..b + n] == m0[a..a + n]
  }

  lemma PayloadTrans(m0: Memory, a: nat, n: nat, m1: Memory, b: nat, m2: Memory, c: nat)
    requires PayloadAt(m0, a, n, m1, b) && PayloadAt(m1, b, n, m2, c)
    ensures PayloadAt(m0, a, n, m2, c)
  {
  }

  /** Live payloads other than those of blocks `i` and `j` are the same. */
  ghost predicate KeptBeside(m0: Memory, m1: Memory, bs: seq<Block>, i: nat, j: nat) {
    && |m1| == |m0|
    && forall k, x :: 0 <= k < |bs| && !bs[k].free && k != i && k != j && InPayload(bs[k], x) && x < |m0| ==>
         m1[x] == m0[x]
  }

  /** Where block `k` is found after a request served at index `f` (or by a frame at the end). */
  function Place(bs: seq<Block>, grown: seq<Block>, f: nat, k: nat): int {
    if k < f then k else k + |grown| - |bs|
  }

  /** Where everything is in the list `r` that a served request left. */
  ghost predicate Placed(bs: seq<Block>, r: seq<Block>, f: nat, size: nat, ptr: nat) {
    && f < |r| && r[f].addr + HEADER == ptr && !r[f].free && r[f].size >= size
    && forall k :: 0 <= k < |bs| && k != f ==>
         0 <= Place(bs, r, f, k) < |r| && Place(bs, r, f, k) != f && r[Place(bs, r, f, k)] == bs[k]
  }

  lemma TakePlaced(bs: seq<Block>, f: nat, size: nat)
    requires f < |bs| && size <= bs[f].size
    ensures Placed(bs, Take(bs, f, size), f, size, bs[f].addr + HEADER)
  {
    var r := Take(bs, f, size);
    assert r[f] == Cut(bs[f], size)[0];
  }

  lemma FramePlaced(bs: seq<Block>, b: Block, size: nat)
    requires size <= b.size
    ensures Placed(bs, bs + Cut(b, size), |bs|, size, b.addr + HEADER)
  {
  }

  lemma FrameJoins(bs: seq<Block>, b: Block, size: nat, i: nat)
    requires i < |bs| && JoinsAdjacent(bs, i) && size <= b.size
    ensures JoinsAdjacent(bs + Cut(b, size), i)
  {
    var r := bs + Cut(b, size);
    assert forall k :: 0 <= k < |bs| ==> r[k] == bs[k];
    assert r[|bs|] == Cut(b, size)[0];
  }

  lemma AfterGrow(bs: seq<Block>, clear: seq<nat>, size: nat, i: nat, lo: nat, hi: nat)
    requires Sound(bs, lo, hi) && i < |bs| && !bs[i].free && Grow(bs, clear, size).ptr != 0
    ensures var g, f := Grow(bs, clear, size), FirstFit(bs, size, 0);
            && Placed(bs, g.blocks, f, size, g.ptr)
            && JoinsAdjacent(g.blocks, Place(bs, g.blocks, f, i))
  {
    var f := FirstFit(bs, size, 0);
    if f < |bs| {
      TakePlaced(bs, f, size);
      TakeTiles(bs, f, size, lo, hi);
      SoundJoins(Take(bs, f, size), Place(bs, Take(bs, f, size), f, i), lo, hi);
    } else {
      GrowOutcome(bs, clear, size);
      FramePlaced(bs, FrameBlock(clear[0]), size);
      SoundJoins(bs, i, lo, hi);
      FrameJoins(bs, FrameBlock(clear[0]), size, i);
    }
  }

  lemma MovedIsRealloc(bs: seq<Block>, ptr: nat, size: nat, lo: nat, hi: nat)
    requires Sound(bs, lo, hi) && ptr != 0 && IndexOf(bs, ptr, 0) < |bs| && bs[IndexOf(bs, ptr, 0)].size < size
    requires DoMalloc(bs, size).Served? && DoFree(DoMalloc(bs, size).blocks, ptr).Served?
    ensures DoRealloc(bs, ptr, size)
         == Served(DoFree(DoMalloc(bs, size).blocks, ptr).blocks, DoMalloc(bs, size).ptr)
    ensures Sound(DoRealloc(bs, ptr, size).blocks, lo, hi)
  {
    MallocKeepsSound(bs, size, lo, hi);
    FreeKeepsSound(DoMalloc(bs, size).blocks, ptr, lo, hi);
  }

  lemma MovedOthers(m0: Memory, m1: Memory, m2: Memory, bs: seq<Block>, grown: seq<Block>, i: nat, f: nat,
                    size: nat, ptr: nat)
    requires PayloadsKept(m0, m1, bs) && i < |bs| && i != f
    requires Placed(bs, grown, f, size, ptr) && (f < |bs| ==> bs[f].free)
    requires KeptBeside(m1, m2, grown, Place(bs, grown, f, i), f)
    ensures OthersKept(m0, m2, bs, bs[i].addr + HEADER)
  {
    forall k, x | 0 <= k < |bs| && !bs[k].free && bs[k].addr != bs[i].addr && InPayload(bs[k], x) && x < |m0|
      ensures m2[x] == m0[x]
    {
      assert grown[Place(bs, grown, f, k)] == bs[k] && grown[Place(bs, grown, f, i)] == bs[i];
    }
  }

  lemma PayloadSlice(m0: Memory, m1: Memory, bs: seq<Block>, i: nat, ptr: nat, n: nat)
    requires PayloadsKept(m0, m1, bs) && i < |bs| && !bs[i].free && End(bs[i]) <= |m0|
    requires ptr == bs[i].addr + HEADER && n == bs[i].size
    ensures PayloadAt(m0, ptr, n, m1, ptr)
  {
    assert forall x :: bs[i].addr + HEADER <= x < End(bs[i]) ==> InPayload(bs[i], x);
  }

  /** Only payload bytes of `b` differ. */
  ghost predicate OnlyPayload(m0: Memory, m1: Memory, b: Block) {
    |m1| == |m0| && forall x :: 0 <= x < |m0| && !InPayload(b, x) ==> m1[x] == m0[x]
  }

  /** Stores in the payload of block `j` leave the list and the other payloads alone. */
  lemma PayloadStoreLaid(m0: Memory, m1: Memory, bs: seq<Block>, j: nat, at: nat, len: nat)
    requires Laid(m0, bs, at, len) && j < |bs| && OnlyPayload(m0, m1, bs[j])
    ensures Laid(m1, bs, at, len) && KeptBeside(m0, m1, bs, j, j)
  {
    OthersApart(bs, j, |m0|);
    forall k | 0 <= k < |bs|
      ensures Written(m1, bs, k, 0)
    {
      assert Written(m0, bs, k, 0);
    }
  }

  lemma MoveInside(m0: Memory, m1: Memory, b: Block, ptr: nat, n: nat)
    requires n <= b.size && End(b) <= |m0| && ptr + n <= |m0|
    requires m1 == Splice(m0, b.addr + HEADER, m0[ptr..ptr + n])
    ensures OnlyPayload(m0, m1, b) && PayloadAt(m0, ptr, n, m1, b.addr + HEADER)
  {
    var p := b.addr + HEADER;
    assert m1[p..p + n] == m0[ptr..ptr + n];
  }

  lemma KeptAfterMove(m0: Memory, m1: Memory, m2: Memory, bs: seq<Block>, i: nat, j: nat, ptr: nat, n: nat)
    requires i < |bs| && j < |bs| && i != j && !bs[j].free && n <= bs[j].size && End(bs[j]) <= |m0|
    requires forall k :: 0 <= k < |bs| && k != i ==> Apart(bs[i], bs[k])
    requires KeptBeside(m0, m1, bs, j, j) && OthersKept(m1, m2, bs, bs[i].addr + HEADER)
    requires PayloadAt(m0, ptr, n, m1, bs[j].addr + HEADER)
    ensures KeptBeside(m0, m2, bs, i, j) && PayloadAt(m0, ptr, n, m2, bs[j].addr + HEADER)
  {
    var p := bs[j].addr + HEADER;
    assert Apart(bs[i], bs[j]);
    assert forall x :: p <= x < p + n ==> InPayload(bs[j], x);
    assert m2[p..p + n] == m1[p..p + n];
  }

  lemma IndexUnique(bs: seq<Block>, i: nat, limit: nat)
    requires Separated(bs, limit) && i < |bs|
    ensures IndexOf(bs, bs[i].addr + HEADER, 0) == i
  {
    OthersApart(bs, i, limit);
  }

  /** Live payloads other than the one at `ptr` are the same. */
  ghost predicate OthersKept(m0: Memory, m1: Memory, bs: seq<Block>, ptr: nat) {
    && |m1| == |m0|
    && forall i, x :: 0 <= i < |bs| && !bs[i].free && bs[i].addr + HEADER != ptr && InPayload(bs[i], x) && x < |m0| ==>
         m1[x] == m0[x]
  }

  lemma SoundJoins(bs: seq<Block>, i: nat, lo: nat, hi: nat)
    requires Tiles(bs, lo, hi) && i < |bs|
    ensures JoinsAdjacent(bs, i)
  {
    var _ := TilesSplit(bs, i, lo, hi);
    var _ := TilesSplit(bs, i + 1, lo, hi);
  }

  lemma ReleaseOthers(m0: Memory, m1: Memory, bs: seq<Block>, i: nat, limit: nat)
    requires i < |bs| && !bs[i].free && PayloadsKept(m0, m1, Release(bs, i))
    ensures OthersKept(m0, m1, bs, bs[i].addr + HEADER)
  {
    var m, r := JoinRight(bs, i), Release(bs, i);
    forall k, x | 0 <= k < |bs| && !bs[k].free && bs[k].addr != bs[i].addr && InPayload(bs[k], x) && x < |m0|
      ensures m1[x] == m0[x]
    {
      var k1 := if k < i then k else k - (|bs| - |m|);
      assert m[k1] == bs[k];
      var k2 := if k1 < i then k1 else k1 - (|m| - |r|);
      assert r[k2] == bs[k];
    }
  }

  /** The blocks `k_free` would join around `i` are neighbours in memory. */
  predicate JoinsAdjacent(bs: seq<Block>, i: nat)
    requires i < |bs|
  {
    && (i + 1 < |bs| && bs[i + 1].free ==> Adjacent(bs, i))
    && (i > 0 && bs[i - 1].free ==> Adjacent(bs, i - 1))
  }

  lemma ReleasePayloads(m0: Memory, m1: Memory, m2: Memory, bs: seq<Block>, i: nat)
    requires i < |bs| && PayloadsKept(m0, m1, bs) && PayloadsKept(m1, m2, JoinLeft(bs, i))
    ensures PayloadsKept(m0, m2, JoinLeft(bs, i))
  {
    var r := JoinLeft(bs, i);
    forall k, x | 0 <= k < |r| && !r[k].free && InPayload(r[k], x) && x < |m0|
      ensures m2[x] == m0[x]
    {
      assert r[k] == if |r| == |bs| || k < i - 1 then bs[k] else bs[k + 1];
    }
  }

  lemma FrameLinked(m1: Memory, m2: Memory, bs: seq<Block>, f: nat)
    requires bs != [] && Linked(m1, bs) && FrameAddr(f) + HEADER <= |m1|
    requires Apart(FrameBlock(f), bs[|bs| - 1])
    requires HeaderAt(m1, FrameAddr(f)) == Encoded(FrameBlock(f), 0)
    requires bs[|bs| - 1].addr + HEADER <= |m1|
    requires HeaderSet(m1, m2, bs[|bs| - 1].addr, HeaderAt(m1, bs[|bs| - 1].addr).(next := FrameAddr(f)))
    ensures LinkedTo(m2, [bs[|bs| - 1], FrameBlock(f)], 0)
  {
    var last := bs[|bs| - 1];
    var piece := [last, FrameBlock(f)];
    assert Written(m1, bs, |bs| - 1, 0);
    HeaderElsewhere(m1, m2, last.addr, HeaderAt(m2, last.addr), FrameAddr(f));
    assert Written(m2, piece, 0, 0) && Written(m2, piece, 1, 0);
  }

  /** A header written apart from every block leaves the other headers alone. */
  lemma HeadersKept(m0: Memory, m1: Memory, bs: seq<Block>, a: nat)
    requires Linked(m0, bs) && a + HEADER <= |m0| == |m1| && HeaderSet(m0, m1, a, HeaderAt(m1, a))
    requires forall i :: 0 <= i < |bs| ==> bs[i].addr + HEADER <= a || a + HEADER <= bs[i].addr
    ensures Linked(m1, bs)
  {
    forall i | 0 <= i < |bs|
      ensures Written(m1, bs, i, 0)
    {
      assert Written(m0, bs, i, 0);
      HeaderElsewhere(m0, m1, a, HeaderAt(m1, a), bs[i].addr);
    }
  }

  /** Setting a bit of the bitmap touches no block. */
  lemma BitmapStoreLaid(m0: Memory, m1: Memory, bs: seq<Block>, at: nat, len: nat)
    requires Laid(m0, bs, at, len) && |m1| == |m0|
    requires forall x :: 0 <= x < |m0| && !(at <= x < at + len) ==> m1[x] == m0[x]
    ensures Laid(m1, bs, at, len) && PayloadsKept(m0, m1, bs)
  {
    forall i | 0 <= i < |bs|
      ensures Written(m1, bs, i, 0)
    {
      assert Written(m0, bs, i, 0) && OffBitmap(bs[i], at, len);
    }
  }

  /** The frames still needed stay apart once the lowest has become a block. */
  lemma FrameAppended(bs: seq<Block>, clear: seq<nat>, need: seq<nat>, m0: Memory, at: nat, max: nat, limit: nat)
    requires max > 0 && at + (max + 7) / 8 <= |m0| && clear == ClearFrom(m0, at, 1, max)
    requires need != [] && need <= clear && FramesApart(bs, need, at, (max + 7) / 8, limit)
    ensures FramesApart(bs + [FrameBlock(need[0])], need[1..], at, (max + 7) / 8, limit)
  {
    var r, rest := bs + [FrameBlock(need[0])], need[1..];
    forall k, i | 0 <= k < |rest| && 0 <= i < |r|
      ensures Apart(FrameBlock(rest[k]), r[i])
    {
      ClearSorted(m0, at, 1, max, 0, k + 1);
      assert rest[k] == need[k + 1] == clear[k + 1];
      if i < |bs| {
        assert Apart(FrameBlock(need[k + 1]), bs[i]);
      }
    }
  }

  lemma PayloadsChain(m0: Memory, m1: Memory, m2: Memory, bs: seq<Block>, b: Block)
    requires PayloadsKept(m0, m1, bs) && PayloadsKept(m1, m2, bs + [b])
    ensures PayloadsKept(m0, m2, bs)
  {
    forall i, x | 0 <= i < |bs| && !bs[i].free && InPayload(bs[i], x) && x < |m0|
      ensures m2[x] == m0[x]
    {
      assert (bs + [b])[i] == bs[i];
    }
  }

  /** Setting the lowest clear frame removes it from the clear ones. */
  lemma FrameSet(m0: Memory, at: nat, i: nat, max: nat)
    requires 1 <= i < max && at + (max + 7) / 8 <= |m0| && !FrameTaken(m0, at, i)
    requires forall x: nat :: 1 <= x < i ==> FrameTaken(m0, at, x)
    ensures var m1 := SetFrame(m0, at, i);
            |m1| == |m0| && ClearFrom(m0, at, 1, max) == [i] + ClearFrom(m1, at, 1, max)
  {
    var m1 := SetFrame(m0, at, i);
    forall x: nat | x < max
      ensures FrameTaken(m1, at, x) <==> x == i || FrameTaken(m0, at, x)
    {
      SetFrameBits(m0, at, i, x);
    }
    SkipTaken(m0, at, 1, i, max);
    SkipTaken(m1, at, 1, i + 1, max);
    ClearFrame(m0, m1, at, i + 1, max);
  }

  lemma {:induction false} SkipTaken(mem: Memory, at: nat, f: nat, g: nat, max: nat)
    requires f <= g <= max && at + (max + 7) / 8 <= |mem|
    requires forall x: nat :: f <= x < g ==> FrameTaken(mem, at, x)
    ensures ClearFrom(mem, at, f, max) == ClearFrom(mem, at, g, max)
    decreases g - f
  {
    if f < g {
      SkipTaken(mem, at, f + 1, g, max);
    }
  }
}
