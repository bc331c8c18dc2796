/** An oversize request on a fresh heap when a frame header falls into the frame bitmap: the header
    store sets and clears frame bits, and frames taken later set bits of that header. */
module HeapBitmap {

  import opened Bytes
  import opened HeapSpec
  import opened HeapMemory
  import opened Heap
  import opened HeapLimits
  import opened HeapBoot
  import Division

  // ---------------------------------------------------------------- setting bits of a size word

  /** Setting a clear bit adds its weight. */
  lemma {:induction false} BitAdds(b: nat, k: nat)
    requires !Bit(b, k)
    ensures WithBit(b, k) == b + Division.Pow2(k)
    decreases k
  {
    if k > 0 {
      BitAdds(b / 2, k - 1);
    }
  }

  /** The weight of byte `j` of a word. */
  function Weight(j: nat): nat {
    if j == 0 then 1 else if j == 1 then 0x100 else if j == 2 then 0x1_0000 else 0x100_0000
  }

  lemma PowWeight(j: nat, r: nat)
    requires j < 4
    ensures Division.Pow2(8 * j + r) == Division.Pow2(r) * Weight(j)
  {
    assert Division.Pow2(8) == 0x100;
    Division.PowAdd(8, 8);
    Division.PowAdd(8, 16);
    assert Division.Pow2(8 * j) == Weight(j);
    Division.PowAdd(8 * j, r);
  }

  lemma ByteAdds(m: Memory, a: nat, j: nat, b: Byte)
    requires j < 4 && a + 4 <= |m|
    ensures Le32(m[a + j := b], a) == Le32(m, a) + (b as int - m[a + j] as int) * Weight(j)
  {
  }

  /** The bits of the 32-bit word at byte `o` of the bitmap are those of frames 8*o to 8*o + 31: taking
      frame 8*o + k adds 2^k to it. */
  lemma TakenAdds(m: Memory, at: nat, o: nat, k: nat)
    requires k < 32 && at + o + 4 <= |m| && !FrameTaken(m, at, 8 * o + k)
    ensures Le32(SetFrame(m, at, 8 * o + k), at + o) == Le32(m, at + o) + Division.Pow2(k)
  {
    FrameByte(m, at, o, k);
    WordAdds(m, at + o, k / 8, k % 8);
    assert 8 * (k / 8) + k % 8 == k;
  }

  /** Which byte and bit of the bitmap a frame has. */
  lemma FrameByte(m: Memory, at: nat, o: nat, k: nat)
    requires k < 32 && at + o + 4 <= |m|
    ensures (8 * o + k) / 8 == o + k / 8 < o + 4
    ensures FrameTaken(m, at, 8 * o + k) == Bit(m[at + o + k / 8], k % 8)
    ensures SetFrame(m, at, 8 * o + k) == m[at + o + k / 8 := SetBit(m[at + o + k / 8], k % 8)]
  {
  }

  lemma WordAdds(m: Memory, a: nat, j: nat, r: nat)
    requires j < 4 && r < 8 && a + 4 <= |m| && !Bit(m[a + j], r)
    ensures Le32(m[a + j := SetBit(m[a + j], r)], a) == Le32(m, a) + Division.Pow2(8 * j + r)
  {
    BitAdds(m[a + j], r);
    ByteAdds(m, a, j, SetBit(m[a + j], r));
    PowWeight(j, r);
  }

  // ---------------------------------------------------------------- what a frame header makes of them

  /** Bits of the size 4084 that a frame header stores: 0xFF4. */
  predicate Preset(k: int) {
    k == 2 || 4 <= k <= 11
  }

  lemma BytesOfSize(b0: Byte, b1: Byte, b2: Byte, b3: Byte)
    requires b0 + 0x100 * b1 + 0x1_0000 * b2 + 0x100_0000 * b3 == FRAME - HEADER
    ensures b0 == 0xF4 && b1 == 0x0F && b2 == 0 && b3 == 0
  {
  }

  lemma BitsOf0F(k: nat)
    requires k < 8
    ensures Bit(0x0F, k) <==> k < 4
  {
    if k >= 4 {
      HalfBit(0x0F, k);
      HalfBit(0x07, k - 1);
      HalfBit(0x03, k - 2);
      HalfBit(0x01, k - 3);
      ZeroBits(k - 4);
    } else if k == 3 {
      HalfBit(0x0F, 3);
      HalfBit(0x07, 2);
      HalfBit(0x03, 1);
    } else if k == 2 {
      HalfBit(0x0F, 2);
      HalfBit(0x07, 1);
    }
  }

  lemma HalfBit(b: nat, k: nat)
    requires k > 0
    ensures Bit(b, k) == Bit(b / 2, k - 1)
  {
  }

  lemma BitsOfF4(k: nat)
    requires k < 8
    ensures Bit(0xF4, k) <==> k == 2 || k >= 4
  {
    if k > 0 {
      HalfBit(0xF4, k);
    }
    if k > 1 {
      HalfBit(0x7A, k - 1);
    }
    if k > 2 {
      HalfBit(0x3D, k - 2);
    }
    if k > 3 {
      HalfBit(0x1E, k - 3);
      BitsOf0F(k - 4);
    }
  }

  /** The frame bits under a size word of 4084. */
  lemma PresetBits(m: Memory, at: nat, o: nat, k: nat)
    requires k < 32 && at + o + 4 <= |m| && Le32(m, at + o) == FRAME - HEADER
    ensures FrameTaken(m, at, 8 * o + k) <==> Preset(k)
  {
    BytesOfSize(m[at + o], m[at + o + 1], m[at + o + 2], m[at + o + 3]);
    FrameByte(m, at, o, k);
    var j, r := k / 8, k % 8;
    if j == 0 {
      BitsOfF4(r);
    } else if j == 1 {
      BitsOf0F(r);
    } else {
      ZeroBits(r);
    }
  }

  /** The size the block claims once frames 8*o to 8*o + k are all taken. */
  function Claim(k: nat): nat {
    if k == 0 then 0xFF5 else if k < 3 then 0xFF7 else if k < 12 then 0xFFF else Division.Pow2(k + 1) - 1
  }

  /** The first bit from `k` on that the header leaves clear. */
  function FreeBit(k: nat): (r: nat)
    ensures r >= k && !Preset(r) && forall j :: k <= j < r ==> Preset(j)
  {
    if k == 2 then 3 else if 4 <= k <= 11 then 12 else k
  }

  lemma ClaimStep(k: nat)
    requires k < 31
    ensures Claim(FreeBit(k + 1)) == Claim(k) + Division.Pow2(FreeBit(k + 1))
    ensures forall j :: k <= j < FreeBit(k + 1) ==> Claim(j) == Claim(k)
    ensures FreeBit(k + 1) <= 31
  {
    assert Division.Pow2(1) == 2 && Division.Pow2(3) == 8;
    assert Division.Pow2(8) == 0x100;
    Division.PowAdd(8, 4);
    Division.PowAdd(8, 5);
    assert Division.Pow2(4) == 16 && Division.Pow2(5) == 32;
  }

  // ---------------------------------------------------------------- the first header in the bitmap

  /** Frame `f` is the first one not below the bitmap, and its header starts in it. */
  ghost predicate Meets(h: KernelHeap, f: nat)
    reads h
  {
    && Layout(h) && 1 <= f < h.maxFrames
    && FrameAddr(f - 1) < h.bitmapAt <= FrameAddr(f) < h.bitmapAt + h.BitmapLen()
  }

  /** The byte of the bitmap at which that header starts. */
  function Offset(h: KernelHeap, f: nat): nat
    requires h.bitmapAt <= FrameAddr(f)
  {
    FrameAddr(f) - h.bitmapAt
  }

  lemma MeetsWhere(h: KernelHeap, f: nat)
    requires Meets(h, f)
    ensures Offset(h, f) % 16 == 0 && FrameAddr(f) + 16 <= h.lo && 8 * Offset(h, f) < h.maxFrames
    ensures forall x: nat :: x < f ==> FrameAddr(x) + 16 <= h.bitmapAt
    ensures forall x: nat :: x > f ==> FrameAddr(f) + 16 <= FrameAddr(x)
  {
    FrameAligned(f);
    SixteenApart(FrameAddr(f), h.lo);
    AlignedOffset(FrameAddr(f), h.bitmapAt);
    InsideBitmap(Offset(h, f), h.maxFrames);
    forall x: nat | x < f
      ensures FrameAddr(x) + 16 <= h.bitmapAt
    {
      FrameBefore(x, f, h.bitmapAt);
    }
  }

  lemma AlignedOffset(a: nat, b: nat)
    requires a % 16 == 0 && b % 16 == 0 && b <= a
    ensures (a - b) % 16 == 0
  {
    assert a == 16 * (a / 16) && b == 16 * (b / 16);
    assert a - b == 16 * (a / 16 - b / 16);
  }

  lemma InsideBitmap(o: nat, max: nat)
    requires o < (max + 7) / 8
    ensures 8 * o < max
  {
  }

  lemma FrameBefore(x: nat, f: nat, at: nat)
    requires x < f && FrameAddr(f - 1) < at && at % 16 == 0
    ensures FrameAddr(x) + 16 <= at
  {
    FrameAligned(x);
    SixteenApart(FrameAddr(x), at);
  }

  /** The heap once frame `f` has been listed: the bits under its size word are those of 4084, and
      before them exactly the frames up to `f` are taken. */
  ghost predicate Met(h: KernelHeap, f: nat, size: nat)
    reads h
  {
    && Meets(h, f) && Strung(h.mem, BootList(h, f)) && NoneFits(h.mem, BootList(h, f), size)
    && HeaderAt(h.mem, FrameAddr(f)).size == FRAME - HEADER && HeaderAt(h.mem, FrameAddr(f)).flag == 1
    && forall x: nat :: 1 <= x < 8 * Offset(h, f) ==> (FrameTaken(h.mem, h.bitmapAt, x) <==> x <= f)
  }

  lemma BitBefore(m0: Memory, m: Memory, at: nat, max: nat, f: nat, last: nat, x: nat)
    requires 1 <= f < max && at + (max + 7) / 8 <= |m0| && at <= FrameAddr(f)
    requires OnlyGrowth(SetFrame(m0, at, f), m, FrameAddr(f), last) && HeaderOff(last, at, (max + 7) / 8)
    requires ClearFrom(m0, at, 1, max) == FramesFrom(f, max) && 1 <= x < max && at + x / 8 < FrameAddr(f)
    ensures FrameTaken(m, at, x) <==> x <= f
  {
    InFrames(f, max, x);
    if x < f {
      NotClear(m0, at, 1, max, x);
    } else {
      IsClear(m0, at, 1, max, x);
    }
    SetFrameBits(m0, at, f, x);
    assert m[at + x / 8] == SetFrame(m0, at, f)[at + x / 8];
  }

  lemma InFrames(f: nat, max: nat, x: nat)
    requires f <= max
    ensures x in FramesFrom(f, max) <==> f <= x < max
  {
    if f <= x < max {
      assert FramesFrom(f, max)[x - f] == x;
    }
  }

  lemma {:induction false} IsClear(m: Memory, at: nat, f: nat, max: nat, x: nat)
    requires f <= max && at + (max + 7) / 8 <= |m|
    ensures x in ClearFrom(m, at, f, max) ==> x < max && !FrameTaken(m, at, x)
    decreases max - f
  {
    if f < max {
      IsClear(m, at, f + 1, max, x);
    }
  }

  /** The retries up to the bitmap. */
  method ReachBitmap(h: KernelHeap, size: nat, ghost f: nat)
    requires Retrying(h, 0, size) && Meets(h, f) && size > FRAME - HEADER
    modifies h`mem
    ensures |h.mem| == |old(h.mem)| && Meets(h, f) && Retrying(h, f - 1, size)
  {
    MeetsWhere(h, f);
    ghost var g: nat := 0;
    var frame := 0;
    while frame + 4096 < h.bitmapAt
      invariant Retrying(h, g, size) && frame == FrameAddr(g) && g < f && |h.mem| == |old(h.mem)|
      decreases h.bitmapAt - frame
    {
      frame := Retry(h, g, size);
      g := g + 1;
    }
    assert g == f - 1;
  }

  /** The retry that lists frame `f`. */
  method MeetBitmap(h: KernelHeap, size: nat, ghost f: nat)
    requires Meets(h, f) && Retrying(h, f - 1, size) && size > FRAME - HEADER
    modifies h`mem
    ensures |h.mem| == |old(h.mem)| && Met(h, f, size)
  {
    ghost var m0 := h.mem;
    MeetsWhere(h, f);
    RetryReady(h, f - 1, size);
    var frame;
    ghost var e: nat;
    frame, e := TakeNext(h, f - 1, size);
    ghost var last := BootList(h, f - 1)[e].addr;
    forall x: nat | 1 <= x < 8 * Offset(h, f)
      ensures FrameTaken(h.mem, h.bitmapAt, x) <==> x <= f
    {
      BitBefore(m0, h.mem, h.bitmapAt, h.maxFrames, f, last, x);
    }
  }

  // ---------------------------------------------------------------- a listed frame's bit is cleared

  lemma LowestClear(m: Memory, at: nat, max: nat, n: nat)
    requires 1 <= n < max && at + (max + 7) / 8 <= |m| && !FrameTaken(m, at, n)
    requires forall x: nat :: 1 <= x < n ==> FrameTaken(m, at, x)
    ensures ClearFrom(m, at, 1, max) != [] && ClearFrom(m, at, 1, max)[0] == n
  {
    SkipTaken(m, at, 1, n, max);
  }

  lemma StuckOn(h: KernelHeap, bs: seq<Block>, k: nat, size: nat)
    requires k < |bs| && bs[0].addr == h.lo && Circles(h.mem, bs, k) && forall i :: 0 <= i <= k ==> bs[i].addr > 0
    requires forall i :: 0 <= i <= k ==> bs[i].addr + HEADER <= |h.mem| && HeaderAt(h.mem, bs[i].addr).size < size
    ensures Stuck(h, size)
  {
    forall n: nat
      ensures var x := Trail(h.mem, h.lo, n); 0 < x && x + HEADER <= |h.mem| && HeaderAt(h.mem, x).size < size
    {
      assert Trail(h.mem, bs[0].addr, n) == bs[if n < k then n else k].addr;
    }
  }

  /** The frame whose bit the header store has cleared. */
  function Cleared(o: nat): nat {
    if o == 0 then 1 else 8 * o
  }

  lemma ClearedIsNext(h: KernelHeap, f: nat, size: nat)
    requires Met(h, f, size) && 8 * Offset(h, f) <= f
    ensures h.Clear() != [] && h.Clear()[0] == Cleared(Offset(h, f)) <= f && Cleared(Offset(h, f)) / 8 == Offset(h, f)
  {
    MeetsWhere(h, f);
    var o := Offset(h, f);
    PresetBits(h.mem, h.bitmapAt, o, Cleared(o) - 8 * o);
    LowestClear(h.mem, h.bitmapAt, h.maxFrames, Cleared(o));
  }

  /** Where the blocks lie when frames 1 up to `f` are listed. */
  lemma MetPlaces(h: KernelHeap, f: nat)
    requires Meets(h, f)
    ensures var bs := BootList(h, f);
            && |bs| == f + 1
            && (forall i :: 0 <= i <= f ==> bs[i].addr == if i == 0 then h.lo else FrameAddr(i))
            && (forall i :: 0 <= i <= f ==> bs[i].addr % 16 == 0 && bs[i].addr > 0)
            && (forall i :: 0 <= i < f ==> bs[i].addr + 16 <= h.bitmapAt || FrameAddr(f) + 16 <= bs[i].addr)
  {
    MeetsWhere(h, f);
    BootListAt(h, f);
    ListAligned(h, FramesFrom(1, f + 1));
  }

  /** When the bits under the header are those of frames up to its own, a listed frame is handed out
      again, its header is hit, and every further search goes round it. */
  method HandOutAgain(h: KernelHeap, size: nat, ghost f: nat)
    requires Met(h, f, size) && 8 * Offset(h, f) <= f && size > FRAME - HEADER
    modifies h`mem
    ensures |h.mem| == |old(h.mem)| && Stuck(h, size)
  {
    ghost var bs, m0, g := BootList(h, f), h.mem, Cleared(Offset(h, f));
    ClearedIsNext(h, f, size);
    MetPlaces(h, f);
    AgainReady(h, f);
    ghost var e: nat;
    var frame;
    frame, e := SearchAndGrow(h, bs, size, g);
    AgainStuck(m0, h, f, g, e, size);
  }

  lemma AgainReady(h: KernelHeap, f: nat)
    requires Meets(h, f) && 8 * Offset(h, f) <= f
    ensures var bs, g := BootList(h, f), Cleared(Offset(h, f));
            && bs[..|bs|] == bs && !Torn(bs, FrameAddr(g)) && FrameAddr(g) + HEADER <= |h.mem|
            && LinksOff(bs, h.bitmapAt + g / 8, 1)
  {
    MetPlaces(h, f);
    AlignedNotTorn(BootList(h, f), Cleared(Offset(h, f)));
  }

  lemma AgainStuck(m0: Memory, h: KernelHeap, f: nat, g: nat, e: nat, size: nat)
    requires Meets(h, f) && |m0| == |h.mem| && size > FRAME - HEADER
    requires 1 <= g <= f && h.bitmapAt + g / 8 == FrameAddr(f)
    requires var bs := BootList(h, f);
             && |bs| == f + 1 && Strung(m0, bs) && NoneFits(m0, bs, size) && bs[g].addr == FrameAddr(g)
             && TookFrame(m0, h, bs, g, e)
    ensures Stuck(h, size)
  {
    var bs := BootList(h, f);
    MetPlaces(h, f);
    assert bs[e].addr == FrameAddr(g);
    HitIndex(m0, bs, g, e);
    forall i | 0 <= i <= e
      ensures bs[i].addr + HEADER <= |h.mem| && HeaderAt(h.mem, bs[i].addr).size < size
    {
      AgainSmall(m0, h, f, g, i, size);
    }
    StuckOn(h, bs, e, size);
  }

  lemma HitIndex(m0: Memory, bs: seq<Block>, g: nat, e: nat)
    requires Strung(m0, bs) && g < |bs| && e < |bs| && bs[e].addr == bs[g].addr
    ensures e == g
  {
    assert forall i, j :: 0 <= i < j < |bs| ==> LinksApart(bs[i].addr, bs[j].addr);
  }

  lemma AgainSmall(m0: Memory, h: KernelHeap, f: nat, g: nat, i: nat, size: nat)
    requires Meets(h, f) && |m0| == |h.mem| && size > FRAME - HEADER
    requires i <= g <= f && 1 <= g && h.bitmapAt + g / 8 == FrameAddr(f) && |BootList(h, f)| == f + 1
    requires NoneFits(m0, BootList(h, f), size)
    requires OnlyGrowth(SetFrame(m0, h.bitmapAt, g), h.mem, FrameAddr(g), FrameAddr(g))
    requires FrameAddr(g) + HEADER <= |h.mem| && HeaderAt(h.mem, FrameAddr(g)).size == FRAME - HEADER
    ensures var x := BootList(h, f)[i].addr; x + HEADER <= |h.mem| && HeaderAt(h.mem, x).size < size
  {
    var bs := BootList(h, f);
    MetPlaces(h, f);
    MeetsWhere(h, f);
    FrameAligned(g);
    if i < g {
      SizeKept(m0, h.mem, h.bitmapAt, g, FrameAddr(g), FrameAddr(g), bs[i].addr);
    }
  }

  // ---------------------------------------------------------------- later frames fill the size word

  /** Frame `x` is taken by the header at byte `o` of the bitmap. */
  predicate Held(o: nat, x: nat) {
    Preset(x - 8 * o)
  }

  /** What the size word under the bits of frames 8*o on says once all frames up to `g` are taken. */
  function Word(o: nat, g: nat): nat {
    if g < 8 * o then FRAME - HEADER else Claim(g - 8 * o)
  }

  /** The next frame to be taken then. */
  function NextFrame(o: nat, g: nat): (n: nat)
    ensures n > g
  {
    if g + 1 < 8 * o then g + 1 else 8 * o + FreeBit(g + 1 - 8 * o)
  }

  lemma NextInWord(o: nat, g: nat, size: nat)
    requires g < 8 * o + 32 && Word(o, g) < size < WORD
    ensures NextFrame(o, g) < 8 * o + 32
    ensures forall x: nat :: g < x < NextFrame(o, g) ==> Held(o, x)
    ensures !Held(o, NextFrame(o, g))
  {
    Division.Pow32();
    assert Claim(31) == WORD - 1;
  }

  lemma WordStep(o: nat, g: nat)
    requires g < 8 * o + 31 && NextFrame(o, g) < 8 * o + 32
    ensures var n := NextFrame(o, g);
            Word(o, n) == Word(o, g) + if n < 8 * o then 0 else Division.Pow2(n - 8 * o)
  {
    if g >= 8 * o {
      ClaimStep(g - 8 * o);
    } else if g + 1 == 8 * o {
      assert Division.Pow2(0) == 1;
    }
  }

  /** The frames listed: 1 up to `f`, then others up to `g`, none where the heap starts. */
  ghost predicate Listed(h: KernelHeap, f: nat, fs: seq<nat>, g: nat) {
    && f <= |fs| && f > 0
    && (forall j :: 0 <= j < f ==> fs[j] == j + 1)
    && (forall j :: f <= j < |fs| ==> f < fs[j] <= g)
    && (forall j :: 0 <= j < |fs| ==> FrameAddr(fs[j]) != h.lo)
  }

  /** Every listed block but the one at index `f` is too small by its header. */
  ghost predicate OthersSmall(m: Memory, bs: seq<Block>, f: nat, size: nat) {
    forall i :: 0 <= i < |bs| && i != f ==> bs[i].addr + HEADER <= |m| && HeaderAt(m, bs[i].addr).size < size
  }

  /** Up to the end of the size word exactly the frames up to `g` and the preset ones are taken. */
  ghost predicate BitsUpTo(m: Memory, at: nat, max: nat, o: nat, g: nat)
    requires at + (max + 7) / 8 <= |m|
  {
    forall x: nat :: 1 <= x < 8 * o + 32 && x < max ==> (FrameTaken(m, at, x) <==> x <= g || Held(o, x))
  }

  /** Between two retries behind the bitmap: all frames up to `g` are taken. */
  ghost predicate Filling(h: KernelHeap, f: nat, fs: seq<nat>, g: nat, size: nat)
    reads h
  {
    FillingAt(h.mem, h, f, fs, g, size)
  }

  /** The same with the memory `m`. */
  ghost predicate FillingAt(m: Memory, h: KernelHeap, f: nat, fs: seq<nat>, g: nat, size: nat)
    reads h
  {
    && Meets(h, f) && |m| == |h.mem| && f <= g < h.maxFrames && g < 8 * Offset(h, f) + 32 && f < 8 * Offset(h, f)
    && Listed(h, f, fs, g) && Strung(m, ListOf(h.lo, h.hi, fs)) && OthersSmall(m, ListOf(h.lo, h.hi, fs), f, size)
    && HeaderAt(m, FrameAddr(f)).size == Word(Offset(h, f), g) && HeaderAt(m, FrameAddr(f)).flag == 1
    && BitsUpTo(m, h.bitmapAt, h.maxFrames, Offset(h, f), g)
  }

  lemma AllTaken(m: Memory, at: nat, max: nat)
    requires 1 <= max && at + (max + 7) / 8 <= |m| && forall x: nat :: 1 <= x < max ==> FrameTaken(m, at, x)
    ensures ClearFrom(m, at, 1, max) == []
  {
    SkipTaken(m, at, 1, max, max);
  }

  lemma NextIsClear(h: KernelHeap, f: nat, fs: seq<nat>, g: nat, size: nat)
    requires Filling(h, f, fs, g, size) && Word(Offset(h, f), g) < size < WORD
    ensures var n := NextFrame(Offset(h, f), g);
            if n < h.maxFrames then h.Clear() != [] && h.Clear()[0] == n else h.Clear() == []
  {
    var o := Offset(h, f);
    var n := NextFrame(o, g);
    NextInWord(o, g, size);
    forall x: nat | 1 <= x < n && x < h.maxFrames
      ensures FrameTaken(h.mem, h.bitmapAt, x)
    {
    }
    if n < h.maxFrames {
      LowestClear(h.mem, h.bitmapAt, h.maxFrames, n);
    } else {
      AllTaken(h.mem, h.bitmapAt, h.maxFrames);
    }
  }

  /** Where the listed blocks lie: before the bitmap, or from the header in it on. */
  lemma ListedPlaces(h: KernelHeap, f: nat, fs: seq<nat>, g: nat)
    requires Meets(h, f) && Listed(h, f, fs, g)
    ensures var bs := ListOf(h.lo, h.hi, fs);
            && |bs| == |fs| + 1 && bs[0].addr == h.lo && bs[f].addr == FrameAddr(f)
            && (forall i :: 0 <= i < |bs| ==> bs[i].addr % 16 == 0)
            && (forall i :: 0 < i < |bs| ==> bs[i].addr == FrameAddr(fs[i - 1]))
            && (forall i :: 0 <= i < |bs| && i != f ==>
                  bs[i].addr + 16 <= h.bitmapAt || FrameAddr(f) + 16 <= bs[i].addr)
            && FrameAddr(f) <= bs[|bs| - 1].addr
  {
    MeetsWhere(h, f);
    ListAt(h.lo, h.hi, fs);
    ListAligned(h, fs);
    assert forall j :: 0 <= j < |fs| && j + 1 != f ==>
             FrameAddr(fs[j]) + 16 <= h.bitmapAt || FrameAddr(f) + 16 <= FrameAddr(fs[j]);
  }

  lemma FillReady(h: KernelHeap, f: nat, fs: seq<nat>, g: nat, n: nat)
    requires Meets(h, f) && Listed(h, f, fs, g) && n < 8 * Offset(h, f) + 32 && g < n && f <= g
    ensures var bs := ListOf(h.lo, h.hi, fs);
            !Torn(bs, FrameAddr(n)) && LinksOff(bs, h.bitmapAt + n / 8, 1)
    ensures var bs := ListOf(h.lo, h.hi, fs);
            FrameAddr(n) != h.lo ==> forall i :: 0 <= i < |bs| ==> bs[i].addr != FrameAddr(n)
  {
    var bs := ListOf(h.lo, h.hi, fs);
    ListedPlaces(h, f, fs, g);
    AlignedNotTorn(bs, n);
    assert h.bitmapAt + n / 8 < FrameAddr(f) + 4;
    assert forall j :: 0 <= j < |fs| ==> fs[j] <= g;
  }

  // ---------------------------------------------------------------- one more frame

  /** Bytes of the bitmap up to the end of the size word are changed by the bit alone. */
  lemma BeforeFlag(m0: Memory, m: Memory, at: nat, f: nat, n: nat, last: nat)
    requires at <= FrameAddr(f) <= last && f < n && FrameAddr(f) + HEADER <= |m0| && at + n / 8 < |m0|
    requires OnlyGrowth(SetFrame(m0, at, n), m, FrameAddr(n), last)
    ensures |m| == |m0| && forall x :: at <= x < FrameAddr(f) + 8 ==> m[x] == SetFrame(m0, at, n)[x]
  {
  }

  /** The header in the bitmap after a growing step behind it. */
  lemma FilledHeader(m0: Memory, m: Memory, at: nat, f: nat, g: nat, n: nat, last: nat)
    requires at <= FrameAddr(f) <= last && f <= g < n && FrameAddr(f) + HEADER <= |m0|
    requires var o := FrameAddr(f) - at;
             && g < 8 * o + 31 && n == NextFrame(o, g) < 8 * o + 32 && HeaderAt(m0, FrameAddr(f)).size == Word(o, g)
             && !FrameTaken(m0, at, n) && OnlyGrowth(SetFrame(m0, at, n), m, FrameAddr(n), last)
    ensures HeaderAt(m, FrameAddr(f)).size == Word(FrameAddr(f) - at, n)
    ensures HeaderAt(m, FrameAddr(f)).flag == HeaderAt(m0, FrameAddr(f)).flag
  {
    var o, m1 := FrameAddr(f) - at, SetFrame(m0, at, n);
    BeforeFlag(m0, m, at, f, n, last);
    WordStep(o, g);
    assert Le32(m, at + o) == Le32(m1, at + o) && Le32(m, at + o + 4) == Le32(m0, at + o + 4);
    if n >= 8 * o {
      TakenAdds(m0, at, o, n - 8 * o);
    } else {
      assert Le32(m1, at + o) == Le32(m0, at + o);
    }
  }

  lemma FilledBits(m0: Memory, m: Memory, at: nat, max: nat, f: nat, g: nat, n: nat, last: nat)
    requires at <= FrameAddr(f) <= last && f <= g < n < max && FrameAddr(f) + HEADER <= |m0|
    requires at + (max + 7) / 8 <= |m0| == |m| && OnlyGrowth(SetFrame(m0, at, n), m, FrameAddr(n), last)
    requires var o := FrameAddr(f) - at;
             && n == NextFrame(o, g) && BitsUpTo(m0, at, max, o, g)
             && forall x: nat :: g < x < n ==> Held(o, x)
    ensures BitsUpTo(m, at, max, FrameAddr(f) - at, n)
  {
    var o, m1 := FrameAddr(f) - at, SetFrame(m0, at, n);
    BeforeFlag(m0, m, at, f, n, last);
    forall x: nat | 1 <= x < 8 * o + 32 && x < max
      ensures FrameTaken(m, at, x) <==> x <= n || Held(o, x)
    {
      assert at + x / 8 < FrameAddr(f) + 4 && m[at + x / 8] == m1[at + x / 8];
      SetFrameBits(m0, at, n, x);
    }
  }

  lemma FilledOthers(m0: Memory, m: Memory, h: KernelHeap, f: nat, fs: seq<nat>, g: nat, n: nat, size: nat)
    requires Meets(h, f) && Listed(h, f, fs, g) && f <= g < n < 8 * Offset(h, f) + 32 && FRAME - HEADER < size
    requires |m0| == |m| == |h.mem| && FrameAddr(n) != h.lo && FrameAddr(n) + HEADER <= |m|
    requires var bs := ListOf(h.lo, h.hi, fs);
             |bs| == |fs| + 1 && OthersSmall(m0, bs, f, size)
             && h.bitmapAt + n / 8 < |m0| && OnlyGrowth(SetFrame(m0, h.bitmapAt, n), m, FrameAddr(n), bs[|bs| - 1].addr)
    requires HeaderAt(m, FrameAddr(n)).size == FRAME - HEADER
    ensures OthersSmall(m, ListOf(h.lo, h.hi, fs) + [FrameBlock(n)], f, size)
  {
    var bs := ListOf(h.lo, h.hi, fs);
    ListedPlaces(h, f, fs, g);
    FillReady(h, f, fs, g, n);
    FrameAligned(n);
    assert h.bitmapAt + n / 8 < FrameAddr(f) + 4;
    forall i | 0 <= i < |bs| && i != f
      ensures HeaderAt(m, bs[i].addr).size < size
    {
      SizeKept(m0, m, h.bitmapAt, n, FrameAddr(n), bs[|bs| - 1].addr, bs[i].addr);
    }
  }

  lemma ListedNext(h: KernelHeap, f: nat, fs: seq<nat>, g: nat, n: nat)
    requires Listed(h, f, fs, g) && f <= g < n && FrameAddr(n) != h.lo
    ensures Listed(h, f, fs + [n], n)
  {
  }

  /** One retry behind the bitmap while nothing fits: the next frame in turn is taken, if there is one,
      and its bit may be one of the size word. */
  method Fill(h: KernelHeap, size: nat, ghost f: nat, ghost fs: seq<nat>, ghost g: nat, ghost n: nat)
      returns (frame: nat)
    requires Filling(h, f, fs, g, size) && Word(Offset(h, f), g) < size < WORD && size > FRAME - HEADER
    requires n == NextFrame(Offset(h, f), g)
    modifies h`mem
    ensures |h.mem| == |old(h.mem)| && frame == if n < h.maxFrames then FrameAddr(n) else 0
    ensures frame == 0 ==> h.mem == old(h.mem) && h.Clear() == []
    ensures frame == h.lo ==> Stuck(h, size)
    ensures frame != 0 && frame != h.lo ==> Filling(h, f, fs + [n], n, size)
  {
    ghost var bs, m0 := ListOf(h.lo, h.hi, fs), h.mem;
    FillBefore(h, f, fs, g, size);
    ghost var e: nat;
    frame, e := SearchAndGrow(h, bs, size, n);
    if frame != 0 {
      FillAfter(m0, h, f, fs, g, n, e, size);
    }
  }

  lemma FillAfter(m0: Memory, h: KernelHeap, f: nat, fs: seq<nat>, g: nat, n: nat, e: nat, size: nat)
    requires FillingAt(m0, h, f, fs, g, size) && Word(Offset(h, f), g) < size < WORD && FRAME - HEADER < size
    requires n == NextFrame(Offset(h, f), g) < h.maxFrames
    requires TookFrame(m0, h, ListOf(h.lo, h.hi, fs), n, e)
    ensures FrameAddr(n) == h.lo ==> Stuck(h, size)
    ensures FrameAddr(n) != h.lo ==> Filling(h, f, fs + [n], n, size)
  {
    var bs := ListOf(h.lo, h.hi, fs);
    if FrameAddr(n) == h.lo {
      ListedPlaces(h, f, fs, g);
      HitsFirst(m0, h.mem, bs, FrameBlock(n), e);
      StuckAtFirst(h, size);
    } else {
      Filled(m0, h, f, fs, g, n, e, size);
    }
  }

  /** What the search and the growing step ask for. */
  lemma FillBefore(h: KernelHeap, f: nat, fs: seq<nat>, g: nat, size: nat)
    requires Filling(h, f, fs, g, size) && Word(Offset(h, f), g) < size < WORD
    ensures var bs, n := ListOf(h.lo, h.hi, fs), NextFrame(Offset(h, f), g);
            && bs[..|bs|] == bs && NoneFits(h.mem, bs, size) && bs[0].addr == h.lo
            && !Torn(bs, FrameAddr(n)) && LinksOff(bs, h.bitmapAt + n / 8, 1)
            && (n < h.maxFrames ==> FrameAddr(n) + HEADER <= |h.mem|)
            && if n < h.maxFrames then h.Clear() != [] && h.Clear()[0] == n else h.Clear() == []
  {
    var n := NextFrame(Offset(h, f), g);
    NextInWord(Offset(h, f), g, size);
    NextIsClear(h, f, fs, g, size);
    ListedPlaces(h, f, fs, g);
    FillReady(h, f, fs, g, n);
    FillNone(h, f, fs, g, size);
  }

  lemma FillNone(h: KernelHeap, f: nat, fs: seq<nat>, g: nat, size: nat)
    requires Filling(h, f, fs, g, size) && Word(Offset(h, f), g) < size
    ensures var bs := ListOf(h.lo, h.hi, fs); bs[..|bs|] == bs && NoneFits(h.mem, bs, size)
  {
    ListedPlaces(h, f, fs, g);
  }

  /** After a step whose frame `n` hit nothing. */
  lemma Filled(m0: Memory, h: KernelHeap, f: nat, fs: seq<nat>, g: nat, n: nat, e: nat, size: nat)
    requires FillingAt(m0, h, f, fs, g, size) && Word(Offset(h, f), g) < size < WORD && FRAME - HEADER < size
    requires n == NextFrame(Offset(h, f), g) < h.maxFrames && FrameAddr(n) != h.lo
    requires TookFrame(m0, h, ListOf(h.lo, h.hi, fs), n, e)
    ensures Filling(h, f, fs + [n], n, size)
  {
    var o, bs := Offset(h, f), ListOf(h.lo, h.hi, fs);
    NextInWord(o, g, size);
    ListedPlaces(h, f, fs, g);
    FillReady(h, f, fs, g, n);
    assert bs[e].addr != FrameAddr(n) && e == |bs| - 1;
    FilledParts(m0, h, f, fs, g, n, bs[e].addr, size);
    ListAppend(h.lo, h.hi, fs, n);
    ListedNext(h, f, fs, g, n);
  }

  lemma FilledParts(m0: Memory, h: KernelHeap, f: nat, fs: seq<nat>, g: nat, n: nat, last: nat, size: nat)
    requires FillingAt(m0, h, f, fs, g, size) && Word(Offset(h, f), g) < size < WORD && FRAME - HEADER < size
    requires n == NextFrame(Offset(h, f), g) < h.maxFrames && FrameAddr(n) != h.lo
    requires var bs := ListOf(h.lo, h.hi, fs); |bs| == |fs| + 1 && last == bs[|bs| - 1].addr >= FrameAddr(f)
    requires OnlyGrowth(SetFrame(m0, h.bitmapAt, n), h.mem, FrameAddr(n), last)
    requires FrameAddr(n) + HEADER <= |h.mem| && HeaderAt(h.mem, FrameAddr(n)).size == FRAME - HEADER
    ensures HeaderAt(h.mem, FrameAddr(f)).size == Word(Offset(h, f), n) && HeaderAt(h.mem, FrameAddr(f)).flag == 1
    ensures BitsUpTo(h.mem, h.bitmapAt, h.maxFrames, Offset(h, f), n) && n < 8 * Offset(h, f) + 32
    ensures OthersSmall(h.mem, ListOf(h.lo, h.hi, fs) + [FrameBlock(n)], f, size)
  {
    NextInWord(Offset(h, f), g, size);
    assert !FrameTaken(m0, h.bitmapAt, n);
    FilledHeader(m0, h.mem, h.bitmapAt, f, g, n, last);
    FilledBits(m0, h.mem, h.bitmapAt, h.maxFrames, f, g, n, last);
    FilledOthers(m0, h.mem, h, f, fs, g, n, size);
  }

  // ---------------------------------------------------------------- when it claims to fit

  /** The first bit from `k` on with which the block claims at least `size` bytes. */
  function FitBit(size: nat, k: nat): (r: nat)
    requires k <= 31
    ensures k <= r <= 31 && (r < 31 ==> Claim(r) >= size) && forall j :: k <= j < r ==> Claim(j) < size
    decreases 31 - k
  {
    if k == 31 || Claim(k) >= size then k else FitBit(size, k + 1)
  }

  /** The frame whose taking makes the block claim `size` bytes. */
  function LastFrame(o: nat, size: nat): nat {
    8 * o + FitBit(size, 0)
  }

  lemma {:induction false} ClaimMonotone(j: nat, k: nat)
    requires j <= k <= 31
    ensures Claim(j) <= Claim(k)
    decreases k - j
  {
    if j < k {
      ClaimMonotone(j, k - 1);
      ClaimStep(k - 1);
      if FreeBit(k) > k {
        assert Claim(k) == Claim(k - 1);
      }
    }
  }

  /** While the block does not fit, the frame that will make it fit is not before the next one. */
  lemma LastNotBefore(o: nat, g: nat, size: nat)
    requires g < 8 * o + 31 && NextFrame(o, g) < 8 * o + 32 && Word(o, g) < size
    ensures NextFrame(o, g) <= LastFrame(o, size)
  {
    var r := FitBit(size, 0);
    if g >= 8 * o {
      ClaimStep(g - 8 * o);
      if r < 31 && r <= g - 8 * o {
        ClaimMonotone(r, g - 8 * o);
      }
    }
  }

  lemma LastIsNext(o: nat, g: nat, size: nat)
    requires g < 8 * o + 31 && NextFrame(o, g) < 8 * o + 32 && Word(o, g) < size <= Word(o, NextFrame(o, g))
    ensures LastFrame(o, size) == NextFrame(o, g)
  {
    LastNotBefore(o, g, size);
    WordStep(o, g);
  }

  // ---------------------------------------------------------------- the call

  /** How a request ends: never, with the null pointer, or with a pointer. */
  datatype Outcome = Endless | Null | Pointer(ptr: nat)

  /** A frame that is taken before the block claims `size` bytes starts where the heap does. */
  ghost predicate HitsHeap(h: KernelHeap, f: nat, size: nat)
    requires h.bitmapAt <= FrameAddr(f)
  {
    exists x: nat ::
      1 <= x < h.maxFrames && FrameAddr(x) == h.lo && x <= LastFrame(Offset(h, f), size) && !Held(Offset(h, f), x)
  }

  /** No frame taken so far starts there. */
  ghost predicate NoHit(h: KernelHeap, o: nat, g: nat) {
    forall x: nat :: 1 <= x <= g && !Held(o, x) ==> FrameAddr(x) != h.lo
  }

  lemma MetIsFilling(h: KernelHeap, f: nat, size: nat)
    requires Met(h, f, size) && f < 8 * Offset(h, f)
    ensures Filling(h, f, FramesFrom(1, f + 1), f, size) && NoHit(h, Offset(h, f), f)
  {
    MeetsWhere(h, f);
    BootListAt(h, f);
    MetBits(h, f, size);
    var fs := FramesFrom(1, f + 1);
    assert forall j :: 0 <= j < |fs| ==> fs[j] == j + 1 && FrameAddr(fs[j]) <= FrameAddr(f);
  }

  lemma MetBits(h: KernelHeap, f: nat, size: nat)
    requires Met(h, f, size) && f < 8 * Offset(h, f)
    ensures BitsUpTo(h.mem, h.bitmapAt, h.maxFrames, Offset(h, f), f)
  {
    var o := Offset(h, f);
    forall x: nat | 1 <= x < 8 * o + 32 && x < h.maxFrames
      ensures FrameTaken(h.mem, h.bitmapAt, x) <==> x <= f || Held(o, x)
    {
      if x >= 8 * o {
        PresetBits(h.mem, h.bitmapAt, o, x - 8 * o);
      }
    }
  }

  /** What a finished call leaves: a list walked to its end, every block before `k` too small, and at
      `k`, unless that is the end, a block that is free and claims to fit. */
  ghost predicate Found(m: Memory, bs: seq<Block>, k: nat, size: nat) {
    && Strung(m, bs) && k <= |bs| && NoneFits(m, bs[..k], size)
    && (k < |bs| ==> HeaderAt(m, bs[k].addr).flag != 0 && HeaderAt(m, bs[k].addr).size >= size)
  }

  lemma FillFound(h: KernelHeap, f: nat, fs: seq<nat>, g: nat, size: nat)
    requires Filling(h, f, fs, g, size)
    ensures var bs := ListOf(h.lo, h.hi, fs);
            && |bs| == |fs| + 1 && bs[0].addr == h.lo && bs[f].addr == FrameAddr(f)
            && Found(h.mem, bs, if Word(Offset(h, f), g) >= size then f else |bs|, size)
  {
    ListedPlaces(h, f, fs, g);
  }

  lemma NullOutcome(h: KernelHeap, f: nat, g: nat, size: nat)
    requires h.bitmapAt <= FrameAddr(f) && NoHit(h, Offset(h, f), g) && h.maxFrames <= NextFrame(Offset(h, f), g)
    requires forall x: nat :: g < x < NextFrame(Offset(h, f), g) ==> Held(Offset(h, f), x)
    ensures !HitsHeap(h, f, size)
  {
  }

  lemma PointerOutcome(h: KernelHeap, f: nat, g: nat, size: nat)
    requires h.bitmapAt <= FrameAddr(f) && NoHit(h, Offset(h, f), g) && g == LastFrame(Offset(h, f), size)
    ensures !HitsHeap(h, f, size)
  {
  }

  lemma NoHitNext(h: KernelHeap, o: nat, g: nat)
    requires NoHit(h, o, g) && FrameAddr(NextFrame(o, g)) != h.lo
    requires forall x: nat :: g < x < NextFrame(o, g) ==> Held(o, x)
    ensures NoHit(h, o, NextFrame(o, g))
  {
  }

  /** What is known when the call has come to its outcome `r`. */
  ghost predicate Ended(h: KernelHeap, size: nat, r: Outcome, bs: seq<Block>, k: nat)
    requires h.bitmapAt + h.BitmapLen() <= |h.mem| && h.maxFrames > 0
    reads h
  {
    match r
    case Endless => Stuck(h, size)
    case Null => Found(h.mem, bs, k, size) && bs[0].addr == h.lo && k == |bs| && h.Clear() == []
    case Pointer(p) => Found(h.mem, bs, k, size) && bs[0].addr == h.lo && k < |bs| && p == bs[k].addr + HEADER
  }

  /** The outcome of the retries behind the bitmap. */
  ghost function FillOutcome(h: KernelHeap, f: nat, size: nat): Outcome
    requires h.bitmapAt <= FrameAddr(f)
  {
    if HitsHeap(h, f, size) then Endless
    else if LastFrame(Offset(h, f), size) < h.maxFrames then Pointer(FrameAddr(f) + HEADER)
    else Null
  }

  /** A retry behind the bitmap and the search after it. */
  method FillOnce(h: KernelHeap, size: nat, ghost f: nat, ghost fs: seq<nat>, ghost g: nat, ghost n: nat)
      returns (done: bool, r: Outcome, ghost bs: seq<Block>, ghost k: nat)
    requires Filling(h, f, fs, g, size) && Word(Offset(h, f), g) < size < WORD && size > FRAME - HEADER
    requires n == NextFrame(Offset(h, f), g) && NoHit(h, Offset(h, f), g)
    modifies h`mem
    ensures |h.mem| == |old(h.mem)| && Meets(h, f)
    ensures done ==> r == FillOutcome(h, f, size) && Ended(h, size, r, bs, k)
    ensures !done ==> Filling(h, f, fs + [n], n, size) && Word(Offset(h, f), n) < size && NoHit(h, Offset(h, f), n)
  {
    ghost var o := Offset(h, f);
    NextInWord(o, g, size);
    LastNotBefore(o, g, size);
    FillFound(h, f, fs, g, size);
    bs, k := ListOf(h.lo, h.hi, fs), |fs| + 1;
    var frame := Fill(h, size, f, fs, g, n);
    if frame == 0 {
      NullOutcome(h, f, g, size);
      return true, Null, bs, k;
    }
    if frame == h.lo {
      assert HitsHeap(h, f, size);
      return true, Endless, bs, k;
    }
    NoHitNext(h, o, g);
    done, r, bs, k := SearchFilled(h, size, f, fs + [n], n);
    if done {
      LastIsNext(o, g, size);
      PointerOutcome(h, f, n, size);
    }
  }

  /** The search when all frames up to `g` are taken. */
  method SearchFilled(h: KernelHeap, size: nat, ghost f: nat, ghost fs: seq<nat>, ghost g: nat)
      returns (done: bool, r: Outcome, ghost bs: seq<Block>, ghost k: nat)
    requires Filling(h, f, fs, g, size)
    ensures done <==> Word(Offset(h, f), g) >= size
    ensures done ==> r == Pointer(FrameAddr(f) + HEADER) && Ended(h, size, r, bs, k)
  {
    FillFound(h, f, fs, g, size);
    bs := ListOf(h.lo, h.hi, fs);
    k := if Word(Offset(h, f), g) >= size then f else |bs|;
    var p := Search(h, bs, size, k);
    done, r := p != 0, Pointer(p);
  }

  /** The retries behind the bitmap, to the end of the call. */
  method FillUp(h: KernelHeap, size: nat, ghost f: nat) returns (r: Outcome, ghost bs: seq<Block>, ghost k: nat)
    requires Met(h, f, size) && f < 8 * Offset(h, f) && FRAME - HEADER < size < WORD
    modifies h`mem
    ensures |h.mem| == |old(h.mem)| && Meets(h, f) && r == FillOutcome(h, f, size) && Ended(h, size, r, bs, k)
  {
    ghost var o, fs, g := Offset(h, f), FramesFrom(1, f + 1), f;
    MetIsFilling(h, f, size);
    while true
      invariant Filling(h, f, fs, g, size) && Word(o, g) < size && NoHit(h, o, g) && |h.mem| == |old(h.mem)|
      decreases 8 * o + 32 - g
    {
      ghost var n := NextFrame(o, g);
      var done;
      done, r, bs, k := FillOnce(h, size, f, fs, g, n);
      if done {
        return;
      }
      fs, g := fs + [n], n;
    }
  }

  /** The retries when no frame header meets the bitmap, to the end of the call. */
  method BesideBitmap(h: KernelHeap, size: nat) returns (r: Outcome, ghost bs: seq<Block>, ghost k: nat)
    requires Retrying(h, 0, size) && FRAME - HEADER < size
    requires forall x: nat :: 1 <= x < h.maxFrames ==> HeaderOff(FrameAddr(x), h.bitmapAt, h.BitmapLen())
    modifies h`mem
    ensures |h.mem| == |old(h.mem)| && Layout(h)
    ensures r == if exists x: nat :: 1 <= x < h.maxFrames && FrameAddr(x) == h.lo then Endless else Null
    ensures Ended(h, size, r, bs, k)
  {
    ghost var g: nat := 0;
    bs, k := [], 0;
    while true
      invariant Retrying(h, g, size) && |h.mem| == |old(h.mem)|
      decreases h.maxFrames - g
    {
      RetryReady(h, g, size);
      var frame := Retry(h, g, size);
      if frame == 0 {
        RetryReady(h, g, size);
        bs, k := BootList(h, g), g + 1;
        assert bs[..k] == bs;
        return Null, bs, k;
      }
      if frame == h.lo {
        assert FrameAddr(g + 1) == h.lo;
        return Endless, bs, k;
      }
      g := g + 1;
    }
  }

  /** The frame that starts at `lo`, if one does. */
  function HeapFrame(lo: nat): nat {
    lo / 4096
  }

  predicate StartsFrame(lo: nat, max: nat) {
    FrameAddr(HeapFrame(lo)) == lo && HeapFrame(lo) < max
  }

  lemma StartsFrameExactly(lo: nat, max: nat)
    requires lo > 0
    ensures StartsFrame(lo, max) <==> exists x: nat :: 1 <= x < max && FrameAddr(x) == lo
    ensures forall x: nat :: FrameAddr(x) == lo ==> x == HeapFrame(lo)
  {
    if StartsFrame(lo, max) {
      assert 1 <= HeapFrame(lo) < max && FrameAddr(HeapFrame(lo)) == lo;
    }
  }

  /** The first frame not below the bitmap. */
  function FirstNotBelow(at: nat): nat {
    (at + 4095) / 4096
  }

  /** How an oversize request on a fresh heap ends, from the kernel's end, the memory and its size. */
  function BootOutcome(kernelEnd: nat, totalMemory: nat, size: nat): Outcome {
    OutcomeOf(AlignUp16(kernelEnd), Frames(totalMemory), HeapStart(kernelEnd, totalMemory), size)
  }

  /** The same from where the bitmap and the heap start and the number of frames. */
  function OutcomeOf(at: nat, max: nat, lo: nat, size: nat): Outcome {
    var f := FirstNotBelow(at);
    if f < max && at <= FrameAddr(f) < at + (max + 7) / 8 then
      var o := FrameAddr(f) - at;
      if 8 * o <= f then Endless
      else if StartsFrame(lo, max) && HeapFrame(lo) <= LastFrame(o, size) && !Held(o, HeapFrame(lo)) then Endless
      else if LastFrame(o, size) < max then Pointer(FrameAddr(f) + HEADER)
      else Null
    else if StartsFrame(lo, max) then Endless
    else Null
  }

  lemma FirstMeets(h: KernelHeap)
    requires Layout(h)
    ensures var f := FirstNotBelow(h.bitmapAt);
            if f < h.maxFrames && h.bitmapAt <= FrameAddr(f) < h.bitmapAt + h.BitmapLen() then Meets(h, f)
            else forall x: nat :: 1 <= x < h.maxFrames ==> HeaderOff(FrameAddr(x), h.bitmapAt, h.BitmapLen())
  {
    var f := FirstNotBelow(h.bitmapAt);
    assert h.bitmapAt <= FrameAddr(f) && f >= 1 && FrameAddr(f - 1) < h.bitmapAt;
    forall x: nat | x < f
      ensures FrameAddr(x) + HEADER <= h.bitmapAt
    {
      FrameBefore(x, f, h.bitmapAt);
    }
  }

  /** An oversize request on a heap just set up: neither the initial block nor any frame can serve it,
      so `k_malloc` appends frames.  The call does what the kernel's end, the memory and the size say.
      It never ends, every step of its search at a block too small; or it ends with null, every frame
      taken and no block that fits; or it ends with the block whose header lies in the bitmap, which
      the frames taken since have made to claim enough. */
  method OversizeAtBoot(memory: Memory, kernelEnd: nat, totalMemory: nat, size: nat)
      returns (h: KernelHeap, r: Outcome, ghost bs: seq<Block>, ghost k: nat)
    requires kernelEnd > 0 && FRAME <= totalMemory <= |memory| < WORD
    requires HeapStart(kernelEnd, totalMemory) + HEADER <= HEAP_END <= |memory|
    requires FRAME - HEADER < size < WORD && size + HEADER > HEAP_END - HeapStart(kernelEnd, totalMemory)
    ensures fresh(h) && h.lo == HeapStart(kernelEnd, totalMemory) && Layout(h)
    ensures r == BootOutcome(kernelEnd, totalMemory, size)
    ensures Ended(h, size, r, bs, k)
  {
    h := new KernelHeap(memory, kernelEnd, totalMemory);
    BootRetrying(h, kernelEnd, totalMemory, size);
    FirstMeets(h);
    var f := FirstNotBelow(h.bitmapAt);
    if f < h.maxFrames && h.bitmapAt <= FrameAddr(f) < h.bitmapAt + h.BitmapLen() {
      r, bs, k := ThroughBitmap(h, size, f);
    } else {
      StartsFrameExactly(h.lo, h.maxFrames);
      r, bs, k := BesideBitmap(h, size);
    }
  }

  lemma HitsHeapExactly(h: KernelHeap, f: nat, size: nat)
    requires h.bitmapAt <= FrameAddr(f) && h.lo > 0
    ensures var o, x := Offset(h, f), HeapFrame(h.lo);
            HitsHeap(h, f, size) <==> StartsFrame(h.lo, h.maxFrames) && x <= LastFrame(o, size) && !Held(o, x)
  {
    StartsFrameExactly(h.lo, h.maxFrames);
  }

  /** The whole call when the header of frame `f` meets the bitmap. */
  method ThroughBitmap(h: KernelHeap, size: nat, f: nat) returns (r: Outcome, ghost bs: seq<Block>, ghost k: nat)
    requires Retrying(h, 0, size) && FRAME - HEADER < size < WORD && Meets(h, f) && f == FirstNotBelow(h.bitmapAt)
    modifies h`mem
    ensures |h.mem| == |old(h.mem)| && Meets(h, f)
    ensures r == OutcomeOf(h.bitmapAt, h.maxFrames, h.lo, size)
    ensures Ended(h, size, r, bs, k)
  {
    HitsHeapExactly(h, f, size);
    bs, k := [], 0;
    ReachBitmap(h, size, f);
    MeetBitmap(h, size, f);
    if 8 * (FrameAddr(f) - h.bitmapAt) <= f {
      HandOutAgain(h, size, f);
      r := Endless;
    } else {
      r, bs, k := FillUp(h, size, f);
    }
  }

  // ---------------------------------------------------------------- four boots

  lemma FitBitIs(size: nat, k: nat)
    requires 0 < k < 31 && Claim(k - 1) < size <= Claim(k)
    ensures FitBit(size, 0) == k
  {
    var r := FitBit(size, 0);
    if r < k {
      ClaimMonotone(r, k - 1);
    }
  }

  /** 512 MB and a kernel that ends on a frame boundary: an oversize request never ends. */
  lemma EndlessBoot(size: nat)
    ensures BootOutcome(0x30_0000, 0x2000_0000, size) == Endless
  {
    assert AlignUp16(0x30_0000) == 0x30_0000 && Frames(0x2000_0000) == 0x2_0000 && FirstNotBelow(0x30_0000) == 0x300;
  }

  /** 512 MB and a kernel that ends at 0x300010: a request of the heap's whole range returns a pointer
      into frame 0x301, once frame 32667 has made the block there claim 0x0FFFFFFF bytes. */
  lemma ClaimingBoot()
    ensures BootOutcome(0x30_0010, 0x2000_0000, 0xF00_0000) == Pointer(0x30_100C)
    ensures LastFrame(0xFF0, 0xF00_0000) == 32667 && Claim(27) == 0xFFF_FFFF
  {
    Claim27();
    FitBitIs(0xF00_0000, 27);
    assert AlignUp16(0x30_0010) == 0x30_0010 && Frames(0x2000_0000) == 0x2_0000 && FirstNotBelow(0x30_0010) == 0x301;
    assert HeapStart(0x30_0010, 0x2000_0000) == 0x30_4010 && FrameAddr(HeapFrame(0x30_4010)) == 0x30_4000;
  }

  lemma Claim27()
    ensures Claim(27) == 0xFFF_FFFF && Claim(26) == 0x7FF_FFFF
  {
    PowWeight(3, 3);
    PowWeight(3, 4);
    assert Division.Pow2(3) == 8 && Division.Pow2(4) == 16;
  }

  /** 64 MB and a kernel that ends at 0x300010: no header meets the bitmap, and null is returned. */
  lemma NullBoot(size: nat)
    ensures BootOutcome(0x30_0010, 0x400_0000, size) == Null
  {
    assert AlignUp16(0x30_0010) == 0x30_0010 && Frames(0x400_0000) == 0x4000 && FirstNotBelow(0x30_0010) == 0x301;
    assert HeapStart(0x30_0010, 0x400_0000) == 0x30_0810 && FrameAddr(HeapFrame(0x30_0810)) == 0x30_0000;
  }

  /** 64 MB and a kernel that ends at 0x2FF800: none does either, but frame 0x300 starts the heap. */
  lemma HeapOnFrameBoot(size: nat)
    ensures BootOutcome(0x2F_F800, 0x400_0000, size) == Endless
  {
    assert AlignUp16(0x2F_F800) == 0x2F_F800 && Frames(0x400_0000) == 0x4000 && FirstNotBelow(0x2F_F800) == 0x300;
    assert HeapStart(0x2F_F800, 0x400_0000) == 0x30_0000 && FrameAddr(HeapFrame(0x30_0000)) == 0x30_0000;
  }
}
