/** The kernel heap as a list of blocks: first fit with splitting, freeing with two-sided
    coalescing, and what holds over every run served from the initial region. */
module HeapSpec {

  /** `sizeof(memory_block)`: a size, a free flag and a next pointer of four bytes each. */
  const HEADER: nat := 12

  const FRAME: nat := 4096

  /** Where frame `f` starts. */
  function FrameAddr(f: nat): nat {
    4096 * f
  }

  /** The number of whole frames in `memory` bytes. */
  function Frames(memory: nat): nat {
    memory / 4096
  }

  datatype Block = Block(addr: nat, size: nat, free: bool)

  function End(b: Block): nat {
    b.addr + HEADER + b.size
  }

  /** The blocks follow one another from `lo` to `hi` without gap or overlap. */
  predicate Tiles(bs: seq<Block>, lo: nat, hi: nat) {
    if bs == [] then lo == hi else bs[0].addr == lo && Tiles(bs[1..], End(bs[0]), hi)
  }

  /** No two neighbours are both free. */
  predicate Coalesced(bs: seq<Block>) {
    forall k :: 0 <= k < |bs| - 1 ==> !BothFree(bs, k)
  }

  predicate BothFree(bs: seq<Block>, k: nat)
    requires k + 1 < |bs|
  {
    bs[k].free && bs[k + 1].free
  }

  ghost function Live(bs: seq<Block>): set<Block> {
    set b | b in bs && !b.free
  }

  // ---------------------------------------------------------------- operations

  /** First free block of at least `size` bytes at or after index `i`, or the list length. */
  function FirstFit(bs: seq<Block>, size: nat, i: nat): (n: nat)
    requires i <= |bs|
    ensures i <= n <= |bs|
    ensures n < |bs| ==> bs[n].free && bs[n].size >= size
    ensures forall k :: i <= k < n ==> !(bs[k].free && bs[k].size >= size)
    decreases |bs| - i
  {
    if i == |bs| || (bs[i].free && bs[i].size >= size) then i else FirstFit(bs, size, i + 1)
  }

  /** What one block becomes when `size` bytes of it are handed out. */
  function Cut(b: Block, size: nat): seq<Block>
    requires size <= b.size
  {
    if b.size > size + HEADER then
      [Block(b.addr, size, false), Block(b.addr + HEADER + size, b.size - size - HEADER, true)]
    else [b.(free := false)]
  }

  function Take(bs: seq<Block>, i: nat, size: nat): seq<Block>
    requires i < |bs| && size <= bs[i].size
  {
    bs[..i] + Cut(bs[i], size) + bs[i + 1..]
  }

  /** Two blocks made one, as the code does it: adding up sizes, whatever the addresses. */
  function Joined(a: Block, b: Block): Block {
    Block(a.addr, a.size + b.size + HEADER, true)
  }

  /** Free block `i`, absorbing a free block after it. */
  function JoinRight(bs: seq<Block>, i: nat): (r: seq<Block>)
    requires i < |bs|
    ensures i < |r| && r[i].free && r[..i] == bs[..i]
  {
    if i + 1 < |bs| && bs[i + 1].free
    then bs[..i] + [Joined(bs[i], bs[i + 1])] + bs[i + 2..]
    else bs[i := bs[i].(free := true)]
  }

  /** Let a free block before `i` absorb block `i`. */
  function JoinLeft(bs: seq<Block>, i: nat): seq<Block>
    requires i < |bs|
  {
    if i > 0 && bs[i - 1].free then bs[..i - 1] + [Joined(bs[i - 1], bs[i])] + bs[i + 1..] else bs
  }

  function Release(bs: seq<Block>, i: nat): seq<Block>
    requires i < |bs|
  {
    JoinLeft(JoinRight(bs, i), i)
  }

  // ---------------------------------------------------------------- tiling

  lemma {:induction false} TilesConcat(a: seq<Block>, b: seq<Block>, lo: nat, mid: nat, hi: nat)
    requires Tiles(a, lo, mid) && Tiles(b, mid, hi)
    ensures Tiles(a + b, lo, hi)
  {
    if a == [] {
      assert a + b == b;
    } else {
      TilesConcat(a[1..], b, End(a[0]), mid, hi);
      assert (a + b)[1..] == a[1..] + b;
    }
  }

  lemma {:induction false} TilesSplit(bs: seq<Block>, i: nat, lo: nat, hi: nat) returns (mid: nat)
    requires Tiles(bs, lo, hi) && i <= |bs|
    ensures Tiles(bs[..i], lo, mid) && Tiles(bs[i..], mid, hi) && lo <= mid <= hi
    ensures i < |bs| ==> bs[i].addr == mid
    ensures i > 0 ==> End(bs[i - 1]) == mid
    decreases i
  {
    if i == 0 {
      mid := lo;
      assert bs[..0] == [] && bs[0..] == bs;
    } else {
      var before := TilesSplit(bs, i - 1, lo, hi);
      var b := bs[i - 1];
      mid := End(b);
      assert bs[i - 1..][1..] == bs[i..] && bs[..i] == bs[..i - 1] + [b];
      TilesOne(b);
      TilesConcat(bs[..i - 1], [b], lo, before, mid);
    }
    TilesOrdered(bs[..i], lo, mid);
    TilesOrdered(bs[i..], mid, hi);
  }

  lemma {:induction false} TilesOrdered(bs: seq<Block>, lo: nat, hi: nat)
    requires Tiles(bs, lo, hi)
    ensures lo <= hi
  {
    if bs != [] {
      TilesOrdered(bs[1..], End(bs[0]), hi);
    }
  }

  /** Blocks of a tiling lie one after the other, so no two share a byte. */
  lemma BlocksApart(bs: seq<Block>, lo: nat, hi: nat, i: nat, j: nat)
    requires Tiles(bs, lo, hi) && i < j < |bs|
    ensures lo <= bs[i].addr && End(bs[i]) <= bs[j].addr && End(bs[j]) <= hi
  {
    var mid := TilesSplit(bs, i + 1, lo, hi);
    var _ := TilesSplit(bs, i, lo, hi);
    var _ := TilesSplit(bs[i + 1..], j - i - 1, mid, hi);
    var _ := TilesSplit(bs, j + 1, lo, hi);
  }

  /** Putting other blocks over the same stretch keeps the tiling. */
  lemma TilesReplace(bs: seq<Block>, i: nat, j: nat, piece: seq<Block>, lo: nat, hi: nat)
    requires Tiles(bs, lo, hi) && i < j <= |bs|
    requires Tiles(piece, bs[i].addr, End(bs[j - 1]))
    ensures Tiles(bs[..i] + piece + bs[j..], lo, hi)
  {
    var a := TilesSplit(bs, i, lo, hi);
    var b := TilesSplit(bs, j, lo, hi);
    TilesConcat(bs[..i], piece, lo, a, b);
    TilesConcat(bs[..i] + piece, bs[j..], lo, b, hi);
  }

  lemma TilesPair(a: Block, b: Block)
    requires b.addr == End(a)
    ensures Tiles([a, b], a.addr, End(b))
  {
    assert [a, b][1..] == [b] && [b][1..] == [];
  }

  lemma TilesOne(a: Block)
    ensures Tiles([a], a.addr, End(a))
  {
  }

  lemma TakeTiles(bs: seq<Block>, i: nat, size: nat, lo: nat, hi: nat)
    requires Tiles(bs, lo, hi) && i < |bs| && size <= bs[i].size
    ensures Tiles(Take(bs, i, size), lo, hi)
  {
    var cut := Cut(bs[i], size);
    if |cut| == 2 {
      TilesPair(cut[0], cut[1]);
    } else {
      TilesOne(cut[0]);
    }
    TilesReplace(bs, i, i + 1, cut, lo, hi);
  }

  lemma JoinRightTiles(bs: seq<Block>, i: nat, lo: nat, hi: nat)
    requires Tiles(bs, lo, hi) && i < |bs|
    ensures Tiles(JoinRight(bs, i), lo, hi)
  {
    if i + 1 < |bs| && bs[i + 1].free {
      var _ := TilesSplit(bs, i + 1, lo, hi);
      TilesOne(Joined(bs[i], bs[i + 1]));
      TilesReplace(bs, i, i + 2, [Joined(bs[i], bs[i + 1])], lo, hi);
    } else {
      TilesOne(bs[i].(free := true));
      TilesReplace(bs, i, i + 1, [bs[i].(free := true)], lo, hi);
      assert JoinRight(bs, i) == bs[..i] + [bs[i].(free := true)] + bs[i + 1..];
    }
  }

  lemma JoinLeftTiles(bs: seq<Block>, i: nat, lo: nat, hi: nat)
    requires Tiles(bs, lo, hi) && i < |bs|
    ensures Tiles(JoinLeft(bs, i), lo, hi)
  {
    if i > 0 && bs[i - 1].free {
      var _ := TilesSplit(bs, i, lo, hi);
      TilesOne(Joined(bs[i - 1], bs[i]));
      TilesReplace(bs, i - 1, i + 1, [Joined(bs[i - 1], bs[i])], lo, hi);
    }
  }

  // ---------------------------------------------------------------- maximal coalescing

  lemma TakeCoalesced(bs: seq<Block>, i: nat, size: nat)
    requires Coalesced(bs) && i < |bs| && bs[i].free && size <= bs[i].size
    ensures Coalesced(Take(bs, i, size))
  {
    var r, n := Take(bs, i, size), |Cut(bs[i], size)|;
    forall k | 0 <= k < |r| - 1
      ensures !BothFree(r, k)
    {
      if k < i - 1 {
        assert !BothFree(bs, k);
      } else if k >= i + n - 1 {
        assert !BothFree(bs, k - n + 1);
      }
    }
  }

  lemma ReleaseCoalesced(bs: seq<Block>, i: nat)
    requires Coalesced(bs) && i < |bs|
    ensures Coalesced(Release(bs, i))
  {
    var m := JoinRight(bs, i);
    forall k | 0 <= k < |m| - 1 && k != i - 1
      ensures !BothFree(m, k)
    {
      var shift := |bs| - |m|;
      if k < i - 1 {
        assert !BothFree(bs, k);
      } else {
        assert !BothFree(bs, k + shift);
      }
    }
    var r := Release(bs, i);
    if |r| < |m| {
      forall k | 0 <= k < |r| - 1
        ensures !BothFree(r, k)
      {
        if k < i - 1 {
          assert !BothFree(m, k);
        } else {
          assert !BothFree(m, k + 1);
        }
      }
    }
  }

  // ---------------------------------------------------------------- live blocks

  lemma TakeLive(bs: seq<Block>, i: nat, size: nat)
    requires i < |bs| && bs[i].free && size <= bs[i].size
    ensures Live(Take(bs, i, size)) == Live(bs) + {Cut(bs[i], size)[0]}
  {
    var r, cut := Take(bs, i, size), Cut(bs[i], size);
    assert bs == bs[..i] + [bs[i]] + bs[i + 1..];
    forall b | b in Live(bs) + {cut[0]}
      ensures b in r
    {
    }
  }

  lemma LiveConcat(a: seq<Block>, b: seq<Block>)
    ensures Live(a + b) == Live(a) + Live(b)
  {
  }

  /** Live blocks of a list cut at `i`. */
  lemma LiveAround(bs: seq<Block>, i: nat, j: nat)
    requires i <= j <= |bs|
    ensures Live(bs) == Live(bs[..i]) + Live(bs[i..j]) + Live(bs[j..])
  {
    assert bs == bs[..i] + bs[i..j] + bs[j..];
    LiveConcat(bs[..i] + bs[i..j], bs[j..]);
    LiveConcat(bs[..i], bs[i..j]);
  }

  lemma JoinRightLive(bs: seq<Block>, i: nat)
    requires i < |bs|
    ensures Live(JoinRight(bs, i)) == Live(bs[..i]) + Live(bs[i + 1..])
  {
    var m := JoinRight(bs, i);
    LiveAround(m, i, i + 1);
    assert m[i..i + 1] == [m[i]];
    if |m| < |bs| {
      assert m[i + 1..] == bs[i + 2..];
      LiveAround(bs[i + 1..], 0, 1);
      assert bs[i + 1..][1..] == bs[i + 2..] && bs[i + 1..][0..1] == [bs[i + 1]];
    } else {
      assert m[i + 1..] == bs[i + 1..];
    }
  }

  lemma JoinLeftLive(bs: seq<Block>, i: nat)
    requires i < |bs| && bs[i].free
    ensures Live(JoinLeft(bs, i)) == Live(bs)
  {
    var r := JoinLeft(bs, i);
    if |r| < |bs| {
      LiveAround(bs, i - 1, i + 1);
      LiveAround(r, i - 1, i);
      assert r[..i - 1] == bs[..i - 1] && r[i..] == bs[i + 1..];
      assert r[i - 1..i] == [r[i - 1]] && bs[i - 1..i + 1] == [bs[i - 1], bs[i]];
    }
  }

  lemma ReleaseLive(bs: seq<Block>, i: nat, lo: nat, hi: nat)
    requires Tiles(bs, lo, hi) && i < |bs| && !bs[i].free
    ensures Live(Release(bs, i)) == Live(bs) - {bs[i]}
  {
    JoinRightLive(bs, i);
    JoinLeftLive(JoinRight(bs, i), i);
    LiveAround(bs, i, i + 1);
    assert bs[i..i + 1] == [bs[i]];
    MemberOnce(bs, i, lo, hi);
  }

  lemma MemberOnce(bs: seq<Block>, i: nat, lo: nat, hi: nat)
    requires Tiles(bs, lo, hi) && i < |bs|
    ensures forall b :: b in bs[..i] || b in bs[i + 1..] ==> b.addr != bs[i].addr
  {
    forall j | 0 <= j < |bs| && j != i
      ensures bs[j].addr != bs[i].addr
    {
      BlocksApart(bs, lo, hi, if i < j then i else j, if i < j then j else i);
    }
  }

  /** Where a member of a tiling can lie. */
  lemma MemberPlace(bs: seq<Block>, lo: nat, hi: nat, x: Block)
    requires Tiles(bs, lo, hi) && x in bs
    ensures x == bs[0] || (|bs| > 1 && x.addr >= bs[1].addr && bs[1].addr == End(bs[0]))
  {
    var j :| 0 <= j < |bs| && bs[j] == x;
    if j > 0 {
      var _ := TilesSplit(bs, 1, lo, hi);
      if j > 1 {
        BlocksApart(bs, lo, hi, 1, j);
      }
    }
  }

  lemma TailOf(bs: seq<Block>, lo: nat, hi: nat)
    requires Tiles(bs, lo, hi) && bs != [] && Coalesced(bs)
    ensures Coalesced(bs[1..]) && Live(bs[1..]) == Live(bs) - {bs[0]}
  {
    forall k | 0 <= k < |bs[1..]| - 1
      ensures !BothFree(bs[1..], k)
    {
      assert !BothFree(bs, k + 1);
    }
    forall b | b in bs[1..]
      ensures b != bs[0]
    {
      var j :| 0 <= j < |bs[1..]| && bs[1..][j] == b;
      BlocksApart(bs, lo, hi, 0, j + 1);
    }
    assert bs == [bs[0]] + bs[1..];
  }

  /** Two coalesced tilings with the same live blocks start alike. */
  lemma SameHead(a: seq<Block>, b: seq<Block>, lo: nat, hi: nat)
    requires Tiles(a, lo, hi) && Tiles(b, lo, hi) && Coalesced(a) && Coalesced(b)
    requires Live(a) == Live(b) && a != [] && b != []
    ensures a[0] == b[0]
  {
    if !a[0].free {
      assert a[0] in Live(b);
      MemberPlace(b, lo, hi, a[0]);
    } else if !b[0].free {
      assert b[0] in Live(a);
      MemberPlace(a, lo, hi, b[0]);
    } else {
      NextLive(a, b, lo, hi);
      NextLive(b, a, lo, hi);
    }
  }

  /** If both start with a free block, the second one's is no longer than the first one's. */
  lemma NextLive(a: seq<Block>, b: seq<Block>, lo: nat, hi: nat)
    requires Tiles(a, lo, hi) && Tiles(b, lo, hi) && Coalesced(a) && Live(a) == Live(b)
    requires a != [] && b != [] && a[0].free && b[0].free
    ensures End(b[0]) <= End(a[0])
  {
    if |a| > 1 {
      assert !BothFree(a, 0);
      assert a[1] in Live(b);
      MemberPlace(b, lo, hi, a[1]);
      var _ := TilesSplit(a, 1, lo, hi);
    } else {
      TilesOrdered(b[1..], End(b[0]), hi);
      assert Tiles([], End(a[0]), hi);
    }
  }

  /** A coalesced tiling is determined by its live blocks. */
  lemma {:induction false} TilingUnique(a: seq<Block>, b: seq<Block>, lo: nat, hi: nat)
    requires Tiles(a, lo, hi) && Tiles(b, lo, hi) && Coalesced(a) && Coalesced(b)
    requires Live(a) == Live(b)
    ensures a == b
    decreases |a|
  {
    if a != [] && b != [] {
      SameHead(a, b, lo, hi);
      TailOf(a, lo, hi);
      TailOf(b, lo, hi);
      TilingUnique(a[1..], b[1..], End(a[0]), hi);
      assert a == [a[0]] + a[1..] && b == [b[0]] + b[1..];
    } else if a != [] {
      TilesOrdered(a[1..], End(a[0]), hi);
    } else if b != [] {
      TilesOrdered(b[1..], End(b[0]), hi);
    }
  }

  // ---------------------------------------------------------------- runs

  datatype Op =
    | Malloc(size: nat)
    | Free(ptr: nat)
    | Realloc(ptr: nat, size: nat)

  /** The heap after an operation and the pointer it returns; `Elsewhere` when a frame would
      have to be added or the pointer is not one of the heap's. */
  datatype Outcome = Served(blocks: seq<Block>, ptr: nat) | Elsewhere

  /** Index of the block whose payload starts at `ptr`, or the list length. */
  function IndexOf(bs: seq<Block>, ptr: nat, i: nat): (n: nat)
    requires i <= |bs|
    ensures i <= n <= |bs|
    ensures n < |bs| ==> bs[n].addr + HEADER == ptr
    ensures forall k :: i <= k < n ==> bs[k].addr + HEADER != ptr
    decreases |bs| - i
  {
    if i == |bs| || bs[i].addr + HEADER == ptr then i else IndexOf(bs, ptr, i + 1)
  }

  function DoMalloc(bs: seq<Block>, size: nat): Outcome {
    var i := FirstFit(bs, size, 0);
    if i == |bs| then Elsewhere else Served(Take(bs, i, size), bs[i].addr + HEADER)
  }

  /** Freeing the null pointer or a free block does nothing. */
  function DoFree(bs: seq<Block>, ptr: nat): Outcome {
    var i := IndexOf(bs, ptr, 0);
    if ptr == 0 then Served(bs, 0)
    else if i == |bs| then Elsewhere
    else if bs[i].free then Served(bs, 0)
    else Served(Release(bs, i), 0)
  }

  function DoRealloc(bs: seq<Block>, ptr: nat, size: nat): Outcome {
    var i := IndexOf(bs, ptr, 0);
    if ptr == 0 then DoMalloc(bs, size)
    else if size == 0 then DoFree(bs, ptr)
    else if i == |bs| then Elsewhere
    else if size <= bs[i].size then Served(bs, ptr)
    else
      var moved := DoMalloc(bs, size);
      if moved.Elsewhere? then Elsewhere
      else
        var freed := DoFree(moved.blocks, ptr);
        if freed.Elsewhere? then Elsewhere else Served(freed.blocks, moved.ptr)
  }

  function Do(bs: seq<Block>, op: Op): Outcome {
    match op
    case Malloc(size) => DoMalloc(bs, size)
    case Free(ptr) => DoFree(bs, ptr)
    case Realloc(ptr, size) => DoRealloc(bs, ptr, size)
  }

  function Run(bs: seq<Block>, ops: seq<Op>): Outcome {
    if ops == [] then Served(bs, 0)
    else
      var before := Run(bs, ops[..|ops| - 1]);
      if before.Elsewhere? then Elsewhere else Do(before.blocks, ops[|ops| - 1])
  }

  predicate Sound(bs: seq<Block>, lo: nat, hi: nat) {
    Tiles(bs, lo, hi) && Coalesced(bs)
  }

  lemma MallocKeepsSound(bs: seq<Block>, size: nat, lo: nat, hi: nat)
    requires Sound(bs, lo, hi) && DoMalloc(bs, size).Served?
    ensures Sound(DoMalloc(bs, size).blocks, lo, hi)
  {
    var i := FirstFit(bs, size, 0);
    TakeTiles(bs, i, size, lo, hi);
    TakeCoalesced(bs, i, size);
  }

  lemma FreeKeepsSound(bs: seq<Block>, ptr: nat, lo: nat, hi: nat)
    requires Sound(bs, lo, hi) && DoFree(bs, ptr).Served?
    ensures Sound(DoFree(bs, ptr).blocks, lo, hi)
  {
    var i := IndexOf(bs, ptr, 0);
    if ptr != 0 && !bs[i].free {
      JoinRightTiles(bs, i, lo, hi);
      JoinLeftTiles(JoinRight(bs, i), i, lo, hi);
      ReleaseCoalesced(bs, i);
    }
  }

  lemma OpKeepsSound(bs: seq<Block>, op: Op, lo: nat, hi: nat)
    requires Sound(bs, lo, hi) && Do(bs, op).Served?
    ensures Sound(Do(bs, op).blocks, lo, hi)
  {
    match op
    case Malloc(size) => MallocKeepsSound(bs, size, lo, hi);
    case Free(ptr) => FreeKeepsSound(bs, ptr, lo, hi);
    case Realloc(ptr, size) =>
      if ptr == 0 {
        MallocKeepsSound(bs, size, lo, hi);
      } else if size == 0 {
        FreeKeepsSound(bs, ptr, lo, hi);
      } else if size > bs[IndexOf(bs, ptr, 0)].size {
        MallocKeepsSound(bs, size, lo, hi);
        FreeKeepsSound(DoMalloc(bs, size).blocks, ptr, lo, hi);
      }
  }

  /** Over every run served from the initial region the blocks tile it exactly and no two
      neighbours are free. */
  lemma {:induction false} RunKeepsSound(bs: seq<Block>, ops: seq<Op>, lo: nat, hi: nat)
    requires Sound(bs, lo, hi) && Run(bs, ops).Served?
    ensures Sound(Run(bs, ops).blocks, lo, hi)
  {
    if ops != [] {
      var init := ops[..|ops| - 1];
      RunKeepsSound(bs, init, lo, hi);
      OpKeepsSound(Run(bs, init).blocks, ops[|ops| - 1], lo, hi);
    }
  }

  /** The operation frees or resizes the block at `ptr`. */
  predicate Names(op: Op, ptr: nat) {
    !op.Malloc? && op.ptr == ptr
  }

  lemma FreeOthersLive(bs: seq<Block>, ptr: nat, b: Block, lo: nat, hi: nat)
    requires Sound(bs, lo, hi) && DoFree(bs, ptr).Served? && b in Live(bs) && ptr != b.addr + HEADER
    ensures b in Live(DoFree(bs, ptr).blocks)
  {
    var i := IndexOf(bs, ptr, 0);
    if ptr != 0 && !bs[i].free {
      ReleaseLive(bs, i, lo, hi);
    }
  }

  lemma MallocOthersLive(bs: seq<Block>, size: nat, b: Block)
    requires DoMalloc(bs, size).Served? && b in Live(bs)
    ensures b in Live(DoMalloc(bs, size).blocks)
  {
    TakeLive(bs, FirstFit(bs, size, 0), size);
  }

  /** A live block stays as it is under every operation that does not name it. */
  lemma OthersStayLive(bs: seq<Block>, op: Op, b: Block, lo: nat, hi: nat)
    requires Sound(bs, lo, hi) && Do(bs, op).Served? && b in Live(bs) && !Names(op, b.addr + HEADER)
    ensures b in Live(Do(bs, op).blocks)
  {
    match op
    case Malloc(size) => MallocOthersLive(bs, size, b);
    case Free(ptr) => FreeOthersLive(bs, ptr, b, lo, hi);
    case Realloc(ptr, size) =>
      if ptr == 0 {
        MallocOthersLive(bs, size, b);
      } else if size == 0 {
        FreeOthersLive(bs, ptr, b, lo, hi);
      } else if size > bs[IndexOf(bs, ptr, 0)].size {
        MallocKeepsSound(bs, size, lo, hi);
        MallocOthersLive(bs, size, b);
        FreeOthersLive(DoMalloc(bs, size).blocks, ptr, b, lo, hi);
      }
  }

  /** Where the block at `ptr` is after a served operation; 0 once it is freed. */
  function MovedBy(bs: seq<Block>, op: Op, ptr: nat): nat
    requires Do(bs, op).Served?
  {
    if !Names(op, ptr) then ptr
    else if op.Free? || op.size == 0 then 0
    else Do(bs, op).ptr
  }

  /** The same after a run. */
  function MovedTo(bs: seq<Block>, ops: seq<Op>, ptr: nat): nat
    requires Run(bs, ops).Served?
  {
    if ops == [] then ptr
    else
      var q := MovedTo(bs, ops[..|ops| - 1], ptr);
      if q == 0 then 0 else MovedBy(Run(bs, ops[..|ops| - 1]).blocks, ops[|ops| - 1], q)
  }

  lemma MovedToStep(bs: seq<Block>, ops: seq<Op>, n: nat, ptr: nat)
    requires n < |ops| && Run(bs, ops[..n]).Served? && Run(bs, ops[..n + 1]).Served?
    ensures Do(Run(bs, ops[..n]).blocks, ops[n]).Served?
    ensures var q := MovedTo(bs, ops[..n], ptr);
            MovedTo(bs, ops[..n + 1], ptr) == if q == 0 then 0 else MovedBy(Run(bs, ops[..n]).blocks, ops[n], q)
  {
    var all := ops[..n + 1];
    assert all[..|all| - 1] == ops[..n] && all[|all| - 1] == ops[n];
  }

  /** A live block of at least `n` bytes has its payload at `ptr`. */
  ghost predicate LiveAt(bs: seq<Block>, ptr: nat, n: nat) {
    exists b :: b in Live(bs) && b.addr + HEADER == ptr && n <= b.size
  }

  /** Only live blocks are resized. */
  predicate Lawful(bs: seq<Block>, op: Op) {
    op.Realloc? && op.ptr != 0 ==> IndexOf(bs, op.ptr, 0) < |bs| && !bs[IndexOf(bs, op.ptr, 0)].free
  }

  /** A block that is not freed stays live wherever it is moved, and never shrinks. */
  lemma MovedStaysLive(bs: seq<Block>, op: Op, q: nat, n: nat, lo: nat, hi: nat)
    requires Sound(bs, lo, hi) && Do(bs, op).Served? && LiveAt(bs, q, n) && q != 0 && MovedBy(bs, op, q) != 0
    ensures LiveAt(Do(bs, op).blocks, MovedBy(bs, op, q), n)
  {
    var b :| b in Live(bs) && b.addr + HEADER == q && n <= b.size;
    if Names(op, q) {
      NamedAndKept(bs, op, q);
      ResizedIsLive(bs, b, q, op.size, n, lo, hi);
    } else {
      UnnamedIsLive(bs, op, b, n, lo, hi);
    }
  }

  lemma LiveIndex(bs: seq<Block>, q: nat, n: nat, lo: nat, hi: nat) returns (k: nat)
    requires Tiles(bs, lo, hi) && LiveAt(bs, q, n)
    ensures k < |bs| && !bs[k].free && bs[k].addr + HEADER == q && n <= bs[k].size && IndexOf(bs, q, 0) == k
  {
    var b :| b in Live(bs) && b.addr + HEADER == q && n <= b.size;
    k :| 0 <= k < |bs| && bs[k] == b;
    IndexIs(bs, k, lo, hi);
  }

  lemma UnnamedIsLive(bs: seq<Block>, op: Op, b: Block, n: nat, lo: nat, hi: nat)
    requires Sound(bs, lo, hi) && Do(bs, op).Served? && b in Live(bs) && n <= b.size && !Names(op, b.addr + HEADER)
    ensures LiveAt(Do(bs, op).blocks, b.addr + HEADER, n)
  {
    OthersStayLive(bs, op, b, lo, hi);
  }

  lemma NamedAndKept(bs: seq<Block>, op: Op, q: nat)
    requires Do(bs, op).Served? && Names(op, q) && MovedBy(bs, op, q) != 0
    ensures op.Realloc? && op.size > 0 && Do(bs, op) == DoRealloc(bs, q, op.size)
    ensures MovedBy(bs, op, q) == DoRealloc(bs, q, op.size).ptr
  {
  }

  lemma ResizedIsLive(bs: seq<Block>, was: Block, q: nat, size: nat, n: nat, lo: nat, hi: nat)
    requires Sound(bs, lo, hi) && was in Live(bs) && n <= was.size && size > 0 && q == was.addr + HEADER
    requires DoRealloc(bs, q, size).Served?
    ensures LiveAt(DoRealloc(bs, q, size).blocks, DoRealloc(bs, q, size).ptr, n)
  {
    var moved := ReallocLive(bs, was, size, lo, hi);
    if size > was.size {
      LiveAtNew(DoRealloc(bs, q, size).blocks, LiveBut(bs, q), moved, n);
    }
  }

  lemma LiveAtNew(r: seq<Block>, others: set<Block>, b: Block, n: nat)
    requires Live(r) == others + {b} && n <= b.size
    ensures LiveAt(r, b.addr + HEADER, n)
  {
    assert b in Live(r);
  }

  lemma OtherAddress(bs: seq<Block>, i: nat, k: nat, lo: nat, hi: nat)
    requires Tiles(bs, lo, hi) && i < |bs| && k < |bs| && i != k
    ensures bs[i].addr != bs[k].addr
  {
    BlocksApart(bs, lo, hi, if i < k then i else k, if i < k then k else i);
  }

  /** Every operation in turn is served from the initial region and lawful. */
  ghost predicate Orderly(bs: seq<Block>, ops: seq<Op>) {
    ops == [] ||
    (var init, last := ops[..|ops| - 1], ops[|ops| - 1];
     Orderly(bs, init) && Run(bs, init).Served? && Lawful(Run(bs, init).blocks, last) && Run(bs, ops).Served?)
  }

  lemma {:induction false} OrderlyPrefix(bs: seq<Block>, ops: seq<Op>, k: nat)
    requires Orderly(bs, ops) && k <= |ops|
    ensures Orderly(bs, ops[..k]) && Run(bs, ops[..k]).Served?
    decreases |ops|
  {
    if k < |ops| {
      OrderlyPrefix(bs, ops[..|ops| - 1], k);
      assert ops[..|ops| - 1][..k] == ops[..k];
    } else {
      assert ops[..k] == ops;
    }
  }

  lemma OrderlyStep(bs: seq<Block>, ops: seq<Op>, k: nat)
    requires Orderly(bs, ops) && k < |ops|
    ensures Run(bs, ops[..k]).Served? && Lawful(Run(bs, ops[..k]).blocks, ops[k])
    ensures Run(bs, ops[..k + 1]) == Do(Run(bs, ops[..k]).blocks, ops[k]) && Run(bs, ops[..k + 1]).Served?
  {
    OrderlyPrefix(bs, ops, k + 1);
    assert ops[..k + 1][..k] == ops[..k];
  }

  // ---------------------------------------------------------------- exactly what becomes live

  /** Some free block has at least `size` bytes. */
  predicate Fits(bs: seq<Block>, size: nat) {
    exists k :: 0 <= k < |bs| && bs[k].free && size <= bs[k].size
  }

  /** A request is served exactly when some free block is large enough.  It takes the first such
      block, all of it unless a header and at least one byte would be left over. */
  lemma MallocLive(bs: seq<Block>, size: nat) returns (i: nat)
    ensures DoMalloc(bs, size).Served? <==> Fits(bs, size)
    ensures DoMalloc(bs, size).Served? ==>
              && i < |bs| && bs[i].free && size <= bs[i].size
              && (forall k :: 0 <= k < i ==> !bs[k].free || bs[k].size < size)
              && DoMalloc(bs, size).ptr == bs[i].addr + 12
              && Live(DoMalloc(bs, size).blocks)
                 == Live(bs) + {Block(bs[i].addr, if bs[i].size > size + 12 then size else bs[i].size, false)}
  {
    i := FirstFit(bs, size, 0);
    if i < |bs| {
      TakeLive(bs, i, size);
    }
  }

  /** The live blocks other than the one at `ptr`. */
  ghost function LiveBut(bs: seq<Block>, ptr: nat): set<Block> {
    set b | b in Live(bs) && b.addr + HEADER != ptr
  }

  /** A block is known by its address. */
  lemma KnownByAddress(bs: seq<Block>, k: nat, lo: nat, hi: nat, b: Block)
    requires Tiles(bs, lo, hi) && k < |bs| && b in bs && b.addr == bs[k].addr
    ensures b == bs[k]
  {
    var j :| 0 <= j < |bs| && bs[j] == b;
    if j != k {
      OtherAddress(bs, j, k, lo, hi);
    }
  }

  /** So those are all live blocks without that one. */
  lemma LiveButBlock(bs: seq<Block>, was: Block, lo: nat, hi: nat)
    requires Tiles(bs, lo, hi) && was in Live(bs)
    ensures LiveBut(bs, was.addr + HEADER) == Live(bs) - {was}
  {
    var k :| 0 <= k < |bs| && bs[k] == was;
    forall b | b in Live(bs) && b.addr == was.addr
      ensures b == was
    {
      KnownByAddress(bs, k, lo, hi, b);
    }
  }

  lemma LiveButFree(bs: seq<Block>, i: nat, lo: nat, hi: nat)
    requires Tiles(bs, lo, hi) && i < |bs| && bs[i].free
    ensures LiveBut(bs, bs[i].addr + HEADER) == Live(bs)
  {
    forall b | b in Live(bs)
      ensures b.addr != bs[i].addr
    {
      if b.addr == bs[i].addr {
        KnownByAddress(bs, i, lo, hi, b);
      }
    }
  }

  lemma ReleaseLiveBut(bs: seq<Block>, i: nat, lo: nat, hi: nat)
    requires Tiles(bs, lo, hi) && i < |bs| && !bs[i].free
    ensures Live(Release(bs, i)) == LiveBut(bs, bs[i].addr + HEADER)
  {
    ReleaseLive(bs, i, lo, hi);
    LiveButBlock(bs, bs[i], lo, hi);
  }

  /** The pointer returned is not that of a live block. */
  lemma MallocIsNew(bs: seq<Block>, size: nat, lo: nat, hi: nat)
    requires Tiles(bs, lo, hi) && DoMalloc(bs, size).Served?
    ensures forall b :: b in Live(bs) ==> b.addr + HEADER != DoMalloc(bs, size).ptr
  {
    var i := FirstFit(bs, size, 0);
    LiveButFree(bs, i, lo, hi);
    assert forall b :: b in LiveBut(bs, bs[i].addr + HEADER) ==> b.addr + HEADER != bs[i].addr + HEADER;
  }

  /** A free is served exactly for the null pointer and the pointers of blocks, and afterwards
      exactly the block there, if it was live, is live no more. */
  lemma FreeLive(bs: seq<Block>, ptr: nat, lo: nat, hi: nat)
    requires Tiles(bs, lo, hi)
    ensures DoFree(bs, ptr).Served? <==> ptr == 0 || exists k :: 0 <= k < |bs| && bs[k].addr + HEADER == ptr
    ensures DoFree(bs, ptr).Served? ==> Live(DoFree(bs, ptr).blocks) == LiveBut(bs, ptr)
  {
    var i := IndexOf(bs, ptr, 0);
    if ptr == 0 {
      assert LiveBut(bs, 0) == Live(bs);
    } else if i < |bs| {
      if bs[i].free {
        LiveButFree(bs, i, lo, hi);
      } else {
        ReleaseLiveBut(bs, i, lo, hi);
      }
    }
  }

  /** Resizing a live block: to nothing it is freed; to no more than it has, nothing happens; to more
      it is served exactly when a request is, the new block then being live for the old. */
  lemma ReallocLive(bs: seq<Block>, was: Block, size: nat, lo: nat, hi: nat) returns (moved: Block)
    requires Sound(bs, lo, hi) && was in Live(bs)
    ensures var ptr := was.addr + HEADER;
            var r := DoRealloc(bs, ptr, size);
            if size == 0 then r.Served? && r.ptr == 0 && Live(r.blocks) == LiveBut(bs, ptr)
            else if size <= was.size then r == Served(bs, ptr)
            else
              && (r.Served? <==> Fits(bs, size))
              && (r.Served? ==>
                    && Live(r.blocks) == LiveBut(bs, ptr) + {moved} && r.ptr == moved.addr + HEADER
                    && !moved.free && size <= moved.size <= size + 12)
  {
    moved := was;
    IndexOfLive(bs, was, lo, hi);
    if size == 0 {
      FreeLive(bs, was.addr + HEADER, lo, hi);
    } else if size > was.size {
      var i := MallocLive(bs, size);
      if DoMalloc(bs, size).Served? {
        moved := MovedLive(bs, was, size, lo, hi);
      }
    }
  }

  lemma IndexOfLive(bs: seq<Block>, b: Block, lo: nat, hi: nat)
    requires Tiles(bs, lo, hi) && b in Live(bs)
    ensures IndexOf(bs, b.addr + HEADER, 0) < |bs| && bs[IndexOf(bs, b.addr + HEADER, 0)] == b
  {
    var k :| 0 <= k < |bs| && bs[k] == b;
    IndexIs(bs, k, lo, hi);
  }

  lemma MovedLive(bs: seq<Block>, was: Block, size: nat, lo: nat, hi: nat) returns (b: Block)
    requires Sound(bs, lo, hi) && was in Live(bs) && DoMalloc(bs, size).Served?
    ensures var freed := DoFree(DoMalloc(bs, size).blocks, was.addr + HEADER);
            freed.Served? && Live(freed.blocks) == LiveBut(bs, was.addr + HEADER) + {b}
    ensures !b.free && b.addr + HEADER == DoMalloc(bs, size).ptr && size <= b.size <= size + 12
  {
    var i := MallocLive(bs, size);
    b := Block(bs[i].addr, if bs[i].size > size + 12 then size else bs[i].size, false);
    MallocKeepsSound(bs, size, lo, hi);
    MallocIsNew(bs, size, lo, hi);
    OldFreed(bs, DoMalloc(bs, size).blocks, was, b, lo, hi);
  }

  lemma OldFreed(bs: seq<Block>, r: seq<Block>, was: Block, b: Block, lo: nat, hi: nat)
    requires Tiles(r, lo, hi) && was in Live(bs) && Live(r) == Live(bs) + {b} && b.addr != was.addr
    ensures DoFree(r, was.addr + HEADER).Served?
    ensures Live(DoFree(r, was.addr + HEADER).blocks) == LiveBut(bs, was.addr + HEADER) + {b}
  {
    assert was in Live(r);
    LiveFreed(r, was, LiveBut(r, was.addr + HEADER), lo, hi);
    ButAfterAdd(bs, r, was.addr + HEADER, b);
  }

  lemma LiveFreed(r: seq<Block>, was: Block, rest: set<Block>, lo: nat, hi: nat)
    requires Tiles(r, lo, hi) && was in Live(r) && rest == LiveBut(r, was.addr + HEADER)
    ensures DoFree(r, was.addr + HEADER).Served? && Live(DoFree(r, was.addr + HEADER).blocks) == rest
  {
    IndexOfLive(r, was, lo, hi);
    FreeLive(r, was.addr + HEADER, lo, hi);
  }

  lemma ButAfterAdd(bs: seq<Block>, r: seq<Block>, ptr: nat, b: Block)
    requires Live(r) == Live(bs) + {b} && b.addr + HEADER != ptr
    ensures LiveBut(r, ptr) == LiveBut(bs, ptr) + {b}
  {
  }

  /** Which operations are served from the list.  Resizing the null pointer is a request. */
  lemma ServedExactly(bs: seq<Block>, op: Op, lo: nat, hi: nat)
    requires Sound(bs, lo, hi) && Lawful(bs, op)
    ensures Do(bs, op).Served? <==>
            match op
            case Malloc(size) => Fits(bs, size)
            case Free(ptr) => ptr == 0 || exists k :: 0 <= k < |bs| && bs[k].addr + HEADER == ptr
            case Realloc(ptr, size) =>
              || Fits(bs, size) || (ptr != 0 && size == 0)
              || (exists k :: 0 <= k < |bs| && bs[k].addr + HEADER == ptr && size <= bs[k].size)
    ensures op.Realloc? && op.ptr == 0 ==> Do(bs, op) == Do(bs, Malloc(op.size))
  {
    match op
    case Malloc(size) => var _ := MallocLive(bs, size);
    case Free(ptr) => FreeLive(bs, ptr, lo, hi);
    case Realloc(ptr, size) =>
      var _ := MallocLive(bs, size);
      if ptr != 0 {
        ReallocServed(bs, bs[IndexOf(bs, ptr, 0)], size, lo, hi);
      }
  }

  lemma ReallocServed(bs: seq<Block>, was: Block, size: nat, lo: nat, hi: nat)
    requires Sound(bs, lo, hi) && was in Live(bs)
    ensures DoRealloc(bs, was.addr + HEADER, size).Served? <==> Fits(bs, size) || size == 0 || size <= was.size
    ensures forall j :: 0 <= j < |bs| && bs[j].addr == was.addr ==> bs[j] == was
  {
    var _ := ReallocLive(bs, was, size, lo, hi);
    forall j | 0 <= j < |bs| && bs[j].addr == was.addr
      ensures bs[j] == was
    {
      KnownByAddress(bs, j, lo, hi, was);
    }
  }

  // ---------------------------------------------------------------- the caller's books

  /** The pointers of the live blocks. */
  ghost function Held(bs: seq<Block>): set<nat> {
    Pointers(Live(bs))
  }

  ghost function Pointers(live: set<Block>): set<nat> {
    set b | b in live :: b.addr + HEADER
  }

  lemma PointersOf(live: set<Block>, b: Block)
    ensures Pointers(live + {b}) == Pointers(live) + {b.addr + HEADER}
  {
  }

  lemma PointersBut(bs: seq<Block>, ptr: nat)
    ensures Pointers(LiveBut(bs, ptr)) == Held(bs) - {ptr}
  {
  }

  /** What a caller who held `held` holds after an operation that returned `p`. */
  function Booked(held: set<nat>, op: Op, p: nat): set<nat> {
    match op
    case Malloc(_) => held + {p}
    case Free(ptr) => held - {ptr}
    case Realloc(ptr, size) => if ptr != 0 && size == 0 then held - {ptr} else held - {ptr} + {p}
  }

  /** What a caller holds after a run, by the calls and the pointers they returned. */
  ghost function BooksAfter(bs: seq<Block>, ops: seq<Op>): set<nat>
    requires Orderly(bs, ops)
  {
    if ops == [] then Held(bs) else Booked(BooksAfter(bs, ops[..|ops| - 1]), ops[|ops| - 1], Run(bs, ops).ptr)
  }

  /** No live block is forgotten and none is left over: the live blocks are those of the books. */
  lemma OpBooked(bs: seq<Block>, op: Op, lo: nat, hi: nat)
    requires Sound(bs, lo, hi) && Do(bs, op).Served? && Lawful(bs, op)
    ensures Held(Do(bs, op).blocks) == Booked(Held(bs), op, Do(bs, op).ptr)
  {
    match op
    case Malloc(size) =>
      MallocBooked(bs, size);
    case Free(ptr) =>
      FreeLive(bs, ptr, lo, hi);
      PointersBut(bs, ptr);
    case Realloc(ptr, size) =>
      if ptr == 0 {
        MallocBooked(bs, size);
        assert 0 !in Held(bs);
      } else {
        ReallocBooked(bs, bs[IndexOf(bs, ptr, 0)], size, lo, hi);
      }
  }

  lemma MallocBooked(bs: seq<Block>, size: nat)
    requires DoMalloc(bs, size).Served?
    ensures Held(DoMalloc(bs, size).blocks) == Held(bs) + {DoMalloc(bs, size).ptr}
  {
    var i := MallocLive(bs, size);
    PointersOf(Live(bs), Block(bs[i].addr, if bs[i].size > size + 12 then size else bs[i].size, false));
  }

  lemma ReallocBooked(bs: seq<Block>, was: Block, size: nat, lo: nat, hi: nat)
    requires Sound(bs, lo, hi) && was in Live(bs) && DoRealloc(bs, was.addr + HEADER, size).Served?
    ensures var ptr := was.addr + HEADER;
            var r := DoRealloc(bs, ptr, size);
            Held(r.blocks) == Booked(Held(bs), Realloc(ptr, size), r.ptr)
  {
    var ptr := was.addr + HEADER;
    var r := DoRealloc(bs, ptr, size);
    var b := ReallocLive(bs, was, size, lo, hi);
    if size == 0 {
      HeldBut(bs, r.blocks, ptr);
    } else if size > was.size {
      HeldMoved(bs, r.blocks, ptr, b);
    } else {
      HeldSame(bs, was);
    }
  }

  lemma HeldBut(bs: seq<Block>, r: seq<Block>, ptr: nat)
    requires Live(r) == LiveBut(bs, ptr)
    ensures Held(r) == Held(bs) - {ptr}
  {
    PointersBut(bs, ptr);
  }

  lemma HeldMoved(bs: seq<Block>, r: seq<Block>, ptr: nat, b: Block)
    requires Live(r) == LiveBut(bs, ptr) + {b}
    ensures Held(r) == Held(bs) - {ptr} + {b.addr + HEADER}
  {
    PointersBut(bs, ptr);
    PointersOf(LiveBut(bs, ptr), b);
  }

  lemma HeldSame(bs: seq<Block>, was: Block)
    requires was in Live(bs)
    ensures Held(bs) == Held(bs) - {was.addr + HEADER} + {was.addr + HEADER}
  {
  }

  /** Over every orderly run the live blocks are exactly those that the calls and the pointers they
      returned say the caller holds. */
  lemma {:induction false} RunBooked(bs: seq<Block>, ops: seq<Op>, lo: nat, hi: nat)
    requires Sound(bs, lo, hi) && Orderly(bs, ops)
    ensures Run(bs, ops).Served? && Held(Run(bs, ops).blocks) == BooksAfter(bs, ops)
  {
    if ops != [] {
      var init := ops[..|ops| - 1];
      RunBooked(bs, init, lo, hi);
      RunKeepsSound(bs, init, lo, hi);
      OpBooked(Run(bs, init).blocks, ops[|ops| - 1], lo, hi);
    }
  }

  /** A block that an operation gives up is not live after it. */
  lemma FreedIsGone(bs: seq<Block>, op: Op, q: nat, lo: nat, hi: nat)
    requires Sound(bs, lo, hi) && Do(bs, op).Served? && Lawful(bs, op) && q != 0 && MovedBy(bs, op, q) == 0
    ensures q !in Held(Do(bs, op).blocks)
  {
    OpBooked(bs, op, lo, hi);
  }

  /** In a run, a block is not live after the operation by which it has no place any more. */
  lemma FreedInRun(bs: seq<Block>, ops: seq<Op>, n: nat, ptr: nat, lo: nat, hi: nat)
    requires Sound(bs, lo, hi) && Orderly(bs, ops) && n < |ops|
    ensures Run(bs, ops[..n]).Served? && Run(bs, ops[..n + 1]).Served?
    ensures var q := MovedTo(bs, ops[..n], ptr);
            q != 0 && MovedTo(bs, ops[..n + 1], ptr) == 0 ==> q !in Held(Run(bs, ops[..n + 1]).blocks)
  {
    OrderlyStep(bs, ops, n);
    RunKeepsSound(bs, ops[..n], lo, hi);
    MovedToStep(bs, ops, n, ptr);
    var q := MovedTo(bs, ops[..n], ptr);
    if q != 0 && MovedTo(bs, ops[..n + 1], ptr) == 0 {
      FreedIsGone(Run(bs, ops[..n]).blocks, ops[n], q, lo, hi);
    }
  }

  /** No two blocks are moved to one place. */
  lemma MovedApart(bs: seq<Block>, op: Op, p: nat, q: nat, lo: nat, hi: nat)
    requires Sound(bs, lo, hi) && Do(bs, op).Served? && Lawful(bs, op) && p in Held(bs) && q in Held(bs) && p != q
    ensures MovedBy(bs, op, p) == MovedBy(bs, op, q) ==> MovedBy(bs, op, p) == 0
  {
    if Do(bs, op).ptr in Held(bs) && DoMalloc(bs, op.size).Served? {
      MallocIsNew(bs, op.size, lo, hi);
    }
  }

  function Fresh(lo: nat, hi: nat): Block
    requires lo + HEADER <= hi
  {
    Block(lo, hi - lo - HEADER, true)
  }

  lemma FreshIsSound(lo: nat, hi: nat)
    requires lo + HEADER <= hi
    ensures Sound([Fresh(lo, hi)], lo, hi) && Live([Fresh(lo, hi)]) == {}
  {
    TilesOne(Fresh(lo, hi));
  }

  /** Whatever was allocated, moved and freed in between: once nothing is live the heap is
      again the one block it started as. */
  lemma AllFreedIsFresh(ops: seq<Op>, lo: nat, hi: nat)
    requires lo + HEADER <= hi && Run([Fresh(lo, hi)], ops).Served?
    requires Live(Run([Fresh(lo, hi)], ops).blocks) == {}
    ensures Run([Fresh(lo, hi)], ops).blocks == [Fresh(lo, hi)]
  {
    FreshIsSound(lo, hi);
    RunKeepsSound([Fresh(lo, hi)], ops, lo, hi);
    TilingUnique(Run([Fresh(lo, hi)], ops).blocks, [Fresh(lo, hi)], lo, hi);
  }

  lemma NewlyLive(bs: seq<Block>, i: nat, size: nat, lo: nat, hi: nat)
    requires Tiles(bs, lo, hi) && i < |bs| && bs[i].free && size <= bs[i].size
    ensures Cut(bs[i], size)[0] !in Live(bs)
  {
    MemberOnce(bs, i, lo, hi);
    assert bs == bs[..i] + [bs[i]] + bs[i + 1..];
  }

  /** Freeing what was just allocated restores the heap, block for block. */
  lemma MallocThenFree(bs: seq<Block>, size: nat, lo: nat, hi: nat)
    requires Sound(bs, lo, hi) && lo > 0 && DoMalloc(bs, size).Served?
    ensures DoFree(DoMalloc(bs, size).blocks, DoMalloc(bs, size).ptr) == Served(bs, 0)
  {
    var i := FirstFit(bs, size, 0);
    var r, p := DoMalloc(bs, size).blocks, DoMalloc(bs, size).ptr;
    MallocKeepsSound(bs, size, lo, hi);
    TakeLive(bs, i, size);
    NewlyLive(bs, i, size, lo, hi);
    TakeHead(bs, i, size);
    TakeFreed(r, i, lo, hi, bs, Cut(bs[i], size)[0]);
  }

  lemma TakeHead(bs: seq<Block>, i: nat, size: nat)
    requires i < |bs| && size <= bs[i].size
    ensures i < |Take(bs, i, size)| && Take(bs, i, size)[i] == Cut(bs[i], size)[0]
    ensures !Cut(bs[i], size)[0].free && Cut(bs[i], size)[0].addr == bs[i].addr
  {
  }

  /** Freeing the one live block that `bs` lacks gives `bs` back. */
  lemma TakeFreed(r: seq<Block>, i: nat, lo: nat, hi: nat, bs: seq<Block>, b: Block)
    requires Sound(r, lo, hi) && Sound(bs, lo, hi) && lo > 0 && i < |r| && r[i] == b && !b.free
    requires Live(r) == Live(bs) + {b} && b !in Live(bs)
    ensures DoFree(r, b.addr + HEADER) == Served(bs, 0)
  {
    IndexIs(r, i, lo, hi);
    ReleaseGives(r, i, lo, hi, bs, b);
  }

  lemma ReleaseGives(r: seq<Block>, i: nat, lo: nat, hi: nat, bs: seq<Block>, b: Block)
    requires Sound(r, lo, hi) && Sound(bs, lo, hi) && i < |r| && r[i] == b && !b.free
    requires Live(r) == Live(bs) + {b} && b !in Live(bs)
    ensures Release(r, i) == bs
  {
    JoinRightTiles(r, i, lo, hi);
    JoinLeftTiles(JoinRight(r, i), i, lo, hi);
    ReleaseCoalesced(r, i);
    ReleaseLive(r, i, lo, hi);
    assert Live(Release(r, i)) == Live(bs);
    TilingUnique(Release(r, i), bs, lo, hi);
  }

  lemma IndexIs(bs: seq<Block>, i: nat, lo: nat, hi: nat)
    requires Tiles(bs, lo, hi) && i < |bs|
    ensures IndexOf(bs, bs[i].addr + HEADER, 0) == i
  {
    var n := IndexOf(bs, bs[i].addr + HEADER, 0);
    if n < i {
      BlocksApart(bs, lo, hi, n, i);
    }
  }

  // ---------------------------------------------------------------- growing by frames

  /** The block a fresh frame becomes. */
  function FrameBlock(f: nat): Block {
    Block(FrameAddr(f), FRAME - HEADER, true)
  }

  function FrameBlocks(fs: seq<nat>): seq<Block> {
    if fs == [] then [] else [FrameBlock(fs[0])] + FrameBlocks(fs[1..])
  }

  /** The heap and the clear frames after a request, with the pointer returned. */
  datatype Grown = Grown(blocks: seq<Block>, clear: seq<nat>, ptr: nat)

  /** `k_malloc`: serve the request from the list, or append the lowest clear frame as a block
      and try again, or give up. */
  function Grow(bs: seq<Block>, clear: seq<nat>, size: nat): Grown
    decreases |clear|
  {
    var i := FirstFit(bs, size, 0);
    if i < |bs| then Grown(Take(bs, i, size), clear, bs[i].addr + HEADER)
    else if clear == [] then Grown(bs, [], 0)
    else Grow(bs + [FrameBlock(clear[0])], clear[1..], size)
  }

  /** The clear frames a request will turn into blocks. */
  function Needed(bs: seq<Block>, clear: seq<nat>, size: nat): (r: seq<nat>)
    ensures r <= clear
  {
    if FirstFit(bs, size, 0) < |bs| || clear == [] then []
    else if size <= FRAME - HEADER then clear[..1]
    else clear
  }

  lemma NeededNext(bs: seq<Block>, clear: seq<nat>, size: nat)
    requires FirstFit(bs, size, 0) == |bs| && clear != []
    ensures Needed(bs, clear, size) != []
    ensures Needed(bs + [FrameBlock(clear[0])], clear[1..], size) == Needed(bs, clear, size)[1..]
  {
    NoFitAppended(bs, FrameBlock(clear[0]), size);
  }

  lemma NoFitAppended(bs: seq<Block>, b: Block, size: nat)
    requires FirstFit(bs, size, 0) == |bs|
    ensures FirstFit(bs + [b], size, 0) == if b.free && b.size >= size then |bs| else |bs| + 1
  {
    var r, n := bs + [b], FirstFit(bs + [b], size, 0);
    assert forall k :: 0 <= k < |bs| ==> r[k] == bs[k];
    assert r[|bs|] == b;
  }

  /** A request that no block can serve uses exactly one frame when it fits a frame, and
      otherwise takes every frame there is and fails. */
  lemma {:induction false} GrowOutcome(bs: seq<Block>, clear: seq<nat>, size: nat)
    requires FirstFit(bs, size, 0) == |bs|
    ensures clear != [] && size <= FRAME - HEADER ==>
              Grow(bs, clear, size)
              == Grown(bs + Cut(FrameBlock(clear[0]), size), clear[1..], FrameAddr(clear[0]) + HEADER)
    ensures clear == [] || size > FRAME - HEADER ==>
              Grow(bs, clear, size) == Grown(bs + FrameBlocks(clear), [], 0)
    decreases |clear|
  {
    if clear != [] {
      var b := FrameBlock(clear[0]);
      var r := bs + [b];
      NoFitAppended(bs, b, size);
      if size <= b.size {
        assert r[..|bs|] == bs && r[|bs|] == b && r[|bs| + 1..] == [];
        assert Take(r, |bs|, size) == bs + Cut(b, size);
      } else {
        GrowOutcome(r, clear[1..], size);
        assert r + FrameBlocks(clear[1..]) == bs + FrameBlocks(clear);
      }
    } else {
      assert bs + FrameBlocks([]) == bs;
    }
  }
}
