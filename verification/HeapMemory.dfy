/** Block headers and the frame bitmap as bytes of memory. */
module HeapMemory {

  import opened Bytes
  import opened HeapSpec
  import Division

  type Memory = seq<Byte>

  /** A `memory_block` header as read from memory. */
  datatype Header = Header(size: nat, flag: nat, next: nat)

  function HeaderAt(mem: Memory, a: nat): Header
    requires a + HEADER <= |mem|
  {
    Header(Le32(mem, a), Le32(mem, a + 4), Le32(mem, a + 8))
  }

  /** A header's three words: the size, the free flag and the link, four bytes each. */
  lemma HeaderBytes(mem: Memory, a: nat)
    requires a + 12 <= |mem|
    ensures HeaderAt(mem, a).size == Le32(mem[a..a + 4], 0)
    ensures HeaderAt(mem, a).flag == Le32(mem[a + 4..a + 8], 0)
    ensures HeaderAt(mem, a).next == Le32(mem[a + 8..a + 12], 0)
  {
  }

  /** Only the twelve bytes of the header at `a` differ, and it now reads `h`. */
  ghost predicate HeaderSet(mem: Memory, mem': Memory, a: nat, h: Header) {
    && a + HEADER <= |mem| == |mem'|
    && HeaderAt(mem', a) == h
    && forall x :: 0 <= x < |mem| && !(a <= x < a + HEADER) ==> mem'[x] == mem[x]
  }

  function PutWord(mem: Memory, a: nat, v: nat): Memory
    requires a + 4 <= |mem| && v < WORD
  {
    Splice(mem, a, Le32Bytes(v))
  }

  lemma PutSize(mem: Memory, a: nat, v: nat)
    requires a + HEADER <= |mem| && v < WORD
    ensures HeaderSet(mem, PutWord(mem, a, v), a, HeaderAt(mem, a).(size := v))
  {
    WordAfterSplice(mem, a, v, a + 4);
    WordAfterSplice(mem, a, v, a + 8);
  }

  lemma PutFlag(mem: Memory, a: nat, v: nat)
    requires a + HEADER <= |mem| && v < WORD
    ensures HeaderSet(mem, PutWord(mem, a + 4, v), a, HeaderAt(mem, a).(flag := v))
  {
    WordAfterSplice(mem, a + 4, v, a);
    WordAfterSplice(mem, a + 4, v, a + 8);
  }

  lemma PutNext(mem: Memory, a: nat, v: nat)
    requires a + HEADER <= |mem| && v < WORD
    ensures HeaderSet(mem, PutWord(mem, a + 8, v), a, HeaderAt(mem, a).(next := v))
  {
    WordAfterSplice(mem, a + 8, v, a);
    WordAfterSplice(mem, a + 8, v, a + 4);
  }

  lemma HeaderElsewhere(mem: Memory, mem': Memory, a: nat, h: Header, b: nat)
    requires HeaderSet(mem, mem', a, h) && b + HEADER <= |mem|
    requires a + HEADER <= b || b + HEADER <= a
    ensures HeaderAt(mem', b) == HeaderAt(mem, b)
  {
  }

  // ---------------------------------------------------------------- the list in memory

  /** The address after block `i`; the last block points to `last`. */
  function NextTo(bs: seq<Block>, i: nat, last: nat): nat {
    if i + 1 < |bs| then bs[i + 1].addr else last
  }

  function Encoded(b: Block, next: nat): Header {
    Header(b.size, if b.free then 1 else 0, next)
  }

  /** The flag of a free block is 1, that of a live one 0. */
  lemma EncodedFlag(b: Block, next: nat)
    ensures Encoded(b, next).flag == 1 <==> b.free
    ensures Encoded(b, next).flag == 0 <==> !b.free
  {
  }

  /** The header of block `i` is in memory, linked to the next block. */
  ghost predicate Written(mem: Memory, bs: seq<Block>, i: nat, last: nat)
    requires i < |bs|
  {
    bs[i].addr + HEADER <= |mem| && HeaderAt(mem, bs[i].addr) == Encoded(bs[i], NextTo(bs, i, last))
  }

  ghost predicate LinkedTo(mem: Memory, bs: seq<Block>, last: nat) {
    forall i :: 0 <= i < |bs| ==> Written(mem, bs, i, last)
  }

  ghost predicate Linked(mem: Memory, bs: seq<Block>) {
    LinkedTo(mem, bs, 0)
  }

  predicate Apart(a: Block, b: Block) {
    End(a) <= b.addr || End(b) <= a.addr
  }

  /** No two blocks share a byte, none starts at the null address, all lie in memory. */
  ghost predicate Separated(bs: seq<Block>, limit: nat) {
    && (forall i :: 0 <= i < |bs| ==> 0 < bs[i].addr && End(bs[i]) <= limit)
    && (forall i, j :: 0 <= i < j < |bs| ==> Apart(bs[i], bs[j]))
  }

  /** `bs` with the blocks from `i` up to `j` replaced. */
  function Replace(bs: seq<Block>, i: nat, j: nat, piece: seq<Block>): seq<Block>
    requires i <= j <= |bs|
  {
    bs[..i] + piece + bs[j..]
  }

  /** Replacing a stretch of the list keeps the list linked when the new headers are written
      and the others left alone. */
  lemma Relink(mem: Memory, mem': Memory, bs: seq<Block>, i: nat, j: nat, piece: seq<Block>)
    requires Linked(mem, bs) && |mem'| == |mem| && i < j <= |bs| && piece != []
    requires piece[0].addr == bs[i].addr && LinkedTo(mem', piece, NextTo(bs, j - 1, 0))
    requires forall k :: 0 <= k < |bs| && !(i <= k < j) && bs[k].addr + HEADER <= |mem| ==>
               HeaderAt(mem', bs[k].addr) == HeaderAt(mem, bs[k].addr)
    ensures Linked(mem', Replace(bs, i, j, piece))
  {
    var r := Replace(bs, i, j, piece);
    forall k | 0 <= k < |r|
      ensures Written(mem', r, k, 0)
    {
      if k < i {
        assert Written(mem, bs, k, 0) && r[k] == bs[k] && NextTo(r, k, 0) == NextTo(bs, k, 0);
      } else if k < i + |piece| {
        assert Written(mem', piece, k - i, NextTo(bs, j - 1, 0)) && r[k] == piece[k - i];
        assert NextTo(r, k, 0) == NextTo(piece, k - i, NextTo(bs, j - 1, 0));
      } else {
        var m := k - |piece| - i + j;
        assert r[k] == bs[m] && Written(mem, bs, m, 0) && NextTo(r, k, 0) == NextTo(bs, m, 0);
      }
    }
  }

  lemma SeparatedReplace(bs: seq<Block>, i: nat, j: nat, piece: seq<Block>, limit: nat)
    requires Separated(bs, limit) && i <= j <= |bs| && Separated(piece, limit)
    requires forall k, m :: 0 <= k < |bs| && !(i <= k < j) && 0 <= m < |piece| ==> Apart(piece[m], bs[k])
    ensures Separated(Replace(bs, i, j, piece), limit)
  {
    var r, n := Replace(bs, i, j, piece), i + |piece|;
    assert forall x :: 0 <= x < i ==> r[x] == bs[x];
    assert forall x :: i <= x < n ==> r[x] == piece[x - i];
    assert forall x :: n <= x < |r| ==> r[x] == bs[x - n + j];
  }

  predicate InPayload(b: Block, x: int) {
    b.addr + HEADER <= x < End(b)
  }

  /** The payload bytes of the live blocks are the same. */
  ghost predicate PayloadsKept(mem: Memory, mem': Memory, bs: seq<Block>) {
    && |mem'| == |mem|
    && forall i, x :: 0 <= i < |bs| && !bs[i].free && InPayload(bs[i], x) && x < |mem| ==> mem'[x] == mem[x]
  }

  // ---------------------------------------------------------------- the frame bitmap

  /** Bit `k` of a number. */
  predicate Bit(b: nat, k: nat)
    decreases k
  {
    if k == 0 then b % 2 == 1 else Bit(b / 2, k - 1)
  }

  /** `b | (1 << k)`. */
  function WithBit(b: nat, k: nat): nat
    decreases k
  {
    if k == 0 then (if b % 2 == 1 then b else b + 1) else 2 * WithBit(b / 2, k - 1) + b % 2
  }

  lemma {:induction false} BitsAfter(b: nat, k: nat, j: nat)
    ensures Bit(WithBit(b, k), j) <==> j == k || Bit(b, j)
    decreases k
  {
    if k > 0 && j > 0 {
      BitsAfter(b / 2, k - 1, j - 1);
    }
  }

  lemma {:induction false} BitFits(b: nat, k: nat, n: nat)
    requires k < n && b < Division.Pow2(n)
    ensures WithBit(b, k) < Division.Pow2(n)
    decreases k
  {
    var half, q, r := Division.Pow2(n - 1), b / 2, b % 2;
    assert b == 2 * q + r && q < half;
    if k > 0 {
      BitFits(q, k - 1, n - 1);
      assert WithBit(b, k) == 2 * WithBit(q, k - 1) + r;
    } else {
      assert WithBit(b, 0) <= 2 * q + 1;
    }
  }

  /** Setting a bit of a byte gives a byte. */
  function SetBit(b: Byte, k: nat): Byte
    requires k < 8
  {
    assert Division.Pow2(8) == 256;
    BitFits(b, k, 8);
    WithBit(b, k)
  }

  /** `test_frame`, for the bitmap starting at `at`. */
  predicate FrameTaken(mem: Memory, at: nat, f: nat)
    requires at + f / 8 < |mem|
  {
    Bit(mem[at + f / 8], f % 8)
  }

  /** `set_frame`. */
  function SetFrame(mem: Memory, at: nat, f: nat): Memory
    requires at + f / 8 < |mem|
  {
    mem[at + f / 8 := SetBit(mem[at + f / 8], f % 8)]
  }

  lemma SetFrameBits(mem: Memory, at: nat, f: nat, x: nat)
    requires at + f / 8 < |mem| && at + x / 8 < |mem|
    ensures FrameTaken(SetFrame(mem, at, f), at, x) <==> x == f || FrameTaken(mem, at, x)
  {
    if x / 8 == f / 8 {
      BitsAfter(mem[at + f / 8], f % 8, x % 8);
    }
  }

  /** The clear frames of [f, max), lowest first. */
  function ClearFrom(mem: Memory, at: nat, f: nat, max: nat): (r: seq<nat>)
    requires f <= max && at + (max + 7) / 8 <= |mem|
    ensures forall i :: 0 <= i < |r| ==> f <= r[i] < max
    decreases max - f
  {
    if f == max then []
    else if FrameTaken(mem, at, f) then ClearFrom(mem, at, f + 1, max)
    else [f] + ClearFrom(mem, at, f + 1, max)
  }

  lemma {:induction false} ClearMember(mem: Memory, at: nat, f: nat, max: nat, x: nat)
    requires f <= max && at + (max + 7) / 8 <= |mem|
    ensures x in ClearFrom(mem, at, f, max) <==> f <= x < max && !FrameTaken(mem, at, x)
    decreases max - f
  {
    if f < max {
      ClearMember(mem, at, f + 1, max, x);
    }
  }

  lemma {:induction false} ClearFrame(mem: Memory, mem': Memory, at: nat, f: nat, max: nat)
    requires f <= max && at + (max + 7) / 8 <= |mem| == |mem'|
    requires forall x: nat :: f <= x < max ==> FrameTaken(mem', at, x) == FrameTaken(mem, at, x)
    ensures ClearFrom(mem', at, f, max) == ClearFrom(mem, at, f, max)
    decreases max - f
  {
    if f < max {
      assert FrameTaken(mem', at, f) == FrameTaken(mem, at, f);
      ClearFrame(mem, mem', at, f + 1, max);
    }
  }

  lemma {:induction false} ClearSorted(mem: Memory, at: nat, f: nat, max: nat, i: nat, j: nat)
    requires f <= max && at + (max + 7) / 8 <= |mem| && i < j < |ClearFrom(mem, at, f, max)|
    ensures ClearFrom(mem, at, f, max)[i] < ClearFrom(mem, at, f, max)[j]
    decreases max - f
  {
    if FrameTaken(mem, at, f) {
      ClearSorted(mem, at, f + 1, max, i, j);
    } else if i > 0 {
      ClearSorted(mem, at, f + 1, max, i - 1, j - 1);
    }
  }
}
