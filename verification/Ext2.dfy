/** Reading an ext2 file block by block through its twelve direct blocks. */
module Ext2 {

  import opened Bytes
  import opened Division

  const DIRECT: nat := 12

  datatype Inode = Inode(size: nat, blocks: seq<nat>)

  predicate IsInode(n: Inode) {
    n.size < WORD && |n.blocks| >= DIRECT && forall i :: 0 <= i < DIRECT ==> n.blocks[i] < WORD
  }

  predicate IsBlockSize(bs: nat) {
    0 < bs < 0x1_0000 && bs % 512 == 0
  }

  /** First sector of a block, in 32-bit arithmetic. */
  function StartSector(b: nat, bs: nat): nat {
    Wrap(b * (bs / 512))
  }

  /** Block 0 starts at sector 0 and each block right behind the one before it, in 32 bits. */
  lemma BlocksFollow(b: nat, bs: nat)
    ensures StartSector(0, bs) == 0
    ensures StartSector(b + 1, bs) == (StartSector(b, bs) + bs / 512) % 0x1_0000_0000
  {
    var m := bs / 512;
    assert (b + 1) * m == b * m + m && 0 * m == 0;
    WrapAdd(b * m, m);
  }

  predicate OnDisk(d: seq<Sector>, b: nat, bs: nat) {
    StartSector(b, bs) + bs / 512 <= |d|
  }

  /** Byte `off` of block `b` on the disk. */
  function DiskByte(d: seq<Sector>, b: nat, off: nat, bs: nat): Byte
    requires IsBlockSize(bs) && off < bs && OnDisk(d, b, bs)
  {
    d[StartSector(b, bs) + off / 512][off % 512]
  }

  /** Counted from the beginning of the disk, as long as its sectors have 32-bit numbers. */
  lemma DiskByteExactly(d: seq<Sector>, b: nat, off: nat, bs: nat)
    requires IsBlockSize(bs) && off < bs && OnDisk(d, b, bs) && b * (bs / 512) < WORD
    ensures var x := b * bs + off;
            0 <= x < 512 * |d| && DiskByte(d, b, off, bs) == d[x / 512][x % 512]
  {
    var m := bs / 512;
    assert bs == 512 * m && b * bs == 512 * (b * m);
    var x, q := b * bs + off, off / 512;
    assert x == 512 * (b * m + q) + off % 512;
    DivUnique(x, 512, b * m + q, off % 512);
  }

  /** The same for a block of a file, where block 0 stands for a hole. */
  function BlockByte(d: seq<Sector>, b: nat, off: nat, bs: nat): Byte
    requires IsBlockSize(bs) && off < bs && (b != 0 ==> OnDisk(d, b, bs))
  {
    if b == 0 then 0 else DiskByte(d, b, off, bs)
  }

  /** Byte `k` of the file has a place: a direct block that is a hole or lies on the disk. */
  ghost predicate HasByte(d: seq<Sector>, n: Inode, k: nat, bs: nat) {
    && IsInode(n) && IsBlockSize(bs) && k / bs < DIRECT
    && (n.blocks[k / bs] != 0 ==> OnDisk(d, n.blocks[k / bs], bs))
  }

  ghost function FileByte(d: seq<Sector>, n: Inode, k: nat, bs: nat): Byte
    requires HasByte(d, n, k, bs)
  {
    BlockByte(d, n.blocks[k / bs], k % bs, bs)
  }

  /** Byte `off` of the `q`th block of a file: zero in a hole, else that byte of the block. */
  lemma FileByteExactly(d: seq<Sector>, n: Inode, q: nat, off: nat, bs: nat)
    requires IsInode(n) && IsBlockSize(bs) && q < 12 && off < bs && (n.blocks[q] != 0 ==> OnDisk(d, n.blocks[q], bs))
    ensures q * bs + off >= 0 && HasByte(d, n, q * bs + off, bs)
    ensures FileByte(d, n, q * bs + off, bs) == if n.blocks[q] == 0 then 0 else DiskByte(d, n.blocks[q], off, bs)
  {
    DivUnique(q * bs + off, bs, q, off);
  }

  /** Every allocated direct block lies on the disk. */
  ghost predicate Intact(d: seq<Sector>, n: Inode, bs: nat) {
    && IsInode(n) && IsBlockSize(bs)
    && forall i :: 0 <= i < DIRECT && n.blocks[i] != 0 ==> OnDisk(d, n.blocks[i], bs)
  }

  // ---------------------------------------------------------------- how much is read

  /** The length the code aims for: clipped to the file when the 32-bit sum says so. */
  function Clipped(n: Inode, offset: nat, size: nat): int {
    if Wrap(offset + size) > n.size then n.size - offset else size
  }

  /** The bytes actually delivered when all goes well. */
  function Delivered(n: Inode, offset: nat, size: nat, bs: nat): int {
    if offset >= n.size then 0
    else Min(Clipped(n, offset, size), if offset < DIRECT * bs then DIRECT * bs - offset else 0)
  }

  /** Clipping respects the end of the file exactly when the 32-bit sum does not wrap; when it wraps
      the whole request is read, past the end. */
  lemma ClippedExactly(n: Inode, offset: nat, size: nat)
    requires IsInode(n) && offset < n.size && size < WORD
    ensures Clipped(n, offset, size) == Min(size, n.size - offset) <==> offset + size < WORD
    ensures offset + size >= WORD ==> Clipped(n, offset, size) == size > n.size - offset
  {
  }

  /** Nothing is delivered from the end of the file on.  Before it, byte `i` of a request is delivered
      exactly when it lies in the request, in the first twelve blocks and, unless the 32-bit sum
      wraps, in the file. */
  lemma DeliveredExactly(n: Inode, offset: nat, size: nat, bs: nat, i: nat)
    requires IsInode(n) && size < WORD
    ensures offset >= n.size ==> Delivered(n, offset, size, bs) == 0
    ensures offset < n.size ==>
              (i < Delivered(n, offset, size, bs) <==>
               i < size && offset + i < 12 * bs && (offset + size < WORD ==> offset + i < n.size))
  {
  }

  // ---------------------------------------------------------------- the code

  class Ext2Fs {
    const blockSize: nat
    var disk: seq<Sector>
    /** Outcomes of the sector reads to come; past the end all succeed. */
    var failures: seq<bool>
    var blockBuffer: array<Byte>

    predicate Valid()
      reads this
    {
      IsBlockSize(blockSize) && blockBuffer.Length == blockSize
    }

    ghost predicate Healthy()
      reads this
    {
      forall i :: 0 <= i < |failures| ==> !failures[i]
    }

    constructor (blockSize: nat, disk: seq<Sector>, failures: seq<bool>)
      requires IsBlockSize(blockSize)
      ensures Valid() && fresh(blockBuffer) && this.disk == disk && this.failures == failures
      ensures this.blockSize == blockSize
    {
      this.blockSize, this.disk, this.failures := blockSize, disk, failures;
      blockBuffer := new Byte[blockSize](_ => 0);
    }

    method ReadSector(lba: nat) returns (ok: bool, data: Sector)
      modifies this`failures
      ensures ok ==> lba < |disk| && data == disk[lba]
      ensures old(Healthy()) ==> Healthy() && (ok <==> lba < |disk|)
    {
      ok := lba < |disk|;
      if failures != [] {
        ok := ok && !failures[0];
        failures := failures[1..];
      }
      data := if ok then disk[lba] else seq(512, _ => 0);
    }

    /** `ext2_read_block` into a buffer of at least a block. */
    method ReadBlock(b: nat, buffer: array<Byte>) returns (ok: bool)
      requires Valid() && buffer.Length >= blockSize
      modifies this`failures, buffer
      ensures ok ==> OnDisk(disk, b, blockSize)
      ensures ok ==> forall off: nat :: off < blockSize ==> buffer[off] == DiskByte(disk, b, off, blockSize)
      ensures forall x :: blockSize <= x < buffer.Length ==> buffer[x] == old(buffer[x])
      ensures old(Healthy()) ==> Healthy() && (ok <==> OnDisk(disk, b, blockSize))
    {
      var start := StartSector(b, blockSize);
      var i := 0;
      while i < blockSize / 512
        invariant 0 <= i <= blockSize / 512 && start + i <= |disk| + (if i == 0 then start else 0)
        invariant old(Healthy()) ==> Healthy()
        invariant forall x :: 512 * i <= x < buffer.Length ==> buffer[x] == old(buffer[x])
        invariant forall x: nat :: x < 512 * i ==> CopiedFrom(disk, start, x, buffer[x])
      {
        var data: Sector;
        ok, data := ReadSector(start + i);
        if !ok {
          return;
        }
        CopyBytes(buffer, 512 * i, data, 512);
        forall x: nat | 512 * i <= x < 512 * (i + 1)
          ensures CopiedFrom(disk, start, x, buffer[x])
        {
          DivUnique(x, 512, i, x - 512 * i);
        }
        i := i + 1;
      }
      ok := true;
      forall off: nat | off < blockSize
        ensures buffer[off] == DiskByte(disk, b, off, blockSize)
      {
        assert CopiedFrom(disk, start, off, buffer[off]);
      }
    }

    /** One block's share: `n` bytes of block `b` from `off` on go to the buffer at `at`. */
    method ReadPiece(b: nat, off: nat, n: nat, buffer: array<Byte>, at: nat) returns (ok: bool)
      requires Valid() && off + n <= blockSize && at + n <= buffer.Length && buffer != blockBuffer
      modifies buffer, blockBuffer, this`failures
      ensures b != 0 && ok ==> OnDisk(disk, b, blockSize)
      ensures ok ==> PieceAt(disk, b, off, blockSize, buffer[..], at, n)
      ensures forall i :: 0 <= i < buffer.Length && (!ok || !(at <= i < at + n)) ==> buffer[i] == old(buffer[i])
      ensures old(Healthy()) ==> Healthy() && (ok <==> b == 0 || OnDisk(disk, b, blockSize))
    {
      if b == 0 {
        var zeros: seq<Byte> := seq(n, _ => 0);
        CopyBytes(buffer, at, zeros, n);
        ok := true;
      } else {
        ok := ReadBlock(b, blockBuffer);
        if ok {
          var piece := blockBuffer[off..off + n];
          assert forall i :: 0 <= i < n ==> piece[i] == blockBuffer[off + i];
          CopyBytes(buffer, at, piece, n);
        }
      }
    }

    /** One round of the loop of `ext2_read_file`: the share of the block that holds `current`.
        `n` is its length when it was delivered and 0 when the loop ends here. */
    method ReadShare(inode: Inode, offset: nat, left: nat, buffer: array<Byte>, at: nat) returns (n: nat)
      requires Valid() && IsInode(inode) && left > 0 && at + left <= buffer.Length && buffer != blockBuffer
      requires Read(disk, inode, offset, blockSize, buffer[..], at)
      modifies buffer, blockBuffer, this`failures
      ensures n <= left && Read(disk, inode, offset, blockSize, buffer[..], at + n)
      ensures forall i :: at + n <= i < buffer.Length ==> buffer[i] == old(buffer[i])
      ensures n > 0 ==> offset + at + n <= DIRECT * blockSize
      ensures old(Healthy()) ==> Healthy()
      ensures old(Healthy()) && Intact(disk, inode, blockSize) ==> (n == 0 <==> offset + at >= DIRECT * blockSize)
    {
      var current: nat := offset + at;
      var index: nat, off: nat := current / blockSize, current % blockSize;
      n := Min(blockSize - off, left);
      DirectIndex(current, blockSize);
      if index >= DIRECT {
        return 0;
      }
      ghost var before := buffer[..];
      var ok := ReadPiece(inode.blocks[index], off, n, buffer, at);
      if !ok {
        assert buffer[..] == before;
        return 0;
      }
      PieceRead(disk, inode, offset, blockSize, before, buffer[..], at, n);
    }

    /** `ext2_read_file`.  The bytes delivered are the file's from `offset` on, holes as zeros;
        with good reads their number is the request clipped to the file and to the direct
        blocks. */
    method ReadFile(inode: Inode, offset: nat, size0: nat, buffer: array?<Byte>) returns (r: int)
      requires Valid() && IsInode(inode) && offset < WORD && size0 < WORD
      requires buffer != null ==> size0 <= buffer.Length && buffer != blockBuffer
      modifies buffer, blockBuffer, this`failures
      ensures buffer == null ==> r == -1
      ensures buffer != null ==> 0 <= r <= Delivered(inode, offset, size0, blockSize)
      ensures buffer != null ==> Read(disk, inode, offset, blockSize, buffer[..], r)
      ensures buffer != null ==> forall i :: r <= i < buffer.Length ==> buffer[i] == old(buffer[i])
      ensures buffer != null && old(Healthy()) && Intact(disk, inode, blockSize) ==>
                r == Delivered(inode, offset, size0, blockSize)
    {
      if buffer == null {
        return -1;
      }
      if offset >= inode.size {
        return 0;
      }
      var size: nat := Clipped(inode, offset, size0);
      r := 0;
      while r < size
        invariant 0 <= r <= size && (r > 0 ==> offset + r <= DIRECT * blockSize)
        invariant old(Healthy()) ==> Healthy()
        invariant Read(disk, inode, offset, blockSize, buffer[..], r)
        invariant forall i :: r <= i < buffer.Length ==> buffer[i] == old(buffer[i])
        decreases size - r
      {
        var n := ReadShare(inode, offset, size - r, buffer, r);
        if n == 0 {
          break;
        }
        r := r + n;
      }
    }
  }

  /** The `n` bytes at `at` are those of block `b` from `off` on. */
  ghost predicate PieceAt(d: seq<Sector>, b: nat, off: nat, bs: nat, buffer: seq<Byte>, at: nat, n: nat) {
    && IsBlockSize(bs) && off + n <= bs && at + n <= |buffer| && (b != 0 ==> OnDisk(d, b, bs))
    && forall x :: at <= x < at + n ==> buffer[x] == BlockByte(d, b, off + (x - at), bs)
  }

  /** Byte `k` of the file exists and is `b`. */
  ghost predicate ByteIs(d: seq<Sector>, n: Inode, k: nat, bs: nat, b: Byte) {
    HasByte(d, n, k, bs) && b == FileByte(d, n, k, bs)
  }

  /** The first `r` bytes of the buffer are the file's bytes from `offset` on. */
  ghost predicate Read(d: seq<Sector>, n: Inode, offset: nat, bs: nat, buffer: seq<Byte>, r: int) {
    forall i: nat :: i < r && i < |buffer| ==> ByteIs(d, n, offset + i, bs, buffer[i])
  }

  /** Positions below twelve blocks are those with a direct block, and a block's share ends at
      a block boundary. */
  lemma DirectIndex(k: nat, bs: nat)
    requires bs > 0
    ensures k / bs < DIRECT <==> k < DIRECT * bs
    ensures k / bs < DIRECT ==> k - k % bs + bs <= DIRECT * bs
  {
    assert k == k / bs * bs + k % bs;
    TimesMonotone(k / bs, bs);
  }

  lemma TimesMonotone(q: nat, bs: nat)
    ensures q < DIRECT ==> q * bs + bs <= DIRECT * bs
    ensures q >= DIRECT ==> q * bs >= DIRECT * bs
  {
    if q < DIRECT {
      assert (q + 1) * bs <= DIRECT * bs;
    }
  }

  /** Positions of one block's share have the same block and consecutive offsets in it. */
  lemma SameBlock(k: nat, i: nat, bs: nat)
    requires bs > 0 && k % bs + i < bs
    ensures (k + i) / bs == k / bs && (k + i) % bs == k % bs + i
  {
    assert k == k / bs * bs + k % bs;
    DivUnique(k + i, bs, k / bs, k % bs + i);
  }

  lemma PieceRead(d: seq<Sector>, n: Inode, offset: nat, bs: nat, before: seq<Byte>, after: seq<Byte>, r: nat, m: nat)
    requires IsInode(n) && IsBlockSize(bs) && (offset + r) / bs < DIRECT
    requires |after| == |before| && Read(d, n, offset, bs, before, r)
    requires PieceAt(d, n.blocks[(offset + r) / bs], (offset + r) % bs, bs, after, r, m)
    requires forall i :: 0 <= i < |before| && !(r <= i < r + m) ==> after[i] == before[i]
    ensures Read(d, n, offset, bs, after, r + m)
  {
    forall i: nat | i < r + m && i < |after|
      ensures ByteIs(d, n, offset + i, bs, after[i])
    {
      if i < r {
        assert ByteIs(d, n, offset + i, bs, before[i]);
      } else {
        PieceByteAt(d, n, offset, bs, after, r, m, i);
      }
    }
  }

  lemma PieceByteAt(d: seq<Sector>, n: Inode, offset: nat, bs: nat, buffer: seq<Byte>, at: nat, m: nat, x: nat)
    requires IsInode(n) && IsBlockSize(bs) && (offset + at) / bs < DIRECT && at <= x < at + m
    requires PieceAt(d, n.blocks[(offset + at) / bs], (offset + at) % bs, bs, buffer, at, m)
    ensures ByteIs(d, n, offset + x, bs, buffer[x])
  {
    SameBlock(offset + at, x - at, bs);
    PieceByte(d, n, offset + x, (offset + at) / bs, (offset + at) % bs, bs, buffer, at, m, x);
  }

  lemma PieceByte(d: seq<Sector>, n: Inode, k: nat, q: nat, off: nat, bs: nat, buffer: seq<Byte>, at: nat, m: nat,
                  x: nat)
    requires IsInode(n) && q < DIRECT && PieceAt(d, n.blocks[q], off, bs, buffer, at, m)
    requires at <= x < at + m && q == k / bs && off + (x - at) == k % bs
    ensures ByteIs(d, n, k, bs, buffer[x])
  {
    assert buffer[x] == BlockByte(d, n.blocks[q], off + (x - at), bs);
  }
}
