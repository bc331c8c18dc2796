/** Reading a file's clusters into a caller's buffer. */
module FileRead {

  import opened Bytes
  import opened FatChain
  import opened FatLayout
  import opened Volumes
  import opened Files

  /** The sectors of a chain in order. */
  function SectorsOf(d: seq<Sector>, g: Geometry, ch: seq<nat>): seq<Sector>
    requires Holds(d, g) && forall i :: 0 <= i < |ch| ==> InVolume(g, ch[i])
  {
    if ch == [] then [] else ClusterData(d, g, ch[0]) + SectorsOf(d, g, ch[1..])
  }

  /** The bytes of a list of sectors. */
  function Flat(s: seq<Sector>): (b: seq<Byte>)
    ensures |b| == 512 * |s|
  {
    if s == [] then [] else s[0] + Flat(s[1..])
  }

  lemma {:induction false} SectorsSplit(d: seq<Sector>, g: Geometry, ch: seq<nat>, k: nat)
    requires Holds(d, g) && (forall i :: 0 <= i < |ch| ==> InVolume(g, ch[i])) && k < |ch|
    ensures SectorsOf(d, g, ch)
         == SectorsOf(d, g, ch[..k]) + ClusterData(d, g, ch[k]) + SectorsOf(d, g, ch[k + 1..])
    decreases k
  {
    if k > 0 {
      SectorsSplit(d, g, ch[1..], k - 1);
      assert ch[1..][..k - 1] == ch[..k][1..] && ch[1..][k..] == ch[k + 1..];
    }
  }

  lemma {:induction false} FlatByte(s: seq<Sector>, x: nat)
    requires x < 512 * |s|
    ensures Flat(s)[x] == s[x / 512][x % 512]
    decreases |s|
  {
    if x >= 512 {
      FlatByte(s[1..], x - 512);
      assert (x - 512) / 512 == x / 512 - 1 && (x - 512) % 512 == x % 512;
    }
  }

  /** The first `total` bytes of the buffer are those of `all`; the rest is as it was. */
  ghost predicate Holding(buffer: seq<Byte>, before: seq<Byte>, all: seq<Byte>, total: nat) {
    && total <= |all| && total <= |buffer| && |before| == |buffer|
    && (forall i :: 0 <= i < total ==> buffer[i] == all[i])
    && (forall i :: total <= i < |buffer| ==> buffer[i] == before[i])
  }

  /** One sector of `read_file_data`: how many of its bytes go to the buffer. */
  function Portion(total: nat, bufferSize: nat, toRead: nat): (n: nat)
    requires total <= toRead
    ensures total <= Min(bufferSize, toRead) ==> n == Min(512, Min(bufferSize, toRead) - total)
    ensures n <= 512
  {
    var now := Min(toRead - total, 512);
    if total + now > bufferSize then
      if bufferSize <= total then 0 else bufferSize - total
    else now
  }

  /** The sector loop over one cluster.  `failed` reports a read error. */
  method ReadClusterInto(v: Volume, sector: nat, buffer: array<Byte>, bufferSize: nat, toRead: nat, total0: nat)
      returns (total: nat, failed: bool)
    requires v.Valid() && bufferSize <= buffer.Length
    requires total0 < toRead && total0 <= bufferSize
    modifies buffer, v`transfers
    ensures v.Valid()
    ensures total0 <= total <= Min(bufferSize, toRead)
    ensures !failed && total0 < bufferSize ==> total > total0
    ensures old(v.Healthy()) ==> v.Healthy()
    ensures old(v.Healthy()) && sector + v.g.sectorsPerCluster <= |v.sectors| ==> !failed
    ensures !failed ==> total == Min(Min(bufferSize, toRead), total0 + 512 * v.g.sectorsPerCluster)
    ensures forall i :: 0 <= i < total0 ==> buffer[i] == old(buffer[i])
    ensures forall i :: total <= i < buffer.Length ==> buffer[i] == old(buffer[i])
    ensures forall i :: total0 <= i < total ==> CopiedFrom(v.sectors, sector, i - total0, buffer[i])
    ensures total <= total0 + 512 * v.g.sectorsPerCluster
  {
    total, failed := total0, false;
    var i := 0;
    while i < v.g.sectorsPerCluster
      invariant 0 <= i <= v.g.sectorsPerCluster
      invariant v.Valid() && (old(v.Healthy()) ==> v.Healthy())
      invariant total == Min(Min(bufferSize, toRead), total0 + 512 * i)
      invariant forall x :: 0 <= x < total0 ==> buffer[x] == old(buffer[x])
      invariant forall x :: total <= x < buffer.Length ==> buffer[x] == old(buffer[x])
      invariant forall x :: total0 <= x < total ==> CopiedFrom(v.sectors, sector, x - total0, buffer[x])
    {
      var now := Portion(total, bufferSize, toRead);
      if now == 0 {
        break;
      }
      var ok, data := v.ReadSector(sector + i);
      if !ok {
        return total, true;
      }
      CopyBytes(buffer, total, data, now);
      forall x | total <= x < total + now
        ensures CopiedFrom(v.sectors, sector, x - total0, buffer[x])
      {
        assert (x - total0) / 512 == i && (x - total0) % 512 == x - total;
      }
      total := total + now;
      i := i + 1;
      if total >= toRead {
        break;
      }
    }
  }

  /** `cluster_to_sector`: 0 for an invalid cluster, in 32-bit arithmetic otherwise. */
  function SectorFor(g: Geometry, c: nat): nat {
    if IsValidCluster(g, c) then Wrap(ClusterSector(g, c)) else 0
  }

  /** A cluster that is not valid, such as the 0 of an empty file, is read from sector 0 of the disk;
      one in range from where it lies. */
  lemma SectorForExactly(g: Geometry, size: nat, c: nat)
    requires WellFormed(g, size)
    ensures !IsValidCluster(g, c) ==> SectorFor(g, c) == 0
    ensures InVolume(g, c) ==>
              SectorFor(g, c) == g.partition + g.reserved + g.fats * g.fatSize + (c - 2) * g.sectorsPerCluster > 0
  {
    if InVolume(g, c) {
      ClusterSectorFits(g, size, c);
    }
  }

  lemma FlatOfMiddle(before: seq<Sector>, cluster: seq<Sector>, after: seq<Sector>, y: nat)
    requires y < 512 * |cluster|
    ensures Flat(before + cluster + after)[512 * |before| + y] == cluster[y / 512][y % 512]
  {
    var all, x := before + cluster + after, 512 * |before| + y;
    FlatByte(all, x);
    assert x / 512 == |before| + y / 512 && x % 512 == y % 512;
    assert all[|before| + y / 512] == cluster[y / 512];
  }

  /** The chain `ch` starting at `start`, if it is one. */
  ghost predicate FileAt(d: seq<Sector>, g: Geometry, ch: seq<nat>, start: nat) {
    ChainAt(d, g, ch) && ch[0] == start
  }

  ghost function FileBytes(d: seq<Sector>, g: Geometry, ch: seq<nat>): seq<Byte>
    requires ChainAt(d, g, ch)
  {
    Flat(SectorsOf(d, g, ch))
  }

  /** Bytes in the first `k` clusters of the chain. */
  ghost function BytesBefore(d: seq<Sector>, g: Geometry, ch: seq<nat>, k: nat): nat
    requires ChainAt(d, g, ch) && k <= |ch|
  {
    512 * |SectorsOf(d, g, ch[..k])|
  }

  lemma BytesStep(d: seq<Sector>, g: Geometry, ch: seq<nat>, k: nat)
    requires ChainAt(d, g, ch) && k < |ch|
    ensures BytesBefore(d, g, ch, k + 1) == BytesBefore(d, g, ch, k) + 512 * g.sectorsPerCluster
    ensures BytesBefore(d, g, ch, k + 1) <= |FileBytes(d, g, ch)|
    ensures k + 1 == |ch| ==> BytesBefore(d, g, ch, k + 1) == |FileBytes(d, g, ch)|
  {
    SectorsSplit(d, g, ch, k);
    SectorsSplit(d, g, ch[..k + 1], k);
    assert ch[..k + 1][..k] == ch[..k] && ch[..k + 1][k + 1..] == [];
    if k + 1 == |ch| {
      assert ch[..k + 1] == ch;
    }
  }

  lemma CopiedIsFile(d: seq<Sector>, g: Geometry, ch: seq<nat>, k: nat, y: nat, b: Byte)
    requires ChainAt(d, g, ch) && k < |ch| && InVolume(g, ch[k])
    requires y < 512 * g.sectorsPerCluster
    requires CopiedFrom(d, ClusterSector(g, ch[k]), y, b)
    ensures BytesBefore(d, g, ch, k) + y < |FileBytes(d, g, ch)|
    ensures b == FileBytes(d, g, ch)[BytesBefore(d, g, ch, k) + y]
  {
    SectorsSplit(d, g, ch, k);
    ClusterInside(g, |d|, ch[k]);
    var cluster := ClusterData(d, g, ch[k]);
    FlatOfMiddle(SectorsOf(d, g, ch[..k]), cluster, SectorsOf(d, g, ch[k + 1..]), y);
    assert cluster[y / 512] == d[ClusterSector(g, ch[k]) + y / 512];
  }

  lemma {:induction false} SectorCount(d: seq<Sector>, g: Geometry, ch: seq<nat>)
    requires Holds(d, g) && forall i :: 0 <= i < |ch| ==> InVolume(g, ch[i])
    ensures |SectorsOf(d, g, ch)| == |ch| * g.sectorsPerCluster
  {
    if ch != [] {
      SectorCount(d, g, ch[1..]);
      Distribute(|ch|, g.sectorsPerCluster);
    } else {
      assert 0 * g.sectorsPerCluster == 0;
    }
  }

  lemma Distribute(n: nat, m: nat)
    requires n > 0
    ensures n * m == m + (n - 1) * m
  {
  }

  lemma BytesBeforeExactly(d: seq<Sector>, g: Geometry, ch: seq<nat>, k: nat)
    requires ChainAt(d, g, ch) && k <= |ch|
    ensures BytesBefore(d, g, ch, k) == 512 * (k * g.sectorsPerCluster)
  {
    SectorCount(d, g, ch[..k]);
  }

  /** Byte `x` of the `k`th cluster of a file, counted in the file and on the disk. */
  lemma FileBytesOnDisk(d: seq<Sector>, g: Geometry, ch: seq<nat>, k: nat, x: nat)
    requires ChainAt(d, g, ch) && k < |ch| && x < 512 * g.sectorsPerCluster
    ensures var at := 512 * (g.partition + g.reserved + g.fats * g.fatSize + (ch[k] - 2) * g.sectorsPerCluster);
            var i := 512 * (k * g.sectorsPerCluster) + x;
            && 0 <= at && at + x < 512 * |d| && 0 <= i < |FileBytes(d, g, ch)|
            && FileBytes(d, g, ch)[i] == ByteAt(d, at + x)
  {
    FileByteInCluster(d, g, ch, k, x);
    BytesBeforeExactly(d, g, ch, k);
    ClusterBytes(d, g, ch[k], x);
  }

  lemma FileByteInCluster(d: seq<Sector>, g: Geometry, ch: seq<nat>, k: nat, x: nat)
    requires ChainAt(d, g, ch) && k < |ch| && x < 512 * g.sectorsPerCluster
    ensures InVolume(g, ch[k]) && BytesBefore(d, g, ch, k) + x < |FileBytes(d, g, ch)|
    ensures FileBytes(d, g, ch)[BytesBefore(d, g, ch, k) + x] == ClusterData(d, g, ch[k])[x / 512][x % 512]
  {
    ClusterInside(g, |d|, ch[k]);
    var b := ClusterData(d, g, ch[k])[x / 512][x % 512];
    assert CopiedFrom(d, ClusterSector(g, ch[k]), x, b);
    CopiedIsFile(d, g, ch, k, x, b);
  }

  /** One cluster of a well-formed chain, seen from the file. */
  method ReadChainCluster(v: Volume, current: nat, buffer: array<Byte>, bufferSize: nat, toRead: nat, total0: nat,
                          ghost chained: bool, ghost ch: seq<nat>, ghost k: nat, ghost before: seq<Byte>)
      returns (total: nat, failed: bool)
    requires v.Valid() && bufferSize <= buffer.Length && current < WORD
    requires total0 < toRead && total0 <= bufferSize
    requires chained ==> ChainAt(v.sectors, v.g, ch) && k < |ch| && current == ch[k]
    requires chained ==> total0 == Min(Min(bufferSize, toRead), BytesBefore(v.sectors, v.g, ch, k))
    requires chained ==> Holding(buffer[..], before, FileBytes(v.sectors, v.g, ch), total0)
    modifies buffer, v`transfers
    ensures v.Valid() && total0 <= total <= Min(bufferSize, toRead)
    ensures !failed && total0 < bufferSize ==> total > total0
    ensures old(v.Healthy()) ==> v.Healthy()
    ensures chained ==> Holding(buffer[..], before, FileBytes(v.sectors, v.g, ch), total)
    ensures chained && !failed ==> total == Min(Min(bufferSize, toRead), BytesBefore(v.sectors, v.g, ch, k + 1))
    ensures chained && old(v.Healthy()) ==> !failed
  {
    ghost var d, g := v.sectors, v.g;
    if chained {
      assert InVolume(g, ch[k]);
      ClusterSectorFits(g, |d|, current);
      BytesStep(d, g, ch, k);
    }
    total, failed := ReadClusterInto(v, SectorFor(v.g, current), buffer, bufferSize, toRead, total0);
    if chained {
      forall i | total0 <= i < total
        ensures i < |FileBytes(d, g, ch)| && buffer[i] == FileBytes(d, g, ch)[i]
      {
        CopiedIsFile(d, g, ch, k, i - total0, buffer[i]);
      }
    }
  }

  /** The loop from `start`, whatever the table, comes to an end of chain. */
  ghost predicate ComesToEnd(t: Table, start: nat) {
    exists n: nat :: Toward(t, start, n)
  }

  /** It has `n` turns to go. */
  ghost predicate Toward(t: Table, c: nat, n: nat) {
    c < |t| && Follow(t, c, n) == INVALID
  }

  lemma TurnTaken(t: Table, c: nat, n: nat)
    requires Toward(t, c, n) && Next(t, c) != INVALID
    ensures n > 0 && Toward(t, Next(t, c), n - 1)
  {
    var x := Next(t, c);
    assert n > 0 && Follow(t, c, n) == Follow(t, x, n - 1);
    OutStaysOut(t, x, n - 1);
  }

  /** A well-formed chain does. */
  lemma ChainComesToEnd(t: Table, ch: seq<nat>)
    requires IsChain(t, ch)
    ensures ComesToEnd(t, ch[0])
  {
    ChainEnds(t, ch);
    ChainAllocated(t, ch, ch[0]);
    assert Toward(t, ch[0], |ch|);
  }

  /** On a table without links out of range exactly the starts do that have come to an end after as
      many turns as the table has entries. */
  lemma ComesToEndExactly(t: Table, start: nat)
    requires start < |t| && forall c :: 0 <= c < |t| ==> t[c] < |t| || t[c] >= EOC_MIN
    ensures ComesToEnd(t, start) <==> Follow(t, start, |t|) == INVALID
  {
    LeavesAtEnd(t, start, |t|);
    if ComesToEnd(t, start) {
      var n: nat :| Toward(t, start, n);
      LeavesInTime(t, start, n);
    }
    if Follow(t, start, |t|) == INVALID {
      assert Toward(t, start, |t|);
    }
  }

  /** One turn of the loop: a cluster, then the way to the next one. */
  method ReadTurn(v: Volume, current0: nat, buffer: array<Byte>, bufferSize: nat, toRead: nat, total0: nat,
                  ghost chained: bool, ghost ch: seq<nat>, ghost k: nat, ghost before: seq<Byte>)
      returns (total: nat, current: nat, stop: bool)
    requires v.Valid() && bufferSize <= buffer.Length && current0 < WORD
    requires total0 < toRead && total0 <= bufferSize
    requires chained ==> ChainAt(v.sectors, v.g, ch) && k < |ch| && current0 == ch[k]
    requires chained ==> total0 == Min(Min(bufferSize, toRead), BytesBefore(v.sectors, v.g, ch, k))
    requires chained ==> Holding(buffer[..], before, FileBytes(v.sectors, v.g, ch), total0)
    modifies buffer, v`transfers
    ensures v.Valid() && total0 <= total <= Min(bufferSize, toRead) && current < WORD
    ensures !stop && total0 < bufferSize ==> total > total0
    ensures !stop ==> current != INVALID
    ensures !stop && current0 < TotalClusters(v.g) ==> current == Next(TableOf(v.sectors, v.g), current0)
    ensures old(v.Healthy()) ==> v.Healthy()
    ensures chained ==> Holding(buffer[..], before, FileBytes(v.sectors, v.g, ch), total)
    ensures chained && !stop ==> k + 1 < |ch| && current == ch[k + 1]
    ensures chained && !stop ==> total == Min(Min(bufferSize, toRead), BytesBefore(v.sectors, v.g, ch, k + 1))
    ensures chained && stop && old(v.Healthy()) ==>
              total == Min(Min(bufferSize, toRead), |FileBytes(v.sectors, v.g, ch)|)
  {
    current := current0;
    total, stop := ReadChainCluster(v, current, buffer, bufferSize, toRead, total0, chained, ch, k, before);
    if stop {
      return;
    }
    if chained {
      BytesStep(v.sectors, v.g, ch, k);
      ChainLink(TableOf(v.sectors, v.g), ch, k);
    }
    current := v.NextInChain(current);
    stop := (EOC_MIN <= current <= EOC_MAX) || current == INVALID;
  }

  /** `read_file_data`.  On a well-formed chain the buffer receives the file's first bytes, as
      many as the request, the buffer and the chain allow; a transfer error shortens that.  A
      buffer as large as the request makes it terminate on any table at all, a smaller one on every
      table on which the loop from the start comes to an end. */
  method ReadFileData(v: Volume, start: nat, buffer: array?<Byte>, bufferSize: nat, toRead: nat, ghost ch: seq<nat>)
      returns (total: nat)
    requires v.Valid() && start < WORD && bufferSize < WORD && toRead < WORD
    requires buffer != null ==> bufferSize <= buffer.Length
    requires toRead <= bufferSize || ComesToEnd(TableOf(v.sectors, v.g), start)
    modifies buffer, v`transfers
    ensures v.Valid() && total <= Min(bufferSize, toRead)
    ensures buffer == null ==> total == 0
    ensures buffer != null && FileAt(v.sectors, v.g, ch, start) ==>
              Holding(buffer[..], old(buffer[..]), FileBytes(v.sectors, v.g, ch), total)
    ensures buffer != null && FileAt(v.sectors, v.g, ch, start) && old(v.Healthy()) ==>
              total == Min(Min(bufferSize, toRead), |FileBytes(v.sectors, v.g, ch)|)
  {
    if buffer == null || bufferSize == 0 || toRead == 0 {
      return 0;
    }
    ghost var turns: nat := 0;
    if toRead > bufferSize {
      ghost var n: nat :| Toward(TableOf(v.sectors, v.g), start, n);
      turns := n;
    }
    total := ReadLoop(v, start, buffer, bufferSize, toRead, ch, turns);
  }

  /** Its loop. */
  method ReadLoop(v: Volume, start: nat, buffer: array<Byte>, bufferSize: nat, toRead: nat, ghost ch: seq<nat>,
                  ghost turns0: nat) returns (total: nat)
    requires v.Valid() && start < WORD && 0 < bufferSize <= buffer.Length && 0 < toRead
    requires toRead <= bufferSize || Toward(TableOf(v.sectors, v.g), start, turns0)
    modifies buffer, v`transfers
    ensures v.Valid() && total <= Min(bufferSize, toRead)
    ensures FileAt(v.sectors, v.g, ch, start) ==>
              Holding(buffer[..], old(buffer[..]), FileBytes(v.sectors, v.g, ch), total)
    ensures FileAt(v.sectors, v.g, ch, start) && old(v.Healthy()) ==>
              total == Min(Min(bufferSize, toRead), |FileBytes(v.sectors, v.g, ch)|)
  {
    ghost var d, g, before := v.sectors, v.g, buffer[..];
    ghost var chained, t := FileAt(d, g, ch, start), TableOf(d, g);
    var current: nat := start;
    total := 0;
    ghost var k: nat, turns: nat := 0, turns0;
    while total < toRead
      invariant v.Valid() && v.sectors == d && current < WORD && total <= Min(bufferSize, toRead)
      invariant old(v.Healthy()) ==> v.Healthy()
      invariant chained ==> 0 <= k < |ch| && current == ch[k]
      invariant chained ==> total == Min(Min(bufferSize, toRead), BytesBefore(d, g, ch, k))
      invariant chained ==> Holding(buffer[..], before, FileBytes(d, g, ch), total)
      invariant toRead > bufferSize ==> Toward(t, current, turns)
      decreases if toRead > bufferSize then turns else toRead - total
    {
      var stop;
      ghost var was := current;
      total, current, stop := ReadTurn(v, current, buffer, bufferSize, toRead, total, chained, ch, k, before);
      if stop {
        return;
      }
      k := k + 1;
      if toRead > bufferSize {
        TurnTaken(t, was, turns);
        turns := turns - 1;
      }
    }
    if chained && k < |ch| {
      BytesStep(d, g, ch, k);
    }
  }
}
