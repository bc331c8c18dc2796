/** Where a FAT32 volume keeps things on disk, and how the table is read out of the bytes. */
module FatLayout {

  import opened Bytes
  import opened FatChain

  /** The boot-sector fields the driver uses, with the partition's first sector. */
  datatype Geometry = Geometry(
    bytesPerSector: nat, sectorsPerCluster: nat, reserved: nat, fats: nat, fatSize: nat,
    rootEntries: nat, totalSectors: nat, partition: nat, infoSector: nat)

  /** `get_total_clusters`, in 32-bit arithmetic. */
  function TotalClusters(g: Geometry): nat {
    if g.sectorsPerCluster == 0 then 2
    else Wrap(g.totalSectors - g.reserved - Wrap(g.fats * g.fatSize)) / g.sectorsPerCluster
  }

  /** A FAT32 volume lying inside a disk of `size` sectors that 28-bit addresses can reach:
      512-byte sectors, no fixed root directory, and a table large enough for the clusters. */
  predicate WellFormed(g: Geometry, size: nat) {
    && g.bytesPerSector == 512
    && 1 <= g.sectorsPerCluster < 256
    && 1 <= g.fats < 256
    && g.rootEntries == 0
    && g.partition + g.totalSectors <= size <= 0x1000_0000
    && g.reserved + g.fats * g.fatSize <= g.totalSectors
    && 4 * TotalClusters(g) <= 512 * g.fatSize
    && TotalClusters(g) < EOC_MIN
  }

  /** `is_valid_cluster`. */
  predicate IsValidCluster(g: Geometry, c: nat) {
    c >= 2 && (c >= EOC_MIN || c < TotalClusters(g))
  }

  /** End-of-chain marks and everything above them pass for valid; below them exactly the clusters in
      range do. */
  lemma ValidExactly(g: Geometry, c: nat)
    ensures IsValidCluster(g, c) <==> c >= 0x0FFF_FFF8 || (c >= 2 && c < TotalClusters(g))
  {
  }

  // ---------------------------------------------------------------- addresses

  /** Sector `i` of FAT copy `k`. */
  function CopySector(g: Geometry, k: nat, i: nat): nat {
    g.partition + g.reserved + k * g.fatSize + i
  }

  /** Sector of a FAT copy, and offset in it, where the entry of cluster `c` lies. */
  function EntrySector(c: nat): nat {
    4 * c / 512
  }

  function EntryOffset(c: nat): (at: nat)
    ensures at + 4 <= 512
  {
    4 * c % 512
  }

  /** The sector of FAT copy `k` that holds the entry of cluster `c`. */
  function FatSector(g: Geometry, k: nat, c: nat): nat {
    CopySector(g, k, EntrySector(c))
  }

  /** `get_first_data_sector`; `cluster_to_sector` leaves the root directory out. */
  function FirstDataSector(g: Geometry): nat
    requires g.bytesPerSector > 0
  {
    var rootDirSectors := (g.rootEntries * 32 + (g.bytesPerSector - 1)) / g.bytesPerSector;
    CopySector(g, g.fats, 0) + rootDirSectors
  }

  /** `cluster_to_sector` of an in-range cluster. */
  function ClusterSector(g: Geometry, c: nat): nat
    requires c >= 2
  {
    g.partition + (c - 2) * g.sectorsPerCluster + g.reserved + g.fats * g.fatSize
  }

  /** Cluster data begins with cluster 2, right behind the last FAT copy, and each cluster follows
      the one before it. */
  lemma ClustersFollow(g: Geometry, c: nat)
    requires c >= 2
    ensures ClusterSector(g, 2) == g.partition + g.reserved + g.fats * g.fatSize
    ensures ClusterSector(g, c + 1) == ClusterSector(g, c) + g.sectorsPerCluster
  {
    var n, m := c - 2, g.sectorsPerCluster;
    assert (n + 1) * m == n * m + m;
  }

  /** The first data sector leaves room for a fixed root directory of 32-byte entries behind the
      last FAT copy, and not a sector more. */
  lemma RootDirectoryFits(g: Geometry)
    requires g.bytesPerSector > 0
    ensures var room := FirstDataSector(g) - (g.partition + g.reserved + g.fats * g.fatSize);
            && room >= 0 && room * g.bytesPerSector >= 32 * g.rootEntries
            && (room - 1) * g.bytesPerSector < 32 * g.rootEntries
  {
    var m, n := g.bytesPerSector, 32 * g.rootEntries + (g.bytesPerSector - 1);
    var q := n / m;
    assert n == q * m + n % m;
    assert (q - 1) * m == q * m - m;
  }

  /** As many whole clusters as the sectors behind the FAT copies hold, counted in 32 bits; a boot
      sector without a cluster size has none that is in range. */
  lemma TotalClustersExactly(g: Geometry)
    ensures g.sectorsPerCluster == 0 ==> TotalClusters(g) == 2
    ensures g.sectorsPerCluster > 0 ==>
              var sectors := (g.totalSectors - g.reserved - g.fats * g.fatSize) % 0x1_0000_0000;
              TotalClusters(g) * g.sectorsPerCluster <= sectors < (TotalClusters(g) + 1) * g.sectorsPerCluster
  {
    if g.sectorsPerCluster > 0 {
      WrapTwice(g.totalSectors - g.reserved, g.fats * g.fatSize);
      QuotientBounds((g.totalSectors - g.reserved - g.fats * g.fatSize) % 0x1_0000_0000, g.sectorsPerCluster);
    }
  }

  lemma QuotientBounds(n: nat, m: nat)
    requires m > 0
    ensures n / m * m <= n < (n / m + 1) * m
  {
    assert n == n / m * m + n % m;
    assert (n / m + 1) * m == n / m * m + m;
  }

  lemma WrapTwice(a: int, b: int)
    ensures Wrap(a - Wrap(b)) == (a - b) % 0x1_0000_0000
  {
    assert a - Wrap(b) == (a - b) + WORD * (b / WORD);
  }

  /** The sectors written by `write_cluster` are those read by `read_cluster` exactly when the
      boot sector declares no fixed root directory. */
  lemma ClusterAddressesAgree(g: Geometry, c: nat)
    requires g.bytesPerSector > 0 && c >= 2
    ensures (c - 2) * g.sectorsPerCluster + FirstDataSector(g) == ClusterSector(g, c)
       <==> g.rootEntries == 0
  {
    var n := g.rootEntries * 32 + (g.bytesPerSector - 1);
    if g.rootEntries == 0 {
      assert n / g.bytesPerSector == 0;
    } else {
      QuotientPositive(n, g.bytesPerSector);
    }
  }

  lemma QuotientPositive(n: nat, d: nat)
    requires 0 < d <= n
    ensures n / d >= 1
  {
  }

  lemma MulMono(a: nat, b: nat, m: nat)
    requires a <= b
    ensures a * m <= b * m
  {
  }

  /** The FAT area of the disk. */
  predicate InFatArea(g: Geometry, x: int) {
    CopySector(g, 0, 0) <= x < CopySector(g, g.fats, 0)
  }

  lemma CopiesInside(g: Geometry, size: nat, k: nat, i: nat)
    requires WellFormed(g, size) && k < g.fats && i < g.fatSize
    ensures CopySector(g, k, i) < CopySector(g, g.fats, 0) <= size
    ensures InFatArea(g, CopySector(g, k, i))
  {
    MulMono(0, k, g.fatSize);
    MulMono(k + 1, g.fats, g.fatSize);
  }

  lemma CopiesApart(g: Geometry, k: nat, i: nat, k': nat, i': nat)
    requires i < g.fatSize && i' < g.fatSize
    requires CopySector(g, k, i) == CopySector(g, k', i')
    ensures k == k' && i == i'
  {
    if k < k' {
      MulMono(k + 1, k', g.fatSize);
    } else if k' < k {
      MulMono(k' + 1, k, g.fatSize);
    }
  }

  lemma EntryInside(g: Geometry, size: nat, k: nat, c: nat)
    requires WellFormed(g, size) && k < g.fats && c < TotalClusters(g)
    ensures EntrySector(c) < g.fatSize
    ensures FatSector(g, k, c) < CopySector(g, g.fats, 0) <= size
  {
    CopiesInside(g, size, k, EntrySector(c));
  }

  /** Where the driver's 32-bit arithmetic looks for an entry. */
  function EntryLba(g: Geometry, c: nat): nat {
    g.partition + g.reserved + Wrap(4 * c) / 512
  }

  function EntryByte(c: nat): (at: nat)
    ensures at + 4 <= 512
  {
    Wrap(4 * c) % 512
  }

  lemma EntryAddress(g: Geometry, size: nat, c: nat)
    requires WellFormed(g, size) && c < TotalClusters(g)
    ensures EntryLba(g, c) == FatSector(g, 0, c) < size && EntryByte(c) == EntryOffset(c)
  {
    EntryInside(g, size, 0, c);
    assert 0 * g.fatSize == 0;
  }

  lemma ClusterInside(g: Geometry, size: nat, c: nat)
    requires WellFormed(g, size) && 2 <= c < TotalClusters(g)
    ensures CopySector(g, g.fats, 0) <= ClusterSector(g, c)
    ensures ClusterSector(g, c) + g.sectorsPerCluster <= size
  {
    var before := (c - 2) * g.sectorsPerCluster;
    ClusterBelow(g, size, c);
    assert ClusterSector(g, c) == g.partition + before + g.reserved + g.fats * g.fatSize;
  }

  lemma ClusterBelow(g: Geometry, size: nat, c: nat)
    requires WellFormed(g, size) && 2 <= c < TotalClusters(g)
    ensures 0 <= (c - 2) * g.sectorsPerCluster
    ensures (c - 2) * g.sectorsPerCluster + g.sectorsPerCluster <= g.totalSectors - g.reserved - g.fats * g.fatSize
  {
    TotalExact(g, size);
    BelowQuotient(c - 2, g.totalSectors - g.reserved - g.fats * g.fatSize, g.sectorsPerCluster);
    MulMono(0, c - 2, g.sectorsPerCluster);
  }

  /** On a well-formed volume the 32-bit arithmetic of the cluster count does not wrap. */
  lemma TotalExact(g: Geometry, size: nat)
    requires WellFormed(g, size)
    ensures g.totalSectors - g.reserved - g.fats * g.fatSize >= 0
    ensures TotalClusters(g) == (g.totalSectors - g.reserved - g.fats * g.fatSize) / g.sectorsPerCluster
  {
    assert g.fats * g.fatSize >= 0;
  }

  lemma BelowQuotient(k: nat, n: nat, m: nat)
    requires m > 0 && k + 1 <= n / m
    ensures k * m + m <= n
  {
    MulMono(k + 1, n / m, m);
    assert n == n / m * m + n % m;
  }

  lemma ClustersApart(g: Geometry, c: nat, c': nat)
    requires 2 <= c < c'
    ensures ClusterSector(g, c) + g.sectorsPerCluster <= ClusterSector(g, c')
  {
    MulMono(c - 1, c' - 2, g.sectorsPerCluster);
    assert (c - 1) * g.sectorsPerCluster == (c - 2) * g.sectorsPerCluster + g.sectorsPerCluster;
  }

  // ---------------------------------------------------------------- the table in the bytes

  predicate Holds(d: seq<Sector>, g: Geometry) {
    WellFormed(g, |d|)
  }

  /** The 32-bit entry of cluster `c` in FAT copy `k`. */
  function RawEntry(d: seq<Sector>, g: Geometry, k: nat, c: nat): (e: nat)
    requires Holds(d, g) && k < g.fats && c < TotalClusters(g)
    ensures e < WORD
  {
    EntryInside(g, |d|, k, c);
    Le32(d[FatSector(g, k, c)], EntryOffset(c))
  }

  /** The table every reader sees: the first copy, high four bits masked off. */
  function TableOf(d: seq<Sector>, g: Geometry): (t: Table)
    requires Holds(d, g)
  {
    seq(TotalClusters(g), c requires 0 <= c < TotalClusters(g) => RawEntry(d, g, 0, c) % 0x1000_0000)
  }

  /** Byte `x` of the disk, counted from its beginning. */
  function ByteAt(d: seq<Sector>, x: nat): Byte
    requires x < 512 * |d|
  {
    d[x / 512][x % 512]
  }

  /** Byte `i` of the entry of cluster `c` in copy `k` lies four bytes per cluster into the copy. */
  lemma EntryBytes(d: seq<Sector>, g: Geometry, k: nat, c: nat, i: nat)
    requires Holds(d, g) && k < g.fats && c < TotalClusters(g) && i < 4
    ensures var at := 512 * (g.partition + g.reserved + k * g.fatSize) + 4 * c;
            && 0 <= at && at + 4 <= 512 * |d| && FatSector(g, k, c) < |d|
            && d[FatSector(g, k, c)][EntryOffset(c) + i] == ByteAt(d, at + i)
  {
    EntryInside(g, |d|, k, c);
    MulMono(0, k, g.fatSize);
    EntryPlace(CopySector(g, k, 0), c, i);
  }

  lemma EntryPlace(base: nat, c: nat, i: nat)
    requires i < 4
    ensures (512 * base + 4 * c + i) / 512 == base + EntrySector(c)
    ensures (512 * base + 4 * c + i) % 512 == EntryOffset(c) + i
  {
    var q, m := c / 128, c % 128;
    SectorPlace(4 * c, q, 4 * m);
    SectorPlace(512 * base + 4 * c + i, base + q, 4 * m + i);
  }

  lemma SectorPlace(x: nat, sector: nat, off: nat)
    requires x == 512 * sector + off && off < 512
    ensures x / 512 == sector && x % 512 == off
  {
  }

  /** The table read straight off the bytes of the disk: four bytes per cluster from the first FAT
      copy on, least significant first, the top four bits dropped. */
  lemma TableFromBytes(d: seq<Sector>, g: Geometry, c: nat)
    requires Holds(d, g) && c < TotalClusters(g)
    ensures var at := 512 * (g.partition + g.reserved) + 4 * c;
            && at + 4 <= 512 * |d|
            && TableOf(d, g)[c]
               == Le32([ByteAt(d, at), ByteAt(d, at + 1), ByteAt(d, at + 2), ByteAt(d, at + 3) % 16], 0)
  {
    EntryBytes(d, g, 0, c, 0);
    EntryBytes(d, g, 0, c, 1);
    EntryBytes(d, g, 0, c, 2);
    EntryBytes(d, g, 0, c, 3);
    assert 0 * g.fatSize == 0;
    MaskedWord(d[FatSector(g, 0, c)], EntryOffset(c));
  }

  lemma MaskedWord(s: Sector, at: nat)
    requires at + 4 <= 512
    ensures Le32(s, at) % 0x1000_0000 == Le32([s[at], s[at + 1], s[at + 2], s[at + 3] % 16], 0)
  {
    var top: int := s[at + 3];
    var low := Le32([s[at], s[at + 1], s[at + 2], s[at + 3] % 16], 0);
    assert Le32(s, at) == low + 0x1000_0000 * (top / 16);
  }

  /** All FAT copies are the same. */
  ghost predicate Mirrored(d: seq<Sector>, g: Geometry)
    requires Holds(d, g)
  {
    forall k: nat, i: nat {:trigger CopySector(g, k, i)} :: k < g.fats && i < g.fatSize ==>
      CopySector(g, k, i) < |d| && CopySector(g, 0, i) < |d| &&
      d[CopySector(g, k, i)] == d[CopySector(g, 0, i)]
  }

  /** The high four bits of `was` with the low twenty-eight of `value`. */
  function Merge(was: nat, value: nat): (r: nat)
    requires was < WORD
    ensures r < WORD && r % 0x1000_0000 == value % 0x1000_0000 && r / 0x1000_0000 == was / 0x1000_0000
  {
    was / 0x1000_0000 * 0x1000_0000 + value % 0x1000_0000
  }

  /** A FAT sector with one entry's low bits replaced. */
  function Patched(s: Sector, at: nat, value: nat): Sector
    requires at + 4 <= 512
  {
    Splice(s, at, Le32Bytes(Merge(Le32(s, at), value)))
  }

  /** `d` with `data` stored as sector `i` of the first `n` FAT copies. */
  ghost function Mirror(d: seq<Sector>, g: Geometry, i: nat, data: Sector, n: nat): (r: seq<Sector>)
    requires Holds(d, g) && i < g.fatSize && n <= g.fats
    ensures |r| == |d|
  {
    if n == 0 then d
    else
      CopiesInside(g, |d|, n - 1, i);
      Mirror(d, g, i, data, n - 1)[CopySector(g, n - 1, i) := data]
  }

  lemma {:induction false} MirrorAt(d: seq<Sector>, g: Geometry, i: nat, data: Sector, n: nat, x: nat)
    requires Holds(d, g) && i < g.fatSize && n <= g.fats && x < |d|
    ensures (exists k: nat :: k < n && x == CopySector(g, k, i)) ==> Mirror(d, g, i, data, n)[x] == data
    ensures (forall k: nat :: k < n ==> x != CopySector(g, k, i)) ==> Mirror(d, g, i, data, n)[x] == d[x]
    decreases n
  {
    if n > 0 {
      MirrorAt(d, g, i, data, n - 1, x);
      if x != CopySector(g, n - 1, i) {
        assert (exists k: nat :: k < n && x == CopySector(g, k, i))
          ==> (exists k: nat :: k < n - 1 && x == CopySector(g, k, i));
      }
    }
  }

  lemma MirrorCopies(d: seq<Sector>, g: Geometry, i: nat, data: Sector, n: nat, k: nat, j: nat)
    requires Holds(d, g) && i < g.fatSize && n <= g.fats && k < g.fats && j < g.fatSize
    ensures CopySector(g, k, j) < |d|
    ensures Mirror(d, g, i, data, n)[CopySector(g, k, j)]
         == if j == i && k < n then data else d[CopySector(g, k, j)]
  {
    CopiesInside(g, |d|, k, j);
    var x := CopySector(g, k, j);
    MirrorAt(d, g, i, data, n, x);
    forall k': nat | k' < n && x == CopySector(g, k', i)
      ensures k' == k && i == j
    {
      CopiesApart(g, k, j, k', i);
    }
  }

  /** The disk after `mark_cluster_in_fat(c, value)` has succeeded: the patched sector of the
      first copy, stored in every copy. */
  ghost function Marked(d: seq<Sector>, g: Geometry, c: nat, value: nat): (r: seq<Sector>)
    requires Holds(d, g) && c < TotalClusters(g)
    ensures |r| == |d|
  {
    EntryInside(g, |d|, 0, c);
    Mirror(d, g, EntrySector(c), Patched(d[FatSector(g, 0, c)], EntryOffset(c), value), g.fats)
  }

  /** On a mirrored volume the raw entries of every copy change as one map update that keeps
      the high four bits. */
  lemma MarkEntry(d: seq<Sector>, g: Geometry, c: nat, value: nat, k: nat, x: nat)
    requires Holds(d, g) && c < TotalClusters(g) && k < g.fats && x < TotalClusters(g)
    requires k == 0 || Mirrored(d, g)
    ensures RawEntry(Marked(d, g, c, value), g, k, x)
         == if x == c then Merge(RawEntry(d, g, k, c), value) else RawEntry(d, g, k, x)
  {
    EntryInside(g, |d|, 0, c);
    EntryInside(g, |d|, k, x);
    EntryInside(g, |d|, k, c);
    var i, j, at := EntrySector(c), EntrySector(x), EntryOffset(c);
    var first := d[CopySector(g, 0, i)];
    var data := Patched(first, at, value);
    MirrorCopies(d, g, i, data, g.fats, k, j);
    if j == i {
      assert d[CopySector(g, k, i)] == first;
      if x != c { EntriesApart(c, x); }
      WordAfterSplice(first, at, Merge(Le32(first, at), value), EntryOffset(x));
    }
  }

  lemma EntriesApart(c: nat, x: nat)
    requires EntrySector(c) == EntrySector(x) && c != x
    ensures EntryOffset(c) + 4 <= EntryOffset(x) || EntryOffset(x) + 4 <= EntryOffset(c)
  {
  }

  /** A successful mark is one update of the table, mirrored or not. */
  lemma MarkIsMapUpdate(d: seq<Sector>, g: Geometry, c: nat, value: nat)
    requires Holds(d, g) && c < TotalClusters(g)
    ensures TableOf(Marked(d, g, c, value), g) == TableOf(d, g)[c := value % 0x1000_0000]
  {
    forall x: nat | x < TotalClusters(g)
      ensures TableOf(Marked(d, g, c, value), g)[x] == TableOf(d, g)[c := value % 0x1000_0000][x]
    {
      MarkEntry(d, g, c, value, 0, x);
    }
  }

  lemma MarkKeepsMirrors(d: seq<Sector>, g: Geometry, c: nat, value: nat)
    requires Holds(d, g) && c < TotalClusters(g) && Mirrored(d, g)
    ensures Mirrored(Marked(d, g, c, value), g)
  {
    EntryInside(g, |d|, 0, c);
    var i := EntrySector(c);
    var data := Patched(d[FatSector(g, 0, c)], EntryOffset(c), value);
    forall k: nat, j: nat | k < g.fats && j < g.fatSize
      ensures CopySector(g, k, j) < |d| && CopySector(g, 0, j) < |d|
      ensures Marked(d, g, c, value)[CopySector(g, k, j)] == Marked(d, g, c, value)[CopySector(g, 0, j)]
    {
      MirrorCopies(d, g, i, data, g.fats, k, j);
      MirrorCopies(d, g, i, data, g.fats, 0, j);
    }
  }

  /** Two sectors agree except possibly in the low 28 bits of the word at `at`. */
  ghost predicate AgreeBeside(a: Sector, b: Sector, at: nat)
    requires at + 4 <= 512
  {
    && (forall i :: 0 <= i < 512 && !(at <= i < at + 4) ==> a[i] == b[i])
    && Le32(a, at) / 0x1000_0000 == Le32(b, at) / 0x1000_0000
  }

  /** Every byte outside the marked entries stays, wherever it is, and in copy `k` nothing but
      the low 28 bits of the entry changes exactly when that copy agreed with the first one
      beside the entry. */
  lemma MarkTouchesOnlyTheEntry(d: seq<Sector>, g: Geometry, c: nat, value: nat, k: nat)
    requires Holds(d, g) && c < TotalClusters(g) && k < g.fats
    ensures FatSector(g, k, c) < |d| && FatSector(g, 0, c) < |d|
    ensures AgreeBeside(Marked(d, g, c, value)[FatSector(g, k, c)], d[FatSector(g, k, c)], EntryOffset(c))
       <==> AgreeBeside(d[FatSector(g, 0, c)], d[FatSector(g, k, c)], EntryOffset(c))
    ensures forall x: nat :: x < |d| && (forall j: nat :: j < g.fats ==> x != FatSector(g, j, c)) ==>
              Marked(d, g, c, value)[x] == d[x]
  {
    EntryInside(g, |d|, 0, c);
    EntryInside(g, |d|, k, c);
    var i, at := EntrySector(c), EntryOffset(c);
    var first := d[FatSector(g, 0, c)];
    var data := Patched(first, at, value);
    WordAfterSplice(first, at, Merge(Le32(first, at), value), at);
    MirrorCopies(d, g, i, data, g.fats, k, i);
    assert AgreeBeside(data, first, at);
    forall x: nat | x < |d| && (forall j: nat :: j < g.fats ==> x != FatSector(g, j, c))
      ensures Marked(d, g, c, value)[x] == d[x]
    {
      assert forall j: nat :: j < g.fats ==> FatSector(g, j, c) == CopySector(g, j, i);
      MirrorAt(d, g, i, data, g.fats, x);
    }
  }

  /** Nothing outside the FAT area differs. */
  ghost predicate SameOutsideFat(d: seq<Sector>, d': seq<Sector>, g: Geometry) {
    |d'| == |d| && forall x: nat :: x < |d| && !InFatArea(g, x) ==> d'[x] == d[x]
  }

  lemma MirrorStaysInFat(d: seq<Sector>, g: Geometry, i: nat, data: Sector, n: nat, x: nat)
    requires Holds(d, g) && i < g.fatSize && n <= g.fats && x < |d| && !InFatArea(g, x)
    ensures Mirror(d, g, i, data, n)[x] == d[x]
  {
    forall k: nat | k < n
      ensures x != CopySector(g, k, i)
    {
      CopiesInside(g, |d|, k, i);
    }
    MirrorAt(d, g, i, data, n, x);
  }

  lemma MarkStaysInFat(d: seq<Sector>, g: Geometry, c: nat, value: nat)
    requires Holds(d, g) && c < TotalClusters(g)
    ensures SameOutsideFat(d, Marked(d, g, c, value), g)
  {
    EntryInside(g, |d|, 0, c);
    var data := Patched(d[FatSector(g, 0, c)], EntryOffset(c), value);
    forall x: nat | x < |d| && !InFatArea(g, x)
      ensures Marked(d, g, c, value)[x] == d[x]
    {
      MirrorStaysInFat(d, g, EntrySector(c), data, g.fats, x);
    }
  }

  /** The table depends on the FAT area alone. */
  lemma TableFrame(d: seq<Sector>, d': seq<Sector>, g: Geometry)
    requires Holds(d, g) && |d'| == |d|
    requires forall x: nat :: x < |d| && InFatArea(g, x) ==> d'[x] == d[x]
    ensures TableOf(d', g) == TableOf(d, g)
  {
    forall c: nat | c < TotalClusters(g)
      ensures RawEntry(d', g, 0, c) == RawEntry(d, g, 0, c)
    {
      EntryInside(g, |d|, 0, c);
      assert InFatArea(g, FatSector(g, 0, c));
    }
  }

  /** At most sector `lba` differs. */
  ghost predicate OnlySector(d: seq<Sector>, d': seq<Sector>, lba: nat) {
    |d'| == |d| && forall x :: 0 <= x < |d| && x != lba ==> d'[x] == d[x]
  }

  lemma InfoSectorFrame(d: seq<Sector>, d': seq<Sector>, g: Geometry)
    requires Holds(d, g) && OnlySector(d, d', g.partition + g.infoSector) && g.infoSector < g.reserved
    ensures TableOf(d', g) == TableOf(d, g) && g.partition + g.infoSector < |d|
  {
    assert CopySector(g, 0, 0) == g.partition + g.reserved;
    TableFrame(d, d', g);
  }
}
