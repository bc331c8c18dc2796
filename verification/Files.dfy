/** The driver's directory and file operations on the bytes of a mounted volume, each proved
    to do to the disk what `Directory` says it does to the directory and the table. */
module Files {

  import opened Bytes
  import opened FatChain
  import opened FatLayout
  import opened ShortNames
  import opened Directory
  import opened Volumes

  // ---------------------------------------------------------------- slots in the bytes

  /** Slot `n` of a cluster buffer: sixteen 32-byte slots to a sector. */
  function SlotAt(buf: seq<Sector>, n: nat): Slot
    requires n < 16 * |buf|
  {
    buf[n / 16][32 * (n % 16)..32 * (n % 16) + 32]
  }

  function SlotsIn(buf: seq<Sector>): seq<Slot> {
    seq(16 * |buf|, n requires 0 <= n < 16 * |buf| => SlotAt(buf, n))
  }

  function PutSlot(buf: seq<Sector>, n: nat, s: Slot): (r: seq<Sector>)
    requires n < 16 * |buf|
    ensures |r| == |buf|
  {
    buf[n / 16 := Splice(buf[n / 16], 32 * (n % 16), s)]
  }

  lemma PutSlotAt(buf: seq<Sector>, n: nat, s: Slot, m: nat)
    requires n < 16 * |buf| && m < 16 * |buf|
    ensures SlotAt(PutSlot(buf, n, s), m) == if m == n then s else SlotAt(buf, m)
  {
    var sector := Splice(buf[n / 16], 32 * (n % 16), s);
    if m / 16 == n / 16 {
      var i, j := n % 16, m % 16;
      assert i == j <==> n == m;
      assert i < j ==> 32 * i + 32 <= 32 * j;
      assert j < i ==> 32 * j + 32 <= 32 * i;
      assert sector[32 * j..32 * j + 32] == if i == j then s else buf[n / 16][32 * j..32 * j + 32];
    }
  }

  lemma PutSlotUpdates(buf: seq<Sector>, n: nat, s: Slot)
    requires n < 16 * |buf|
    ensures SlotsIn(PutSlot(buf, n, s)) == SlotsIn(buf)[n := s]
  {
    forall m | 0 <= m < 16 * |buf|
      ensures SlotsIn(PutSlot(buf, n, s))[m] == SlotsIn(buf)[n := s][m]
    {
      PutSlotAt(buf, n, s, m);
    }
  }

  predicate InVolume(g: Geometry, c: int) {
    2 <= c < TotalClusters(g)
  }

  function ClusterData(d: seq<Sector>, g: Geometry, c: nat): (buf: seq<Sector>)
    requires Holds(d, g) && InVolume(g, c)
    ensures |buf| == g.sectorsPerCluster
  {
    ClusterInside(g, |d|, c);
    d[ClusterSector(g, c)..ClusterSector(g, c) + g.sectorsPerCluster]
  }

  /** Byte `x` of a cluster's data, counted on the disk: cluster 2 comes right behind the FAT copies
      and each cluster right behind the one before it. */
  lemma ClusterBytes(d: seq<Sector>, g: Geometry, c: nat, x: nat)
    requires Holds(d, g) && InVolume(g, c) && x < 512 * g.sectorsPerCluster
    ensures var at := 512 * (g.partition + g.reserved + g.fats * g.fatSize + (c - 2) * g.sectorsPerCluster);
            && 0 <= at && at + x < 512 * |d|
            && ClusterData(d, g, c)[x / 512][x % 512] == ByteAt(d, at + x)
  {
    ClusterInside(g, |d|, c);
    MulMono(0, c - 2, g.sectorsPerCluster);
    var start := ClusterSector(g, c);
    SectorPlace(512 * start + x, start + x / 512, x % 512);
  }

  /** Byte `j` of slot `n` of a directory cluster lies 32 bytes per slot into the cluster. */
  lemma SlotBytes(d: seq<Sector>, g: Geometry, c: nat, n: nat, j: nat)
    requires Holds(d, g) && InVolume(g, c) && n < 16 * g.sectorsPerCluster && j < 32
    ensures var at := 512 * (g.partition + g.reserved + g.fats * g.fatSize + (c - 2) * g.sectorsPerCluster);
            && 0 <= at && at + 32 * n + j < 512 * |d|
            && SlotAt(ClusterData(d, g, c), n)[j] == ByteAt(d, at + 32 * n + j)
  {
    var q, m := n / 16, n % 16;
    SectorPlace(32 * n + j, q, 32 * m + j);
    ClusterBytes(d, g, c, 32 * n + j);
  }

  /** The slots of a directory, cluster after cluster. */
  function SlotsOf(d: seq<Sector>, g: Geometry, ch: seq<nat>): seq<Slot>
    requires Holds(d, g) && forall i :: 0 <= i < |ch| ==> InVolume(g, ch[i])
  {
    if ch == [] then [] else SlotsIn(ClusterData(d, g, ch[0])) + SlotsOf(d, g, ch[1..])
  }

  lemma {:induction false} SlotsSplit(d: seq<Sector>, g: Geometry, ch: seq<nat>, k: nat)
    requires Holds(d, g) && (forall i :: 0 <= i < |ch| ==> InVolume(g, ch[i])) && k < |ch|
    ensures SlotsOf(d, g, ch)
         == SlotsOf(d, g, ch[..k]) + SlotsIn(ClusterData(d, g, ch[k])) + SlotsOf(d, g, ch[k + 1..])
    decreases k
  {
    if k > 0 {
      SlotsSplit(d, g, ch[1..], k - 1);
      assert ch[1..][..k - 1] == ch[..k][1..] && ch[1..][k..] == ch[k + 1..];
    }
  }

  lemma {:induction false} SlotsFrame(d: seq<Sector>, d': seq<Sector>, g: Geometry, ch: seq<nat>)
    requires Holds(d, g) && |d'| == |d| && forall i :: 0 <= i < |ch| ==> InVolume(g, ch[i])
    requires forall i :: 0 <= i < |ch| ==> ClusterData(d', g, ch[i]) == ClusterData(d, g, ch[i])
    ensures SlotsOf(d', g, ch) == SlotsOf(d, g, ch)
  {
    if ch != [] {
      forall i | 0 <= i < |ch[1..]|
        ensures InVolume(g, ch[1..][i]) && ClusterData(d', g, ch[1..][i]) == ClusterData(d, g, ch[1..][i])
      {
        assert ch[1..][i] == ch[i + 1];
      }
      SlotsFrame(d, d', g, ch[1..]);
    }
  }

  // ---------------------------------------------------------------- what stays

  /** The contents of the clusters in `keep` are the same. */
  ghost predicate DataKept(d: seq<Sector>, d': seq<Sector>, g: Geometry, keep: set<nat>)
    requires Holds(d, g)
  {
    |d'| == |d| && forall c :: c in keep && InVolume(g, c) ==> ClusterData(d', g, c) == ClusterData(d, g, c)
  }

  /** Only sectors of cluster `c` differ. */
  ghost predicate OnlyCluster(d: seq<Sector>, d': seq<Sector>, g: Geometry, c: nat)
    requires c >= 2
  {
    && |d'| == |d|
    && forall x :: 0 <= x < |d| && !(ClusterSector(g, c) <= x < ClusterSector(g, c) + g.sectorsPerCluster) ==>
                     d'[x] == d[x]
  }

  lemma FatChangeKeepsData(d: seq<Sector>, d': seq<Sector>, g: Geometry, keep: set<nat>)
    requires Holds(d, g) && SameOutsideFat(d, d', g)
    ensures DataKept(d, d', g, keep)
  {
    forall c | c in keep && InVolume(g, c)
      ensures ClusterData(d', g, c) == ClusterData(d, g, c)
    {
      ClusterInside(g, |d|, c);
    }
  }

  lemma InfoChangeKeepsData(d: seq<Sector>, d': seq<Sector>, g: Geometry, keep: set<nat>)
    requires Holds(d, g) && OnlySector(d, d', g.partition + g.infoSector)
    requires g.infoSector < g.reserved
    ensures DataKept(d, d', g, keep)
  {
    assert g.partition + g.infoSector < CopySector(g, g.fats, 0);
    forall c | c in keep && InVolume(g, c)
      ensures ClusterData(d', g, c) == ClusterData(d, g, c)
    {
      ClusterInside(g, |d|, c);
    }
  }

  lemma ClusterChangeKeepsData(d: seq<Sector>, d': seq<Sector>, g: Geometry, w: nat, keep: set<nat>)
    requires Holds(d, g) && InVolume(g, w) && OnlyCluster(d, d', g, w) && w !in keep
    ensures DataKept(d, d', g, keep)
    ensures TableOf(d', g) == TableOf(d, g)
  {
    ClusterInside(g, |d|, w);
    TableFrame(d, d', g);
    forall c | c in keep && InVolume(g, c)
      ensures ClusterData(d', g, c) == ClusterData(d, g, c)
    {
      ClusterInside(g, |d|, c);
      if c < w { ClustersApart(g, c, w); } else { ClustersApart(g, w, c); }
    }
  }

  lemma OtherClustersKept(d: seq<Sector>, d': seq<Sector>, g: Geometry, t: Table, ch: seq<nat>, k: nat, j: nat)
    requires Holds(d, g) && IsChain(t, ch) && |t| == TotalClusters(g) && k < |ch| && j < |ch| && j != k
    requires InVolume(g, ch[k]) && InVolume(g, ch[j]) && OnlyCluster(d, d', g, ch[k])
    ensures ClusterData(d', g, ch[j]) == ClusterData(d, g, ch[j])
  {
    if j < k { ChainAcyclic(t, ch, j, k); } else { ChainAcyclic(t, ch, k, j); }
    ClusterChangeKeepsData(d, d', g, ch[k], {ch[j]});
  }

  lemma OtherSlotsKept(d: seq<Sector>, d': seq<Sector>, g: Geometry, t: Table, ch: seq<nat>, k: nat)
    requires Holds(d, g) && IsChain(t, ch) && |t| == TotalClusters(g) && k < |ch|
    requires forall j :: 0 <= j < |ch| ==> InVolume(g, ch[j])
    requires InVolume(g, ch[k]) && OnlyCluster(d, d', g, ch[k])
    ensures SlotsOf(d', g, ch[..k]) == SlotsOf(d, g, ch[..k])
    ensures SlotsOf(d', g, ch[k + 1..]) == SlotsOf(d, g, ch[k + 1..])
  {
    forall j | 0 <= j < |ch| && j != k
      ensures ClusterData(d', g, ch[j]) == ClusterData(d, g, ch[j])
    {
      OtherClustersKept(d, d', g, t, ch, k, j);
    }
    SlotsFrame(d, d', g, ch[..k]);
    SlotsFrame(d, d', g, ch[k + 1..]);
  }

  /** Rewriting cluster `ch[k]` with one slot replaced replaces that slot of the directory. */
  lemma RewriteSlot(d: seq<Sector>, d': seq<Sector>, g: Geometry, t: Table, ch: seq<nat>, k: nat, i: nat, s: Slot)
    requires Holds(d, g) && IsChain(t, ch) && |t| == TotalClusters(g) && k < |ch|
    requires forall j :: 0 <= j < |ch| ==> InVolume(g, ch[j])
    requires InVolume(g, ch[k]) && OnlyCluster(d, d', g, ch[k])
    requires i < 16 * g.sectorsPerCluster
    requires ClusterData(d', g, ch[k]) == PutSlot(ClusterData(d, g, ch[k]), i, s)
    ensures |SlotsOf(d, g, ch[..k])| + i < |SlotsOf(d, g, ch)|
    ensures SlotsOf(d', g, ch) == SlotsOf(d, g, ch)[|SlotsOf(d, g, ch[..k])| + i := s]
  {
    SlotsSplit(d, g, ch, k);
    SlotsSplit(d', g, ch, k);
    OtherSlotsKept(d, d', g, t, ch, k);
    PutSlotUpdates(ClusterData(d, g, ch[k]), i, s);
    UpdateMiddle(SlotsOf(d, g, ch[..k]), SlotsIn(ClusterData(d, g, ch[k])), SlotsOf(d, g, ch[k + 1..]), i, s);
  }

  lemma UpdateMiddle<T>(a: seq<T>, b: seq<T>, z: seq<T>, i: nat, s: T)
    requires i < |b|
    ensures (a + b + z)[|a| + i := s] == a + b[i := s] + z
  {
  }

  // ---------------------------------------------------------------- cluster I/O

  lemma ClusterSectorFits(g: Geometry, size: nat, c: nat)
    requires WellFormed(g, size) && InVolume(g, c)
    ensures 0 < ClusterSector(g, c) == Wrap(ClusterSector(g, c))
    ensures ClusterSector(g, c) + g.sectorsPerCluster <= size
  {
    ClusterInside(g, size, c);
    EntryInside(g, size, 0, c);
  }

  /** `read_cluster`: a sector that cannot be read leaves the buffer's old bytes. */
  method ReadCluster(v: Volume, c: nat, buffer: seq<Sector>) returns (r: seq<Sector>)
    requires v.Valid() && c < WORD && |buffer| == v.g.sectorsPerCluster
    modifies v`transfers
    ensures v.Valid() && |r| == |buffer|
    ensures old(v.Healthy()) ==> v.Healthy()
    ensures old(v.Healthy()) && InVolume(v.g, c) ==> r == ClusterData(v.sectors, v.g, c)
    ensures InVolume(v.g, c) ==>
              forall m :: 0 <= m < |r| ==> r[m] == buffer[m] || r[m] == ClusterData(v.sectors, v.g, c)[m]
    ensures !IsValidCluster(v.g, c) ==> r == buffer
  {
    r := buffer;
    if !IsValidCluster(v.g, c) {
      return;
    }
    var base := Wrap(ClusterSector(v.g, c));
    if InVolume(v.g, c) {
      ClusterSectorFits(v.g, |v.sectors|, c);
    }
    if base == 0 {
      return;
    }
    var i := 0;
    while i < v.g.sectorsPerCluster
      invariant 0 <= i <= v.g.sectorsPerCluster && |r| == v.g.sectorsPerCluster
      invariant v.Valid() && (old(v.Healthy()) ==> v.Healthy())
      invariant old(v.Healthy()) && InVolume(v.g, c) ==> forall m :: 0 <= m < i ==> r[m] == v.sectors[base + m]
      invariant InVolume(v.g, c) ==> forall m :: 0 <= m < |r| ==> r[m] == buffer[m] || r[m] == v.sectors[base + m]
    {
      var ok, data := v.ReadSector(base + i);
      if ok {
        r := r[i := data];
      }
      i := i + 1;
    }
  }

  /** `write_cluster`, each sector verified. */
  method WriteCluster(v: Volume, c: nat, buffer: seq<Sector>) returns (ok: bool)
    requires v.Valid() && InVolume(v.g, c) && |buffer| == v.g.sectorsPerCluster
    modifies v`transfers, v`sectors
    ensures v.Valid() && OnlyCluster(old(v.sectors), v.sectors, v.g, c)
    ensures ok ==> ClusterData(v.sectors, v.g, c) == buffer
    ensures old(v.Healthy()) ==> v.Healthy() && ok
  {
    ghost var d := v.sectors;
    ClusterInside(v.g, |d|, c);
    ClusterAddressesAgree(v.g, c);
    var base := (c - 2) * v.g.sectorsPerCluster + FirstDataSector(v.g);
    var i := 0;
    while i < v.g.sectorsPerCluster
      invariant 0 <= i <= v.g.sectorsPerCluster && base == ClusterSector(v.g, c)
      invariant v.Valid() && |v.sectors| == |d| && (old(v.Healthy()) ==> v.Healthy())
      invariant OnlyCluster(d, v.sectors, v.g, c)
      invariant forall m :: 0 <= m < i ==> v.sectors[base + m] == buffer[m]
    {
      ok := v.WriteVerified(base + i, buffer[i]);
      if !ok {
        return;
      }
      i := i + 1;
    }
    ok := true;
  }

  // ---------------------------------------------------------------- directories

  /** The directory whose clusters are `ch`, with the table and counter of the volume. */
  function ViewOf(v: Volume, ch: seq<nat>): View
    requires v.Valid() && forall i :: 0 <= i < |ch| ==> InVolume(v.g, ch[i])
    reads v
  {
    View(v.FatView(), SlotsOf(v.sectors, v.g, ch), 16 * v.g.sectorsPerCluster)
  }

  /** The clusters `ch` are a well-formed chain, so that a directory can live in them. */
  ghost predicate ChainAt(d: seq<Sector>, g: Geometry, ch: seq<nat>) {
    Holds(d, g) && IsChain(TableOf(d, g), ch) && forall i :: 0 <= i < |ch| ==> InVolume(g, ch[i])
  }

  function BlankBuffer(n: nat): (b: seq<Sector>)
    ensures |b| == n && forall i :: 0 <= i < n ==> b[i] == Zeros()
  {
    seq(n, _ => Zeros())
  }

  function Zeros(): (s: Sector)
    ensures forall i :: 0 <= i < 512 ==> s[i] == 0
  {
    seq(512, _ => 0)
  }

  ghost predicate SlotsAt(d: seq<Sector>, g: Geometry, ch: seq<nat>)
  {
    Holds(d, g) && forall i :: 0 <= i < |ch| ==> InVolume(g, ch[i])
  }

  /** The slots of one more cluster. */
  lemma SlotsStep(d: seq<Sector>, g: Geometry, ch: seq<nat>, k: nat)
    requires SlotsAt(d, g, ch) && k < |ch|
    ensures SlotsOf(d, g, ch[..k + 1]) == SlotsOf(d, g, ch[..k]) + SlotsIn(ClusterData(d, g, ch[k]))
    ensures SlotsOf(d, g, ch[..k + 1]) <= SlotsOf(d, g, ch)
  {
    SlotsSplit(d, g, ch[..k + 1], k);
    assert ch[..k + 1][..k] == ch[..k] && ch[..k + 1][k + 1..] == [];
    SlotsSplit(d, g, ch, k);
  }

  ghost predicate NoneSuch(slots: seq<Slot>, p: Slot -> bool) {
    FirstSuch(slots, p, 0) == |slots|
  }

  lemma StillNoneSuch(d: seq<Sector>, g: Geometry, ch: seq<nat>, k: nat, p: Slot -> bool)
    requires SlotsAt(d, g, ch) && k < |ch| && NoneSuch(SlotsOf(d, g, ch[..k]), p)
    requires NoneSuch(SlotsIn(ClusterData(d, g, ch[k])), p)
    ensures NoneSuch(SlotsOf(d, g, ch[..k + 1]), p)
  {
    SlotsStep(d, g, ch, k);
    var a, b := SlotsOf(d, g, ch[..k]), SlotsIn(ClusterData(d, g, ch[k]));
    forall m | 0 <= m < |a| + |b|
      ensures !p((a + b)[m])
    {
      assert (a + b)[m] == if m < |a| then a[m] else b[m - |a|];
    }
  }

  lemma SuchFound(d: seq<Sector>, g: Geometry, ch: seq<nat>, k: nat, i: nat, p: Slot -> bool)
    requires SlotsAt(d, g, ch) && k < |ch| && i < 16 * g.sectorsPerCluster
    requires NoneSuch(SlotsOf(d, g, ch[..k]), p)
    requires i == FirstSuch(SlotsIn(ClusterData(d, g, ch[k])), p, 0)
    ensures FirstSuch(SlotsOf(d, g, ch), p, 0) == |SlotsOf(d, g, ch[..k])| + i
    ensures |SlotsOf(d, g, ch[..k])| + i < |SlotsOf(d, g, ch)|
  {
    SlotsStep(d, g, ch, k);
    var a, b, all := SlotsOf(d, g, ch[..k]), SlotsIn(ClusterData(d, g, ch[k])), SlotsOf(d, g, ch);
    assert all[|a| + i] == b[i];
    forall m | 0 <= m < |a| + i
      ensures !p(all[m])
    {
      assert all[m] == if m < |a| then a[m] else b[m - |a|];
    }
  }

  /** The scan of one cluster buffer for a slot with property `p`. */
  method Scan(entries: seq<Sector>, p: Slot -> bool) returns (i: nat)
    ensures i == FirstSuch(SlotsIn(entries), p, 0)
  {
    i := 0;
    while i < 16 * |entries|
      invariant 0 <= i <= 16 * |entries|
      invariant forall m :: 0 <= m < i ==> !p(SlotsIn(entries)[m])
    {
      assert SlotsIn(entries)[i] == SlotAt(entries, i);
      if p(SlotAt(entries, i)) {
        return;
      }
      i := i + 1;
    }
  }

  /** Edit one slot of a cluster buffer of the directory and write the cluster back. */
  method StoreSlot(v: Volume, ghost ch: seq<nat>, ghost k: nat, current: nat, entries: seq<Sector>, i: nat, s: Slot)
    requires v.Valid() && k < |ch| && ChainAt(v.sectors, v.g, ch) && current == ch[k]
    requires |entries| == v.g.sectorsPerCluster && i < 16 * |entries|
    modifies v`transfers, v`sectors
    ensures v.Valid() && v.FatView() == old(v.FatView()) && OnlyCluster(old(v.sectors), v.sectors, v.g, ch[k])
    ensures old(v.Healthy()) ==> v.Healthy()
    ensures old(v.Healthy()) && entries == ClusterData(old(v.sectors), v.g, ch[k]) ==>
              var n := |SlotsOf(old(v.sectors), v.g, ch[..k])| + i;
              && n < |SlotsOf(old(v.sectors), v.g, ch)|
              && SlotsOf(v.sectors, v.g, ch) == SlotsOf(old(v.sectors), v.g, ch)[n := s]
  {
    ghost var d, t := v.sectors, v.FatView().table;
    var _ := WriteCluster(v, current, PutSlot(entries, i, s));
    ClusterChangeKeepsData(d, v.sectors, v.g, current, {});
    if old(v.Healthy()) && entries == ClusterData(d, v.g, ch[k]) {
      RewriteSlot(d, v.sectors, v.g, t, ch, k, i, s);
    }
  }

  /** At most one cluster of the directory was rewritten. */
  ghost predicate OnlyDirectory(d: seq<Sector>, d': seq<Sector>, g: Geometry, ch: seq<nat>)
    requires forall i :: 0 <= i < |ch| ==> InVolume(g, ch[i])
  {
    d' == d || exists i :: 0 <= i < |ch| && InVolume(g, ch[i]) && OnlyCluster(d, d', g, ch[i])
  }

  ghost predicate Replaced(d: seq<Sector>, d': seq<Sector>, g: Geometry, ch: seq<nat>, p: Slot -> bool, s: Slot,
                           done: bool)
    requires SlotsAt(d, g, ch) && |d'| == |d|
  {
    var slots := SlotsOf(d, g, ch);
    var n := FirstSuch(slots, p, 0);
    && (done <==> n < |slots|)
    && SlotsOf(d', g, ch) == if done then slots[n := s] else slots
  }

  /** One cluster of the walk: read it, look for a slot with property `p`, replace that. */
  method VisitCluster(v: Volume, ghost ch: seq<nat>, ghost k: nat, current: nat, buffer: seq<Sector>,
                      p: Slot -> bool, s: Slot, ghost good: bool) returns (found: bool, entries: seq<Sector>)
    requires v.Valid() && k < |ch| && ChainAt(v.sectors, v.g, ch) && current == ch[k]
    requires |buffer| == v.g.sectorsPerCluster
    requires good ==> v.Healthy() && NoneSuch(SlotsOf(v.sectors, v.g, ch[..k]), p)
    modifies v`transfers, v`sectors
    ensures v.Valid() && v.FatView() == old(v.FatView()) && |entries| == v.g.sectorsPerCluster
    ensures if found then OnlyCluster(old(v.sectors), v.sectors, v.g, ch[k]) else v.sectors == old(v.sectors)
    ensures good ==> v.Healthy()
    ensures good && found ==> Replaced(old(v.sectors), v.sectors, v.g, ch, p, s, true)
    ensures good && !found ==> NoneSuch(SlotsOf(v.sectors, v.g, ch[..k + 1]), p)
  {
    ghost var d := v.sectors;
    entries := ReadCluster(v, current, buffer);
    var i := Scan(entries, p);
    found := i < 16 * |entries|;
    if found {
      if good {
        SuchFound(d, v.g, ch, k, i, p);
      }
      StoreSlot(v, ch, k, current, entries, i, s);
    } else if good {
      StillNoneSuch(d, v.g, ch, k, p);
    }
  }

  /** The walk shared by adding and removing an entry: the first slot with property `p`, in
      chain order, is replaced by `s`.  When adding, the source would extend the directory if
      it met an end-of-chain mark; it never does, the end being reported as INVALID. */
  method ReplaceFirst(v: Volume, ghost ch: seq<nat>, dir: nat, p: Slot -> bool, s: Slot) returns (done: bool)
    requires v.Valid() && ChainAt(v.sectors, v.g, ch) && ch[0] == dir
    modifies v`transfers, v`sectors
    ensures v.Valid() && v.FatView() == old(v.FatView())
    ensures OnlyDirectory(old(v.sectors), v.sectors, v.g, ch)
    ensures old(v.Healthy()) ==> v.Healthy() && Replaced(old(v.sectors), v.sectors, v.g, ch, p, s, done)
  {
    ghost var d, t := v.sectors, v.FatView().table;
    var entries := BlankBuffer(v.g.sectorsPerCluster);
    var current := dir;
    ghost var k := 0;
    while current < EOC_MIN
      invariant 0 <= k <= |ch| && |entries| == v.g.sectorsPerCluster
      invariant current == INVALID || (k < |ch| && current == ch[k])
      invariant v.sectors == d && v.FatView() == old(v.FatView())
      invariant old(v.Healthy()) ==> v.Healthy() && (current == INVALID ==> k == |ch|)
      invariant old(v.Healthy()) ==> NoneSuch(SlotsOf(d, v.g, ch[..k]), p)
      decreases |ch| - k
    {
      done, entries := VisitCluster(v, ch, k, current, entries, p, s, old(v.Healthy()));
      if done {
        return;
      }
      ChainLink(t, ch, k);
      current := v.NextInChain(current);
      k := k + 1;
      if EOC_MIN <= current <= EOC_MAX {
        assert false;
      }
    }
    assert ch[..|ch|] == ch;
    done := false;
  }

  method AddEntry(v: Volume, ghost ch: seq<nat>, dir: nat, name: CString, c: nat, attr: Byte, stamp: Stamp)
      returns (added: bool)
    requires v.Valid() && ChainAt(v.sectors, v.g, ch) && ch[0] == dir && c < WORD
    modifies v`transfers, v`sectors
    ensures v.Valid() && v.FatView() == old(v.FatView())
    ensures OnlyDirectory(old(v.sectors), v.sectors, v.g, ch)
    ensures old(v.Healthy()) ==> v.Healthy()
    ensures old(v.Healthy()) ==>
              Replaced(old(v.sectors), v.sectors, v.g, ch, Vacant, NewSlot(name, c, attr, stamp), added)
  {
    added := ReplaceFirst(v, ch, dir, Vacant, NewSlot(name, c, attr, stamp));
  }

  method RemoveEntry(v: Volume, ghost ch: seq<nat>, dir: nat, entry: Slot) returns (removed: bool)
    requires v.Valid() && ChainAt(v.sectors, v.g, ch) && ch[0] == dir
    modifies v`transfers, v`sectors
    ensures v.Valid() && v.FatView() == old(v.FatView())
    ensures OnlyDirectory(old(v.sectors), v.sectors, v.g, ch)
    ensures old(v.Healthy()) ==> v.Healthy()
    ensures old(v.Healthy()) ==> Replaced(old(v.sectors), v.sectors, v.g, ch, Same(entry), Blank(), removed)
  {
    removed := ReplaceFirst(v, ch, dir, Same(entry), Blank());
  }

  /** The slots `find_file_in_directory` looks at are those of the first cluster. */
  lemma FirstClusterSlots(d: seq<Sector>, g: Geometry, ch: seq<nat>)
    requires SlotsAt(d, g, ch) && ch != []
    ensures 16 * g.sectorsPerCluster <= |SlotsOf(d, g, ch)|
    ensures SlotsOf(d, g, ch)[..16 * g.sectorsPerCluster] == SlotsIn(ClusterData(d, g, ch[0]))
  {
  }

  /** The entry loop of `find_file_in_directory`. */
  method ScanForName(entries: seq<Sector>, name: CString) returns (j: nat)
    ensures j == Lookup(SlotsIn(entries), name, 0)
  {
    ghost var slots := SlotsIn(entries);
    j := 0;
    while j < 16 * |entries|
      invariant 0 <= j <= |slots|
      invariant Lookup(slots, name, 0) == Lookup(slots, name, j)
    {
      var s := SlotAt(entries, j);
      assert slots[j] == s;
      if s[0] == 0 {
        return 16 * |entries|;
      }
      if !(s[0] == 0xE5 || LongName(s)) {
        var r := CompareNames(NameOf(s), name);
        if r == 0 {
          return;
        }
      }
      j := j + 1;
    }
  }

  /** `find_file_in_directory`: only the first cluster is searched, and any read error means
      not found. */
  method FindFile(v: Volume, dir: nat, name: CString) returns (found: Option<Slot>)
    requires v.Valid() && InVolume(v.g, dir)
    modifies v`transfers
    ensures old(v.Healthy()) ==> v.Healthy()
    ensures var slots := SlotsIn(ClusterData(v.sectors, v.g, dir));
            var n := Lookup(slots, name, 0);
            && (found.Some? ==> n < |slots| && found.value == slots[n])
            && (old(v.Healthy()) ==> (found.Some? <==> n < |slots|))
  {
    var ok, entries := ReadWhole(v, dir);
    if !ok {
      return None;
    }
    var j := ScanForName(entries, name);
    found := if j < 16 * |entries| then Some(SlotAt(entries, j)) else None;
  }

  /** All sectors of a cluster, or nothing when one cannot be read. */
  method ReadWhole(v: Volume, c: nat) returns (ok: bool, entries: seq<Sector>)
    requires v.Valid() && InVolume(v.g, c)
    modifies v`transfers
    ensures ok ==> entries == ClusterData(v.sectors, v.g, c)
    ensures old(v.Healthy()) ==> v.Healthy() && ok
  {
    ClusterInside(v.g, |v.sectors|, c);
    ghost var data := ClusterData(v.sectors, v.g, c);
    var sector := ClusterSector(v.g, c);
    entries := [];
    while |entries| < v.g.sectorsPerCluster
      invariant |entries| <= v.g.sectorsPerCluster && entries == data[..|entries|]
      invariant old(v.Healthy()) ==> v.Healthy()
      decreases v.g.sectorsPerCluster - |entries|
    {
      var bytes;
      ok, bytes := v.ReadSector(sector + |entries|);
      if !ok {
        return;
      }
      entries := entries + [bytes];
    }
    ok := true;
  }

  /** The same, seen from the whole directory. */
  method FindEntry(v: Volume, ghost ch: seq<nat>, dir: nat, name: CString) returns (found: Option<Slot>)
    requires v.Valid() && ChainAt(v.sectors, v.g, ch) && ch[0] == dir
    modifies v`transfers
    ensures old(v.Healthy()) ==> v.Healthy()
    ensures Proper(ViewOf(v, ch))
    ensures var view := ViewOf(v, ch);
            var n := Lookup(view.slots[..view.first], name, 0);
            && (found.Some? ==> n < view.first && found.value == view.slots[n])
            && (old(v.Healthy()) ==> (found.Some? <==> n < view.first))
  {
    FirstClusterSlots(v.sectors, v.g, ch);
    found := FindFile(v, dir, name);
  }

  /** Changing FAT entries outside the directory's chain leaves the directory where it is. */
  lemma FatChangeKeepsDir(d: seq<Sector>, d': seq<Sector>, g: Geometry, ch: seq<nat>)
    requires ChainAt(d, g, ch) && SameOutsideFat(d, d', g)
    requires forall c :: c in ch && c < TotalClusters(g) ==> TableOf(d', g)[c] == TableOf(d, g)[c]
    ensures ChainAt(d', g, ch) && SlotsOf(d', g, ch) == SlotsOf(d, g, ch)
  {
    ChainFrame(TableOf(d, g), TableOf(d', g), ch);
    FatChangeKeepsData(d, d', g, set c | c in ch);
    SlotsFrame(d, d', g, ch);
  }

  lemma FreeNotInDir(d: seq<Sector>, g: Geometry, ch: seq<nat>, c: nat)
    requires ChainAt(d, g, ch) && c < TotalClusters(g) && TableOf(d, g)[c] == 0
    ensures c !in ch
  {
    if c in ch {
      ChainAllocated(TableOf(d, g), ch, c);
    }
  }

  function Members(ch: seq<nat>): set<nat> {
    set c | c in ch
  }

  /** The clusters in use that are not the directory's own. */
  ghost function Bystanders(t: Table, ch: seq<nat>): set<nat> {
    set c | c in UsedSet(t) && c !in ch
  }

  lemma DirChangeKeepsData(d: seq<Sector>, d': seq<Sector>, g: Geometry, ch: seq<nat>, keep: set<nat>)
    requires ChainAt(d, g, ch) && OnlyDirectory(d, d', g, ch) && forall c :: c in keep ==> c !in ch
    ensures DataKept(d, d', g, keep)
  {
    if d' != d {
      var i :| 0 <= i < |ch| && InVolume(g, ch[i]) && OnlyCluster(d, d', g, ch[i]);
      ClusterChangeKeepsData(d, d', g, ch[i], keep);
    }
  }

  /** The FSInfo block on disk is the one in memory. */
  ghost predicate InfoStored(v: Volume)
    reads v
  {
    v.infoValid ==> v.g.partition + v.g.infoSector < |v.sectors| && v.sectors[v.g.partition + v.g.infoSector] == v.info
  }

  lemma InfoChangeKeepsDir(d: seq<Sector>, d': seq<Sector>, g: Geometry, ch: seq<nat>, keep: set<nat>)
    requires ChainAt(d, g, ch) && OnlySector(d, d', g.partition + g.infoSector)
    requires g.infoSector < g.reserved || d' == d
    ensures ChainAt(d', g, ch) && SlotsOf(d', g, ch) == SlotsOf(d, g, ch) && DataKept(d, d', g, keep)
  {
    if d' != d {
      InfoSectorFrame(d, d', g);
      InfoChangeKeepsData(d, d', g, keep);
      InfoChangeKeepsData(d, d', g, set c | c in ch);
      SlotsFrame(d, d', g, ch);
    }
  }

  /** What entering cluster `c` as `s` makes of a directory whose cluster is already marked. */
  ghost predicate Entered(before: View, after: View, c: nat, s: Slot, ok: bool)
    requires InTable(before.fat.table, c)
  {
    var n := FirstVacant(before.slots);
    && (ok <==> n < |before.slots|)
    && after == if ok then View(before.fat, before.slots[n := s], before.first)
                else View(Mark(before.fat, c, 0), before.slots, before.first)
  }

  /** The tail of both creates: enter the marked cluster in the directory and store FSInfo, or
      give the cluster back. */
  method EnterOrRollBack(v: Volume, ghost ch: seq<nat>, dir: nat, name: CString, c: nat, attr: Byte, stamp: Stamp,
                         ghost keep: set<nat>)
      returns (ok: bool)
    requires v.Valid() && ChainAt(v.sectors, v.g, ch) && ch[0] == dir && InVolume(v.g, c) && c !in ch
    requires forall x :: x in keep ==> x !in ch
    modifies v
    ensures v.Valid() && v.infoValid == old(v.infoValid)
    ensures DataKept(old(v.sectors), v.sectors, v.g, keep)
    ensures old(v.Healthy()) ==> v.Healthy() && ChainAt(v.sectors, v.g, ch)
    ensures old(v.Healthy()) ==> Entered(old(ViewOf(v, ch)), ViewOf(v, ch), c, NewSlot(name, c, attr, stamp), ok)
    ensures old(v.Healthy()) && ok ==> InfoStored(v)
  {
    ghost var d := v.sectors;
    ok := AddEntry(v, ch, dir, name, c, attr, stamp);
    ghost var d1 := v.sectors;
    assert TableOf(d1, v.g) == TableOf(d, v.g);
    DirChangeKeepsData(d, d1, v.g, ch, keep);
    if !ok {
      RollBack(v, ch, c, keep);
      return;
    }
    var _ := v.WriteFsInfo();
    InfoChangeKeepsDir(d1, v.sectors, v.g, ch, keep);
  }

  /** Give the cluster back: the directory stays where it is. */
  method RollBack(v: Volume, ghost ch: seq<nat>, c: nat, ghost keep: set<nat>)
    requires v.Valid() && ChainAt(v.sectors, v.g, ch) && InVolume(v.g, c) && c !in ch
    modifies v
    ensures v.Valid() && v.infoValid == old(v.infoValid)
    ensures DataKept(old(v.sectors), v.sectors, v.g, keep)
    ensures old(v.Healthy()) ==> v.Healthy() && ChainAt(v.sectors, v.g, ch)
    ensures old(v.Healthy()) ==> SlotsOf(v.sectors, v.g, ch) == SlotsOf(old(v.sectors), v.g, ch)
    ensures old(v.Healthy()) ==> v.FatView() == Mark(old(v.FatView()), c, 0)
  {
    ghost var d := v.sectors;
    var _, _ := v.MarkCluster(c, 0);
    FatChangeKeepsData(d, v.sectors, v.g, keep);
    if old(v.Healthy()) {
      FatChangeKeepsDir(d, v.sectors, v.g, ch);
    }
  }

  /** The head of both creates: find a free cluster and mark it as a one-cluster chain. */
  method TakeCluster(v: Volume, ghost ch: seq<nat>, ghost keep: set<nat>) returns (c: nat)
    requires v.Valid() && ChainAt(v.sectors, v.g, ch)
    modifies v
    ensures v.Valid() && v.infoValid == old(v.infoValid)
    ensures DataKept(old(v.sectors), v.sectors, v.g, keep)
    ensures c != INVALID ==> InVolume(v.g, c) && c !in ch && old(v.FatView()).table[c] == 0
    ensures c != INVALID ==>
              ChainAt(v.sectors, v.g, ch) && SlotsOf(v.sectors, v.g, ch) == SlotsOf(old(v.sectors), v.g, ch)
    ensures c != INVALID ==> v.FatView() == Mark(Hinted(old(v.FatView()), c), c, EOC_MAX)
    ensures old(v.Healthy()) ==> v.Healthy() && c == FindFree(old(v.FatView()))
    ensures old(v.Healthy()) && c == INVALID ==> v.sectors == old(v.sectors) && v.FatView() == old(v.FatView())
  {
    ghost var d := v.sectors;
    c := v.FindFreeCluster();
    if c == INVALID {
      return;
    }
    FreeNotInDir(d, v.g, ch, c);
    var ok, _ := v.MarkCluster(c, EOC_MAX);
    FatChangeKeepsData(d, v.sectors, v.g, keep);
    if !ok {
      return INVALID;
    }
    FatChangeKeepsDir(d, v.sectors, v.g, ch);
  }

  method CreateFile(v: Volume, ghost ch: seq<nat>, dir: nat, name: CString, stamp: Stamp) returns (ok: bool)
    requires v.Valid() && ChainAt(v.sectors, v.g, ch) && ch[0] == dir
    modifies v
    ensures v.Valid() && v.infoValid == old(v.infoValid)
    ensures DataKept(old(v.sectors), v.sectors, v.g, Bystanders(old(v.FatView()).table, ch))
    ensures old(v.Healthy()) ==> v.Healthy() && ChainAt(v.sectors, v.g, ch)
    ensures old(v.Healthy()) ==> (ViewOf(v, ch), ok) == Create(old(ViewOf(v, ch)), name, 0, stamp)
    ensures old(v.Healthy()) && ok ==> InfoStored(v)
  {
    ghost var keep := Bystanders(v.FatView().table, ch);
    var c := TakeCluster(v, ch, keep);
    if c == INVALID {
      return false;
    }
    ok := EnterOrRollBack(v, ch, dir, name, c, 0, stamp, keep);
  }

  /** The first cluster of a new directory: `.` and `..`, then zero bytes. */
  function FreshDirectory(size: nat, c: nat, parent: nat, dot: Stamp, dotDot: Stamp): (buf: seq<Sector>)
    requires size > 0 && c < WORD && parent < WORD
    ensures |buf| == size
  {
    var one := PutSlot(BlankBuffer(size), 0, NewSlot([DOT], c, ATTR_DIRECTORY, dot));
    PutSlot(one, 1, NewSlot([DOT, DOT], parent, ATTR_DIRECTORY, dotDot))
  }

  lemma FreshDirectorySlots(size: nat, c: nat, parent: nat, dot: Stamp, dotDot: Stamp, m: nat)
    requires size > 0 && c < WORD && parent < WORD && m < 16 * size
    ensures SlotAt(FreshDirectory(size, c, parent, dot, dotDot), m)
         == if m == 0 then NewSlot([DOT], c, ATTR_DIRECTORY, dot)
            else if m == 1 then NewSlot([DOT, DOT], parent, ATTR_DIRECTORY, dotDot)
            else Blank()
  {
    var s0, s1 := NewSlot([DOT], c, ATTR_DIRECTORY, dot), NewSlot([DOT, DOT], parent, ATTR_DIRECTORY, dotDot);
    PutSlotAt(BlankBuffer(size), 0, s0, m);
    PutSlotAt(PutSlot(BlankBuffer(size), 0, s0), 1, s1, m);
    BlankSlot(size, m);
  }

  lemma BlankSlot(size: nat, m: nat)
    requires m < 16 * size
    ensures SlotAt(BlankBuffer(size), m) == Blank()
  {
    var s, at := SlotAt(BlankBuffer(size), m), 32 * (m % 16);
    assert m / 16 < size && BlankBuffer(size)[m / 16] == Zeros();
    assert forall i :: 0 <= i < 32 ==> s[i] == Zeros()[at + i] == 0;
    assert forall i :: 0 <= i < 32 ==> Blank()[i] == 0;
  }

  method CreateDir(v: Volume, ghost ch: seq<nat>, dir: nat, name: CString, stamp: Stamp, dot: Stamp, dotDot: Stamp)
      returns (ok: bool)
    requires v.Valid() && ChainAt(v.sectors, v.g, ch) && ch[0] == dir
    modifies v
    ensures v.Valid() && v.infoValid == old(v.infoValid)
    ensures DataKept(old(v.sectors), v.sectors, v.g, Bystanders(old(v.FatView()).table, ch))
    ensures old(v.Healthy()) ==> v.Healthy() && ChainAt(v.sectors, v.g, ch)
    ensures old(v.Healthy()) ==> (ViewOf(v, ch), ok) == Create(old(ViewOf(v, ch)), name, ATTR_DIRECTORY, stamp)
    ensures old(v.Healthy()) && ok ==>
              var c := FindFree(old(v.FatView()));
              && InfoStored(v) && InVolume(v.g, c)
              && ClusterData(v.sectors, v.g, c) == FreshDirectory(v.g.sectorsPerCluster, c, dir, dot, dotDot)
  {
    ghost var keep := Bystanders(v.FatView().table, ch);
    var c := TakeCluster(v, ch, keep);
    if c == INVALID {
      return false;
    }
    ok := FillAndEnter(v, ch, dir, name, c, stamp, dot, dotDot, keep);
  }

  /** The rest of it: fill the marked cluster, then enter it. */
  method FillAndEnter(v: Volume, ghost ch: seq<nat>, dir: nat, name: CString, c: nat, stamp: Stamp, dot: Stamp,
                      dotDot: Stamp, ghost keep: set<nat>)
      returns (ok: bool)
    requires v.Valid() && ChainAt(v.sectors, v.g, ch) && ch[0] == dir && InVolume(v.g, c) && c !in ch && c !in keep
    requires forall x :: x in keep ==> x !in ch
    modifies v
    ensures v.Valid() && v.infoValid == old(v.infoValid)
    ensures DataKept(old(v.sectors), v.sectors, v.g, keep)
    ensures old(v.Healthy()) ==> v.Healthy() && ChainAt(v.sectors, v.g, ch)
    ensures old(v.Healthy()) ==>
              Entered(old(ViewOf(v, ch)), ViewOf(v, ch), c, NewSlot(name, c, ATTR_DIRECTORY, stamp), ok)
    ensures old(v.Healthy()) && ok ==>
              && InfoStored(v)
              && ClusterData(v.sectors, v.g, c) == FreshDirectory(v.g.sectorsPerCluster, c, dir, dot, dotDot)
  {
    ok := InitDirectory(v, ch, c, dir, dot, dotDot, keep);
    if !ok {
      return;
    }
    ok := EnterOrRollBack(v, ch, dir, name, c, ATTR_DIRECTORY, stamp, keep + {c});
  }

  /** Fill the new directory's cluster, giving it back if that fails. */
  method InitDirectory(v: Volume, ghost ch: seq<nat>, c: nat, dir: nat, dot: Stamp, dotDot: Stamp, ghost keep: set<nat>)
      returns (ok: bool)
    requires v.Valid() && ChainAt(v.sectors, v.g, ch) && InVolume(v.g, c) && c !in ch && c !in keep && dir < WORD
    modifies v
    ensures v.Valid() && v.infoValid == old(v.infoValid)
    ensures DataKept(old(v.sectors), v.sectors, v.g, keep)
    ensures ok ==> ChainAt(v.sectors, v.g, ch) && ViewOf(v, ch) == old(ViewOf(v, ch))
    ensures ok ==> ClusterData(v.sectors, v.g, c) == FreshDirectory(v.g.sectorsPerCluster, c, dir, dot, dotDot)
    ensures old(v.Healthy()) ==> v.Healthy() && ok
  {
    ghost var d := v.sectors;
    ok := WriteCluster(v, c, FreshDirectory(v.g.sectorsPerCluster, c, dir, dot, dotDot));
    ghost var d1 := v.sectors;
    NewClusterKeepsDir(d, d1, v.g, ch, c, keep);
    if !ok {
      var _, _ := v.MarkCluster(c, 0);
      FatChangeKeepsData(d1, v.sectors, v.g, keep);
    }
  }

  lemma NewClusterKeepsDir(d: seq<Sector>, d': seq<Sector>, g: Geometry, ch: seq<nat>, c: nat, keep: set<nat>)
    requires ChainAt(d, g, ch) && InVolume(g, c) && c !in ch && c !in keep && OnlyCluster(d, d', g, c)
    ensures ChainAt(d', g, ch) && SlotsOf(d', g, ch) == SlotsOf(d, g, ch)
    ensures TableOf(d', g) == TableOf(d, g) && DataKept(d, d', g, keep)
  {
    ClusterChangeKeepsData(d, d', g, c, keep);
    ClusterChangeKeepsData(d, d', g, c, set x | x in ch);
    SlotsFrame(d, d', g, ch);
  }

  /** Clearing what an owned entry reaches touches no other owner's chain. */
  lemma ClearedIsOwn(f: Fat, mine: seq<nat>, t': Table, c: nat)
    requires IsChain(f.table, mine) && OnlyReachableCleared(f.table, mine[0], t')
    requires c < |f.table| && c !in mine
    ensures t'[c] == f.table[c]
  {
    FreedExactly(f, mine[0], c);
    FreedChain(f, mine, c);
  }

  lemma FoundOwns(view: View, own: Owners, name: CString)
    requires Proper(view) && Owned(view, own)
    ensures var n := Lookup(view.slots[..view.first], name, 0);
            n < view.first && InTable(view.fat.table, Start(view.slots[n])) ==>
              n in own && own[n][0] == Start(view.slots[n]) && Disjoint(own[n], own[DIRECTORY])
  {
    var n := Lookup(view.slots[..view.first], name, 0);
    if n < view.first && view.slots[n][0] == DOT {
      DotNeverMatches(NameOf(view.slots[n]), name);
    }
  }

  /** Free an owned chain: the directory stays where it is. */
  method FreeOwned(v: Volume, ghost ch: seq<nat>, ghost mine: seq<nat>, start: nat, ghost keep: set<nat>)
      returns (ok: bool)
    requires v.Valid() && ChainAt(v.sectors, v.g, ch) && start < WORD
    requires InTable(v.FatView().table, start) ==>
               IsChain(v.FatView().table, mine) && mine[0] == start && Disjoint(mine, ch)
    modifies v
    ensures v.Valid() && v.infoValid == old(v.infoValid)
    ensures DataKept(old(v.sectors), v.sectors, v.g, keep)
    ensures ok ==> ChainAt(v.sectors, v.g, ch) && SlotsOf(v.sectors, v.g, ch) == SlotsOf(old(v.sectors), v.g, ch)
    ensures old(v.Healthy()) ==> v.Healthy() && (ok <==> InTable(old(v.FatView()).table, start))
    ensures old(v.Healthy()) && ok ==> v.FatView() == Freed(old(v.FatView()), start)
    ensures old(v.Healthy()) && !ok ==> v.sectors == old(v.sectors) && v.info == old(v.info)
  {
    ghost var d, f := v.sectors, v.FatView();
    ok := v.FreeClusterChain(start);
    FatChangeKeepsData(d, v.sectors, v.g, keep);
    if ok {
      forall c | c in ch && c < TotalClusters(v.g)
        ensures TableOf(v.sectors, v.g)[c] == TableOf(d, v.g)[c]
      {
        ClearedIsOwn(f, mine, v.FatView().table, c);
      }
      FatChangeKeepsDir(d, v.sectors, v.g, ch);
    }
  }

  /** Clear the entry and store FSInfo. */
  method RemoveAndStore(v: Volume, ghost ch: seq<nat>, dir: nat, entry: Slot, ghost keep: set<nat>) returns (ok: bool)
    requires v.Valid() && ChainAt(v.sectors, v.g, ch) && ch[0] == dir && forall x :: x in keep ==> x !in ch
    modifies v`transfers, v`sectors
    ensures v.Valid() && v.FatView() == old(v.FatView())
    ensures DataKept(old(v.sectors), v.sectors, v.g, keep)
    ensures old(v.Healthy()) ==> v.Healthy() && ChainAt(v.sectors, v.g, ch)
    ensures old(v.Healthy()) ==> Replaced(old(v.sectors), v.sectors, v.g, ch, Same(entry), Blank(), ok)
    ensures old(v.Healthy()) && ok ==> InfoStored(v)
  {
    ghost var d := v.sectors;
    ok := RemoveEntry(v, ch, dir, entry);
    ghost var d1 := v.sectors;
    DirChangeKeepsData(d, d1, v.g, ch, keep);
    if ok {
      assert TableOf(d1, v.g) == TableOf(d, v.g);
      var _ := v.WriteFsInfo();
      InfoChangeKeepsDir(d1, v.sectors, v.g, ch, keep);
    }
  }

  method DeleteFile(v: Volume, ghost own: Owners, dir: nat, name: CString) returns (ok: bool)
    requires v.Valid() && DIRECTORY in own && ChainAt(v.sectors, v.g, own[DIRECTORY]) && own[DIRECTORY][0] == dir
    requires Owned(ViewOf(v, own[DIRECTORY]), own)
    modifies v
    ensures v.Valid() && v.infoValid == old(v.infoValid)
    ensures DataKept(old(v.sectors), v.sectors, v.g, Bystanders(old(v.FatView()).table, own[DIRECTORY]))
    ensures Proper(old(ViewOf(v, own[DIRECTORY])))
    ensures old(v.Healthy()) ==> v.Healthy() && ChainAt(v.sectors, v.g, own[DIRECTORY])
    ensures old(v.Healthy()) ==>
              (ViewOf(v, own[DIRECTORY]), ok) == Delete(old(ViewOf(v, own[DIRECTORY])), name)
    ensures old(v.Healthy()) && ok ==> InfoStored(v)
  {
    ghost var ch := own[DIRECTORY];
    ghost var view := ViewOf(v, ch);
    ghost var keep := Bystanders(view.fat.table, ch);
    var found := FindEntry(v, ch, dir, name);
    if found.None? {
      return false;
    }
    FoundOwns(view, own, name);
    RemovesTheFoundSlot(view.slots, view.first, name);
    ghost var n := Lookup(view.slots[..view.first], name, 0);
    ghost var mine := if n in own then own[n] else [];
    ok := FreeOwned(v, ch, mine, Start(found.value), keep);
    if ok {
      ok := RemoveAndStore(v, ch, dir, found.value, keep);
    }
  }

  // ---------------------------------------------------------------- sessions

  /** A volume with good transfers on which `own` tells who owns what. */
  ghost predicate Mounted(v: Volume, dir: nat, own: Owners)
    reads v
  {
    && v.Valid() && v.Healthy()
    && DIRECTORY in own && ChainAt(v.sectors, v.g, own[DIRECTORY]) && own[DIRECTORY][0] == dir
    && Proper(ViewOf(v, own[DIRECTORY])) && Owned(ViewOf(v, own[DIRECTORY]), own)
  }

  /** The smallest layout with a directory: two reserved sectors, one FAT sector, clusters 2 and 3
      of one sector each, and two sectors to spare. */
  const SMALL: Geometry := Geometry(512, 1, 2, 1, 1, 0, 7, 0, 1)

  function SmallDisk(): (d: seq<Sector>)
    ensures |d| == 7
  {
    [Zeros(), Zeros(), Splice(Zeros(), 8, Le32Bytes(EOC_MAX)), Zeros(), Zeros(), Zeros(), Zeros()]
  }

  lemma ZeroWord(at: nat)
    requires at + 4 <= 512
    ensures Le32(Zeros(), at) == 0
  {
  }

  lemma SmallEntry(c: nat)
    requires c < 4
    ensures Holds(SmallDisk(), SMALL) && TotalClusters(SMALL) == 4
    ensures RawEntry(SmallDisk(), SMALL, 0, c) == if c == 2 then EOC_MAX else 0
  {
    assert FatSector(SMALL, 0, c) == 2 && EntryOffset(c) == 4 * c;
    ZeroWord(4 * c);
    WordAfterSplice(Zeros(), 8, EOC_MAX, 4 * c);
  }

  lemma SmallTable()
    ensures Holds(SmallDisk(), SMALL) && TableOf(SmallDisk(), SMALL) == [0, 0, EOC_MAX, 0]
  {
    SmallEntry(0);
    SmallEntry(1);
    SmallEntry(2);
    SmallEntry(3);
    var t := TableOf(SmallDisk(), SMALL);
    assert |t| == 4 && t[0] == 0 && t[1] == 0 && t[2] == EOC_MAX && t[3] == 0;
  }

  lemma SmallSlots(n: nat)
    requires n < 16
    ensures InVolume(SMALL, 2) && Holds(SmallDisk(), SMALL)
    ensures |SlotsOf(SmallDisk(), SMALL, [2])| == 16 && SlotsOf(SmallDisk(), SMALL, [2])[n] == Blank()
  {
    SmallTable();
    var d := SmallDisk();
    ClusterInside(SMALL, 7, 2);
    assert ClusterData(d, SMALL, 2) == [Zeros()] == BlankBuffer(1);
    BlankSlot(1, n);
    assert SlotsOf(d, SMALL, [2]) == SlotsIn(BlankBuffer(1)) + SlotsOf(d, SMALL, []);
  }

  lemma OneFree(t: Table)
    requires t == [0, 0, EOC_MAX, 0]
    ensures FreeCount(t) == 1
  {
    assert FreeSet(t) == {3};
  }

  lemma SmallOwned(view: View)
    requires view.fat.table == [0, 0, EOC_MAX, 0] && |view.slots| == view.first == 16
    requires forall n :: 0 <= n < 16 ==> view.slots[n] == Blank()
    ensures Proper(view) && Owned(view, map[DIRECTORY := [2]])
  {
    assert forall n :: 0 <= n < 16 ==> Vacant(view.slots[n]);
  }

  lemma SmallChain()
    ensures ChainAt(SmallDisk(), SMALL, [2])
    ensures |SlotsOf(SmallDisk(), SMALL, [2])| == 16
    ensures forall n :: 0 <= n < 16 ==> SlotsOf(SmallDisk(), SMALL, [2])[n] == Blank()
  {
    SmallTable();
    forall n: nat | n < 16
      ensures |SlotsOf(SmallDisk(), SMALL, [2])| == 16 && SlotsOf(SmallDisk(), SMALL, [2])[n] == Blank()
    {
      SmallSlots(n);
    }
    SmallSlots(0);
  }

  /** An empty directory on a small volume meets every assumption of a session. */
  method SmallVolume() returns (v: Volume)
    ensures fresh(v) && Mounted(v, 2, map[DIRECTORY := [2]]) && v.infoValid && CountExact(v.FatView())
  {
    var info: Sector := Splice(Zeros(), 488, Le32Bytes(1));
    v := new Volume(SMALL, SmallDisk(), [], info, true);
    SmallTable();
    SmallChain();
    WordAfterSplice(Zeros(), 488, 1, 492);
    OneFree(v.FatView().table);
    SmallOwned(ViewOf(v, [2]));
  }

  method Perform(v: Volume, ghost own: Owners, dir: nat, op: Op) returns (ok: bool)
    requires Mounted(v, dir, own)
    modifies v
    ensures v.Valid() && v.Healthy() && ChainAt(v.sectors, v.g, own[DIRECTORY])
    ensures (ViewOf(v, own[DIRECTORY]), ok) == Step(old(ViewOf(v, own[DIRECTORY])), op)
    ensures DataKept(old(v.sectors), v.sectors, v.g, Bystanders(old(v.FatView()).table, own[DIRECTORY]))
    ensures ok ==> InfoStored(v)
  {
    match op
    case CreateFile(name, stamp) => ok := CreateFile(v, own[DIRECTORY], dir, name, stamp);
    case CreateDir(name, stamp) => ok := CreateDir(v, own[DIRECTORY], dir, name, stamp, stamp, stamp);
    case DeleteFile(name) => ok := DeleteFile(v, own, dir, name);
  }

  /** Clusters kept since the start, and now bystanders, are kept still. */
  lemma SparedDataKept(d: seq<Sector>, d1: seq<Sector>, d2: seq<Sector>, g: Geometry, start: View, own: Owners,
                       ops: seq<Op>, a: int)
    requires Holds(d, g) && |d1| == |d| && |d2| == |d| && Proper(start) && Owned(start, own)
    requires a in own && a != DIRECTORY && Spared(start, ops, a)
    requires TableOf(d1, g) == Run(start, ops).fat.table
    requires DataKept(d, d1, g, Members(own[a])) && DataKept(d1, d2, g, Bystanders(TableOf(d1, g), own[DIRECTORY]))
    ensures DataKept(d, d2, g, Members(own[a]))
  {
    var now := OwnersAfterRun(start, own, ops);
    RunKeepsOwned(start, own, ops);
    SparedKeepsOwner(start, own, ops, a);
    forall c | c in own[a]
      ensures c in Bystanders(TableOf(d1, g), own[DIRECTORY])
    {
      ChainAllocated(Run(start, ops).fat.table, now[a], c);
      assert Disjoint(now[a], now[DIRECTORY]);
    }
  }

  /** Every owner besides the directory that the operations spared holds the same data. */
  ghost predicate SparedKept(d: seq<Sector>, d': seq<Sector>, g: Geometry, start: View, own: Owners, ops: seq<Op>)
    requires Holds(d, g) && Proper(start)
  {
    forall a :: a in own && a != DIRECTORY && Spared(start, ops, a) ==> DataKept(d, d', g, Members(own[a]))
  }

  lemma AllSparedKept(d: seq<Sector>, d1: seq<Sector>, d2: seq<Sector>, g: Geometry, start: View, own: Owners,
                      ops: seq<Op>)
    requires Holds(d, g) && |d1| == |d| && |d2| == |d| && Proper(start) && Owned(start, own) && ops != []
    requires TableOf(d1, g) == Run(start, ops[..|ops| - 1]).fat.table
    requires SparedKept(d, d1, g, start, own, ops[..|ops| - 1])
    requires DataKept(d1, d2, g, Bystanders(TableOf(d1, g), own[DIRECTORY]))
    ensures SparedKept(d, d2, g, start, own, ops)
  {
    forall a | a in own && a != DIRECTORY && Spared(start, ops, a)
      ensures DataKept(d, d2, g, Members(own[a]))
    {
      SparedDataKept(d, d1, d2, g, start, own, ops[..|ops| - 1], a);
    }
  }

  /** The volume after the operations `ops` since it held `d` and showed `start`. */
  ghost predicate InSession(v: Volume, d: seq<Sector>, start: View, own: Owners, ops: seq<Op>)
    requires Proper(start) && DIRECTORY in own
    reads v
  {
    && v.Valid() && v.Healthy() && Holds(d, v.g) && |v.sectors| == |d| && ChainAt(v.sectors, v.g, own[DIRECTORY])
    && ViewOf(v, own[DIRECTORY]) == Run(start, ops) && SparedKept(d, v.sectors, v.g, start, own, ops)
  }

  method OneMore(v: Volume, ghost d: seq<Sector>, ghost start: View, ghost own: Owners, dir: nat, ops: seq<Op>)
    requires Proper(start) && Owned(start, own) && ops != [] && own[DIRECTORY][0] == dir
    requires InSession(v, d, start, own, ops[..|ops| - 1])
    modifies v
    ensures InSession(v, d, start, own, ops)
  {
    ghost var init, d1 := ops[..|ops| - 1], v.sectors;
    RunKeepsOwned(start, own, init);
    var _ := Perform(v, OwnersAfterRun(start, own, init), dir, ops[|ops| - 1]);
    AllSparedKept(d, d1, v.sectors, v.g, start, own, ops);
  }

  /** Any sequence of operations on the bytes does what the run of the model does, leaves a
      volume on which the next operation's assumptions hold again, and keeps the contents of
      every file and every other chain that no operation deletes. */
  method Session(v: Volume, ghost own: Owners, dir: nat, ops: seq<Op>)
    requires Mounted(v, dir, own)
    modifies v
    ensures Mounted(v, dir, OwnersAfterRun(old(ViewOf(v, own[DIRECTORY])), own, ops))
    ensures ViewOf(v, own[DIRECTORY]) == Run(old(ViewOf(v, own[DIRECTORY])), ops)
    ensures CountExact(old(v.FatView())) ==> CountExact(v.FatView())
    ensures SparedKept(old(v.sectors), v.sectors, v.g, old(ViewOf(v, own[DIRECTORY])), own, ops)
  {
    ghost var ch := own[DIRECTORY];
    ghost var start, d := ViewOf(v, ch), v.sectors;
    assert ops[..0] == [];
    var i := 0;
    while i < |ops|
      invariant 0 <= i <= |ops| && InSession(v, d, start, own, ops[..i])
    {
      assert ops[..i + 1][..i] == ops[..i];
      OneMore(v, d, start, own, dir, ops[..i + 1]);
      i := i + 1;
    }
    assert ops[..|ops|] == ops;
    StillMounted(v, d, start, own, dir, ops);
  }

  lemma StillMounted(v: Volume, d: seq<Sector>, start: View, own: Owners, dir: nat, ops: seq<Op>)
    requires Proper(start) && Owned(start, own) && InSession(v, d, start, own, ops) && own[DIRECTORY][0] == dir
    ensures Mounted(v, dir, OwnersAfterRun(start, own, ops))
    ensures CountExact(start.fat) ==> CountExact(v.FatView())
  {
    RunKeepsOwned(start, own, ops);
    if CountExact(start.fat) {
      RunKeepsCount(start, ops);
    }
  }
}
