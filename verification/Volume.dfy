/** A mounted FAT32 volume: the disk behind an unreliable sector interface, the in-memory
    FSInfo block, and the driver's cluster layer on top of them.  The boot sector's bytes per
    sector are 512 on every valid volume and are written so. */
module Volumes {

  import opened Bytes
  import opened FatChain
  import opened FatLayout

  datatype Option<T> = None | Some(value: T)

  /** What one sector transfer does.  A bad read fails.  A bad write leaves `damage` (or the
      old contents) behind and may or may not report it. */
  datatype Transfer = Good | Bad(reported: bool, damage: Option<Sector>)

  /** The outcome of the next transfer, and those after it. */
  function Head(ts: seq<Transfer>): Transfer {
    if ts == [] then Good else ts[0]
  }

  function Rest(ts: seq<Transfer>): seq<Transfer> {
    if ts == [] then [] else ts[1..]
  }

  /** What a write of `data` leaves in a sector that held `was`. */
  function Left(x: Transfer, was: Sector, data: Sector): Sector {
    match x
    case Good => data
    case Bad(_, damage) => if damage.Some? then damage.value else was
  }

  /** A good write whose read-back fails. */
  predicate Unconfirmed(ts: seq<Transfer>) {
    Head(ts).Good? && Head(Rest(ts)).Bad?
  }

  /** A good read, then a good write whose read-back fails. */
  predicate Unverified(ts: seq<Transfer>) {
    Head(ts).Good? && Unconfirmed(Rest(ts))
  }

  /** At most the four bytes at `at` differ. */
  ghost predicate OnlyWord(a: Sector, b: Sector, at: nat) {
    forall i :: 0 <= i < 512 && !(at <= i < at + 4) ==> b[i] == a[i]
  }

  class Volume {
    const g: Geometry
    var sectors: seq<Sector>
    /** The outcomes of the transfers to come; past the end all are good. */
    var transfers: seq<Transfer>
    /** The FSInfo structure as held in memory. */
    var info: Sector
    var infoValid: bool

    predicate Valid()
      reads this
    {
      && Holds(sectors, g)
      && g.reserved < 0x1_0000
      && (infoValid ==> 1 <= g.infoSector < g.reserved)
    }

    /** No transfer will go wrong. */
    ghost predicate Healthy()
      reads this
    {
      forall i :: 0 <= i < |transfers| ==> transfers[i].Good?
    }

    function InfoView(): Info
      reads this
    {
      Info(infoValid, Le32(info, 488), Le32(info, 492))
    }

    /** The table and the counter, as the rest of the driver sees them. */
    function FatView(): Fat
      requires Valid()
      reads this
    {
      Fat(TableOf(sectors, g), InfoView())
    }

    constructor (g: Geometry, sectors: seq<Sector>, transfers: seq<Transfer>, info: Sector, infoValid: bool)
      ensures this.g == g && this.sectors == sectors && this.transfers == transfers
      ensures this.info == info && this.infoValid == infoValid
    {
      this.g, this.sectors, this.transfers := g, sectors, transfers;
      this.info, this.infoValid := info, infoValid;
    }

    // -------------------------------------------------------------- sector I/O

    method NextTransfer() returns (x: Transfer)
      modifies this`transfers
      ensures x == Head(old(transfers)) && transfers == Rest(old(transfers))
      ensures old(Healthy()) ==> Healthy() && x.Good?
    {
      if transfers == [] {
        x := Good;
      } else {
        x := transfers[0];
        transfers := transfers[1..];
      }
    }

    method ReadSector(lba: nat) returns (ok: bool, data: Sector)
      modifies this`transfers
      ensures ok ==> lba < |sectors| && data == sectors[lba]
      ensures (ok <==> Head(old(transfers)).Good? && lba < |sectors|) && transfers == Rest(old(transfers))
      ensures old(Healthy()) ==> Healthy() && (ok <==> lba < |sectors|)
    {
      var x := NextTransfer();
      ok := x.Good? && lba < |sectors|;
      data := if ok then sectors[lba] else seq(512, _ => 0);
    }

    method WriteSector(lba: nat, data: Sector) returns (ok: bool)
      modifies this`transfers, this`sectors
      ensures |sectors| == |old(sectors)|
      ensures forall x :: 0 <= x < |sectors| && x != lba ==> sectors[x] == old(sectors)[x]
      ensures ok ==> lba < |sectors|
      ensures lba < |sectors| ==> sectors == old(sectors)[lba := Left(Head(old(transfers)), old(sectors)[lba], data)]
      ensures Head(old(transfers)).Good? && lba < |sectors| ==> ok
      ensures transfers == Rest(old(transfers))
      ensures old(Healthy()) ==> Healthy() && (ok <==> lba < |sectors|)
      ensures old(Healthy()) && ok ==> sectors[lba] == data
    {
      var x := NextTransfer();
      if lba >= |sectors| {
        return false;
      }
      match x
      case Good =>
        sectors := sectors[lba := data];
        ok := true;
      case Bad(reported, damage) =>
        if damage.Some? {
          sectors := sectors[lba := damage.value];
        }
        ok := !reported;
    }

    /** Write, read back and compare: success means the sector holds `data`, even when the
        drive lost or damaged the write without saying so. */
    method WriteVerified(lba: nat, data: Sector) returns (ok: bool)
      modifies this`transfers, this`sectors
      ensures |sectors| == |old(sectors)|
      ensures forall x :: 0 <= x < |sectors| && x != lba ==> sectors[x] == old(sectors)[x]
      ensures ok ==> lba < |sectors| && sectors == old(sectors)[lba := data]
      ensures lba < |sectors| ==> sectors == old(sectors)[lba := Left(Head(old(transfers)), old(sectors)[lba], data)]
      ensures Unconfirmed(old(transfers)) ==> !ok
      ensures old(Healthy()) ==> Healthy() && (ok <==> lba < |sectors|)
    {
      ok := WriteSector(lba, data);
      if !ok {
        return;
      }
      var back: Sector;
      ok, back := ReadSector(lba);
      if ok {
        ok := data == back;
      }
    }

    // -------------------------------------------------------------- FSInfo

    method UpdateFreeCount(delta: int)
      requires -0x8000_0000 < delta < 0x8000_0000
      modifies this`info
      ensures InfoView() == Counted(old(InfoView()), delta)
      ensures OnlyWord(old(info), info, 488)
    {
      var count := Le32(info, 488);
      if !infoValid || count == 0xFFFF_FFFF {
        return;
      }
      var next := if delta < 0 && count < -delta then 0 else Wrap(count + delta);
      WordAfterSplice(info, 488, next, 492);
      info := Splice(info, 488, Le32Bytes(next));
    }

    method SetHint(next: nat)
      requires next < WORD
      modifies this`info
      ensures InfoView() == old(InfoView()).(next := next)
      ensures OnlyWord(old(info), info, 492)
    {
      WordAfterSplice(info, 492, next, 488);
      info := Splice(info, 492, Le32Bytes(next));
    }

    /** `write_fsinfo`: the block goes to its sector in the reserved area. */
    method WriteFsInfo() returns (ok: bool)
      requires Valid()
      modifies this`transfers, this`sectors
      ensures Valid() && FatView() == old(FatView())
      ensures OnlySector(old(sectors), sectors, g.partition + g.infoSector)
      ensures !infoValid ==> sectors == old(sectors)
      ensures ok ==> g.partition + g.infoSector < |sectors|
      ensures ok ==> forall at :: at in {0, 484, 488, 492, 508} ==>
                       Le32(sectors[g.partition + g.infoSector], at) == Le32(info, at)
      ensures old(Healthy()) ==> Healthy() && ok == infoValid
      ensures old(Healthy()) && ok ==>
                g.partition + g.infoSector < |sectors| && sectors[g.partition + g.infoSector] == info
    {
      if !infoValid {
        return false;
      }
      ghost var d := sectors;
      ok := StoreInfo(g.partition + g.infoSector);
      InfoSectorFrame(d, sectors, g);
    }

    /** The write of the information block and the comparison of its five fields with what is
        read back. */
    method StoreInfo(lba: nat) returns (ok: bool)
      modifies this`transfers, this`sectors
      ensures OnlySector(old(sectors), sectors, lba)
      ensures ok ==> lba < |sectors| && InfoFieldsAgree(sectors[lba], info)
      ensures old(Healthy()) ==> Healthy() && (ok <==> lba < |sectors|)
      ensures old(Healthy()) && ok ==> sectors[lba] == info
    {
      ok := WriteSector(lba, info);
      if ok {
        var back: Sector;
        ok, back := ReadSector(lba);
        ok := ok && InfoFieldsAgree(back, info);
      }
    }

    // -------------------------------------------------------------- FAT entries

    method ReadFatEntry(c: nat) returns (e: nat)
      requires Valid() && c < WORD
      modifies this`transfers
      ensures e == INVALID || (InTable(TableOf(sectors, g), c) && e == TableOf(sectors, g)[c])
      ensures old(Healthy()) ==> Healthy() && (e == INVALID <==> !InTable(TableOf(sectors, g), c))
    {
      if c < 2 || c >= TotalClusters(g) {
        return INVALID;
      }
      EntryAddress(g, |sectors|, c);
      var ok, buffer := ReadSector(EntryLba(g, c));
      if !ok {
        return INVALID;
      }
      e := Le32(buffer, EntryByte(c)) % 0x1000_0000;
    }

    method NextInChain(c: nat) returns (n: nat)
      requires Valid() && c < WORD
      modifies this`transfers
      ensures n < WORD && !(EOC_MIN <= n <= EOC_MAX)
      ensures c < TotalClusters(g) ==> n == INVALID || n == Next(TableOf(sectors, g), c)
      ensures old(Healthy()) ==> Healthy()
      ensures old(Healthy()) && c < TotalClusters(g) ==> n == Next(TableOf(sectors, g), c)
    {
      if c < TotalClusters(g) {
        EntryAddress(g, |sectors|, c);
      }
      var ok, buffer := ReadSector(EntryLba(g, c));
      if !ok {
        return INVALID;
      }
      n := Le32(buffer, EntryByte(c)) % 0x1000_0000;
      if n >= EOC_MIN {
        n := INVALID;
      }
    }

    /** The mirroring loop of `mark_cluster_in_fat`: sector `i` of every FAT copy, in turn,
        each write verified.  Returns how many copies were stored. */
    method StoreInCopies(i: nat, data: Sector) returns (ok: bool, ghost n: nat)
      requires Valid() && i < g.fatSize
      modifies this`transfers, this`sectors
      ensures n <= g.fats && (ok <==> n == g.fats)
      ensures ok ==> sectors == Mirror(old(sectors), g, i, data, g.fats)
      ensures !ok ==> Stopped(old(sectors), g, i, data, n, sectors)
      ensures CopySector(g, 0, i) < |old(sectors)|
      ensures var was := old(sectors)[CopySector(g, 0, i)];
              FirstCopyIs(old(sectors), sectors, g, i, Left(Head(old(transfers)), was, data))
      ensures Unconfirmed(old(transfers)) ==> !ok
      ensures old(Healthy()) ==> Healthy() && ok
    {
      ghost var d := sectors;
      CopiesInside(g, |d|, 0, i);
      ghost var first := Left(Head(transfers), d[CopySector(g, 0, i)], data);
      var k := 0;
      while k < g.fats
        invariant 0 <= k <= g.fats && |sectors| == |d|
        invariant sectors == Mirror(d, g, i, data, k)
        invariant if k == 0 then transfers == old(transfers) else !Unconfirmed(old(transfers)) && first == data
        invariant old(Healthy()) ==> Healthy()
      {
        CopiesInside(g, |d|, k, i);
        ok := WriteVerified(g.partition + g.reserved + k * g.fatSize + i, data);
        assert k == 0 ==> sectors[CopySector(g, 0, i)] == first;
        if !ok {
          StoppedFirstCopy(d, g, i, data, k, sectors, first);
          return false, k;
        }
        k := k + 1;
      }
      MirrorFirstCopy(d, g, i, data, k);
      return true, k;
    }

    /** `mark_cluster_in_fat`.  Whatever the transfers do, success means every copy holds the
        patched sector; a failure leaves `stored` copies updated, at most the next copy damaged,
        the remaining ones and the counter as they were.  Either way the table is what the first
        two transfers make of the first copy. */
    method MarkCluster(c: nat, value: nat) returns (ok: bool, ghost stored: nat)
      requires Valid() && c < WORD && value < WORD
      modifies this
      ensures Valid() && infoValid == old(infoValid)
      ensures SameOutsideFat(old(sectors), sectors, g)
      ensures ok ==> InTable(TableOf(old(sectors), g), c) && sectors == Marked(old(sectors), g, c, value)
      ensures ok ==> FatView() == Mark(old(FatView()), c, value)
      ensures old(Healthy()) ==> Healthy() && (ok <==> InTable(TableOf(old(sectors), g), c))
      ensures !ok ==> info == old(info)
      ensures OnlyWord(old(info), info, 488)
      ensures !ok && !InTable(TableOf(old(sectors), g), c) ==> sectors == old(sectors)
      ensures !ok && InTable(TableOf(old(sectors), g), c) ==>
                Interrupted(old(sectors), g, c, value, stored, sectors)
      ensures InTable(TableOf(old(sectors), g), c) ==>
                TableOf(sectors, g) == TableOf(FirstCopyAfter(old(sectors), g, c, value, old(transfers)), g)
      ensures Unverified(old(transfers)) ==> !ok
    {
      if c < 2 || c >= TotalClusters(g) {
        return false, 0;
      }
      var was: nat;
      ok, was, stored := MarkFat(c, value);
      if !ok {
        return;
      }
      if was == 0 && value != 0 {
        UpdateFreeCount(-1);
      } else if was != 0 && value == 0 {
        UpdateFreeCount(1);
      }
    }

    /** The disk part of it; `was` is the old entry. */
    method MarkFat(c: nat, value: nat) returns (ok: bool, was: nat, ghost stored: nat)
      requires Valid() && 2 <= c < TotalClusters(g) && value < WORD
      modifies this`transfers, this`sectors
      ensures Valid() && SameOutsideFat(old(sectors), sectors, g)
      ensures ok ==> sectors == Marked(old(sectors), g, c, value) && was == TableOf(old(sectors), g)[c]
      ensures ok ==> TableOf(sectors, g) == TableOf(old(sectors), g)[c := value % 0x1000_0000]
      ensures !ok ==> Interrupted(old(sectors), g, c, value, stored, sectors)
      ensures TableOf(sectors, g) == TableOf(FirstCopyAfter(old(sectors), g, c, value, old(transfers)), g)
      ensures Unverified(old(transfers)) ==> !ok
      ensures old(Healthy()) ==> Healthy() && ok
    {
      ghost var d := sectors;
      stored := 0;
      EntryInside(g, |sectors|, 0, c);
      EntryAddress(g, |sectors|, c);
      var at := EntryByte(c);
      var buffer: Sector;
      ok, buffer := ReadSector(EntryLba(g, c));
      if !ok {
        return false, 0, 0;
      }
      was := Le32(buffer, at) % 0x1000_0000;
      buffer := Patched(buffer, at, value);
      ghost var ts := transfers;
      ok, stored := StoreInCopies(EntrySector(c), buffer);
      FirstCopyTable(d, sectors, g, EntrySector(c), Left(Head(ts), d[FatSector(g, 0, c)], buffer));
      if ok {
        MarkIsMapUpdate(d, g, c, value);
        MarkStaysInFat(d, g, c, value);
      } else {
        StoppedStaysInFat(d, g, EntrySector(c), buffer, stored, sectors);
      }
    }

    // -------------------------------------------------------------- chains

    /** `find_free_cluster`.  A cluster it returns is free whatever the transfers did; with
        good transfers it is the cyclically nearest one to the hint. */
    method FindFreeCluster() returns (c: nat)
      requires Valid()
      modifies this`transfers, this`info
      ensures Valid()
      ensures c != INVALID ==> InTable(TableOf(sectors, g), c) && TableOf(sectors, g)[c] == 0
      ensures FatView() == Hinted(old(FatView()), c)
      ensures OnlyWord(old(info), info, 492)
      ensures old(Healthy()) ==> Healthy() && c == FindFree(old(FatView()))
    {
      var total, start, hint := TotalClusters(g), 2, Le32(info, 492);
      if infoValid && hint != 0xFFFF_FFFF && 2 <= hint < total {
        start := hint;
      }
      c := INVALID;
      if start < total {
        c := ScanFree(start, total);
      }
      if c == INVALID && start > 2 {
        c := ScanFree(2, start);
      }
      if c != INVALID && infoValid {
        SetHint(c + 1);
      }
    }

    /** One scan of the search: the first cluster of [lo, hi) whose entry reads as zero. */
    method ScanFree(lo: nat, hi: nat) returns (c: nat)
      requires Valid() && 2 <= lo <= hi <= TotalClusters(g)
      modifies this`transfers
      ensures c != INVALID ==> lo <= c < hi && TableOf(sectors, g)[c] == 0
      ensures old(Healthy()) ==> Healthy() && c == FirstFree(TableOf(sectors, g), lo, hi)
    {
      var x := lo;
      while x < hi
        invariant lo <= x <= hi
        invariant old(Healthy()) ==> Healthy()
        invariant old(Healthy()) ==> FirstFree(TableOf(sectors, g), lo, hi) == FirstFree(TableOf(sectors, g), x, hi)
      {
        var e := ReadFatEntry(x);
        if e == 0 {
          return x;
        }
        x := x + 1;
      }
      c := INVALID;
    }

    /** The walk of `link_cluster_to_chain`: the last cluster of a well-formed chain, or an
        earlier one when a read fails on the way. */
    method WalkToLast(ghost ch: seq<nat>, parent: nat) returns (current: nat, ghost k: nat)
      requires Valid() && IsChain(FatView().table, ch) && ch[0] == parent
      modifies this`transfers
      ensures k < |ch| && current == ch[k] && InTable(FatView().table, current)
      ensures old(Healthy()) ==> Healthy() && k == |ch| - 1
    {
      ghost var t := FatView().table;
      k, current := 0, parent;
      ChainLink(t, ch, 0);
      var next := NextInChain(current);
      while next < EOC_MIN
        invariant 0 <= k < |ch| && current == ch[k] && InTable(t, current)
        invariant next == INVALID || (k + 1 < |ch| && next == ch[k + 1] && InTable(t, next))
        invariant old(Healthy()) ==> Healthy() && (next == INVALID <==> k + 1 == |ch|)
        decreases |ch| - k
      {
        k := k + 1;
        ChainLink(t, ch, k);
        current := next;
        next := NextInChain(current);
      }
    }

    /** `link_cluster_to_chain` on a well-formed chain.  With good transfers the last entry of
        the chain is redirected, and a chain linked to is appended exactly when it shares no
        cluster; a read error on the way redirects an earlier entry and so cuts off the rest. */
    method LinkCluster(ghost ch: seq<nat>, ghost tail: seq<nat>, parent: nat, added: nat)
        returns (ok: bool, ghost k: nat)
      requires Valid() && IsChain(FatView().table, ch) && ch[0] == parent && added < WORD
      modifies this
      ensures Valid() && SameOutsideFat(old(sectors), sectors, g)
      ensures k < |ch| && InTable(old(FatView()).table, ch[k])
      ensures ok ==> FatView() == Mark(old(FatView()), ch[k], added)
      ensures old(Healthy()) ==> Healthy() && ok && k == |ch| - 1
      ensures old(Healthy()) && IsChain(old(FatView()).table, tail) && tail[0] == added ==>
                (IsChain(FatView().table, ch + tail) <==> Disjoint(ch, tail))
    {
      ghost var f := FatView();
      var current;
      current, k := WalkToLast(ch, parent);
      ghost var stored: nat;
      ok, stored := MarkCluster(current, added);
      if old(Healthy()) && IsChain(f.table, tail) && tail[0] == added {
        MarkLinks(f, ch, current, tail);
      }
    }

    /** One turn of `free_cluster_chain`: look up the successor, then clear the entry. */
    method FreeOne(current: nat) returns (ok: bool, next: nat)
      requires Valid() && current < WORD
      modifies this
      ensures Valid() && infoValid == old(infoValid)
      ensures SameOutsideFat(old(sectors), sectors, g)
      ensures ok ==> InTable(old(FatView()).table, current)
      ensures ok ==> FatView() == Mark(old(FatView()), current, 0)
      ensures next < WORD && !(EOC_MIN <= next <= EOC_MAX)
      ensures ok && next != INVALID ==> next == old(FatView()).table[current]
      ensures !ok ==> SameBesideSector(old(FatView()).table, FatView().table, current)
      ensures old(Healthy()) ==> Healthy() && (ok <==> InTable(old(FatView()).table, current))
      ensures old(Healthy()) && ok ==> next == Next(old(FatView()).table, current)
      ensures old(Healthy()) && !ok ==> sectors == old(sectors) && info == old(info)
    {
      next := NextInChain(current);
      ghost var d, stored := sectors, 0;
      ok, stored := MarkCluster(current, 0);
      if !ok && InTable(TableOf(d, g), current) {
        InterruptedTable(d, g, current, 0, stored, sectors);
      }
    }

    /** `free_cluster_chain`.  It terminates on every table, touches only the FAT area, and has
        cleared nothing that the start does not reach, save for what a failed mark left in the
        one FAT sector it was writing; with good transfers it clears all of that and keeps the
        counter in step. */
    method FreeClusterChain(start: nat) returns (ok: bool)
      requires Valid() && start < WORD
      modifies this
      ensures Valid() && infoValid == old(infoValid)
      ensures SameOutsideFat(old(sectors), sectors, g)
      ensures ok ==> InTable(old(FatView()).table, start)
      ensures ok ==> OnlyReachableCleared(old(FatView()).table, start, FatView().table)
      ensures ok && CountExact(old(FatView())) ==> CountExact(FatView())
      ensures !ok ==> exists c: nat :: ClearedUpTo(old(FatView()).table, start, FatView().table, c)
      ensures old(Healthy()) ==> Healthy() && (ok <==> InTable(old(FatView()).table, start))
      ensures old(Healthy()) && ok ==> FatView() == Freed(old(FatView()), start)
      ensures old(Healthy()) && !ok ==> sectors == old(sectors) && info == old(info)
    {
      ghost var f := FatView();
      ghost var t := f.table;
      assert Walk(t, start, 0) == start;
      if !IsValidCluster(g, start) {
        assert ClearedUpTo(t, start, FatView().table, start);
        return false;
      }
      var current, first := start, true;
      while true
        invariant Valid() && infoValid == old(infoValid) && current < WORD
        invariant SameOutsideFat(old(sectors), sectors, g)
        invariant first ==> current == start && sectors == old(sectors) && info == old(info)
        invariant !first ==> InTable(t, start) && InTable(t, current)
        invariant Reaches(t, start, current)
        invariant OnlyReachableCleared(t, start, FatView().table)
        invariant CountExact(f) ==> CountExact(FatView())
        invariant old(Healthy()) ==> Healthy()
        invariant old(Healthy()) && InTable(t, start) ==> Freed(f, start) == Freed(FatView(), current)
        decreases UsedSet(FatView().table)
      {
        ghost var before := FatView();
        var next;
        ok, next := FreeOne(current);
        if !ok {
          assert ClearedUpTo(t, start, FatView().table, current);
          return;
        }
        if CountExact(f) {
          MarkKeepsCount(before, current, 0);
        }
        if next == INVALID || (EOC_MIN <= next <= EOC_MAX) {
          break;
        }
        if !IsValidCluster(g, next) {
          break;
        }
        ClearReachable(t, start, before.table, current);
        current, first := next, false;
      }
      ok := true;
    }
  }

  /** Each entry is as it was, or is now zero and was reachable from `s`. */
  ghost predicate OnlyReachableCleared(t: Table, s: nat, t': Table) {
    |t'| == |t| && forall c: nat :: c < |t| ==> t'[c] == t[c] || (2 <= c && t'[c] == 0 && Reaches(t, s, c))
  }

  /** Only entries that share the FAT sector of entry `c` differ. */
  ghost predicate SameBesideSector(t: Table, t': Table, c: nat) {
    |t'| == |t| && forall x: nat :: x < |t| && EntrySector(x) != EntrySector(c) ==> t'[x] == t[x]
  }

  /** Freeing that failed at a reachable `c`: outside the FAT sector of `c` each entry is as it was
      or is now zero and was reachable. */
  ghost predicate ClearedUpTo(t: Table, s: nat, t': Table, c: nat) {
    && Reaches(t, s, c) && |t'| == |t|
    && forall x: nat :: x < |t| && EntrySector(x) != EntrySector(c) ==>
         t'[x] == t[x] || (2 <= x && t'[x] == 0 && Reaches(t, s, x))
  }

  lemma ClearReachable(t: Table, s: nat, t': Table, c: nat)
    requires OnlyReachableCleared(t, s, t') && Reaches(t, s, c) && InTable(t, c) && InTable(t', t'[c])
    ensures Reaches(t, s, t'[c])
    ensures UsedSet(t'[c := 0]) < UsedSet(t')
  {
    ReachesNext(t, s, c);
    assert UsedSet(t'[c := 0]) == UsedSet(t') - {c} && c in UsedSet(t');
  }

  /** The fields `write_fsinfo` compares: the three signatures, the counter and the hint. */
  predicate InfoFieldsAgree(a: Sector, b: Sector) {
    forall at :: at in {0, 484, 508, 488, 492} ==> Le32(a, at) == Le32(b, at)
  }

  /** Mirroring that stopped at copy `n`: the earlier copies hold `data`, copy `n` may hold
      anything, everything else is as before. */
  ghost predicate Stopped(d: seq<Sector>, g: Geometry, i: nat, data: Sector, n: nat, after: seq<Sector>)
    requires Holds(d, g) && i < g.fatSize
  {
    && n < g.fats && CopySector(g, n, i) < |d|
    && OnlySector(Mirror(d, g, i, data, n), after, CopySector(g, n, i))
  }

  ghost predicate Interrupted(d: seq<Sector>, g: Geometry, c: nat, value: nat, n: nat, after: seq<Sector>)
    requires Holds(d, g) && c < TotalClusters(g)
  {
    EntryInside(g, |d|, 0, c);
    Stopped(d, g, EntrySector(c), Patched(d[FatSector(g, 0, c)], EntryOffset(c), value), n, after)
  }

  /** The first copy of the FAT holds `s` as its sector `i` and is otherwise as before. */
  ghost predicate FirstCopyIs(d: seq<Sector>, after: seq<Sector>, g: Geometry, i: nat, s: Sector) {
    && |after| == |d|
    && forall j: nat :: j < g.fatSize && CopySector(g, 0, j) < |d| ==>
         after[CopySector(g, 0, j)] == if j == i then s else d[CopySector(g, 0, j)]
  }

  lemma MirrorFirstCopy(d: seq<Sector>, g: Geometry, i: nat, data: Sector, n: nat)
    requires Holds(d, g) && i < g.fatSize && 0 < n <= g.fats
    ensures FirstCopyIs(d, Mirror(d, g, i, data, n), g, i, data)
  {
    forall j: nat | j < g.fatSize && CopySector(g, 0, j) < |d|
      ensures Mirror(d, g, i, data, n)[CopySector(g, 0, j)] == if j == i then data else d[CopySector(g, 0, j)]
    {
      MirrorCopies(d, g, i, data, n, 0, j);
    }
  }

  lemma StoppedFirstCopy(d: seq<Sector>, g: Geometry, i: nat, data: Sector, n: nat, after: seq<Sector>, s: Sector)
    requires Holds(d, g) && i < g.fatSize && Stopped(d, g, i, data, n, after) && CopySector(g, 0, i) < |d|
    requires if n == 0 then after[CopySector(g, 0, i)] == s else s == data
    ensures FirstCopyIs(d, after, g, i, s)
  {
    if n > 0 {
      forall j: nat | j < g.fatSize && CopySector(g, 0, j) < |d|
        ensures after[CopySector(g, 0, j)] == if j == i then s else d[CopySector(g, 0, j)]
      {
        StoppedCopies(d, g, i, data, n, after, j);
      }
    }
  }

  /** The disk whose table a mark leaves, decided by its first two transfers: without the read
      nothing is written, and the write leaves its sector of the first copy. */
  ghost function FirstCopyAfter(d: seq<Sector>, g: Geometry, c: nat, value: nat, ts: seq<Transfer>): (r: seq<Sector>)
    requires Holds(d, g) && c < TotalClusters(g)
    ensures |r| == |d|
  {
    EntryInside(g, |d|, 0, c);
    var at, was := FatSector(g, 0, c), d[FatSector(g, 0, c)];
    if Head(ts).Bad? then d else d[at := Left(Head(Rest(ts)), was, Patched(was, EntryOffset(c), value))]
  }

  /** The table depends on the first copy only. */
  lemma FirstCopyTable(d: seq<Sector>, after: seq<Sector>, g: Geometry, i: nat, s: Sector)
    requires Holds(d, g) && i < g.fatSize && CopySector(g, 0, i) < |d| && FirstCopyIs(d, after, g, i, s)
    ensures TableOf(after, g) == TableOf(d[CopySector(g, 0, i) := s], g)
  {
    var b := d[CopySector(g, 0, i) := s];
    forall x: nat | x < TotalClusters(g)
      ensures RawEntry(after, g, 0, x) == RawEntry(b, g, 0, x)
    {
      EntryInside(g, |d|, 0, x);
    }
  }

  /** The entry a mark leaves, over the outcomes of its transfers. */
  lemma EntryAfterMark(d: seq<Sector>, g: Geometry, c: nat, value: nat, ts: seq<Transfer>)
    requires Holds(d, g) && c < TotalClusters(g)
    ensures TableOf(FirstCopyAfter(d, g, c, value, ts), g)[c]
         == match Head(Rest(ts))
            case Good => if Head(ts).Good? then value % 0x1000_0000 else TableOf(d, g)[c]
            case Bad(_, damage) =>
              if Head(ts).Good? && damage.Some? then Le32(damage.value, EntryOffset(c)) % 0x1000_0000
              else TableOf(d, g)[c]
  {
    EntryInside(g, |d|, 0, c);
    var was, at := d[FatSector(g, 0, c)], EntryOffset(c);
    WordAfterSplice(was, at, Merge(Le32(was, at), value), at);
  }

  /** A cluster that was free is still free after a mark with an end mark, whether it reports
      success or not, exactly when the read failed or the write left no other bits in the entry. */
  lemma StillFreeExactly(d: seq<Sector>, g: Geometry, c: nat, ts: seq<Transfer>)
    requires Holds(d, g) && c < TotalClusters(g) && TableOf(d, g)[c] == 0
    ensures TableOf(FirstCopyAfter(d, g, c, EOC_MAX, ts), g)[c] == 0 <==>
            || Head(ts).Bad?
            || (&& Head(Rest(ts)).Bad?
                && (Head(Rest(ts)).damage.Some? ==>
                      Le32(Head(Rest(ts)).damage.value, EntryOffset(c)) % 0x1000_0000 == 0))
  {
    EntryAfterMark(d, g, c, EOC_MAX, ts);
  }

  /** With the patched sector stored in the first copy the table is already the marked one. */
  lemma PatchedTable(d: seq<Sector>, g: Geometry, c: nat, value: nat, ts: seq<Transfer>)
    requires Holds(d, g) && c < TotalClusters(g) && Head(ts).Good? && Head(Rest(ts)).Good?
    ensures TableOf(FirstCopyAfter(d, g, c, value, ts), g) == TableOf(d, g)[c := value % 0x1000_0000]
  {
    EntryInside(g, |d|, 0, c);
    var i, data := EntrySector(c), Patched(d[FatSector(g, 0, c)], EntryOffset(c), value);
    MirrorFirstCopy(d, g, i, data, g.fats);
    FirstCopyTable(d, Marked(d, g, c, value), g, i, data);
    MarkIsMapUpdate(d, g, c, value);
  }

  /** What a mark that stopped after `n` copies has done to the table.  Once the first copy is
      stored the table is the marked one.  Before that only entries of the sector being written can
      differ, and each reads as that sector now says. */
  lemma InterruptedTable(d: seq<Sector>, g: Geometry, c: nat, value: nat, n: nat, after: seq<Sector>)
    requires Holds(d, g) && c < TotalClusters(g) && Interrupted(d, g, c, value, n, after)
    ensures |after| == |d| && FatSector(g, 0, c) < |d|
    ensures n > 0 ==> TableOf(after, g) == TableOf(d, g)[c := value % 0x1000_0000]
    ensures n == 0 ==> forall x: nat :: x < TotalClusters(g) ==>
              TableOf(after, g)[x] == if EntrySector(x) == EntrySector(c)
                                      then Le32(after[FatSector(g, 0, c)], EntryOffset(x)) % 0x1000_0000
                                      else TableOf(d, g)[x]
  {
    EntryInside(g, |d|, 0, c);
    var i, data := EntrySector(c), Patched(d[FatSector(g, 0, c)], EntryOffset(c), value);
    if n > 0 {
      StoppedFirstCopy(d, g, i, data, n, after, data);
      FirstCopyTable(d, after, g, i, data);
      PatchedTable(d, g, c, value, []);
    } else {
      forall x: nat | x < TotalClusters(g) && EntrySector(x) != i
        ensures TableOf(after, g)[x] == TableOf(d, g)[x]
      {
        EntryInside(g, |d|, 0, x);
      }
    }
  }

  lemma StoppedCopies(d: seq<Sector>, g: Geometry, i: nat, data: Sector, n: nat, after: seq<Sector>, j: nat)
    requires Holds(d, g) && i < g.fatSize && Stopped(d, g, i, data, n, after) && n > 0 && j < g.fatSize
    ensures CopySector(g, 0, j) < |d| == |after|
    ensures after[CopySector(g, 0, j)] == if j == i then data else d[CopySector(g, 0, j)]
  {
    MirrorCopies(d, g, i, data, n, 0, j);
    if CopySector(g, 0, j) == CopySector(g, n, i) {
      CopiesApart(g, 0, j, n, i);
    }
  }

  /** A mark whose first read-back fails reports failure, leaves the table marked and the counter
      as it was, so that an exact counter stays exact only if the entry was as free as the value. */
  method MarkUnverified(v: Volume, c: nat, value: nat) returns (ok: bool)
    requires v.Valid() && value < WORD && InTable(v.FatView().table, c) && Unverified(v.transfers)
    requires v.infoValid && CountExact(v.FatView())
    modifies v
    ensures v.Valid() && !ok && v.info == old(v.info)
    ensures v.FatView().table == old(v.FatView()).table[c := value % 0x1000_0000]
    ensures CountExact(v.FatView()) <==> (old(v.FatView()).table[c] == 0 <==> value % 0x1000_0000 == 0)
  {
    FreeCountUpdate(v.FatView().table, c, value % 0x1000_0000);
    PatchedTable(v.sectors, v.g, c, value, v.transfers);
    ghost var stored: nat;
    ok, stored := v.MarkCluster(c, value);
  }

  lemma StoppedStaysInFat(d: seq<Sector>, g: Geometry, i: nat, data: Sector, n: nat, after: seq<Sector>)
    requires Holds(d, g) && i < g.fatSize && Stopped(d, g, i, data, n, after)
    ensures SameOutsideFat(d, after, g)
  {
    CopiesInside(g, |d|, n, i);
    var stored, stop := Mirror(d, g, i, data, n), CopySector(g, n, i);
    forall x: nat | x < |d| && !InFatArea(g, x)
      ensures after[x] == d[x]
    {
      assert x != stop && after[x] == stored[x];
      MirrorStaysInFat(d, g, i, data, n, x);
    }
  }

  lemma ReachesNext(t: Table, s: nat, c: nat)
    requires Reaches(t, s, c) && InTable(t, c) && InTable(t, t[c])
    ensures Reaches(t, s, t[c])
  {
    var k: nat :| Walk(t, s, k) == c;
    WalkAdd(t, s, k, 1);
    assert Walk(t, c, 1) == Walk(t, t[c], 0);
    assert Walk(t, s, k + 1) == t[c];
  }
}
