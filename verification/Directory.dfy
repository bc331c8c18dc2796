/** One directory of a FAT32 volume as a value: its 32-byte slots, the table with its counter,
    and what creating and deleting entries does to them over whole runs. */
module Directory {

  import opened Bytes
  import opened FatChain
  import opened ShortNames

  type Slot = s: seq<Byte> | |s| == 32 witness seq(32, _ => 0)

  const ATTR_DIRECTORY: Byte := 0x10

  type Half = h: int | 0 <= h < 0x1_0000

  /** The time and date fields of a fresh entry, as the clock gave them. */
  datatype Stamp = Stamp(createTime: Half, createDate: Half, accessDate: Half, writeTime: Half, writeDate: Half)

  /** `create_directory_entry`. */
  function NewSlot(name: CString, cluster: nat, attr: Byte, stamp: Stamp): (s: Slot)
    requires cluster < WORD
  {
    OnDisk(name) + Fields(cluster, attr, stamp)
  }

  /** The 21 bytes after the name, 16-bit fields little-endian. */
  function Fields(cluster: nat, attr: Byte, stamp: Stamp): (s: seq<Byte>)
    requires cluster < WORD
    ensures |s| == 21
  {
    var high, low := cluster / 0x1_0000, cluster % 0x1_0000;
    [ attr, 0, 0,
      stamp.createTime % 0x100, stamp.createTime / 0x100,
      stamp.createDate % 0x100, stamp.createDate / 0x100,
      stamp.accessDate % 0x100, stamp.accessDate / 0x100,
      high % 0x100, high / 0x100,
      stamp.writeTime % 0x100, stamp.writeTime / 0x100,
      stamp.writeDate % 0x100, stamp.writeDate / 0x100,
      low % 0x100, low / 0x100,
      0, 0, 0, 0 ]
  }

  /** A slot of zero bytes. */
  function Blank(): Slot {
    [0, 0, 0, 0, 0, 0, 0, 0, 0, 0, 0, 0, 0, 0, 0, 0, 0, 0, 0, 0, 0, 0, 0, 0, 0, 0, 0, 0, 0, 0, 0, 0]
  }

  function NameOf(s: Slot): Name {
    s[..11]
  }

  /** `read_start_cluster`. */
  function Start(s: Slot): (c: nat)
    ensures c < WORD
  {
    var b0: int, b1: int, b2: int, b3: int := s[26], s[27], s[20], s[21];
    b0 + 0x100 * b1 + 0x1_0000 * (b2 + 0x100 * b3)
  }

  predicate Vacant(s: Slot) {
    s[0] == 0 || s[0] == 0xE5
  }

  predicate LongName(s: Slot) {
    s[11] % 16 == 15
  }

  lemma OnDiskFirstByte(name: CString)
    ensures OnDisk(name)[0] != 0 && OnDisk(name)[0] != 0xE5
  {
    OnDiskShape(name);
    var f := OnDisk(name);
    if NormalForm(f) {
      assert f[..8][0] == f[0];
    } else {
      assert f[0] == DOT;
    }
  }

  /** The low half of the start cluster stands at 26, the high half at 20, both little-endian. */
  lemma StartBytes(s: Slot)
    ensures Start(s) == Le32(s[26..28] + s[20..22], 0)
  {
  }

  lemma NewSlotFields(name: CString, cluster: nat, attr: Byte, stamp: Stamp)
    requires cluster < WORD
    ensures var s := NewSlot(name, cluster, attr, stamp);
            Start(s) == cluster && NameOf(s) == OnDisk(name) && s[11] == attr && !Vacant(s)
  {
    var s, rest := NewSlot(name, cluster, attr, stamp), Fields(cluster, attr, stamp);
    assert forall i :: 0 <= i < 21 ==> s[11 + i] == rest[i];
    assert s[20] == rest[9] && s[21] == rest[10] && s[26] == rest[15] && s[27] == rest[16];
    OnDiskFirstByte(name);
    assert s[0] == OnDisk(name)[0];
  }

  /** The sixteen-bit number at `at`. */
  function Half16(s: Slot, at: nat): nat
    requires at + 2 <= 32
  {
    Le32(s[at..at + 2] + [0, 0], 0)
  }

  /** Every byte of a new entry, at its place in the on-disk structure. */
  lemma NewSlotBytes(name: CString, cluster: nat, attr: Byte, stamp: Stamp)
    requires cluster < WORD
    ensures var s := NewSlot(name, cluster, attr, stamp);
            && s[..11] == OnDisk(name) && s[11] == attr && s[12] == 0 && s[13] == 0
            && Half16(s, 14) == stamp.createTime && Half16(s, 16) == stamp.createDate
            && Half16(s, 18) == stamp.accessDate
            && Half16(s, 22) == stamp.writeTime && Half16(s, 24) == stamp.writeDate
            && Le32(s[26..28] + s[20..22], 0) == cluster && Le32(s, 28) == 0
  {
    var s, rest := NewSlot(name, cluster, attr, stamp), Fields(cluster, attr, stamp);
    assert s[11..] == rest;
    NewSlotFields(name, cluster, attr, stamp);
    StartBytes(s);
    HalfAt(s, rest, 14, stamp.createTime);
    HalfAt(s, rest, 16, stamp.createDate);
    HalfAt(s, rest, 18, stamp.accessDate);
    HalfAt(s, rest, 22, stamp.writeTime);
    HalfAt(s, rest, 24, stamp.writeDate);
    assert s[12] == rest[1] && s[13] == rest[2];
    assert s[28] == rest[17] && s[29] == rest[18] && s[30] == rest[19] && s[31] == rest[20];
  }

  lemma HalfAt(s: Slot, rest: seq<Byte>, at: nat, h: Half)
    requires s[11..] == rest && 11 <= at <= 30 && rest[at - 11] == h % 0x100 && rest[at - 10] == h / 0x100
    ensures Half16(s, at) == h
  {
    assert s[at] == rest[at - 11] && s[at + 1] == rest[at - 10];
  }

  // ---------------------------------------------------------------- lookup

  /** First slot at or after `i` with property `p`, or the number of slots. */
  function FirstSuch(slots: seq<Slot>, p: Slot -> bool, i: nat): (n: nat)
    requires i <= |slots|
    ensures i <= n <= |slots|
    ensures forall k :: i <= k < n ==> !p(slots[k])
    ensures n < |slots| ==> p(slots[n])
    decreases |slots| - i
  {
    if i == |slots| || p(slots[i]) then i else FirstSuch(slots, p, i + 1)
  }

  /** The slot `add_entry_to_directory` uses. */
  function FirstVacant(slots: seq<Slot>): nat {
    FirstSuch(slots, Vacant, 0)
  }

  function Same(s: Slot): Slot -> bool {
    x => x == s
  }

  /** The slot `remove_entry_from_directory` clears: the first one with these very bytes. */
  function FirstEqual(slots: seq<Slot>, s: Slot): nat {
    FirstSuch(slots, Same(s), 0)
  }

  predicate Hit(s: Slot, name: CString) {
    !Vacant(s) && !LongName(s) && Matches(NameOf(s), name)
  }

  /** `find_file_in_directory` over the slots of the directory's first cluster: stop at the
      first never-used slot; the number of slots when nothing matches. */
  function Lookup(slots: seq<Slot>, name: CString, i: nat): (n: nat)
    requires i <= |slots|
    ensures i <= n <= |slots|
    ensures n < |slots| ==> Hit(slots[n], name)
    ensures forall k :: i <= k < n < |slots| ==> slots[k][0] != 0 && !Hit(slots[k], name)
    decreases |slots| - i
  {
    if i == |slots| || slots[i][0] == 0 then |slots|
    else if Hit(slots[i], name) then i
    else Lookup(slots, name, i + 1)
  }

  /** The entry is in use, is no piece of a long name and has a name that matches. */
  predicate Answers(s: Slot, name: CString) {
    s[0] != 0 && s[0] != 0xE5 && s[11] % 16 != 15 && Matches(s[..11], name)
  }

  /** A name is found in slot `n` exactly when that is the first to answer to it and every slot before
      it has been used. */
  lemma {:induction false} LookupExactly(slots: seq<Slot>, name: CString, i: nat, n: nat)
    requires i <= n < |slots|
    ensures Lookup(slots, name, i) == n <==>
            Answers(slots[n], name) && forall k :: i <= k < n ==> slots[k][0] != 0 && !Answers(slots[k], name)
    decreases n - i
  {
    if i < n && slots[i][0] != 0 && !Hit(slots[i], name) {
      LookupExactly(slots, name, i + 1, n);
    }
  }

  /** Matching on all 32 bytes clears the very slot the lookup found, even when other slots
      carry the same name. */
  lemma RemovesTheFoundSlot(slots: seq<Slot>, first: nat, name: CString)
    requires first <= |slots|
    ensures var n := Lookup(slots[..first], name, 0);
            n < first ==> FirstEqual(slots, slots[n]) == n
  {
    var n := Lookup(slots[..first], name, 0);
    if n < first {
      var m := FirstEqual(slots, slots[n]);
      assert m <= n;
      assert slots[..first][m] == slots[m];
    }
  }

  // ---------------------------------------------------------------- operations

  /** `first` counts the slots of the directory's first cluster. */
  datatype View = View(fat: Fat, slots: seq<Slot>, first: nat)

  ghost predicate Proper(v: View) {
    v.first <= |v.slots|
  }

  datatype Op =
    | CreateFile(name: CString, stamp: Stamp)
    | CreateDir(name: CString, stamp: Stamp)
    | DeleteFile(name: CString)

  /** Allocate a cluster, then enter it; give the cluster back when there is no vacant slot. */
  function Create(v: View, name: CString, attr: Byte, stamp: Stamp): (r: (View, bool))
    ensures |r.0.slots| == |v.slots| && r.0.first == v.first
  {
    var c := FindFree(v.fat);
    if c == INVALID then (v, false)
    else
      var taken := Mark(Hinted(v.fat, c), c, EOC_MAX);
      var n := FirstVacant(v.slots);
      if n == |v.slots| then (View(Mark(taken, c, 0), v.slots, v.first), false)
      else (View(taken, v.slots[n := NewSlot(name, c, attr, stamp)], v.first), true)
  }

  /** Free the found entry's chain, then clear the entry. */
  function Delete(v: View, name: CString): (r: (View, bool))
    requires v.first <= |v.slots|
    ensures |r.0.slots| == |v.slots| && r.0.first == v.first
  {
    var n := Lookup(v.slots[..v.first], name, 0);
    if n == v.first || !InTable(v.fat.table, Start(v.slots[n])) then (v, false)
    else (View(Freed(v.fat, Start(v.slots[n])), v.slots[n := Blank()], v.first), true)
  }

  function Step(v: View, op: Op): (r: (View, bool))
    requires v.first <= |v.slots|
    ensures |r.0.slots| == |v.slots| && r.0.first == v.first
  {
    match op
    case CreateFile(name, stamp) => Create(v, name, 0, stamp)
    case CreateDir(name, stamp) => Create(v, name, ATTR_DIRECTORY, stamp)
    case DeleteFile(name) => Delete(v, name)
  }

  function Run(v: View, ops: seq<Op>): (r: View)
    requires v.first <= |v.slots|
    ensures |r.slots| == |v.slots| && r.first == v.first
  {
    if ops == [] then v else Step(Run(v, ops[..|ops| - 1]), ops[|ops| - 1]).0
  }

  // ---------------------------------------------------------------- what stays findable

  /** Where a lookup ends when slot `n`, still ahead of it, is replaced by a never-used one. */
  lemma {:induction false} LookupPastBlank(slots: seq<Slot>, n: nat, name: CString, i: nat)
    requires i <= n < |slots|
    ensures var r := Lookup(slots, name, i);
            Lookup(slots[n := Blank()], name, i) == if r < n then r else |slots|
    decreases n - i
  {
    if i < n && slots[i][0] != 0 && !Hit(slots[i], name) {
      LookupPastBlank(slots, n, name, i + 1);
    }
  }

  /** After a delete every name that was found before the deleted slot still is, and every
      other name is not found at all: the cleared slot reads as the end of the directory. */
  lemma DeleteHidesTheRest(v: View, name: CString, other: CString)
    requires Proper(v) && Delete(v, name).1
    ensures var n, r := Lookup(v.slots[..v.first], name, 0), Lookup(v.slots[..v.first], other, 0);
            Lookup(Delete(v, name).0.slots[..v.first], other, 0) == if r < n then r else v.first
  {
    var n := Lookup(v.slots[..v.first], name, 0);
    assert v.slots[n := Blank()][..v.first] == v.slots[..v.first][n := Blank()];
    LookupPastBlank(v.slots[..v.first], n, other, 0);
  }

  /** A lookup that has a used slot `n` ahead of it, and used ones up to there: it stops before `n`
      at an earlier match, at `n` if that matches, or goes on behind it. */
  lemma {:induction false} LookupThrough(slots: seq<Slot>, n: nat, name: CString, i: nat)
    requires i <= n < |slots| && forall k :: i <= k <= n ==> slots[k][0] != 0
    ensures var r := Lookup(slots, name, i);
            r < n || r == if Hit(slots[n], name) then n else Lookup(slots, name, n + 1)
    decreases n - i
  {
    if i < n && !Hit(slots[i], name) {
      LookupThrough(slots, n, name, i + 1);
    }
  }

  /** Changing slots from `n` on does not touch matches before it. */
  lemma {:induction false} LookupBefore(a: seq<Slot>, b: seq<Slot>, n: nat, name: CString, i: nat)
    requires i <= n <= |a| == |b| && forall k :: 0 <= k < n ==> a[k] == b[k]
    ensures Lookup(a, name, i) < n ==> Lookup(b, name, i) == Lookup(a, name, i)
    decreases n - i
  {
    if i < n && a[i][0] != 0 && !Hit(a[i], name) {
      LookupBefore(a, b, n, name, i + 1);
    }
  }

  lemma {:induction false} LookupBehind(a: seq<Slot>, b: seq<Slot>, name: CString, i: nat)
    requires i <= |a| == |b| && forall k :: i <= k < |a| ==> a[k] == b[k]
    ensures Lookup(a, name, i) == Lookup(b, name, i)
    decreases |a| - i
  {
    if i < |a| && a[i][0] != 0 && !Hit(a[i], name) {
      LookupBehind(a, b, name, i + 1);
    }
  }

  /** A converted name matches the name it came from exactly when that is clean. */
  lemma ConvertedMatches(name: CString)
    ensures Matches(OnDisk(name), name) <==> Clean(name)
  {
    OnDiskNoLowerCase(name);
    if Clean(name) {
      LookupAgreesWithConversion(name);
    } else if Matches(OnDisk(name), name) {
      PatternIsClean(name);
    }
  }

  /** What a lookup of the new name finds after a create: an earlier match, else the new entry if the
      name is clean, else whatever stands behind it, which a never-used slot may have hidden. */
  lemma LookupAfterCreate(v: View, name: CString, attr: Byte, stamp: Stamp)
    requires Proper(v) && attr % 16 != 15 && Create(v, name, attr, stamp).1
    ensures var before, after := v.slots[..v.first], Create(v, name, attr, stamp).0.slots[..v.first];
            var n := FirstVacant(v.slots);
            Lookup(after, name, 0)
            == if n >= v.first || Lookup(before, name, 0) < n then Lookup(before, name, 0)
               else if Clean(name) then n
               else Lookup(before, name, n + 1)
  {
    var n, all := FirstVacant(v.slots), Create(v, name, attr, stamp).0.slots;
    var before, after := v.slots[..v.first], all[..v.first];
    if n < v.first {
      NewSlotFields(name, FindFree(v.fat), attr, stamp);
      ConvertedMatches(name);
      LookupThrough(after, n, name, 0);
      LookupBefore(before, after, n, name, 0);
      LookupBefore(after, before, n, name, 0);
      LookupBehind(before, after, name, n + 1);
    } else {
      assert after == before;
    }
  }

  /** A created entry is found afterwards under its name exactly when an older entry already was, or
      when it went into the directory's first cluster and its name is clean or a match stands behind. */
  lemma CreatedIsFound(v: View, name: CString, attr: Byte, stamp: Stamp)
    requires Proper(v) && attr % 16 != 15 && Create(v, name, attr, stamp).1
    ensures var before, after := v.slots[..v.first], Create(v, name, attr, stamp).0.slots[..v.first];
            var n := FirstVacant(v.slots);
            Lookup(after, name, 0) < v.first
            <==> || Lookup(before, name, 0) < v.first
                 || (n < v.first && (Clean(name) || Lookup(before, name, n + 1) < v.first))
  {
    LookupAfterCreate(v, name, attr, stamp);
    var before, n := v.slots[..v.first], FirstVacant(v.slots);
    if n < v.first {
      LookupSkips(before, n, name, 0);
    }
  }

  /** A vacant slot matches nothing: what is found from before it is found before or behind it. */
  lemma {:induction false} LookupSkips(slots: seq<Slot>, n: nat, name: CString, i: nat)
    requires i <= n < |slots| && Vacant(slots[n])
    ensures var r := Lookup(slots, name, i);
            n <= r < |slots| ==> r == Lookup(slots, name, n + 1)
    decreases n - i
  {
    if i < n && slots[i][0] != 0 && !Hit(slots[i], name) {
      LookupSkips(slots, n, name, i + 1);
    }
  }

  // ---------------------------------------------------------------- what each operation does

  /** The first slot whose first byte is 0 or 0xE5. */
  predicate FirstHole(slots: seq<Slot>, n: nat) {
    && n < |slots| && (slots[n][0] == 0 || slots[n][0] == 0xE5)
    && forall k :: 0 <= k < n ==> slots[k][0] != 0 && slots[k][0] != 0xE5
  }

  /** A create that succeeds enters its name, attribute, clock readings and cluster in the first
      hole, the cluster being free before and the end of a chain now, and moves the hint behind it;
      no other entry and no other slot changes. */
  lemma CreatedEntry(v: View, op: Op)
    requires Proper(v) && !op.DeleteFile? && Step(v, op).1
    ensures var v', c, n := Step(v, op).0, FindFree(v.fat), FirstVacant(v.slots);
            && FirstHole(v.slots, n) && 2 <= c < |v.fat.table| && v.fat.table[c] == 0
            && v'.fat.table == v.fat.table[c := 0x0FFF_FFFF]
            && v'.fat.info.next == (if v.fat.info.valid then c + 1 else v.fat.info.next)
            && v'.slots == v.slots[n := NewSlot(op.name, c, if op.CreateDir? then 0x10 else 0, op.stamp)]
  {
    CreateShape(v, op.name, if op.CreateDir? then ATTR_DIRECTORY else 0, op.stamp);
  }

  /** A delete succeeds exactly when its name is found with a start cluster in range, and then clears
      the slot found and frees exactly the clusters that start reaches. */
  lemma DeleteExactly(v: View, name: CString, c: nat)
    requires Proper(v) && c < |v.fat.table|
    ensures var (v', ok), n := Delete(v, name), Lookup(v.slots[..v.first], name, 0);
            && (ok <==> n < v.first && 2 <= Le32(v.slots[n][26..28] + v.slots[n][20..22], 0) < |v.fat.table|)
            && (ok ==>
                  && v'.slots == v.slots[n := seq(32, _ => 0)]
                  && v'.fat.table[c]
                     == if 2 <= c && Reaches(v.fat.table, Start(v.slots[n]), c) then 0 else v.fat.table[c])
            && (!ok ==> v' == v)
  {
    var n := Lookup(v.slots[..v.first], name, 0);
    if n < v.first {
      StartBytes(v.slots[n]);
      if Delete(v, name).1 {
        FreedExactly(v.fat, Start(v.slots[n]), c);
        BlankIsZero();
      }
    }
  }

  lemma BlankIsZero()
    ensures Blank() == seq(32, _ => 0)
  {
  }

  /** Deleting what was just created gives the table back, and the free count with it; the slot is
      left blank. */
  lemma CreateThenDelete(v: View, name: CString, attr: Byte, stamp: Stamp)
    requires Proper(v) && attr % 16 != 15 && Create(v, name, attr, stamp).1 && Clean(name)
    requires FirstVacant(v.slots) < v.first && Lookup(v.slots[..v.first], name, 0) >= FirstVacant(v.slots)
    ensures var (v', ok) := Delete(Create(v, name, attr, stamp).0, name);
            && ok && v'.fat.table == v.fat.table && v'.slots == v.slots[FirstVacant(v.slots) := Blank()]
            && (CountExact(v.fat) ==> v'.fat.info.free == v.fat.info.free)
  {
    CreatedIsThere(v, name, attr, stamp);
    TakenAndFreed(v.fat, FindFree(v.fat));
  }

  /** Where the entry just created is found, and with which cluster. */
  lemma CreatedIsThere(v: View, name: CString, attr: Byte, stamp: Stamp)
    requires Proper(v) && attr % 16 != 15 && Create(v, name, attr, stamp).1 && Clean(name)
    requires FirstVacant(v.slots) < v.first && Lookup(v.slots[..v.first], name, 0) >= FirstVacant(v.slots)
    ensures var u, c, n := Create(v, name, attr, stamp).0, FindFree(v.fat), FirstVacant(v.slots);
            && Lookup(u.slots[..u.first], name, 0) == n && Start(u.slots[n]) == c
            && InTable(v.fat.table, c) && v.fat.table[c] == 0
            && u.fat == Mark(Hinted(v.fat, c), c, EOC_MAX) && u.slots[n := Blank()] == v.slots[n := Blank()]
  {
    LookupAfterCreate(v, name, attr, stamp);
    NewSlotFields(name, FindFree(v.fat), attr, stamp);
  }

  /** Freeing a cluster just taken. */
  lemma TakenAndFreed(f: Fat, c: nat)
    requires InTable(f.table, c) && f.table[c] == 0
    ensures var r := Freed(Mark(Hinted(f, c), c, EOC_MAX), c);
            r.table == f.table && (CountExact(f) ==> r.info.free == f.info.free)
  {
    assert f.table[c := EOC_MAX][c := 0] == f.table;
    if CountExact(f) {
      FreeCountBounded(f.table);
      assert c in FreeSet(f.table);
    }
  }

  // ---------------------------------------------------------------- ownership

  /** A live entry with a cluster. */
  predicate Holder(s: Slot, t: Table) {
    !Vacant(s) && !LongName(s) && InTable(t, Start(s))
  }

  /** A slot that must own a chain.  A dot entry may: those a directory starts with name the
      directory and its parent, but one made by creating a file called `.` has its own cluster. */
  predicate Owns(s: Slot, t: Table) {
    Holder(s, t) && s[0] != DOT
  }

  /** Who owns which chain: slot numbers for the entries, -1 for the directory itself, other
      negative numbers for chains belonging to the rest of the volume. */
  type Owners = map<int, seq<nat>>

  const DIRECTORY: int := -1

  /** Every owner has a well-formed chain and no two owners share a cluster. */
  ghost predicate Owned(v: View, own: Owners) {
    && DIRECTORY in own
    && (forall a :: a in own ==> IsChain(v.fat.table, own[a]))
    && (forall a, b :: a in own && b in own && a != b ==> Disjoint(own[a], own[b]))
    && (forall n :: 0 <= n < |v.slots| && Owns(v.slots[n], v.fat.table) ==> n in own)
    && (forall n :: 0 <= n < |v.slots| && n in own ==>
          Holder(v.slots[n], v.fat.table) && own[n][0] == Start(v.slots[n]))
    && (forall a :: a in own ==> a < |v.slots|)
  }

  /** What ownership gives: chains without repetition, no free cluster in any of them, and
      each cluster in at most one. */
  lemma OwnedIsSafe(v: View, own: Owners, a: int, b: int, i: nat, j: nat)
    requires Owned(v, own) && a in own && b in own && i < |own[a]| && j < |own[b]|
    ensures own[a][i] == own[b][j] <==> a == b && i == j
    ensures InTable(v.fat.table, own[a][i]) && v.fat.table[own[a][i]] != 0
  {
    ChainAllocated(v.fat.table, own[a], own[a][i]);
    if a == b && i < j {
      ChainAcyclic(v.fat.table, own[a], i, j);
    } else if a == b && j < i {
      ChainAcyclic(v.fat.table, own[a], j, i);
    } else if a != b {
      assert own[a][i] in own[a] && own[b][j] in own[b];
    }
  }

  ghost function OwnersAfter(v: View, own: Owners, op: Op): Owners
    requires v.first <= |v.slots|
  {
    var r := Step(v, op);
    if !r.1 then own
    else if op.DeleteFile? then own - {Lookup(v.slots[..v.first], op.name, 0)}
    else own[FirstVacant(v.slots) := [FindFree(v.fat)]]
  }

  lemma ChainsSurvive(t: Table, t': Table, own: Owners)
    requires |t'| == |t| && forall a :: a in own ==> IsChain(t, own[a])
    requires forall a, c :: a in own && c in own[a] && c < |t| ==> t'[c] == t[c]
    ensures forall a :: a in own ==> IsChain(t', own[a])
  {
    forall a | a in own
      ensures IsChain(t', own[a])
    {
      ChainFrame(t, t', own[a]);
    }
  }

  /** A free cluster belongs to nobody. */
  lemma FreeIsUnowned(v: View, own: Owners, c: nat)
    requires Owned(v, own) && c < |v.fat.table| && v.fat.table[c] == 0
    ensures forall a :: a in own ==> c !in own[a]
  {
    forall a | a in own && c in own[a]
      ensures false
    {
      ChainAllocated(v.fat.table, own[a], c);
    }
  }

  /** A fresh one-cluster chain, entered in a vacant slot, joins the owners. */
  lemma EnterKeepsOwned(v: View, own: Owners, v': View, c: nat, n: nat, s: Slot)
    requires Owned(v, own) && n < |v.slots| && Vacant(v.slots[n])
    requires InTable(v.fat.table, c) && v.fat.table[c] == 0
    requires v'.fat.table == v.fat.table[c := EOC_MAX] && v'.slots == v.slots[n := s]
    requires Start(s) == c && Holder(s, v'.fat.table)
    ensures Owned(v', own[n := [c]])
  {
    FreeIsUnowned(v, own, c);
    ChainsSurvive(v.fat.table, v'.fat.table, own);
    assert n !in own;
    assert IsChain(v'.fat.table, [c]);
    var own' := own[n := [c]];
    forall a, b | a in own' && b in own' && a != b
      ensures Disjoint(own'[a], own'[b])
    {
      if a == n || b == n {
        assert c !in own'[if a == n then b else a];
      }
    }
  }

  /** The table and the slots after a create, in its three outcomes. */
  lemma CreateShape(v: View, name: CString, attr: Byte, stamp: Stamp)
    ensures var (v', ok), c, n := Create(v, name, attr, stamp), FindFree(v.fat), FirstVacant(v.slots);
            && (!ok ==> v'.slots == v.slots && v'.fat.table == v.fat.table)
            && (ok ==> n < |v.slots| && Vacant(v.slots[n]) && InTable(v.fat.table, c) && v.fat.table[c] == 0)
            && (ok ==> v'.slots == v.slots[n := NewSlot(name, c, attr, stamp)])
            && (ok ==> v'.fat.table == v.fat.table[c := EOC_MAX])
  {
    var c := FindFree(v.fat);
    if c != INVALID {
      FindFreeIsNearest(v.fat);
      assert v.fat.table[c := EOC_MAX][c := 0] == v.fat.table;
    }
  }

  lemma CreateKeepsOwned(v: View, own: Owners, op: Op)
    requires Proper(v) && Owned(v, own) && !op.DeleteFile?
    ensures Owned(Step(v, op).0, OwnersAfter(v, own, op))
  {
    var attr := if op.CreateDir? then ATTR_DIRECTORY else 0;
    CreateShape(v, op.name, attr, op.stamp);
    var (v', ok) := Step(v, op);
    if ok {
      var c, n := FindFree(v.fat), FirstVacant(v.slots);
      NewSlotFields(op.name, c, attr, op.stamp);
      EnterKeepsOwned(v, own, v', c, n, NewSlot(op.name, c, attr, op.stamp));
    }
  }

  lemma DeleteKeepsOwned(v: View, own: Owners, op: Op)
    requires Proper(v) && Owned(v, own) && op.DeleteFile?
    ensures Owned(Step(v, op).0, OwnersAfter(v, own, op))
  {
    var n := Lookup(v.slots[..v.first], op.name, 0);
    if Step(v, op).1 {
      var s := v.slots[n];
      if s[0] == DOT {
        DotNeverMatches(NameOf(s), op.name);
      }
      assert Owns(s, v.fat.table);
      var v', own' := Step(v, op).0, own - {n};
      forall c: nat | c < |v.fat.table|
        ensures v'.fat.table[c] == if c in own[n] then 0 else v.fat.table[c]
      {
        FreedChain(v.fat, own[n], c);
      }
      ChainsSurvive(v.fat.table, v'.fat.table, own');
    }
  }

  ghost function OwnersAfterRun(v: View, own: Owners, ops: seq<Op>): Owners
    requires v.first <= |v.slots|
  {
    if ops == [] then own
    else OwnersAfter(Run(v, ops[..|ops| - 1]), OwnersAfterRun(v, own, ops[..|ops| - 1]), ops[|ops| - 1])
  }

  /** Over every run of creates and deletes, every live entry keeps a well-formed chain of its
      own, apart from the directory's chain and from all others on the volume, which are the
      same chains as before the run. */
  lemma {:induction false} RunKeepsOwned(v: View, own: Owners, ops: seq<Op>)
    requires Proper(v) && Owned(v, own)
    ensures Owned(Run(v, ops), OwnersAfterRun(v, own, ops))
    ensures forall a :: a < 0 && a in own ==>
              a in OwnersAfterRun(v, own, ops) && OwnersAfterRun(v, own, ops)[a] == own[a]
  {
    if ops != [] {
      var init, last := ops[..|ops| - 1], ops[|ops| - 1];
      RunKeepsOwned(v, own, init);
      var u := Run(v, init);
      if last.DeleteFile? {
        DeleteKeepsOwned(u, OwnersAfterRun(v, own, init), last);
      } else {
        CreateKeepsOwned(u, OwnersAfterRun(v, own, init), last);
      }
    }
  }

  /** The operation deletes the entry in slot `a`. */
  predicate Deletes(v: View, op: Op, a: int)
    requires v.first <= |v.slots|
  {
    op.DeleteFile? && Delete(v, op.name).1 && Lookup(v.slots[..v.first], op.name, 0) == a
  }

  /** No operation of the run deletes the entry in slot `a`. */
  ghost predicate Spared(v: View, ops: seq<Op>, a: int)
    requires v.first <= |v.slots|
  {
    ops == [] || (Spared(v, ops[..|ops| - 1], a) && !Deletes(Run(v, ops[..|ops| - 1]), ops[|ops| - 1], a))
  }

  lemma StepKeepsOwner(v: View, own: Owners, op: Op, a: int)
    requires Proper(v) && Owned(v, own) && a in own && !Deletes(v, op, a)
    ensures a in OwnersAfter(v, own, op) && OwnersAfter(v, own, op)[a] == own[a]
  {
    if !op.DeleteFile? {
      CreateShape(v, op.name, if op.CreateDir? then ATTR_DIRECTORY else 0, op.stamp);
    }
  }

  /** An owner that no operation deletes has the same chain after the run. */
  lemma {:induction false} SparedKeepsOwner(v: View, own: Owners, ops: seq<Op>, a: int)
    requires Proper(v) && Owned(v, own) && a in own && Spared(v, ops, a)
    ensures a in OwnersAfterRun(v, own, ops) && OwnersAfterRun(v, own, ops)[a] == own[a]
  {
    if ops != [] {
      var init := ops[..|ops| - 1];
      RunKeepsOwned(v, own, init);
      SparedKeepsOwner(v, own, init, a);
      StepKeepsOwner(Run(v, init), OwnersAfterRun(v, own, init), ops[|ops| - 1], a);
    }
  }

  // ---------------------------------------------------------------- the free-cluster counter

  lemma StepKeepsCount(v: View, op: Op)
    requires Proper(v) && CountExact(v.fat)
    ensures CountExact(Step(v, op).0.fat)
  {
    if op.DeleteFile? {
      var n := Lookup(v.slots[..v.first], op.name, 0);
      if Step(v, op).1 {
        FreedKeepsCount(v.fat, Start(v.slots[n]));
      }
    } else {
      var c := FindFree(v.fat);
      if c != INVALID {
        FindFreeIsNearest(v.fat);
        var f := Hinted(v.fat, c);
        MarkKeepsCount(f, c, EOC_MAX);
        MarkKeepsCount(Mark(f, c, EOC_MAX), c, 0);
      }
    }
  }

  /** A counter that equals the number of free clusters does so after every run. */
  lemma {:induction false} RunKeepsCount(v: View, ops: seq<Op>)
    requires Proper(v) && CountExact(v.fat)
    ensures CountExact(Run(v, ops).fat)
  {
    if ops != [] {
      RunKeepsCount(v, ops[..|ops| - 1]);
      StepKeepsCount(Run(v, ops[..|ops| - 1]), ops[|ops| - 1]);
    }
  }

  /** A create or delete that fails changes nothing but the search hint. */
  lemma FailureRestores(v: View, op: Op)
    requires Proper(v) && CountExact(v.fat) && !Step(v, op).1
    ensures var v' := Step(v, op).0;
            && v'.slots == v.slots && v'.fat.table == v.fat.table
            && v'.fat.info.free == v.fat.info.free && v'.fat.info.valid == v.fat.info.valid
  {
    var c := FindFree(v.fat);
    if !op.DeleteFile? && c != INVALID {
      FindFreeIsNearest(v.fat);
      FreeCountBounded(v.fat.table);
      assert c in FreeSet(v.fat.table);
    }
  }

  /** A create fails exactly when no cluster is free or no slot is vacant. */
  lemma CreateFailsExactly(v: View, op: Op)
    requires Proper(v) && !op.DeleteFile?
    ensures Step(v, op).1 <==>
            FreeSet(v.fat.table) != {} && exists n :: 0 <= n < |v.slots| && Vacant(v.slots[n])
  {
    FindFreeIsNearest(v.fat);
  }
}
