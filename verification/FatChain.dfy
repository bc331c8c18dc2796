/** The file allocation table as a value: cluster chains, freeing a chain, the free-cluster
    counter and the hinted search.  Nothing here knows about sectors or bytes. */
module FatChain {

  import opened Bytes

  const EOC_MIN: nat := 0x0FFFFFF8
  const EOC_MAX: nat := 0x0FFFFFFF
  const INVALID: nat := 0xFFFFFFFF

  /** Entry `c` of a table is the masked 28-bit value of cluster `c`; the length is the
      number `get_total_clusters` returns. */
  type Table = t: seq<nat> | |t| <= EOC_MIN - 1

  predicate InTable(t: Table, c: int) {
    2 <= c < |t|
  }

  /** What `get_next_cluster_in_chain` reports: every end-of-chain mark becomes INVALID. */
  function Next(t: Table, c: nat): (n: nat)
    requires c < |t|
    ensures !(EOC_MIN <= n <= EOC_MAX)
    ensures InTable(t, n) ==> t[c] == n
  {
    if t[c] >= EOC_MIN then INVALID else t[c]
  }

  /** Of the 28-bit entries exactly the eight from 0x0FFFFFF8 up end a chain; every other one is the
      next cluster. */
  lemma EndMarks(t: Table, c: nat)
    requires c < |t| && t[c] < 0x1000_0000
    ensures Next(t, c) == if 0x0FFF_FFF8 <= t[c] <= 0x0FFF_FFFF then 0xFFFF_FFFF else t[c]
  {
  }

  // ---------------------------------------------------------------- counting

  ghost function FreeSet(t: Table): set<nat> {
    set c: nat | 2 <= c < |t| && t[c] == 0
  }

  ghost function UsedSet(t: Table): set<nat> {
    set c: nat | 2 <= c < |t| && t[c] != 0
  }

  ghost function FreeCount(t: Table): nat {
    |FreeSet(t)|
  }

  lemma FreeCountBounded(t: Table)
    ensures FreeCount(t) < EOC_MIN
  {
    BoundedSet(FreeSet(t), |t|);
  }

  lemma {:induction false} BoundedSet(s: set<nat>, n: nat)
    requires forall x :: x in s ==> x < n
    ensures |s| <= n
    decreases n
  {
    if n > 0 {
      BoundedSet(s - {n - 1}, n - 1);
    } else {
      assert s == {};
    }
  }

  /** One entry's change moves the free count by exactly its own contribution. */
  lemma FreeCountUpdate(t: Table, c: nat, v: nat)
    requires InTable(t, c)
    ensures FreeCount(t[c := v])
         == FreeCount(t) - (if t[c] == 0 then 1 else 0) + (if v == 0 then 1 else 0)
  {
    var t': Table := t[c := v];
    var rest := FreeSet(t) - {c};
    assert FreeSet(t) == if t[c] == 0 then rest + {c} else rest;
    assert FreeSet(t') == if v == 0 then rest + {c} else rest;
  }

  // ---------------------------------------------------------------- reachability

  /** One step along the table; 0 stands for having left the chain. */
  function Succ(t: Table, c: nat): nat {
    if InTable(t, c) && InTable(t, t[c]) then t[c] else 0
  }

  ghost function Walk(t: Table, s: nat, k: nat): nat
    decreases k
  {
    if k == 0 then s else Walk(t, Succ(t, s), k - 1)
  }

  /** `c` is met when the table is followed from `s`, whatever the table holds. */
  ghost predicate Reaches(t: Table, s: nat, c: nat) {
    exists k: nat :: Walk(t, s, k) == c
  }

  lemma {:induction false} WalkAdd(t: Table, s: nat, j: nat, k: nat)
    ensures Walk(t, s, j + k) == Walk(t, Walk(t, s, j), k)
    decreases j
  {
    if j > 0 {
      WalkAdd(t, Succ(t, s), j - 1, k);
    }
  }

  lemma {:induction false} WalkFromZero(t: Table, k: nat)
    ensures Walk(t, 0, k) == 0
  {
    if k > 0 {
      WalkFromZero(t, k - 1);
    }
  }

  /** Cutting the table at `cut` creates no new walk. */
  lemma {:induction false} CutWalk(t: Table, cut: nat, s: nat, k: nat)
    requires InTable(t, cut) && Walk(t[cut := 0], s, k) != 0
    ensures Walk(t, s, k) == Walk(t[cut := 0], s, k)
    decreases k
  {
    if k > 0 {
      if s == cut || Succ(t, s) == 0 {
        WalkFromZero(t[cut := 0], k - 1);
      }
      CutWalk(t, cut, Succ(t, s), k - 1);
    }
  }

  /** A walk that never steps on `cut` before its end survives cutting there. */
  lemma {:induction false} AvoidingWalk(t: Table, cut: nat, s: nat, k: nat)
    requires InTable(t, cut)
    requires forall j: nat :: j < k ==> Walk(t, s, j) != cut
    ensures Walk(t[cut := 0], s, k) == Walk(t, s, k)
    decreases k
  {
    if k > 0 {
      assert Walk(t, s, 0) != cut;
      forall j: nat | j < k - 1
        ensures Walk(t, Succ(t, s), j) != cut
      {
        assert Walk(t, s, j + 1) != cut;
      }
      AvoidingWalk(t, cut, Succ(t, s), k - 1);
    }
  }

  /** Any walk from the successor of `cut` can be shortened to one that avoids `cut`. */
  lemma {:induction false} ShortenWalk(t: Table, cut: nat, k: nat, c: nat)
    requires InTable(t, cut) && InTable(t, t[cut]) && c != cut
    requires Walk(t, t[cut], k) == c
    ensures Reaches(t[cut := 0], t[cut], c)
    decreases k
  {
    var n := t[cut];
    if j: nat :| j < k && Walk(t, n, j) == cut {
      WalkAdd(t, n, j, k - j);
      assert Walk(t, cut, k - j) == c;
      ShortenWalk(t, cut, k - j - 1, c);
    } else {
      AvoidingWalk(t, cut, n, k);
      assert Walk(t[cut := 0], n, k) == c;
    }
  }

  lemma ReachesAfterCut(t: Table, s: nat, c: nat)
    requires InTable(t, s) && InTable(t, c) && c != s
    ensures Reaches(t, s, c) <==> InTable(t, t[s]) && Reaches(t[s := 0], t[s], c)
  {
    if Reaches(t, s, c) {
      var k: nat :| Walk(t, s, k) == c;
      if !InTable(t, t[s]) {
        WalkFromZero(t, k - 1);
      } else {
        ShortenWalk(t, s, k - 1, c);
      }
    }
    if InTable(t, t[s]) && Reaches(t[s := 0], t[s], c) {
      var k: nat :| Walk(t[s := 0], t[s], k) == c;
      CutWalk(t, s, t[s], k);
      assert Walk(t, s, k + 1) == c;
    }
  }

  // ---------------------------------------------------------------- the FAT with its counter

  /** The in-memory FSInfo fields the driver uses. */
  datatype Info = Info(valid: bool, free: nat, next: nat)

  datatype Fat = Fat(table: Table, info: Info)

  /** `update_fsinfo_free_count`. */
  function Counted(info: Info, delta: int): (r: Info)
    ensures r.valid == info.valid && r.next == info.next
  {
    if !info.valid || info.free == 0xFFFF_FFFF then info
    else if delta < 0 && info.free < -delta then info.(free := 0)
    else info.(free := Wrap(info.free + delta))
  }

  /** A counter that is not loaded or unknown stays so whatever happens, a decrease stops at zero and
      an increase wraps. */
  lemma CountedExactly(info: Info, delta: int)
    requires -0x8000_0000 < delta < 0x8000_0000 && info.free < WORD
    ensures var free := Counted(info, delta).free;
            if !info.valid || info.free == 0xFFFF_FFFF then free == info.free
            else if info.free + delta <= 0 then free == 0
            else 0 <= free < WORD && (free == info.free + delta || free == info.free + delta - 0x1_0000_0000)
  {
  }

  /** The counter's move when an entry holding `old` is overwritten by `value`. */
  function MarkInfo(info: Info, was: nat, value: nat): Info {
    if was == 0 && value != 0 then Counted(info, -1)
    else if was != 0 && value == 0 then Counted(info, 1)
    else info
  }

  /** What a successful `mark_cluster_in_fat` does to the table and the counter. */
  function Mark(f: Fat, c: nat, value: nat): Fat
    requires InTable(f.table, c)
  {
    Fat(f.table[c := value % 0x1000_0000], MarkInfo(f.info, f.table[c], value))
  }

  /** The counter, when FSInfo is loaded, is the number of free clusters. */
  ghost predicate CountExact(f: Fat) {
    f.info.valid ==> f.info.free == FreeCount(f.table)
  }

  /** Marking keeps the counter exact, whatever the old entry, exactly for the values whose
      masked form is zero only when they are. */
  lemma MarkKeepsCount(f: Fat, c: nat, value: nat)
    requires InTable(f.table, c) && CountExact(f)
    ensures CountExact(Mark(f, c, value)) <==>
            !f.info.valid || value == 0 || value % 0x1000_0000 != 0
  {
    FreeCountUpdate(f.table, c, value % 0x1000_0000);
    FreeCountBounded(f.table);
    if f.table[c] == 0 {
      assert c in FreeSet(f.table);
    }
  }

  /** `free_cluster_chain` from an in-range cluster, sector I/O succeeding. */
  function Freed(f: Fat, s: nat): (r: Fat)
    requires InTable(f.table, s)
    ensures |r.table| == |f.table| && r.info.valid == f.info.valid
    decreases UsedSet(f.table)
  {
    var f' := Mark(f, s, 0);
    if InTable(f.table, f.table[s]) then
      assert UsedSet(f'.table) == UsedSet(f.table) - {s} && s in UsedSet(f.table);
      Freed(f', f.table[s])
    else f'
  }

  /** Freeing clears exactly the clusters reachable from the start: on any table at all,
      cyclic, cross-linked or broken. */
  lemma {:induction false} FreedExactly(f: Fat, s: nat, c: nat)
    requires InTable(f.table, s) && c < |f.table|
    ensures Freed(f, s).table[c]
         == if 2 <= c && Reaches(f.table, s, c) then 0 else f.table[c]
    decreases UsedSet(f.table)
  {
    var t, n := f.table, f.table[s];
    assert Walk(t, s, 0) == s;
    if InTable(t, n) {
      assert UsedSet(t[s := 0]) == UsedSet(t) - {s} && s in UsedSet(t);
      FreedExactly(Mark(f, s, 0), n, c);
    }
    if 2 <= c && c != s {
      ReachesAfterCut(t, s, c);
    }
  }

  lemma {:induction false} FreedKeepsCount(f: Fat, s: nat)
    requires InTable(f.table, s) && CountExact(f)
    ensures CountExact(Freed(f, s))
    decreases UsedSet(f.table)
  {
    MarkKeepsCount(f, s, 0);
    if InTable(f.table, f.table[s]) {
      assert UsedSet(f.table[s := 0]) == UsedSet(f.table) - {s} && s in UsedSet(f.table);
      FreedKeepsCount(Mark(f, s, 0), f.table[s]);
    }
  }

  // ---------------------------------------------------------------- the hinted search

  /** The lowest free cluster in [lo, hi), or INVALID. */
  function FirstFree(t: Table, lo: nat, hi: nat): (c: nat)
    requires lo <= hi <= |t|
    ensures c == INVALID || (lo <= c < hi && t[c] == 0)
    ensures forall x :: lo <= x < hi && t[x] == 0 ==> c <= x
    decreases hi - lo
  {
    if lo == hi then INVALID
    else if t[lo] == 0 then lo
    else FirstFree(t, lo + 1, hi)
  }

  /** Where `find_free_cluster` starts: the hint when usable, else cluster 2. */
  function SearchStart(f: Fat): (s: nat)
    ensures s == 2 || InTable(f.table, s)
  {
    if f.info.valid && f.info.next != 0xFFFF_FFFF && InTable(f.table, f.info.next)
    then f.info.next else 2
  }

  function FindFree(f: Fat): (c: nat)
    ensures c != INVALID ==> InTable(f.table, c) && f.table[c] == 0
  {
    var s := SearchStart(f);
    if s >= |f.table| then INVALID
    else
      var c := FirstFree(f.table, s, |f.table|);
      if c != INVALID then c
      else if s > 2 then FirstFree(f.table, 2, s)
      else INVALID
  }

  /** The hint after a search that found `c`. */
  function Hinted(f: Fat, c: nat): Fat {
    if f.info.valid && c != INVALID then f.(info := f.info.(next := c + 1)) else f
  }

  /** Distance from `s` to `c` going up and wrapping once at the end of the table. */
  function CyclicDistance(t: Table, s: nat, c: nat): int {
    if c >= s then c - s else c - s + |t|
  }

  /** The hinted, wrapping search agrees with a plain scan: it fails exactly when no cluster is free,
      and otherwise returns the free cluster cyclically nearest to the hint, or to cluster 2 when
      FSInfo is not loaded or the hint is out of range. */
  lemma FindFreeIsNearest(f: Fat)
    ensures FindFree(f) == INVALID <==> FreeSet(f.table) == {}
    ensures FindFree(f) != INVALID ==>
              var start := if f.info.valid && 2 <= f.info.next < |f.table| then f.info.next else 2;
              && InTable(f.table, FindFree(f)) && f.table[FindFree(f)] == 0
              && forall x :: x in FreeSet(f.table) ==>
                   CyclicDistance(f.table, start, FindFree(f)) <= CyclicDistance(f.table, start, x)
  {
    if FindFree(f) != INVALID {
      assert FindFree(f) in FreeSet(f.table);
    }
  }

  /** A free cluster that is hinted at is the one found, and the next search takes up behind the
      cluster found, or at cluster 2 when that was the last. */
  lemma HintIsTaken(f: Fat)
    ensures f.info.valid && f.info.next in FreeSet(f.table) ==> FindFree(f) == f.info.next
    ensures f.info.valid && FindFree(f) != INVALID ==>
              var c, after := FindFree(f), Hinted(f, FindFree(f));
              && after.table == f.table && after.info.free == f.info.free
              && forall x :: x in FreeSet(f.table) ==>
                   var start := if c + 1 < |f.table| then c + 1 else 2;
                   CyclicDistance(f.table, start, FindFree(after)) <= CyclicDistance(f.table, start, x)
    ensures !f.info.valid ==> forall c :: Hinted(f, c) == f
  {
    FindFreeIsNearest(f);
    FindFreeIsNearest(Hinted(f, FindFree(f)));
  }

  // ---------------------------------------------------------------- well-formed chains

  /** `ch` lists a chain: in-range clusters, each linked to the next, the last one marked. */
  predicate IsChain(t: Table, ch: seq<nat>)
    decreases |ch|
  {
    && ch != []
    && InTable(t, ch[0])
    && if |ch| == 1 then t[ch[0]] >= EOC_MIN
       else t[ch[0]] == ch[1] && IsChain(t, ch[1..])
  }

  lemma {:induction false} ChainSuffix(t: Table, ch: seq<nat>, j: nat)
    requires IsChain(t, ch) && j < |ch|
    ensures IsChain(t, ch[j..])
    decreases j
  {
    if j > 0 {
      ChainSuffix(t, ch[1..], j - 1);
      assert ch[1..][j - 1..] == ch[j..];
    } else {
      assert ch[0..] == ch;
    }
  }

  lemma ChainLink(t: Table, ch: seq<nat>, k: nat)
    requires IsChain(t, ch) && k < |ch|
    ensures InTable(t, ch[k])
    ensures Next(t, ch[k]) == if k + 1 < |ch| then ch[k + 1] else INVALID
    ensures k + 1 < |ch| ==> InTable(t, ch[k + 1])
  {
    ChainSuffix(t, ch, k);
    if k + 1 < |ch| {
      ChainSuffix(t, ch, k + 1);
    }
  }

  lemma {:induction false} ChainUnique(t: Table, a: seq<nat>, b: seq<nat>)
    requires IsChain(t, a) && IsChain(t, b) && a[0] == b[0]
    ensures a == b
    decreases |a|
  {
    if |a| > 1 && |b| > 1 {
      ChainUnique(t, a[1..], b[1..]);
      assert a == [a[0]] + a[1..] && b == [b[0]] + b[1..];
    }
  }

  /** A well-formed chain is acyclic. */
  lemma ChainAcyclic(t: Table, ch: seq<nat>, i: nat, j: nat)
    requires IsChain(t, ch) && i < j < |ch|
    ensures ch[i] != ch[j]
  {
    ChainSuffix(t, ch, i);
    ChainSuffix(t, ch, j);
    if ch[i] == ch[j] {
      ChainUnique(t, ch[i..], ch[j..]);
    }
  }

  /** No member of a well-formed chain is free, and every member is in range. */
  lemma ChainAllocated(t: Table, ch: seq<nat>, c: nat)
    requires IsChain(t, ch) && c in ch
    ensures InTable(t, c) && t[c] != 0
  {
    var j :| 0 <= j < |ch| && ch[j] == c;
    ChainSuffix(t, ch, j);
    if j + 1 < |ch| {
      ChainSuffix(t, ch, j + 1);
      assert ch[j..][1..] == ch[j + 1..];
    }
  }

  /** A chain depends on its members' entries only. */
  lemma {:induction false} ChainFrame(t: Table, t': Table, ch: seq<nat>)
    requires IsChain(t, ch) && |t'| == |t|
    requires forall c :: c in ch ==> InTable(t, c) ==> t'[c] == t[c]
    ensures IsChain(t', ch)
    decreases |ch|
  {
    assert ch[0] in ch;
    if |ch| > 1 {
      forall c | c in ch[1..] ensures c in ch {}
      ChainFrame(t, t', ch[1..]);
    }
  }

  /** Freeing a well-formed chain zeroes its members and nothing else. */
  lemma {:induction false} FreedChain(f: Fat, ch: seq<nat>, c: nat)
    requires IsChain(f.table, ch) && c < |f.table|
    ensures Freed(f, ch[0]).table[c] == if c in ch then 0 else f.table[c]
    decreases |ch|
  {
    if |ch| > 1 {
      var f' := Mark(f, ch[0], 0);
      assert InTable(f.table, ch[1..][0]);
      forall x | x in ch[1..]
        ensures x != ch[0]
      {
        var j :| 0 <= j < |ch[1..]| && ch[1..][j] == x;
        ChainAcyclic(f.table, ch, 0, j + 1);
      }
      ChainFrame(f.table, f'.table, ch[1..]);
      FreedChain(f', ch[1..], c);
      assert c in ch <==> c == ch[0] || c in ch[1..];
    }
  }

  predicate Disjoint(a: seq<nat>, b: seq<nat>) {
    forall c :: c in a ==> c !in b
  }

  /** Marking the last cluster of a chain with the start of another links the two. */
  lemma MarkLinks(f: Fat, ch: seq<nat>, last: nat, tail: seq<nat>)
    requires IsChain(f.table, ch) && IsChain(f.table, tail) && InTable(f.table, last) && last == ch[|ch| - 1]
    ensures IsChain(Mark(f, last, tail[0]).table, ch + tail) <==> Disjoint(ch, tail)
  {
    LinkedChain(f.table, ch, last, tail);
    assert InTable(f.table, tail[0]) && tail[0] % 0x1000_0000 == tail[0];
    assert Mark(f, last, tail[0]).table == f.table[last := tail[0]];
  }

  /** Linking the last cluster of one chain to the first of another gives their concatenation
      as a chain exactly when they share no cluster. */
  lemma LinkedChain(t: Table, ch: seq<nat>, last: nat, tail: seq<nat>)
    requires IsChain(t, ch) && IsChain(t, tail) && last == ch[|ch| - 1] < |t|
    ensures IsChain(t[last := tail[0]], ch + tail) <==> Disjoint(ch, tail)
  {
    var t': Table := t[last := tail[0]];
    if Disjoint(ch, tail) {
      assert last in ch;
      ChainFrame(t, t', tail);
      JoinChains(t, t', ch, last, tail);
    } else {
      var c :| c in ch && c in tail;
      var i, j :| 0 <= i < |ch| && 0 <= j < |tail| && ch[i] == c && tail[j] == c;
      assert (ch + tail)[i] == (ch + tail)[|ch| + j];
      if IsChain(t', ch + tail) {
        ChainAcyclic(t', ch + tail, i, |ch| + j);
      }
    }
  }

  lemma {:induction false} JoinChains(t: Table, t': Table, ch: seq<nat>, last: nat, tail: seq<nat>)
    requires IsChain(t, ch) && IsChain(t', tail) && last == ch[|ch| - 1] < |t| && t' == t[last := tail[0]]
    ensures IsChain(t', ch + tail)
    decreases |ch|
  {
    assert (ch + tail)[1..] == ch[1..] + tail;
    if |ch| > 1 {
      ChainAcyclic(t, ch, 0, |ch| - 1);
      assert (ch + tail)[0] == ch[0] && (ch + tail)[1] == ch[1];
      JoinChains(t, t', ch[1..], last, tail);
    } else {
      assert ch[1..] + tail == tail;
    }
  }

  // ---------------------------------------------------------------- walks that do not end

  /** Where the driver's loops are after `k` turns: they follow `Next` while the table has an entry,
      those of clusters 0 and 1 included. */
  ghost function Follow(t: Table, c: nat, k: nat): nat
    decreases k
  {
    if k == 0 || c >= |t| then c else Follow(t, Next(t, c), k - 1)
  }

  lemma OutStaysOut(t: Table, c: nat, k: nat)
    ensures c >= |t| ==> Follow(t, c, k) == c
  {
  }

  lemma {:induction false} FollowAdd(t: Table, c: nat, j: nat, k: nat)
    ensures Follow(t, c, j + k) == Follow(t, Follow(t, c, j), k)
    decreases j
  {
    if j > 0 && c < |t| {
      FollowAdd(t, Next(t, c), j - 1, k);
    }
  }

  /** A loop that comes to a cluster again never leaves the table. */
  lemma {:induction false} RevisitNeverEnds(t: Table, s: nat, i: nat, j: nat, k: nat)
    requires i < j && Follow(t, s, i) == Follow(t, s, j) < |t|
    ensures Follow(t, s, k) < |t|
    decreases k
  {
    if k <= j {
      FollowAdd(t, s, k, j - k);
    } else {
      FollowAdd(t, s, j, k - j);
      FollowAdd(t, s, i, k - j);
      RevisitNeverEnds(t, s, i, j, i + (k - j));
    }
  }

  ghost function Visited(t: Table, s: nat, m: nat): set<nat> {
    set i: nat | i < m :: Follow(t, s, i)
  }

  lemma {:induction false} VisitedSize(t: Table, s: nat, m: nat)
    requires forall i: nat, j: nat :: i < j < m ==> Follow(t, s, i) != Follow(t, s, j)
    ensures |Visited(t, s, m)| == m
    decreases m
  {
    if m > 0 {
      VisitedSize(t, s, m - 1);
      assert Visited(t, s, m) == Visited(t, s, m - 1) + {Follow(t, s, m - 1)};
    } else {
      assert Visited(t, s, m) == {};
    }
  }

  /** A loop of more turns than the table has entries comes to some cluster again. */
  lemma LongLoopRevisits(t: Table, s: nat)
    requires Follow(t, s, |t|) < |t|
    ensures exists i: nat, j: nat :: i < j && Follow(t, s, i) == Follow(t, s, j) < |t|
  {
    var visited := Visited(t, s, |t| + 1);
    forall k: nat | k < |t| + 1
      ensures Follow(t, s, k) < |t|
    {
      FollowAdd(t, s, k, |t| - k);
    }
    if forall i: nat, j: nat :: i < j < |t| + 1 ==> Follow(t, s, i) != Follow(t, s, j) {
      VisitedSize(t, s, |t| + 1);
      BoundedSet(visited, |t|);
    }
  }

  /** The driver's chain loops leave the table exactly when they have done so after as many turns
      as the table has entries; otherwise they come to some cluster again and go round for ever. */
  lemma LoopEndsExactly(t: Table, s: nat)
    ensures (exists k: nat :: Follow(t, s, k) >= |t|) <==> Follow(t, s, |t|) >= |t|
    ensures Follow(t, s, |t|) < |t| <==> exists i: nat, j: nat :: i < j && Follow(t, s, i) == Follow(t, s, j) < |t|
  {
    if Follow(t, s, |t|) < |t| {
      LongLoopRevisits(t, s);
    }
    if i: nat, j: nat :| i < j && Follow(t, s, i) == Follow(t, s, j) < |t| {
      forall k: nat
        ensures Follow(t, s, k) < |t|
      {
        RevisitNeverEnds(t, s, i, j, k);
      }
    }
  }

  /** Whenever they leave it, they have done so by then. */
  lemma LeavesInTime(t: Table, s: nat, k: nat)
    requires Follow(t, s, k) >= |t|
    ensures Follow(t, s, |t|) >= |t|
  {
    LoopEndsExactly(t, s);
  }

  /** On a table without links out of range, leaving it is coming to an end. */
  lemma {:induction false} LeavesAtEnd(t: Table, s: nat, k: nat)
    requires s < |t| && forall c :: 0 <= c < |t| ==> t[c] < |t| || t[c] >= EOC_MIN
    ensures Follow(t, s, k) < |t| || Follow(t, s, k) == INVALID
    decreases k
  {
    if k > 0 && t[s] < |t| {
      LeavesAtEnd(t, t[s], k - 1);
    }
  }

  /** A well-formed chain comes to its end. */
  lemma {:induction false} ChainEnds(t: Table, ch: seq<nat>)
    requires IsChain(t, ch)
    ensures Follow(t, ch[0], |ch|) == INVALID
    decreases |ch|
  {
    if |ch| > 1 {
      ChainEnds(t, ch[1..]);
    }
  }

  /** The walk from `s` comes to an end mark at step `k`. */
  ghost predicate MarkedEnd(t: Table, s: nat, k: nat) {
    InTable(t, Walk(t, s, k)) && t[Walk(t, s, k)] >= EOC_MIN
  }

  lemma {:induction false} ChainToEnd(t: Table, s: nat, k: nat) returns (ch: seq<nat>)
    requires MarkedEnd(t, s, k)
    ensures IsChain(t, ch) && ch[0] == s
    decreases k
  {
    if k == 0 {
      ch := [s];
    } else {
      if Succ(t, s) == 0 {
        WalkFromZero(t, k - 1);
      }
      var rest := ChainToEnd(t, Succ(t, s), k - 1);
      ch := [s] + rest;
      assert ch[1..] == rest;
    }
  }

  lemma {:induction false} EndOfChain(t: Table, ch: seq<nat>)
    requires IsChain(t, ch)
    ensures MarkedEnd(t, ch[0], |ch| - 1)
    decreases |ch|
  {
    if |ch| > 1 {
      EndOfChain(t, ch[1..]);
    }
  }

  /** A start has a well-formed chain exactly when the walk from it comes to an end mark. */
  lemma ChainExistsExactly(t: Table, s: nat)
    ensures (exists ch :: IsChain(t, ch) && ch[0] == s) <==> exists k: nat :: MarkedEnd(t, s, k)
  {
    if k: nat :| MarkedEnd(t, s, k) {
      var ch := ChainToEnd(t, s, k);
    }
    if ch :| IsChain(t, ch) && ch[0] == s {
      EndOfChain(t, ch);
    }
  }

  /** Two clusters linked to each other: every loop from them runs for ever. */
  lemma CyclicTable(t: Table, k: nat)
    requires t == [0, 0, 3, 2]
    ensures Follow(t, 2, k) < |t|
  {
    assert Follow(t, 2, 2) == Follow(t, 3, 1) == Follow(t, 2, 0);
    RevisitNeverEnds(t, 2, 0, 2, k);
  }

  /** So does a loop that a zero entry has sent to cluster 0, when that leads back. */
  lemma CycleThroughZero(t: Table, k: nat)
    requires t == [2, 0, 0, 0]
    ensures Follow(t, 2, k) < |t|
  {
    assert Follow(t, 2, 2) == Follow(t, 0, 1) == Follow(t, 2, 0);
    RevisitNeverEnds(t, 2, 0, 2, k);
  }
}
