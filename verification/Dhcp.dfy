/** DHCP options: the client's writers and its parser (section 2 of RFC 2132, with the magic
    cookie of section 3 of RFC 2131). */
module Dhcp {

  import opened Bytes

  const AREA: nat := 312
  const END: Byte := 255
  const PAD: Byte := 0
  const SUBNET: Byte := 1
  const ROUTER: Byte := 3
  const DNS: Byte := 6
  const MSG_TYPE: Byte := 53
  const SERVER_ID: Byte := 54

  const COOKIE: seq<Byte> := [0x63, 0x82, 0x53, 0x63]

  datatype Opt = Opt(code: Byte, data: seq<Byte>)

  /** An option that can be written: a real code and a length that fits a byte. */
  predicate Writable(o: Opt) {
    o.code != PAD && o.code != END && |o.data| < 256
  }

  function Encode(o: Opt): seq<Byte>
    requires |o.data| < 256
  {
    [o.code, |o.data|] + o.data
  }

  predicate AllWritable(os: seq<Opt>) {
    os == [] || (Writable(os[0]) && AllWritable(os[1..]))
  }

  function EncodeAll(os: seq<Opt>): seq<Byte>
    requires AllWritable(os)
  {
    if os == [] then [] else Encode(os[0]) + EncodeAll(os[1..])
  }

  /** The options found in an area from `pos` on: padding is skipped, and an end mark, a missing
      length or data reaching past the area ends the list. */
  function Options(area: seq<Byte>, pos: nat): seq<Opt>
    decreases |area| - pos
  {
    if pos >= |area| || area[pos] == END then []
    else if area[pos] == PAD then Options(area, pos + 1)
    else if pos + 1 >= |area| then []
    else
      var len: int := area[pos + 1];
      if pos + 2 + len > |area| then []
      else [Opt(area[pos], area[pos + 2..pos + 2 + len])] + Options(area, pos + 2 + len)
  }

  // ---------------------------------------------------------------- what the options mean

  /** The values behind the caller's pointers, by option code; a null pointer has no entry. */
  type Outputs = map<Byte, seq<Byte>>

  const TRACKED: set<Byte> := {MSG_TYPE, SERVER_ID, SUBNET, ROUTER, DNS}

  /** Whether an option of this code and length is taken over. */
  predicate Passes(o: Opt) {
    if o.code == MSG_TYPE then |o.data| >= 1
    else if o.code == SERVER_ID || o.code == SUBNET then |o.data| == 4
    else (o.code == ROUTER || o.code == DNS) && |o.data| >= 4
  }

  /** The bytes taken over. */
  function Taken(o: Opt): seq<Byte>
    requires Passes(o)
  {
    if o.code == MSG_TYPE then o.data[..1] else o.data[..4]
  }

  function Store(out: Outputs, o: Opt): Outputs {
    if Passes(o) && o.code in out then out[o.code := Taken(o)] else out
  }

  function StoreAll(out: Outputs, os: seq<Opt>): (r: Outputs)
    ensures r.Keys == out.Keys
  {
    if os == [] then out else Store(StoreAll(out, os[..|os| - 1]), os[|os| - 1])
  }

  /** The last option of a code that passes its length guard, or -1. */
  function LastOf(os: seq<Opt>, code: Byte): (k: int)
    ensures -1 <= k < |os|
    ensures k >= 0 ==> os[k].code == code && Passes(os[k])
    ensures forall j :: k < j < |os| && os[j].code == code ==> !Passes(os[j])
  {
    if os == [] then -1
    else if os[|os| - 1].code == code && Passes(os[|os| - 1]) then |os| - 1
    else LastOf(os[..|os| - 1], code)
  }

  /** Each output ends up with the last option of its code that passes its guard and is
      untouched when there is none. */
  lemma {:induction false} LastWins(out: Outputs, os: seq<Opt>, code: Byte)
    requires code in out
    ensures StoreAll(out, os)[code]
         == if LastOf(os, code) >= 0 then Taken(os[LastOf(os, code)]) else out[code]
    decreases |os|
  {
    if os != [] {
      LastWins(out, os[..|os| - 1], code);
    }
  }

  /** Which options are taken over, and how much of them: the first byte of a message type; a server
      or subnet of four bytes; the first address of the routers and of the name servers. */
  lemma StoredExactly(out: Outputs, code: Byte, data: seq<Byte>)
    ensures var fits := || (code == 53 && |data| >= 1) || (code in {54, 1} && |data| == 4)
                        || (code in {3, 6} && |data| >= 4);
            Store(out, Opt(code, data))
            == if code in out && fits then out[code := data[..if code == 53 then 1 else 4]] else out
  {
  }

  // ---------------------------------------------------------------- the parser

  lemma {:induction false} StoreFirst(out: Outputs, o: Opt, os: seq<Opt>)
    ensures StoreAll(Store(out, o), os) == StoreAll(out, [o] + os)
    decreases |os|
  {
    var all, n := [o] + os, |os|;
    if n == 0 {
      assert all[..0] == [] && all[0] == o;
    } else {
      var init := os[..n - 1];
      StoreFirst(out, o, init);
      assert all[..n] == [o] + init && all[n] == os[n - 1];
      assert StoreAll(out, all) == Store(StoreAll(out, all[..n]), all[n]);
    }
  }

  /** The `switch` of the parser: the outputs after one option. */
  method TakeOver(out0: Outputs, code: Byte, data: seq<Byte>) returns (out: Outputs)
    requires out0.Keys <= TRACKED
    ensures out == Store(out0, Opt(code, data)) && out.Keys == out0.Keys
  {
    out := out0;
    if code == MSG_TYPE {
      if |data| >= 1 && MSG_TYPE in out { out := out[MSG_TYPE := data[..1]]; }
    } else if code == SERVER_ID {
      if |data| == 4 && SERVER_ID in out { out := out[SERVER_ID := data[..4]]; }
    } else if code == SUBNET {
      if |data| == 4 && SUBNET in out { out := out[SUBNET := data[..4]]; }
    } else if code == ROUTER {
      if |data| >= 4 && ROUTER in out { out := out[ROUTER := data[..4]]; }
    } else if code == DNS {
      if |data| >= 4 && DNS in out { out := out[DNS := data[..4]]; }
    }
  }

  /** `dhcp_parse_opts`: terminates and stays inside the area on every content. */
  method ParseOpts(area: seq<Byte>, out0: Outputs) returns (ok: bool, out: Outputs)
    requires |area| == AREA && out0.Keys <= TRACKED
    ensures ok <==> area[..4] == [0x63, 0x82, 0x53, 0x63]
    ensures out == if ok then StoreAll(out0, Options(area, 4)) else out0
  {
    out := out0;
    if area[..4] != COOKIE {
      return false, out;
    }
    ok := true;
    var pos := 4;
    while pos < AREA
      invariant 4 <= pos <= AREA && out.Keys == out0.Keys
      invariant StoreAll(out, Options(area, pos)) == StoreAll(out0, Options(area, 4))
    {
      var done, next, now := ParseOne(area, pos, out);
      if done {
        return;
      }
      pos, out := next, now;
    }
  }

  /** One turn of the parser's loop: a padding byte, an option, or the end of the list. */
  method ParseOne(area: seq<Byte>, pos: nat, out0: Outputs) returns (done: bool, next: nat, out: Outputs)
    requires pos < |area| == AREA && out0.Keys <= TRACKED
    ensures done ==> Options(area, pos) == []
    ensures !done ==> pos < next <= AREA && out.Keys == out0.Keys
    ensures !done ==> StoreAll(out, Options(area, next)) == StoreAll(out0, Options(area, pos))
  {
    done, next, out := true, pos, out0;
    var code := area[pos];
    if code == END {
      return;
    }
    if code == PAD {
      return false, pos + 1, out0;
    }
    if pos + 1 >= AREA {
      return;
    }
    var len: int := area[pos + 1];
    if pos + 2 + len > AREA {
      return;
    }
    var data := area[pos + 2..pos + 2 + len];
    StoreFirst(out0, Opt(code, data), Options(area, pos + 2 + len));
    done, next := false, pos + 2 + len;
    out := TakeOver(out0, code, data);
  }

  // ---------------------------------------------------------------- the writers

  function Be32(v: nat): (s: seq<Byte>)
    requires v < WORD
    ensures |s| == 4
  {
    [v / 0x100_0000, v / 0x1_0000 % 0x100, v / 0x100 % 0x100, v % 0x100]
  }

  /** Most significant byte first. */
  lemma Be32Digits(v: nat)
    requires v < WORD
    ensures var b := Be32(v);
            var b0: int, b1: int, b2: int := b[0], b[1], b[2];
            v == 0x100 * (0x100 * (0x100 * b0 + b1) + b2) + b[3]
  {
    assert v / 0x1_0000 == v / 0x100 / 0x100 && v / 0x100_0000 == v / 0x1_0000 / 0x100;
  }

  method CopyInto(area: array<Byte>, at: nat, data: seq<Byte>)
    requires at + |data| <= area.Length
    modifies area
    ensures area[..] == Splice(old(area[..]), at, data)
  {
    var i := 0;
    while i < |data|
      invariant 0 <= i <= |data|
      invariant area[..] == Splice(old(area[..]), at, data[..i])
    {
      area[at + i] := data[i];
      i := i + 1;
    }
    assert data[..i] == data;
  }

  lemma SpliceTwice(s: seq<Byte>, at: nat, a: seq<Byte>, b: seq<Byte>)
    requires at + |a| + |b| <= |s|
    ensures Splice(Splice(s, at, a), at + |a|, b) == Splice(s, at, a + b)
  {
  }

  /** `dhcp_opt_put_list`; the one-byte and four-byte writers are this with fixed data. */
  method PutList(area: array<Byte>, pos: nat, code: Byte, data: seq<Byte>) returns (next: nat)
    requires |data| < 256 && pos + 2 + |data| <= area.Length
    modifies area
    ensures next == pos + 2 + |data|
    ensures area[..] == Splice(old(area[..]), pos, [code, |data|] + data)
  {
    ghost var before := area[..];
    area[pos] := code;
    area[pos + 1] := |data|;
    assert area[..] == Splice(before, pos, [code, |data|]);
    CopyInto(area, pos + 2, data);
    SpliceTwice(before, pos, [code, |data|], data);
    next := pos + 2 + |data|;
  }

  method PutU8(area: array<Byte>, pos: nat, code: Byte, v: Byte) returns (next: nat)
    requires pos + 3 <= area.Length
    modifies area
    ensures next == pos + 3 && area[..] == Splice(old(area[..]), pos, [code, 1, v])
  {
    next := PutList(area, pos, code, [v]);
    assert [code, 1] + [v] == [code, 1, v];
  }

  /** The value goes out most significant byte first. */
  method PutU32(area: array<Byte>, pos: nat, code: Byte, v: nat) returns (next: nat)
    requires v < WORD && pos + 6 <= area.Length
    modifies area
    ensures next == pos + 6 && area[..] == Splice(old(area[..]), pos, [code, 4] + Be32(v))
  {
    next := PutList(area, pos, code, Be32(v));
  }

  // ---------------------------------------------------------------- round trip

  /** An option at `pos` is the first one found there. */
  lemma FirstFound(area: seq<Byte>, pos: nat, o: Opt)
    requires Writable(o) && pos + 2 + |o.data| <= |area|
    requires area[pos..pos + 2 + |o.data|] == Encode(o)
    ensures Options(area, pos) == [o] + Options(area, pos + 2 + |o.data|)
  {
    var piece := area[pos..pos + 2 + |o.data|];
    assert area[pos] == piece[0] && area[pos + 1] == piece[1];
    assert area[pos + 2..pos + 2 + |o.data|] == piece[2..] == o.data;
  }

  /** The first option at `pos` and the others behind it. */
  lemma FoundInTurn(area: seq<Byte>, pos: nat, os: seq<Opt>)
    requires os != [] && Writable(os[0]) && pos + 2 + |os[0].data| <= |area|
    requires area[pos..pos + 2 + |os[0].data|] == Encode(os[0])
    requires Options(area, pos + 2 + |os[0].data|) == os[1..]
    ensures Options(area, pos) == os
  {
    FirstFound(area, pos, os[0]);
    assert [os[0]] + os[1..] == os;
  }

  lemma SliceSplit(area: seq<Byte>, pos: nat, a: seq<Byte>, b: seq<Byte>)
    requires pos + |a| + |b| <= |area| && area[pos..pos + |a| + |b|] == a + b
    ensures area[pos..pos + |a|] == a && area[pos + |a|..pos + |a| + |b|] == b
  {
    var piece := area[pos..pos + |a| + |b|];
    assert area[pos..pos + |a|] == piece[..|a|];
    assert area[pos + |a|..pos + |a| + |b|] == piece[|a|..];
  }

  /** The encoded options stand at `pos`, followed by an end mark. */
  ghost predicate WrittenAt(area: seq<Byte>, pos: nat, os: seq<Opt>)
    requires AllWritable(os)
  {
    var e := EncodeAll(os);
    pos + |e| < |area| && area[pos..pos + |e|] == e && area[pos + |e|] == END
  }

  /** Options are found where they were written, whatever precedes them and whatever follows
      the end mark. */
  lemma {:induction false} EncodedIsFound(area: seq<Byte>, pos: nat, os: seq<Opt>)
    requires AllWritable(os) && WrittenAt(area, pos, os)
    ensures Options(area, pos) == os
    decreases |os|
  {
    if os != [] {
      var head, tail := Encode(os[0]), EncodeAll(os[1..]);
      SliceSplit(area, pos, head, tail);
      EncodedIsFound(area, pos + |head|, os[1..]);
      FoundInTurn(area, pos, os);
    }
  }

  // ---------------------------------------------------------------- padding and truncation

  lemma {:induction false} PaddingSkipped(area: seq<Byte>, pos: nat, n: nat)
    requires pos + n <= |area| && forall i :: pos <= i < pos + n ==> area[i] == 0
    ensures Options(area, pos) == Options(area, pos + n)
    decreases n
  {
    if n > 0 {
      PaddingSkipped(area, pos + 1, n - 1);
    }
  }

  /** Where there is no padding the list ends exactly at the end of the area, at an end mark, and at
      an option without a length or with more data than the area holds. */
  lemma ListEnds(area: seq<Byte>, pos: nat)
    requires pos < |area| ==> area[pos] != 0
    ensures Options(area, pos) == [] <==>
            pos >= |area| || area[pos] == 255 || pos + 1 == |area| || pos + 2 + area[pos + 1] as int > |area|
  {
  }

  /** The options stand in the area one after the other, each behind any number of padding bytes,
      the last one followed by padding and an end mark. */
  ghost predicate ScatteredAt(area: seq<Byte>, pos: nat, os: seq<Opt>, gaps: seq<nat>)
    requires |gaps| == |os| + 1
    decreases |os|
  {
    && pos + gaps[0] < |area| && (forall i :: pos <= i < pos + gaps[0] ==> area[i] == 0)
    && var at := pos + gaps[0];
       if os == [] then area[at] == 255
       else
         && Writable(os[0]) && at + 2 + |os[0].data| <= |area|
         && area[at..at + 2 + |os[0].data|] == Encode(os[0])
         && ScatteredAt(area, at + 2 + |os[0].data|, os[1..], gaps[1..])
  }

  lemma EndFound(area: seq<Byte>, pos: nat)
    requires pos < |area| && area[pos] == 255
    ensures Options(area, pos) == []
  {
  }

  /** Padding makes no difference to what is found. */
  lemma {:induction false} ScatteredIsFound(area: seq<Byte>, pos: nat, os: seq<Opt>, gaps: seq<nat>)
    requires |gaps| == |os| + 1 && ScatteredAt(area, pos, os, gaps)
    ensures Options(area, pos) == os
    decreases |os|
  {
    var at := pos + gaps[0];
    if os == [] {
      EndFound(area, at);
    } else {
      ScatteredIsFound(area, at + 2 + |os[0].data|, os[1..], gaps[1..]);
      FoundInTurn(area, at, os);
    }
    PaddingSkipped(area, pos, gaps[0]);
  }

  /** Parsing what was written: every tracked output gets the last option that passes its
      guard, and keeps its value when none does. */
  lemma WriteThenParse(area: seq<Byte>, os: seq<Opt>, out: Outputs, code: Byte)
    requires |area| == AREA && AllWritable(os) && WrittenAt(area, 4, os) && code in out
    ensures StoreAll(out, Options(area, 4))[code]
         == if LastOf(os, code) >= 0 then Taken(os[LastOf(os, code)]) else out[code]
  {
    EncodedIsFound(area, 4, os);
    LastWins(out, os, code);
  }

  // ---------------------------------------------------------------- a message written and read

  /** The bytes up to `pos` are the cookie and the encoded options. */
  ghost predicate Begun(area: seq<Byte>, os: seq<Opt>, pos: nat)
    requires AllWritable(os)
  {
    pos == 4 + |EncodeAll(os)| <= |area| && area[..pos] == COOKIE + EncodeAll(os)
  }

  lemma {:induction false} EncodeAppend(os: seq<Opt>, o: Opt)
    requires AllWritable(os) && Writable(o)
    ensures AllWritable(os + [o]) && EncodeAll(os + [o]) == EncodeAll(os) + Encode(o)
    decreases |os|
  {
    if os != [] {
      EncodeAppend(os[1..], o);
      assert (os + [o])[1..] == os[1..] + [o];
    } else {
      assert os + [o] == [o];
    }
  }

  lemma BegunNext(a0: seq<Byte>, a1: seq<Byte>, os: seq<Opt>, o: Opt, pos: nat)
    requires AllWritable(os) && Writable(o) && Begun(a0, os, pos) && pos + 2 + |o.data| <= |a0|
    requires a1 == Splice(a0, pos, Encode(o))
    ensures AllWritable(os + [o]) && Begun(a1, os + [o], pos + 2 + |o.data|)
  {
    EncodeAppend(os, o);
    var next := pos + 2 + |o.data|;
    assert a1[..next] == a0[..pos] + Encode(o);
  }

  /** The way every message is built: the cookie, the options one after the other, the end mark. */
  method WriteOptions(area: array<Byte>, os: seq<Opt>) returns (pos: nat)
    requires AllWritable(os) && 4 + |EncodeAll(os)| < area.Length
    modifies area
    ensures area[..4] == [0x63, 0x82, 0x53, 0x63] && WrittenAt(area[..], 4, os) && pos == 5 + |EncodeAll(os)|
  {
    CopyInto(area, 0, COOKIE);
    pos := 4;
    var k := 0;
    assert os[..0] == [];
    assert area[..][..4] == COOKIE;
    while k < |os|
      invariant 0 <= k <= |os| && AllWritable(os[..k]) && Begun(area[..], os[..k], pos)
    {
      ghost var before := area[..];
      assert os[..k + 1] == os[..k] + [os[k]];
      EncodePrefix(os, k + 1);
      EncodeAppend(os[..k], os[k]);
      assert pos + 2 + |os[k].data| == 4 + |EncodeAll(os[..k + 1])|;
      pos := PutList(area, pos, os[k].code, os[k].data);
      BegunNext(before, area[..], os[..k], os[k], pos - 2 - |os[k].data|);
      k := k + 1;
    }
    assert os[..|os|] == os;
    ghost var before := area[..];
    area[pos] := END;
    Finished(before, area[..], os, pos);
    pos := pos + 1;
  }

  lemma {:induction false} EncodePrefix(os: seq<Opt>, k: nat)
    requires AllWritable(os) && k <= |os|
    ensures AllWritable(os[..k]) && |EncodeAll(os[..k])| <= |EncodeAll(os)|
    ensures k > 0 ==> Writable(os[k - 1])
    decreases k
  {
    if k > 0 {
      EncodePrefix(os[1..], k - 1);
      assert os[..k][1..] == os[1..][..k - 1];
    }
  }

  lemma Finished(a0: seq<Byte>, a1: seq<Byte>, os: seq<Opt>, pos: nat)
    requires AllWritable(os) && Begun(a0, os, pos) && pos < |a0| && a1 == a0[pos := END]
    ensures a1[..4] == COOKIE && WrittenAt(a1, 4, os)
  {
    var e := EncodeAll(os);
    assert a1[..pos] == a0[..pos];
    assert a1[..4] == a1[..pos][..4] && a1[4..4 + |e|] == a1[..pos][4..];
  }

  /** A message written and parsed: each tracked output gets the last option of its code that
      passes its guard, and keeps its value when none does. */
  method WriteAndParse(area: array<Byte>, os: seq<Opt>, out0: Outputs) returns (ok: bool, out: Outputs)
    requires area.Length == AREA && AllWritable(os) && 4 + |EncodeAll(os)| < AREA && out0.Keys <= TRACKED
    modifies area
    ensures ok && out.Keys == out0.Keys
    ensures forall code :: code in out0 ==>
              out[code] == if LastOf(os, code) >= 0 then Taken(os[LastOf(os, code)]) else out0[code]
  {
    var _ := WriteOptions(area, os);
    ok, out := ParseOpts(area[..], out0);
    forall code | code in out0
      ensures out[code] == if LastOf(os, code) >= 0 then Taken(os[LastOf(os, code)]) else out0[code]
    {
      WriteThenParse(area[..], os, out0, code);
    }
  }
}
