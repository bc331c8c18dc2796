/** The Internet checksum: a 32-bit accumulator over big-endian 16-bit words, folded and
    complemented at the end. */
module Checksum {

  import opened Bytes

  /** The 16-bit words of a message; a last odd byte is the high half of its word. */
  function Word(s: seq<Byte>, k: nat): (w: nat)
    requires 2 * k < |s|
    ensures w < 0x1_0000
  {
    var high: int, low: int := s[2 * k], if 2 * k + 1 < |s| then s[2 * k + 1] else 0;
    0x100 * high + low
  }

  function WordCount(s: seq<Byte>): nat {
    (|s| + 1) / 2
  }

  /** The plain sum of the first `n` words. */
  function Sum(s: seq<Byte>, n: nat): (t: nat)
    requires n <= WordCount(s)
    ensures t <= 0xFFFF * n
  {
    if n == 0 then 0 else Sum(s, n - 1) + Word(s, n - 1)
  }

  function Total(s: seq<Byte>): nat {
    Sum(s, WordCount(s))
  }

  // ---------------------------------------------------------------- one's complement arithmetic

  /** 16-bit one's complement addition: the carry out of the top comes back in at the bottom
      (section 1 of RFC 1071). */
  function Add(a: nat, b: nat): (c: nat)
    requires a < 0x1_0000 && b < 0x1_0000
    ensures c < 0x1_0000
  {
    if a + b < 0x1_0000 then a + b else a + b - 0xFFFF
  }

  /** The one's complement sum of the first `n` words, added one at a time. */
  function OnesSum(s: seq<Byte>, n: nat): (c: nat)
    requires n <= WordCount(s)
    ensures c < 0x1_0000
  {
    if n == 0 then 0 else Add(OnesSum(s, n - 1), Word(s, n - 1))
  }

  /** The end-around-carry value of a number: congruent to it modulo 65535, zero only for zero. */
  function Residue(x: nat): (r: nat)
    ensures r < 0x1_0000
  {
    if x == 0 then 0 else (x - 1) % 0xFFFF + 1
  }

  /** Folding the high half into the low half keeps the value. */
  lemma FoldResidue(x: nat)
    ensures Residue(x % 0x1_0000 + x / 0x1_0000) == Residue(x)
  {
    var high, low := x / 0x1_0000, x % 0x1_0000;
    assert x == (low + high) + 0xFFFF * high;
    if low + high > 0 {
      ModShift(low + high - 1, high);
    }
  }

  lemma {:induction false} ModShift(y: nat, k: nat)
    ensures (y + 0xFFFF * k) % 0xFFFF == y % 0xFFFF
  {
    if k > 0 {
      ModShift(y, k - 1);
      assert (y + 0xFFFF * (k - 1) + 0xFFFF) % 0xFFFF == (y + 0xFFFF * (k - 1)) % 0xFFFF;
    }
  }

  lemma AddResidue(x: nat, w: nat)
    requires w < 0x1_0000
    ensures Residue(x + w) == Add(Residue(x), w)
  {
    var q := if x == 0 then 0 else (x - 1) / 0xFFFF;
    var r := Residue(x);
    assert x == r + 0xFFFF * q;
    if r + w > 0 {
      ModShift(r + w - 1, q);
      assert x + w - 1 == (r + w - 1) + 0xFFFF * q;
    }
  }

  /** Folding the plain sum is adding the words in one's complement. */
  lemma {:induction false} ResidueIsOnesSum(s: seq<Byte>, n: nat)
    requires n <= WordCount(s)
    ensures Residue(Sum(s, n)) == OnesSum(s, n)
  {
    if n > 0 {
      ResidueIsOnesSum(s, n - 1);
      AddResidue(Sum(s, n - 1), Word(s, n - 1));
    }
  }

  // ---------------------------------------------------------------- the code

  /** `checksum_accumulate`: the 32-bit accumulator does not wrap as long as the plain sum of
      everything added to it stays below 2^32. */
  method Accumulate(data: seq<Byte>, sum0: nat) returns (sum: nat)
    requires sum0 + 0xFFFF * WordCount(data) < WORD
    ensures sum == sum0 + Total(data) < WORD
  {
    sum := sum0;
    var p, len := 0, |data|;
    while len > 1
      invariant 0 <= p && len == |data| - 2 * p && len >= 0
      invariant sum == sum0 + Sum(data, p)
    {
      sum := Wrap(sum + Word(data, p));
      p := p + 1;
      len := len - 2;
    }
    if len > 0 {
      sum := Wrap(sum + Word(data, p));
    }
  }

  /** `fold_checksum`. */
  method Fold(sum0: nat) returns (c: nat)
    requires sum0 < WORD
    ensures c == 0xFFFF - Residue(sum0)
  {
    var sum := sum0;
    while sum / 0x1_0000 != 0
      invariant 0 <= sum && Residue(sum) == Residue(sum0)
      decreases sum
    {
      FoldResidue(sum);
      sum := sum % 0x1_0000 + sum / 0x1_0000;
    }
    c := 0xFFFF - sum;
  }

  /** The checksum of a message: the complement of the one's complement sum of its words. */
  function Check(s: seq<Byte>): nat {
    0xFFFF - OnesSum(s, WordCount(s))
  }

  method IpChecksum(data: seq<Byte>) returns (c: nat)
    requires |data| < 0x1_0000
    ensures c == Check(data)
  {
    var sum := Accumulate(data, 0);
    c := Fold(sum);
    ResidueIsOnesSum(data, WordCount(data));
  }

  const PROTOCOL_UDP: Byte := 17

  /** The pseudo header: the addresses as they stand in the IP header, a zero, the protocol and the
      length of the UDP header and payload, most significant byte first and in sixteen bits. */
  function Pseudo(src: seq<Byte>, dst: seq<Byte>, len: nat): (p: seq<Byte>)
    requires |src| == 4 && |dst| == 4
    ensures |p| == 12
  {
    var udpLen := (8 + len) % 0x1_0000;
    src + dst + [0, PROTOCOL_UDP, udpLen / 0x100, udpLen % 0x100]
  }

  /** Its bytes. */
  lemma PseudoBytes(src: seq<Byte>, dst: seq<Byte>, len: nat)
    requires |src| == 4 && |dst| == 4
    ensures var p := Pseudo(src, dst, len);
            && p[..4] == src && p[4..8] == dst && p[8] == 0 && p[9] == 17
            && Word(p, 5) == (8 + len) % 0x1_0000
  {
    var p, udpLen := Pseudo(src, dst, len), (8 + len) % 0x1_0000;
    assert p[10] == udpLen / 0x100 && p[11] == udpLen % 0x100;
  }

  /** What it adds to the sum. */
  lemma PseudoSum(src: seq<Byte>, dst: seq<Byte>, len: nat)
    requires |src| == 4 && |dst| == 4
    ensures Total(Pseudo(src, dst, len)) == Total(src) + Total(dst) + 17 + (8 + len) % 0x1_0000
  {
    var udpLen := (8 + len) % 0x1_0000;
    TotalConcat(src, dst);
    TotalConcat(src + dst, [0, PROTOCOL_UDP, udpLen / 0x100, udpLen % 0x100]);
    TwoWords(0, PROTOCOL_UDP, udpLen / 0x100, udpLen % 0x100);
  }

  lemma TwoWords(a: Byte, b: Byte, c: Byte, d: Byte)
    ensures var a': int, c': int := a, c; Total([a, b, c, d]) == 256 * a' + b + 256 * c' + d
  {
    var s := [a, b, c, d];
    assert Sum(s, 1) == Word(s, 0) && Total(s) == Sum(s, 1) + Word(s, 1);
  }

  /** `udp_checksum`: the pseudo header, the header and the payload, accumulated one after the
      other, are summed as one message. */
  method UdpChecksum(src: seq<Byte>, dst: seq<Byte>, header: seq<Byte>, payload: seq<Byte>) returns (c: nat)
    requires |src| == 4 && |dst| == 4 && |header| == 8 && |payload| < 0x1_0000
    ensures c == Check(Pseudo(src, dst, |payload|) + header + payload)
  {
    var pseudo := Pseudo(src, dst, |payload|);
    var sum := Accumulate(pseudo, 0);
    sum := Accumulate(header, sum);
    sum := Accumulate(payload, sum);
    c := Fold(sum);
    PiecesCheck(pseudo, header, payload);
  }

  /** The folded sum of three pieces is the checksum of the whole. */
  lemma PiecesCheck(a: seq<Byte>, b: seq<Byte>, c: seq<Byte>)
    requires |a| % 2 == 0 && |b| % 2 == 0
    ensures 0xFFFF - Residue(Total(a) + Total(b) + Total(c)) == Check(a + b + c)
  {
    TotalConcat(a, b);
    TotalConcat(a + b, c);
    CheckOfTotal(a + b + c);
  }

  lemma CheckOfTotal(s: seq<Byte>)
    ensures Check(s) == 0xFFFF - Residue(Total(s))
  {
    ResidueIsOnesSum(s, WordCount(s));
  }

  /** A datagram whose zeroed checksum field was filled with this value checks to zero together
      with its pseudo header, whatever its length. */
  lemma UdpStoredChecksToZero(src: seq<Byte>, dst: seq<Byte>, header: seq<Byte>, payload: seq<Byte>)
    requires |src| == 4 && |dst| == 4 && |header| == 8 && Word(header, 3) == 0
    ensures var pseudo := Pseudo(src, dst, |payload|);
            var c := Check(pseudo + header + payload);
            c < 0x1_0000 && Check(pseudo + Stored(header, 3, c) + payload) == 0
  {
    var pseudo := Pseudo(src, dst, |payload|);
    var all := pseudo + header + payload;
    var c := Check(all);
    assert all[18] == header[6] && all[19] == header[7];
    StoredChecksToZero(all, 9);
    assert Stored(all, 9, c) == pseudo + Stored(header, 3, c) + payload;
  }

  // ---------------------------------------------------------------- laws

  /** The sum byte by byte: bytes at even places count 256 times, those at odd places once. */
  function ByteSum(s: seq<Byte>): nat {
    if s == [] then 0
    else
      var last: int := s[|s| - 1];
      ByteSum(s[..|s| - 1]) + last * (if |s| % 2 == 1 then 256 else 1)
  }

  /** Accumulating words is adding up bytes at their places, for every length. */
  lemma {:induction false} TotalByBytes(s: seq<Byte>)
    ensures Total(s) == ByteSum(s)
  {
    if s != [] {
      var init, n := s[..|s| - 1], |s| / 2;
      TotalByBytes(init);
      if |s| % 2 == 1 {
        SumPrefix(init, [s[|s| - 1]], n);
        assert init + [s[|s| - 1]] == s;
      } else {
        SumAlike(init, s, n - 1);
      }
    }
  }

  lemma {:induction false} SumAlike(a: seq<Byte>, b: seq<Byte>, n: nat)
    requires a <= b && 2 * n <= |a|
    ensures Sum(a, n) == Sum(b, n)
  {
    if n > 0 {
      SumAlike(a, b, n - 1);
    }
  }

  /** An odd last byte counts as if a zero byte followed it. */
  lemma OddIsPadded(s: seq<Byte>)
    requires |s| % 2 == 1
    ensures Total(s + [0]) == Total(s) && Check(s + [0]) == Check(s)
  {
    TotalByBytes(s);
    TotalByBytes(s + [0]);
    assert (s + [0])[..|s|] == s;
    CheckOfTotal(s);
    CheckOfTotal(s + [0]);
  }

  /** The numerical example of section 3 of RFC 1071. */
  lemma KnownSum(s: seq<Byte>)
    requires s == [0x00, 0x01, 0xF2, 0x03, 0xF4, 0xF5, 0xF6, 0xF7]
    ensures Total(s) == 0x2_DDF0 && OnesSum(s, 4) == 0xDDF2 && Check(s) == 0x220D
  {
    assert Sum(s, 2) == 0xF204;
    ResidueIsOnesSum(s, 4);
  }

  lemma {:induction false} SumPrefix(a: seq<Byte>, b: seq<Byte>, n: nat)
    requires |a| % 2 == 0 && 2 * n <= |a|
    ensures Sum(a + b, n) == Sum(a, n)
  {
    if n > 0 {
      SumPrefix(a, b, n - 1);
    }
  }

  lemma {:induction false} SumSuffix(a: seq<Byte>, b: seq<Byte>, n: nat)
    requires |a| % 2 == 0 && n <= WordCount(b)
    ensures Sum(a + b, |a| / 2 + n) == Total(a) + Sum(b, n)
  {
    if n == 0 {
      SumPrefix(a, b, |a| / 2);
    } else {
      SumSuffix(a, b, n - 1);
      assert Word(a + b, |a| / 2 + n - 1) == Word(b, n - 1);
    }
  }

  /** Accumulation composes over pieces when all but the last have even length. */
  lemma TotalConcat(a: seq<Byte>, b: seq<Byte>)
    requires |a| % 2 == 0
    ensures Total(a + b) == Total(a) + Total(b)
  {
    SumSuffix(a, b, WordCount(b));
  }

  /** `s` with the value `v` stored big-endian in its word `k`. */
  function Stored(s: seq<Byte>, k: nat, v: nat): seq<Byte>
    requires 2 * k + 1 < |s| && v < 0x1_0000
  {
    s[2 * k := v / 0x100][2 * k + 1 := v % 0x100]
  }

  lemma {:induction false} StoredSum(s: seq<Byte>, k: nat, v: nat, n: nat)
    requires 2 * k + 1 < |s| && v < 0x1_0000 && Word(s, k) == 0 && n <= WordCount(s)
    ensures Sum(Stored(s, k, v), n) == Sum(s, n) + if k < n then v else 0
  {
    if n > 0 {
      StoredSum(s, k, v, n - 1);
      assert n - 1 != k ==> Word(Stored(s, k, v), n - 1) == Word(s, n - 1);
      assert n - 1 == k ==> Word(Stored(s, k, v), n - 1) == v;
    }
  }

  /** Storing the checksum in its zeroed field makes the whole message check to zero. */
  lemma StoredChecksToZero(s: seq<Byte>, k: nat)
    requires 2 * k + 1 < |s| && Word(s, k) == 0
    ensures Check(Stored(s, k, Check(s))) == 0
  {
    CheckOfTotal(s);
    CheckOfStored(s, k, Check(s));
    Complement(Total(s));
  }

  lemma CheckOfStored(s: seq<Byte>, k: nat, v: nat)
    requires 2 * k + 1 < |s| && v < 0x1_0000 && Word(s, k) == 0
    ensures Check(Stored(s, k, v)) == 0xFFFF - Residue(Total(s) + v)
  {
    StoredSum(s, k, v, WordCount(s));
    CheckOfTotal(Stored(s, k, v));
  }

  lemma Complement(x: nat)
    ensures Residue(x + (0xFFFF - Residue(x))) == 0xFFFF
  {
    var q := if x == 0 then 0 else (x - 1) / 0xFFFF;
    assert x == Residue(x) + 0xFFFF * q;
    ModShift(0xFFFE, q);
  }

  /** Overwriting one word changes the checksum, except between the two forms of zero when the
      rest of the message is not all zero. */
  lemma SingleWordError(s: seq<Byte>, k: nat, v: nat, w: nat)
    requires 2 * k + 1 < |s| && Word(s, k) == 0 && v < w < 0x1_0000
    ensures Check(Stored(s, k, v)) == Check(Stored(s, k, w)) <==> v == 0 && w == 0xFFFF && Total(s) > 0
  {
    CheckOfStored(s, k, v);
    CheckOfStored(s, k, w);
    ResidueGap(Total(s) + v, w - v);
  }

  lemma ResidueGap(x: nat, d: nat)
    requires 0 < d < 0x1_0000
    ensures Residue(x) == Residue(x + d) <==> x > 0 && d == 0xFFFF
  {
    if x > 0 {
      var q, r := (x - 1) / 0xFFFF, (x - 1) % 0xFFFF;
      assert x + d - 1 == (r + d) + 0xFFFF * q;
      ModShift(r + d, q);
    }
  }
}
