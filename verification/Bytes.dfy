/** Bytes, 32-bit words, disk sectors and overwriting a range of a sequence. */
module Bytes {

  type Byte = b: int | 0 <= b < 256

  /** Arithmetic on C's 32-bit `unsigned int` wraps modulo this. */
  const WORD: int := 0x1_0000_0000

  function Wrap(x: int): (w: nat)
    ensures w < WORD
    ensures 0 <= x < WORD ==> w == x
  {
    x % WORD
  }

  /** Wrapping changes a number by a multiple of 2^32. */
  lemma WrapIsCongruent(x: int)
    ensures (x - Wrap(x)) % 0x1_0000_0000 == 0
  {
  }

  /** So it makes no difference whether it is done before adding or after. */
  lemma WrapAdd(a: int, b: int)
    ensures Wrap(a + b) == (Wrap(a) + b) % 0x1_0000_0000
  {
    assert Wrap(a) + b == (a + b) - WORD * (a / WORD);
  }

  function Min(a: int, b: int): int {
    if a < b then a else b
  }

  /** The little-endian 32-bit word stored at offset `at`. */
  function Le32(s: seq<Byte>, at: nat): (v: nat)
    requires at + 4 <= |s|
    ensures v < WORD
  {
    var b0: int, b1: int, b2: int, b3: int := s[at], s[at + 1], s[at + 2], s[at + 3];
    b0 + 0x100 * b1 + 0x1_0000 * b2 + 0x100_0000 * b3
  }

  /** The bytes of the word, the least significant one first. */
  lemma Le32Digits(s: seq<Byte>, at: nat)
    requires at + 4 <= |s|
    ensures var v := Le32(s, at);
            && s[at] == v % 0x100 && s[at + 1] == v / 0x100 % 0x100
            && s[at + 2] == v / 0x1_0000 % 0x100 && s[at + 3] == v / 0x100_0000
  {
    var v, b0: int, b1: int, b2: int, b3: int := Le32(s, at), s[at], s[at + 1], s[at + 2], s[at + 3];
    assert v / 0x100 == b1 + 0x100 * b2 + 0x1_0000 * b3;
    assert v / 0x1_0000 == b2 + 0x100 * b3;
  }

  function Le32Bytes(v: nat): (s: seq<Byte>)
    requires v < WORD
    ensures |s| == 4
  {
    [v % 0x100, v / 0x100 % 0x100, v / 0x1_0000 % 0x100, v / 0x100_0000]
  }

  lemma Le32RoundTrip(v: nat)
    requires v < WORD
    ensures Le32(Le32Bytes(v), 0) == v
  {
    var s := Le32Bytes(v);
    assert v / 0x1_0000 == v / 0x100 / 0x100;
    assert v / 0x100_0000 == v / 0x1_0000 / 0x100;
  }

  /** `s` with `piece` written over it from offset `at` on. */
  function Splice<T>(s: seq<T>, at: nat, piece: seq<T>): (r: seq<T>)
    requires at + |piece| <= |s|
    ensures |r| == |s|
    ensures forall i :: 0 <= i < |s| ==> r[i] == if at <= i < at + |piece| then piece[i - at] else s[i]
  {
    s[..at] + piece + s[at + |piece|..]
  }

  /** A word written at `at` is what is read back there, and any word clear of it is untouched. */
  lemma WordAfterSplice(s: seq<Byte>, at: nat, v: nat, other: nat)
    requires v < WORD && at + 4 <= |s| && other + 4 <= |s|
    ensures Le32(Splice(s, at, Le32Bytes(v)), at) == v
    ensures other + 4 <= at || at + 4 <= other ==>
              Le32(Splice(s, at, Le32Bytes(v)), other) == Le32(s, other)
  {
    Le32RoundTrip(v);
  }

  type Sector = s: seq<Byte> | |s| == 512 witness seq(512, _ => 0)

  /** `b` is byte `x` counted from the start of sector `sector`. */
  ghost predicate CopiedFrom(d: seq<Sector>, sector: nat, x: nat, b: Byte) {
    sector + x / 512 < |d| && b == d[sector + x / 512][x % 512]
  }

  /** `memcpy` of fewer than 65536 bytes. */
  method CopyBytes(buffer: array<Byte>, at: nat, src: seq<Byte>, n: nat)
    requires n <= |src| && n < 0x1_0000 && at + n <= buffer.Length
    modifies buffer
    ensures forall i :: 0 <= i < buffer.Length ==>
              buffer[i] == if at <= i < at + n then src[i - at] else old(buffer[i])
  {
    var k := 0;
    while k < n
      invariant 0 <= k <= n
      invariant forall i :: 0 <= i < buffer.Length ==>
                  buffer[i] == if at <= i < at + k then src[i - at] else old(buffer[i])
    {
      buffer[at + k] := src[k];
      k := k + 1;
    }
  }
}
