/** The 8.3 short-name codec: matching a user's name against a directory entry, converting a
    user's name to its on-disk form, and formatting an on-disk name for display. */
module ShortNames {

  import opened Bytes

  const DOT: Byte := 0x2E
  const SPACE: Byte := 0x20

  /** The characters of a C string before its terminator. */
  type CString = s: seq<Byte> | 0 !in s

  /** An 11-byte directory name: eight for the base, three for the extension. */
  type Name = f: seq<Byte> | |f| == 11 witness [32, 32, 32, 32, 32, 32, 32, 32, 32, 32, 32]

  /** The character a C program reads at index `j`, the terminator included. */
  function At(s: CString, j: nat): Byte
    requires j <= |s|
  {
    if j < |s| then s[j] else 0
  }

  function Upper(b: Byte): (r: Byte)
    ensures !(0x61 <= r <= 0x7A)
    ensures r == SPACE <==> b == SPACE
  {
    if 0x61 <= b <= 0x7A then b - 0x20 else b
  }

  predicate IsAlnum(b: Byte) {
    0x41 <= b <= 0x5A || 0x61 <= b <= 0x7A || 0x30 <= b <= 0x39
  }

  function UpperAll(s: seq<Byte>): (r: seq<Byte>)
    ensures |r| == |s|
    ensures forall i :: 0 <= i < |s| ==> r[i] == Upper(s[i])
  {
    seq(|s|, i requires 0 <= i < |s| => Upper(s[i]))
  }

  /** `s` cut or blank-padded to `n` bytes. */
  function Pad(s: seq<Byte>, n: nat): (r: seq<Byte>)
    ensures |r| == n
    ensures forall i :: 0 <= i < n ==> r[i] == if i < |s| then s[i] else SPACE
  {
    seq(n, i requires 0 <= i => if i < |s| then s[i] else SPACE)
  }

  // ---------------------------------------------------------------- what the codec means

  /** Index of the first dot at or after `i`, or the length. */
  function DotFrom(s: CString, i: nat): (d: nat)
    requires i <= |s|
    ensures i <= d <= |s|
    ensures forall k :: i <= k < d ==> s[k] != DOT
    ensures d < |s| ==> s[d] == DOT
    decreases |s| - i
  {
    if i == |s| || s[i] == DOT then i else DotFrom(s, i + 1)
  }

  /** How many leading characters the comparison takes as the base part. */
  function BaseLen(s: CString): (b: nat)
    ensures b <= 8 && b <= |s|
  {
    Min(8, DotFrom(s, 0))
  }

  /** Where the comparison takes the extension to start. */
  function ExtStart(s: CString): (e: nat)
    ensures BaseLen(s) <= e <= |s|
  {
    if At(s, BaseLen(s)) == DOT then BaseLen(s) + 1 else BaseLen(s)
  }

  /** The upper-case name the comparison looks for. */
  function Pattern(s: CString): Name {
    Pad(UpperAll(s[..BaseLen(s)]), 8) + Pad(UpperAll(s[ExtStart(s)..]), 3)
  }

  predicate Matches(f: Name, s: CString) {
    |s| - ExtStart(s) <= 3 && UpperAll(f) == Pattern(s)
  }

  /** The letters and digits of `s`, upper-cased, everything else dropped. */
  function Letters(s: seq<Byte>): seq<Byte> {
    if s == [] then []
    else
      var init := Letters(s[..|s| - 1]);
      if IsAlnum(s[|s| - 1]) then init + [Upper(s[|s| - 1])] else init
  }

  /** The on-disk name of a user's name. */
  function OnDisk(s: CString): Name {
    if s == [DOT] then Pad([DOT], 11)
    else if s == [DOT, DOT] then Pad([DOT, DOT], 11)
    else
      var d := DotFrom(s, 0);
      Pad(Letters(s[..d]), 8) + Pad(if d < |s| then Letters(s[d + 1..]) else [], 3)
  }

  /** `s` without its trailing blanks. */
  function Trim(s: seq<Byte>): (r: seq<Byte>)
    ensures |r| <= |s| && r == s[..|r|]
    ensures forall i :: |r| <= i < |s| ==> s[i] == SPACE
    ensures r != [] ==> r[|r| - 1] != SPACE
  {
    if s != [] && s[|s| - 1] == SPACE then Trim(s[..|s| - 1]) else s
  }

  /** The bytes before the first zero byte. */
  function BeforeNul(s: seq<Byte>): (r: CString)
    ensures |r| <= |s| && r == s[..|r|]
    ensures |r| < |s| ==> s[|r|] == 0
  {
    if s == [] || s[0] == 0 then [] else [s[0]] + BeforeNul(s[1..])
  }

  /** One displayed field: `strncpy` stops at a zero byte and leaves nothing to trim then. */
  function Field(s: seq<Byte>): (r: CString) {
    if 0 in s then BeforeNul(s)
    else
      assert 0 !in Trim(s);
      Trim(s)
  }

  /** The display form of an on-disk name. */
  function Shown(f: Name): (r: CString) {
    var base, ext := Field(f[..8]), Field(f[8..]);
    if ext == [] then base else base + [DOT] + ext
  }

  // ---------------------------------------------------------------- the code

  method CompareNames(f: Name, s: CString) returns (r: int)
    ensures r == 0 || r == -1
    ensures r == 0 <==> Matches(f, s)
  {
    var i, j := 0, 0;
    ghost var b := BaseLen(s);
    while i < 8
      invariant 0 <= i <= 8 && j == Min(i, b)
      invariant forall k :: 0 <= k < i ==> Upper(f[k]) == Pattern(s)[k]
    {
      if At(s, j) == 0 || At(s, j) == DOT {
        if f[i] != SPACE {
          assert UpperAll(f)[i] != Pattern(s)[i];
          return -1;
        }
      } else {
        if Upper(f[i]) != Upper(At(s, j)) {
          assert UpperAll(f)[i] != Pattern(s)[i];
          return -1;
        }
        j := j + 1;
      }
      i := i + 1;
    }
    if At(s, j) == DOT {
      j := j + 1;
    }
    ghost var e := ExtStart(s);
    while i < 11
      invariant 8 <= i <= 11 && j == Min(|s|, e + (i - 8))
      invariant forall k :: 0 <= k < i ==> Upper(f[k]) == Pattern(s)[k]
    {
      if At(s, j) == 0 {
        if f[i] != SPACE {
          assert UpperAll(f)[i] != Pattern(s)[i];
          return -1;
        }
      } else {
        if Upper(f[i]) != Upper(At(s, j)) {
          assert UpperAll(f)[i] != Pattern(s)[i];
          return -1;
        }
        j := j + 1;
      }
      i := i + 1;
    }
    return if At(s, j) == 0 then 0 else -1;
  }

  method ConvertTo83(dest: array<Byte>, src: CString)
    requires dest.Length == 11
    modifies dest
    ensures dest[..] == OnDisk(src)
  {
    var k := 0;
    while k < 11
      invariant 0 <= k <= 11 && forall m :: 0 <= m < k ==> dest[m] == SPACE
    {
      dest[k] := SPACE;
      k := k + 1;
    }
    if src == [DOT] {
      dest[0] := DOT;
      return;
    } else if src == [DOT, DOT] {
      dest[0] := DOT;
      dest[1] := DOT;
      return;
    }
    ConvertPlain(dest, src);
  }

  /** The conversion of a name other than `.` and `..` into a blank field. */
  method ConvertPlain(dest: array<Byte>, src: CString)
    requires dest.Length == 11 && forall m :: 0 <= m < 11 ==> dest[m] == SPACE
    requires src != [DOT] && src != [DOT, DOT]
    modifies dest
    ensures dest[..] == OnDisk(src)
  {
    var i := CopyBase(dest, src);
    i := SkipToDot(src, i);
    ghost var base := Pad(Letters(src[..i]), 8);
    assert dest[..8] == base && dest[8..] == Pad([], 3);
    if At(src, i) == DOT {
      CopyExtension(dest, src, i + 1);
    }
  }

  /** What the base leaves over before the dot is passed over. */
  method SkipToDot(src: CString, start: nat) returns (i: nat)
    requires start <= DotFrom(src, 0)
    ensures i == DotFrom(src, 0)
  {
    i := start;
    while At(src, i) != 0 && At(src, i) != DOT
      invariant 0 <= i <= DotFrom(src, 0)
      decreases DotFrom(src, 0) - i
    {
      i := i + 1;
    }
  }

  /** The base loop: letters and digits before the dot fill the first eight bytes. */
  method CopyBase(dest: array<Byte>, src: CString) returns (i: nat)
    requires dest.Length == 11 && forall m :: 0 <= m < 11 ==> dest[m] == SPACE
    modifies dest
    ensures i <= DotFrom(src, 0)
    ensures dest[..] == Pad(Letters(src[..DotFrom(src, 0)]), 8) + Pad([], 3)
  {
    var j := 0;
    i := 0;
    ghost var d := DotFrom(src, 0);
    while At(src, i) != 0 && At(src, i) != DOT && j < 8
      invariant 0 <= i <= d && 0 <= j <= 8
      invariant j == |Letters(src[..i])|
      invariant dest[..] == Pad(Letters(src[..i]), 11)
      decreases d - i
    {
      LettersStep(src, i, 11);
      if IsAlnum(src[i]) {
        dest[j] := Upper(src[i]);
        j := j + 1;
      }
      i := i + 1;
    }
    LettersPrefix(src, i, d);
    PadPrefix(Letters(src[..i]), Letters(src[..d]), 8);
    PadWider(Letters(src[..i]));
  }

  /** The extension loop: letters and digits from `start` on fill the last three bytes. */
  method CopyExtension(dest: array<Byte>, src: CString, start: nat)
    requires dest.Length == 11 && start <= |src|
    requires dest[8..] == Pad([], 3)
    modifies dest
    ensures dest[..] == old(dest[..8]) + Pad(Letters(src[start..]), 3)
  {
    var i, j := start, 8;
    ghost var base, ext := dest[..8], src[start..];
    while At(src, i) != 0 && j < 11
      invariant start <= i <= |src| && 8 <= j <= 11
      invariant j - 8 == |Letters(ext[..i - start])|
      invariant dest[..] == base + Pad(Letters(ext[..i - start]), 3)
      decreases |src| - i
    {
      ghost var m := i - start;
      assert ext[m] == src[i];
      LettersStep(ext, m, 3);
      if IsAlnum(src[i]) {
        UpdateTail(base, Pad(Letters(ext[..m]), 3), j - 8, Upper(src[i]));
        dest[j] := Upper(src[i]);
        j := j + 1;
      }
      i := i + 1;
    }
    LettersPrefix(ext, i - start, |ext|);
    assert ext[..|ext|] == ext;
    PadPrefix(Letters(ext[..i - start]), Letters(ext), 3);
  }

  lemma LettersStep(s: seq<Byte>, i: nat, n: nat)
    requires i < |s| && |Letters(s[..i])| < n
    ensures Letters(s[..i + 1])
         == if IsAlnum(s[i]) then Letters(s[..i]) + [Upper(s[i])] else Letters(s[..i])
    ensures IsAlnum(s[i]) ==>
              Pad(Letters(s[..i + 1]), n) == Pad(Letters(s[..i]), n)[|Letters(s[..i])| := Upper(s[i])]
  {
    assert s[..i + 1][..i] == s[..i];
  }

  lemma PadPrefix(a: seq<Byte>, b: seq<Byte>, n: nat)
    requires a <= b && (|a| >= n || a == b)
    ensures Pad(a, n) == Pad(b, n)
  {
  }

  lemma PadWider(a: seq<Byte>)
    requires |a| <= 8
    ensures Pad(a, 11) == Pad(a, 8) + Pad([], 3)
  {
  }

  lemma UpdateTail(a: seq<Byte>, q: seq<Byte>, m: nat, x: Byte)
    requires m < |q|
    ensures (a + q)[|a| + m := x] == a + q[m := x]
  {
  }

  /** `strncpy` of a whole field, blanks trimmed from its end, read back as a C string. */
  method TrimField(f: seq<Byte>) returns (field: CString)
    ensures field == Field(f)
  {
    var copy := BeforeNul(f);
    var buffer := copy + seq(|f| - |copy|, _ => 0);
    if |copy| == |f| {
      assert copy == f && buffer == f;
    } else {
      assert f[|copy|] == 0 && buffer[|f| - 1] == 0;
    }
    var i := |f|;
    assert buffer[..i] == buffer;
    while i > 0 && buffer[i - 1] == SPACE
      invariant 0 <= i <= |f|
      invariant |copy| < |f| ==> i == |f|
      invariant |copy| == |f| ==> Trim(buffer[..i]) == Trim(f)
    {
      assert buffer[..i][..i - 1] == buffer[..i - 1];
      i := i - 1;
    }
    field := if i < |copy| then copy[..i] else copy;
  }

  method FormatFilename(f: Name) returns (output: CString)
    ensures output == Shown(f) && |output| <= 12
  {
    var base := TrimField(f[..8]);
    var ext := TrimField(f[8..]);
    output := if |ext| > 0 then base + [DOT] + ext else base;
  }

  // ---------------------------------------------------------------- laws of the codec

  /** Two bytes are the same but for case exactly when they are equal or are the two forms of one of
      the 26 letters, and the upper-case form is the one kept. */
  lemma CaseFolding(a: Byte, b: Byte)
    requires a <= b
    ensures Upper(a) == Upper(b) <==> a == b || (0x41 <= a <= 0x5A && b == a + 0x20)
    ensures Upper(a) == Upper(b) ==> Upper(b) == if 0x61 <= a <= 0x7A then a - 0x20 else a
  {
  }

  /** What the conversion makes of one character: letters and digits stay, in upper case. */
  lemma LettersOfOne(b: Byte)
    ensures Letters([b]) == if 0x30 <= b <= 0x39 || 0x41 <= b <= 0x5A then [b]
                            else if 0x61 <= b <= 0x7A then [b - 0x20] else []
  {
    assert [b][..0] == [];
  }

  /** What is shown of a field: all before its first zero byte, or else before its trailing blanks. */
  lemma FieldExactly(s: seq<Byte>)
    ensures var r := Field(s);
            && r <= s
            && if 0 in s then |r| < |s| && s[|r|] == 0
               else (forall i :: |r| <= i < |s| ==> s[i] == 0x20) && (r != [] ==> r[|r| - 1] != 0x20)
  {
  }

  /** The dot is shown exactly when something of the extension is. */
  lemma ShownExactly(f: Name)
    ensures var base, ext, r := Field(f[..8]), Field(f[8..]), Shown(f);
            if ext == [] then r == base
            else |r| == |base| + 1 + |ext| && r[..|base|] == base && r[|base|] == 0x2E && r[|base| + 1..] == ext
  {
  }

  /** Which entries a name with a dot in its first nine characters matches. */
  lemma MatchesParts(f: Name, base: CString, ext: CString)
    requires |base| <= 8 && 0x2E !in base
    ensures 0 !in base + [0x2E] + ext
    ensures Matches(f, base + [0x2E] + ext) <==>
            |ext| <= 3 && UpperAll(f) == Pad(UpperAll(base), 8) + Pad(UpperAll(ext), 3)
  {
    var s := base + [0x2E] + ext;
    assert s[|base|] == DOT && forall k :: 0 <= k < |base| ==> s[k] == base[k];
    assert DotFrom(s, 0) == |base| && s[..|base|] == base && s[|base| + 1..] == ext;
  }

  /** A name of at most eight characters without a dot matches the entries with no extension. */
  lemma MatchesBase(f: Name, base: CString)
    requires |base| <= 8 && 0x2E !in base
    ensures Matches(f, base) <==> UpperAll(f) == Pad(UpperAll(base), 8) + [0x20, 0x20, 0x20]
  {
    assert DotFrom(base, 0) == |base| && base[..|base|] == base && base[|base|..] == [];
    assert Pad([], 3) == [0x20, 0x20, 0x20] && UpperAll([]) == [];
  }

  /** A longer one matches as if a dot stood behind its eighth character. */
  lemma DotImplied(f: Name, base: CString, ext: CString)
    requires |base| == 8 && 0x2E !in base && ext != [] && ext[0] != 0x2E
    ensures 0 !in base + ext && 0 !in base + [0x2E] + ext
    ensures Matches(f, base + ext) <==> Matches(f, base + [0x2E] + ext)
  {
    MatchesParts(f, base, ext);
    var s := base + ext;
    assert s[8] == ext[0] && forall k :: 0 <= k < 8 ==> s[k] == base[k];
    assert DotFrom(s, 0) > 8 && s[..8] == base && s[8..] == ext;
  }

  lemma {:induction false} LettersPrefix(s: seq<Byte>, i: nat, d: nat)
    requires i <= d <= |s|
    ensures Letters(s[..i]) <= Letters(s[..d])
    decreases d
  {
    if i < d {
      LettersPrefix(s, i, d - 1);
      assert s[..d][..d - 1] == s[..d - 1];
    }
  }

  /** Length of the leading run of letters and digits. */
  function WordLen(s: seq<Byte>): (n: nat)
    ensures n <= |s|
    ensures forall i :: 0 <= i < n ==> IsAlnum(s[i])
    ensures n < |s| ==> !IsAlnum(s[n])
  {
    if s == [] || !IsAlnum(s[0]) then 0 else 1 + WordLen(s[1..])
  }

  /** Letters and digits, then blanks. */
  predicate Plain(s: seq<Byte>) {
    forall i :: WordLen(s) <= i < |s| ==> s[i] == SPACE
  }

  /** On a plain string keeping the letters and blank-padding is just upper-casing. */
  lemma PlainLetters(s: seq<Byte>, n: nat)
    requires Plain(s)
    ensures Pad(Letters(s), n) == Pad(UpperAll(s), n)
  {
    LettersOfPlain(s);
    assert forall i :: 0 <= i < n ==> Pad(UpperAll(s[..WordLen(s)]), n)[i] == Pad(UpperAll(s), n)[i];
  }

  lemma LettersOfPlain(s: seq<Byte>)
    requires Plain(s)
    ensures Letters(s) == UpperAll(s[..WordLen(s)])
  {
    var word, blank := s[..WordLen(s)], s[WordLen(s)..];
    AllLetters(word);
    NoLetters(blank);
    LettersConcat(word, blank);
    assert word + blank == s;
  }

  lemma {:induction false} AllLetters(s: seq<Byte>)
    requires forall i :: 0 <= i < |s| ==> IsAlnum(s[i])
    ensures Letters(s) == UpperAll(s)
  {
    if s != [] {
      AllLetters(s[..|s| - 1]);
    }
  }

  lemma {:induction false} LettersAreUpper(s: seq<Byte>)
    ensures forall i :: 0 <= i < |Letters(s)| ==> IsAlnum(Letters(s)[i]) && Upper(Letters(s)[i]) == Letters(s)[i]
  {
    if s != [] {
      LettersAreUpper(s[..|s| - 1]);
    }
  }

  lemma {:induction false} NoLetters(s: seq<Byte>)
    requires forall i :: 0 <= i < |s| ==> !IsAlnum(s[i])
    ensures Letters(s) == []
  {
    if s != [] {
      NoLetters(s[..|s| - 1]);
    }
  }

  lemma {:induction false} LettersConcat(a: seq<Byte>, b: seq<Byte>)
    ensures Letters(a + b) == Letters(a) + Letters(b)
    decreases |b|
  {
    if b == [] {
      assert a + b == a;
    } else {
      LettersConcat(a, b[..|b| - 1]);
      assert (a + b)[..|a + b| - 1] == a + b[..|b| - 1];
    }
  }

  /** Names the two directions of the codec agree on: base and extension are letters or
      digits, possibly followed by blanks, of at most eight and three characters. */
  predicate Clean(s: CString) {
    var b, e := BaseLen(s), ExtStart(s);
    && s != [DOT]
    && |s| - e <= 3
    && Plain(s[..b])
    && Plain(s[e..])
    && (e == b ==> forall i :: b <= i < |s| ==> s[i] == SPACE)
  }

  lemma DotsNotClean()
    ensures !Clean([DOT, DOT])
  {
    var s: CString := [DOT, DOT];
    assert DotFrom(s, 0) == 0 && ExtStart(s) == 1;
    var rest := s[1..];
    assert WordLen(rest) == 0 && rest[0] != SPACE;
  }

  lemma BlankTail(base: seq<Byte>, blanks: seq<Byte>)
    requires forall i :: 0 <= i < |blanks| ==> blanks[i] == SPACE
    ensures Letters(base + blanks) == Letters(base)
    ensures Pad(UpperAll(blanks), 3) == Pad([], 3)
  {
    NoLetters(blanks);
    LettersConcat(base, blanks);
    BlankPad(blanks);
  }

  lemma BlankPad(blanks: seq<Byte>)
    requires forall i :: 0 <= i < |blanks| ==> blanks[i] == SPACE
    ensures Pad(UpperAll(blanks), 3) == Pad([], 3)
  {
    forall i | 0 <= i < 3
      ensures Pad(UpperAll(blanks), 3)[i] == SPACE
    {
      if i < |blanks| {
        assert UpperAll(blanks)[i] == Upper(blanks[i]);
      }
    }
  }

  lemma CleanIsPattern(s: CString)
    requires Clean(s)
    ensures OnDisk(s) == Pattern(s)
  {
    DotsNotClean();
    var b, e := BaseLen(s), ExtStart(s);
    PlainLetters(s[..b], 8);
    if e == b {
      assert DotFrom(s, 0) == |s|;
      BlankTail(s[..b], s[b..]);
      assert s[..b] + s[b..] == s[..|s|];
    } else {
      assert DotFrom(s, 0) == b;
      PlainLetters(s[e..], 3);
    }
  }

  lemma PaddedLettersPlain(s: seq<Byte>, x: seq<Byte>, n: nat)
    requires |s| <= n && Pad(UpperAll(s), n) == Pad(Letters(x), n)
    ensures Plain(s)
  {
    LettersAreUpper(x);
    forall i | 0 <= i < |s|
      ensures Upper(s[i]) == if i < |Letters(x)| then Letters(x)[i] else SPACE
    {
      assert Pad(UpperAll(s), n)[i] == Pad(Letters(x), n)[i];
    }
  }

  lemma PatternIsClean(s: CString)
    requires |s| - ExtStart(s) <= 3 && OnDisk(s) == Pattern(s)
    ensures Clean(s)
  {
    var b, e, d := BaseLen(s), ExtStart(s), DotFrom(s, 0);
    var p := Pattern(s);
    assert b == 0 ==> p[0] == SPACE;
    if s != [DOT] && s != [DOT, DOT] {
      var ext := if d < |s| then Letters(s[d + 1..]) else [];
      assert p[..8] == Pad(UpperAll(s[..b]), 8) == Pad(Letters(s[..d]), 8);
      assert p[8..] == Pad(UpperAll(s[e..]), 3) == Pad(ext, 3);
      PaddedLettersPlain(s[..b], s[..d], 8);
      var rest := if d < |s| then s[d + 1..] else [];
      PaddedLettersPlain(s[e..], rest, 3);
      if e == b && b < |s| {
        NoDotBlankTail(s);
      }
    }
  }

  lemma NoDot(s: CString)
    requires ExtStart(s) == BaseLen(s) < |s| && Plain(s[ExtStart(s)..])
    ensures DotFrom(s, 0) == |s|
  {
    var e := ExtStart(s);
    assert forall i :: 0 <= i < |s| - e ==> s[e + i] == s[e..][i] && s[e..][i] != DOT;
  }

  /** A name of nine to eleven characters without a dot fits its pattern only if blanks end it. */
  lemma NoDotBlankTail(s: CString)
    requires ExtStart(s) == BaseLen(s) < |s| && |s| - ExtStart(s) <= 3 && Plain(s[ExtStart(s)..])
    requires var d := DotFrom(s, 0);
             Pad(UpperAll(s[ExtStart(s)..]), 3) == Pad(if d < |s| then Letters(s[d + 1..]) else [], 3)
    ensures forall i :: BaseLen(s) <= i < |s| ==> s[i] == SPACE
  {
    var e := ExtStart(s);
    NoDot(s);
    forall i | e <= i < |s|
      ensures s[i] == SPACE
    {
      assert UpperAll(s[e..])[i - e] == Upper(s[i]);
      assert Pad(UpperAll(s[e..]), 3)[i - e] == SPACE;
    }
  }

  predicate NoLowerCase(f: Name) {
    UpperAll(f) == f
  }

  /** An entry whose name starts with a dot is never matched by any user name. */
  lemma DotNeverMatches(f: Name, s: CString)
    requires f[0] == DOT
    ensures !Matches(f, s)
  {
    assert UpperAll(f)[0] != Pattern(s)[0];
  }

  /** Upper-case letters and digits, blank-padded, in both fields. */
  predicate NormalForm(f: Name) {
    NoLowerCase(f) && Plain(f[..8]) && Plain(f[8..])
  }

  predicate DotName(f: Name) {
    f == Pad([DOT], 11) || f == Pad([DOT, DOT], 11)
  }

  lemma PaddedLettersNormal(x: seq<Byte>, n: nat)
    ensures Plain(Pad(Letters(x), n)) && UpperAll(Pad(Letters(x), n)) == Pad(Letters(x), n)
  {
    LettersAreUpper(x);
    var r := Pad(Letters(x), n);
    assert forall i :: |Letters(x)| <= i < n ==> !IsAlnum(r[i]);
  }

  lemma OnDiskShape(s: CString)
    ensures NormalForm(OnDisk(s)) || DotName(OnDisk(s))
  {
    if s != [DOT] && s != [DOT, DOT] {
      PlainShape(s);
    }
  }

  lemma PlainShape(s: CString)
    requires s != [DOT] && s != [DOT, DOT]
    ensures NormalForm(OnDisk(s))
  {
    var d := DotFrom(s, 0);
    if d < |s| {
      assert OnDisk(s) == Pad(Letters(s[..d]), 8) + Pad(Letters(s[d + 1..]), 3);
      LettersNormal(s[..d], s[d + 1..]);
    } else {
      assert Letters([]) == [];
      assert OnDisk(s) == Pad(Letters(s[..d]), 8) + Pad(Letters([]), 3);
      LettersNormal(s[..d], []);
    }
  }

  lemma LettersNormal(base: seq<Byte>, ext: seq<Byte>)
    ensures NormalForm(Pad(Letters(base), 8) + Pad(Letters(ext), 3))
  {
    PaddedLettersNormal(base, 8);
    PaddedLettersNormal(ext, 3);
    FieldsNormal(Pad(Letters(base), 8), Pad(Letters(ext), 3));
  }

  lemma FieldsNormal(base: seq<Byte>, ext: seq<Byte>)
    requires |base| == 8 && |ext| == 3
    requires Plain(base) && Plain(ext) && UpperAll(base) == base && UpperAll(ext) == ext
    ensures NormalForm(base + ext)
  {
    var f := base + ext;
    assert f[..8] == base && f[8..] == ext;
    assert UpperAll(f) == UpperAll(base) + UpperAll(ext);
  }

  lemma OnDiskNoLowerCase(s: CString)
    ensures NoLowerCase(OnDisk(s))
  {
    OnDiskShape(s);
    assert NoLowerCase(Pad([DOT], 11)) && NoLowerCase(Pad([DOT, DOT], 11));
  }

  /** Looking a name up and converting it agree on every upper-case entry exactly for the
      clean names. */
  lemma LookupAgreesWithConversion(s: CString)
    ensures (forall f: Name :: NoLowerCase(f) ==> (Matches(f, s) <==> f == OnDisk(s))) <==> Clean(s)
  {
    if Clean(s) {
      CleanIsPattern(s);
    }
    if forall f: Name :: NoLowerCase(f) ==> (Matches(f, s) <==> f == OnDisk(s)) {
      OnDiskNoLowerCase(s);
      assert Matches(OnDisk(s), s);
      PatternIsClean(s);
    }
  }

  lemma TrimPlain(s: seq<Byte>, n: nat)
    requires Plain(s) && UpperAll(s) == s && |s| == n
    ensures Pad(Letters(Trim(s)), n) == s
    ensures DOT !in Trim(s)
  {
    var r := Trim(s);
    TrimIsWord(s);
    AllLetters(r);
    assert forall i :: 0 <= i < |r| ==> UpperAll(r)[i] == UpperAll(s)[i];
  }

  lemma TrimIsWord(s: seq<Byte>)
    requires Plain(s)
    ensures forall i :: 0 <= i < |Trim(s)| ==> IsAlnum(Trim(s)[i])
  {
    var r := Trim(s);
    assert r != [] ==> |r| - 1 < WordLen(s);
  }

  lemma OnDiskOfBase(base: CString)
    requires DOT !in base
    ensures OnDisk(base) == Pad(Letters(base), 8) + Pad([], 3)
  {
    assert DotFrom(base, 0) == |base| && base[..|base|] == base;
  }

  /** A name with a dot: the letters and digits on each side of it, in eight and in three places. */
  lemma OnDiskOfParts(base: CString, ext: CString)
    requires 0x2E !in base && 0x2E !in ext && ext != []
    ensures 0 !in base + [0x2E] + ext
    ensures OnDisk(base + [0x2E] + ext) == Pad(Letters(base), 8) + Pad(Letters(ext), 3)
  {
    var s := base + [0x2E] + ext;
    assert s[|base|] == DOT && s[|s| - 1] != DOT;
    assert forall k :: 0 <= k < |base| ==> s[k] == base[k];
    assert DotFrom(s, 0) == |base|;
    assert s[..|base|] == base && s[|base| + 1..] == ext;
  }

  /** The two dot names are kept as they are, padded with blanks. */
  lemma KnownDots(k: nat)
    requires k < 11
    ensures OnDisk([0x2E])[k] == if k == 0 then 0x2E else 0x20
    ensures OnDisk([0x2E, 0x2E])[k] == if k < 2 then 0x2E else 0x20
  {
  }

  lemma NormalRoundTrip(f: Name)
    requires NormalForm(f)
    ensures OnDisk(Shown(f)) == f
  {
    PlainNoNul(f[..8]);
    PlainNoNul(f[8..]);
    var base, ext := Field(f[..8]), Field(f[8..]);
    NormalFields(f);
    TrimPlain(f[..8], 8);
    TrimPlain(f[8..], 3);
    if ext == [] {
      OnDiskOfBase(base);
    } else {
      OnDiskOfParts(base, ext);
    }
    assert f == f[..8] + f[8..];
  }

  lemma PlainNoNul(s: seq<Byte>)
    requires Plain(s)
    ensures 0 !in s
  {
    assert forall i :: 0 <= i < |s| ==> s[i] != 0;
  }

  lemma NormalFields(f: Name)
    requires NormalForm(f)
    ensures UpperAll(f[..8]) == f[..8] && UpperAll(f[8..]) == f[8..]
  {
    assert forall i :: 0 <= i < 11 ==> UpperAll(f)[i] == f[i];
  }

  lemma DotRoundTrip(f: Name)
    requires DotName(f)
    ensures OnDisk(Shown(f)) == f
  {
    var dots := if f == Pad([DOT], 11) then [DOT] else [DOT, DOT];
    assert Field(f[8..]) == [];
    var base := Trim(f[..8]);
    assert f[..8][|dots| - 1] == DOT;
    assert |base| == |dots|;
    assert base == dots;
  }

  /** Formatting a name and converting it back gives the same name exactly for the names the
      conversion can produce: normal-form names and the two dot entries. */
  lemma FormatThenConvert(f: Name)
    ensures OnDisk(Shown(f)) == f <==> NormalForm(f) || DotName(f)
  {
    OnDiskShape(Shown(f));
    if NormalForm(f) {
      NormalRoundTrip(f);
    } else if DotName(f) {
      DotRoundTrip(f);
    }
  }
}
