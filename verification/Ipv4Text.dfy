/** Dotted-decimal IPv4 addresses: the printer and the parser. */
module Ipv4Text {

  /** The characters of a C string before its terminator. */
  type Text = s: string | '\0' !in s

  predicate IsDigit(c: char) {
    '0' <= c <= '9'
  }

  function Digit(c: char): (d: nat)
    requires IsDigit(c)
    ensures d <= 9
  {
    c as int - '0' as int
  }

  // ---------------------------------------------------------------- what a dotted quad is

  /** The pieces between the dots; a text without dots is one piece. */
  function Split(s: string): (f: seq<string>)
    ensures f != []
  {
    if s == "" then [""]
    else
      var f, c := Split(s[..|s| - 1]), s[|s| - 1];
      if c == '.' then f + [""] else f[|f| - 1 := f[|f| - 1] + [c]]
  }

  function Value(f: string): nat
    requires forall i :: 0 <= i < |f| ==> IsDigit(f[i])
  {
    if f == "" then 0 else 10 * Value(f[..|f| - 1]) + Digit(f[|f| - 1])
  }

  predicate IsNumber(f: string) {
    forall i :: 0 <= i < |f| ==> IsDigit(f[i])
  }

  /** A decimal field: at least one digit, value at most 255, leading zeros allowed. */
  predicate IsField(f: string) {
    f != "" && IsNumber(f) && Value(f) <= 255
  }

  predicate AllFields(fs: seq<string>) {
    forall i :: 0 <= i < |fs| ==> IsField(fs[i])
  }

  predicate IsQuad(s: string) {
    |Split(s)| == 4 && AllFields(Split(s))
  }

  /** The fields as digits to base 256, most significant first. */
  function Combine(fs: seq<string>): (v: nat)
    requires AllFields(fs)
  {
    if fs == [] then 0 else 256 * Combine(fs[..|fs| - 1]) + Value(fs[|fs| - 1])
  }

  /** What a text stands for; texts that are not dotted quads stand for 0, like 0.0.0.0. */
  function Meaning(s: string): nat {
    if IsQuad(s) then Combine(Split(s)) else 0
  }

  // ---------------------------------------------------------------- prefixes of a text

  /** Splitting more of a text keeps the finished pieces and extends the last one. */
  lemma {:induction false} SplitGrows(s: string, i: nat)
    requires i <= |s|
    ensures var f, g := Split(s[..i]), Split(s);
            |f| <= |g| && f[..|f| - 1] == g[..|f| - 1] && f[|f| - 1] <= g[|f| - 1]
    decreases |s| - i
  {
    if i == |s| {
      assert s[..i] == s;
    } else {
      SplitGrows(s, i + 1);
      assert s[..i + 1][..i] == s[..i];
      var f, h, g := Split(s[..i]), Split(s[..i + 1]), Split(s);
      if s[i] == '.' {
        assert h == f + [""];
        assert f == h[..|h| - 1];
        assert g[..|h| - 1][|f| - 1] == g[|f| - 1];
      } else {
        assert h[..|h| - 1] == f[..|f| - 1];
      }
    }
  }

  lemma {:induction false} ValueGrows(f: string, g: string)
    requires f <= g && IsNumber(g)
    ensures IsNumber(f) && Value(f) <= Value(g)
    decreases |g|
  {
    if |f| < |g| {
      ValueGrows(f, g[..|g| - 1]);
    } else {
      assert f == g;
    }
  }

  /** A piece that is finished or already too large spoils the whole text. */
  lemma Spoiled(s: string, i: nat)
    requires i <= |s|
    requires var f := Split(s[..i]);
             || |f| > 4 || (exists k :: 0 <= k < |f| - 1 && !IsField(f[k]))
             || !IsNumber(f[|f| - 1]) || Value(f[|f| - 1]) > 255
             || (i == |s| && !IsField(f[|f| - 1])) || (i == |s| && |f| != 4)
    ensures !IsQuad(s)
  {
    SplitGrows(s, i);
    var f, g := Split(s[..i]), Split(s);
    assert i == |s| ==> s[..i] == s;
    if IsQuad(s) {
      ValueGrows(f[|f| - 1], g[|f| - 1]);
      assert forall k :: 0 <= k < |f| - 1 ==> f[k] == f[..|f| - 1][k] == g[k];
    }
  }

  lemma SplitStep(s: string, i: nat)
    requires i < |s|
    ensures var f := Split(s[..i]);
            Split(s[..i + 1]) == if s[i] == '.' then f + [""] else f[|f| - 1 := f[|f| - 1] + [s[i]]]
  {
    assert s[..i + 1][..i] == s[..i];
  }

  lemma DigitStep(f: string, c: char)
    requires IsNumber(f) && IsDigit(c)
    ensures IsNumber(f + [c]) && Value(f + [c]) == 10 * Value(f) + Digit(c)
  {
    assert (f + [c])[..|f|] == f;
  }

  lemma CombineStep(fs: seq<string>, f: string)
    requires AllFields(fs) && IsField(f)
    ensures AllFields(fs + [f]) && Combine(fs + [f]) == 256 * Combine(fs) + Value(f)
  {
    assert (fs + [f])[..|fs|] == fs;
  }

  lemma {:induction false} CombineBound(fs: seq<string>)
    requires AllFields(fs) && |fs| <= 4
    ensures Combine(fs) < (if |fs| == 0 then 1 else if |fs| == 1 then 0x100 else if |fs| == 2 then 0x1_0000
                           else if |fs| == 3 then 0x100_0000 else 0x1_0000_0000)
  {
    if fs != [] {
      CombineBound(fs[..|fs| - 1]);
    }
  }

  /** What the parser knows after `i` characters. */
  ghost predicate Scanned(s: string, i: nat, part: int, dots: int, out: int)
    requires i <= |s|
  {
    var f := Split(s[..i]);
    var last := f[|f| - 1];
    && dots == |f| - 1 <= 3
    && AllFields(f[..|f| - 1]) && out == Combine(f[..|f| - 1])
    && IsNumber(last) && Value(last) <= 255
    && part == (if last == "" then -1 else Value(last))
  }

  lemma ScannedBound(s: string, i: nat, part: int, dots: int, out: int)
    requires i <= |s| && Scanned(s, i, part, dots, out)
    ensures 0 <= 256 * out < 0x1_0000_0000
  {
    var f := Split(s[..i]);
    CombineBound(f[..|f| - 1]);
  }

  lemma DigitScanned(s: string, i: nat, part: int, dots: int, out: int)
    requires i < |s| && IsDigit(s[i]) && Scanned(s, i, part, dots, out)
    ensures var p := if part < 0 then Digit(s[i]) else part * 10 + Digit(s[i]);
            if p > 255 then !IsQuad(s) else Scanned(s, i + 1, p, dots, out)
  {
    SplitStep(s, i);
    var f, g := Split(s[..i]), Split(s[..i + 1]);
    DigitStep(f[|f| - 1], s[i]);
    assert g[..|g| - 1] == f[..|f| - 1] && |g| == |f| && g[|g| - 1] == f[|f| - 1] + [s[i]];
    var p := if part < 0 then Digit(s[i]) else part * 10 + Digit(s[i]);
    assert Value(g[|g| - 1]) == p;
    if p > 255 {
      Spoiled(s, i + 1);
    }
  }

  lemma DotScanned(s: string, i: nat, part: int, dots: int, out: int)
    requires i < |s| && s[i] == '.' && Scanned(s, i, part, dots, out)
    ensures part < 0 || dots == 3 ==> !IsQuad(s)
    ensures part >= 0 && dots < 3 ==> Scanned(s, i + 1, -1, dots + 1, 256 * out + part)
  {
    SplitStep(s, i);
    var f := Split(s[..i]);
    if part < 0 {
      EmptyPiece(s, i, f);
    } else if dots == 3 {
      Spoiled(s, i + 1);
    } else {
      PieceDone(f);
      assert (f + [""])[..|f|] == f;
    }
  }

  lemma EmptyPiece(s: string, i: nat, f: seq<string>)
    requires i < |s| && f != [] && f[|f| - 1] == "" && Split(s[..i + 1]) == f + [""]
    ensures !IsQuad(s)
  {
    var g := f + [""];
    assert g[|f| - 1] == "" && !IsField("");
    Spoiled(s, i + 1);
  }

  lemma PieceDone(f: seq<string>)
    requires f != [] && AllFields(f[..|f| - 1]) && IsField(f[|f| - 1])
    ensures AllFields(f) && Combine(f) == 256 * Combine(f[..|f| - 1]) + Value(f[|f| - 1])
  {
    forall i | 0 <= i < |f| - 1
      ensures IsField(f[i])
    {
      assert f[..|f| - 1][i] == f[i];
    }
  }

  lemma EndScanned(s: string, part: int, dots: int, out: int)
    requires Scanned(s, |s|, part, dots, out)
    ensures part < 0 || dots != 3 ==> !IsQuad(s)
    ensures part >= 0 && dots == 3 ==> IsQuad(s) && Meaning(s) == 256 * out + part
  {
    assert s[..|s|] == s;
    var f := Split(s);
    if part < 0 || dots != 3 {
      Spoiled(s, |s|);
    } else {
      PieceDone(f);
    }
  }

  lemma BadScanned(s: string, i: nat)
    requires i < |s| && !IsDigit(s[i]) && s[i] != '.'
    ensures !IsQuad(s)
  {
    SplitStep(s, i);
    var g := Split(s[..i + 1]);
    var last := g[|g| - 1];
    assert last[|last| - 1] == s[i];
    Spoiled(s, i + 1);
  }

  // ---------------------------------------------------------------- the parser

  lemma MeaningBound(s: string)
    ensures Meaning(s) < 0x1_0000_0000 && (!IsQuad(s) ==> Meaning(s) == 0)
  {
    if IsQuad(s) {
      CombineBound(Split(s));
    }
  }

  /** One character before the terminator: a digit, a dot, or the end of the matter. */
  method TakeChar(s: Text, p: nat, part0: int, dots0: int, out0: int)
      returns (bad: bool, part: int, dots: int, out: int)
    requires p < |s| && Scanned(s, p, part0, dots0, out0)
    ensures bad ==> !IsQuad(s)
    ensures !bad ==> Scanned(s, p + 1, part, dots, out)
  {
    bad, part, dots, out := false, part0, dots0, out0;
    var c := s[p];
    if IsDigit(c) {
      DigitScanned(s, p, part, dots, out);
      if part < 0 {
        part := Digit(c);
      } else {
        part := part * 10 + Digit(c);
        bad := part > 255;
      }
    } else if c == '.' {
      DotScanned(s, p, part, dots, out);
      if part < 0 {
        bad := true;
        return;
      }
      ScannedBound(s, p, part, dots, out);
      out := (256 * out) % 0x1_0000_0000 + part;
      part := -1;
      dots := dots + 1;
      bad := dots > 3;
    } else {
      BadScanned(s, p);
      bad := true;
    }
  }

  /** `parse_ipv4`, for a non-null pointer. */
  method ParseIpv4(s: Text) returns (ip: nat)
    ensures ip == Meaning(s) < 0x1_0000_0000
  {
    var out, part, dots, p := 0, -1, 0, 0;
    MeaningBound(s);
    while true
      invariant 0 <= p <= |s| && Scanned(s, p, part, dots, out)
      decreases |s| - p
    {
      if p == |s| {
        EndScanned(s, part, dots, out);
        if part < 0 {
          return 0;
        }
        ScannedBound(s, p, part, dots, out);
        out := (256 * out) % 0x1_0000_0000 + part;
        break;
      }
      var bad;
      bad, part, dots, out := TakeChar(s, p, part, dots, out);
      if bad {
        return 0;
      }
      p := p + 1;
    }
    if dots != 3 {
      return 0;
    }
    return out;
  }

  // ---------------------------------------------------------------- the printer

  function DigitChar(d: nat): (c: char)
    requires d <= 9
    ensures IsDigit(c) && Digit(c) == d
  {
    ('0' as int + d) as char
  }

  /** The decimal text of a byte. */
  function Decimal(v: nat): (t: string)
    requires v <= 255
    ensures 1 <= |t| <= 3
  {
    if v >= 100 then [DigitChar(v / 100), DigitChar(v % 100 / 10), DigitChar(v % 100 % 10)]
    else if v >= 10 then [DigitChar(v / 10), DigitChar(v % 10)]
    else [DigitChar(v)]
  }

  /** The value of one, two or three digits. */
  lemma DigitsValue(x: char, y: char, z: char)
    requires IsDigit(x) && IsDigit(y) && IsDigit(z)
    ensures IsNumber([x]) && Value([x]) == Digit(x)
    ensures IsNumber([x, y]) && Value([x, y]) == 10 * Digit(x) + Digit(y)
    ensures IsNumber([x, y, z]) && Value([x, y, z]) == 10 * (10 * Digit(x) + Digit(y)) + Digit(z)
  {
    DigitStep("", x);
    DigitStep([x], y);
    DigitStep([x, y], z);
    assert "" + [x] == [x] && [x] + [y] == [x, y] && [x, y] + [z] == [x, y, z];
  }

  lemma DecimalIsField(v: nat)
    requires v <= 255
    ensures IsField(Decimal(v)) && Value(Decimal(v)) == v && '.' !in Decimal(v)
  {
    var t, w := Decimal(v), v % 100;
    if v >= 100 {
      DigitsValue(t[0], t[1], t[2]);
      assert v == 100 * (v / 100) + w && w == 10 * (w / 10) + w % 10;
    } else if v >= 10 {
      DigitsValue(t[0], t[1], t[1]);
    } else {
      DigitsValue(t[0], t[0], t[0]);
    }
  }

  /** One digit below ten, two below a hundred, else three, and never a leading zero. */
  lemma DecimalLength(v: nat)
    requires v <= 255
    ensures |Decimal(v)| == if v < 10 then 1 else if v < 100 then 2 else 3
    ensures v >= 10 ==> Decimal(v)[0] != '0'
  {
  }

  /** No decimal field stands for the same number with fewer characters. */
  lemma DecimalIsShortest(f: string)
    requires IsField(f)
    ensures |Decimal(Value(f))| <= |f|
  {
    if |f| <= 2 {
      ValueBound(f);
    }
  }

  lemma {:induction false} ValueBound(f: string)
    requires IsNumber(f)
    ensures |f| <= 1 ==> Value(f) < 10
    ensures |f| <= 2 ==> Value(f) < 100
  {
    if f != "" {
      ValueBound(f[..|f| - 1]);
    }
  }

  function Printed(ip: nat): string
    requires ip < 0x1_0000_0000
  {
    Decimal(ip / 0x100_0000) + "." + Decimal(ip / 0x1_0000 % 0x100) + "."
    + Decimal(ip / 0x100 % 0x100) + "." + Decimal(ip % 0x100)
  }

  /** `u8_to_dec`: the digits at `at`, and the place after them. */
  method U8ToDec(v: nat, buffer: array<char>, at: nat) returns (next: nat)
    requires v <= 255 && at + 3 <= buffer.Length
    modifies buffer
    ensures at < next <= at + 3 && buffer[at..next] == Decimal(v) && buffer[..at] == old(buffer[..at])
  {
    if v >= 100 {
      buffer[at] := DigitChar(v / 100);
      var w := v % 100;
      buffer[at + 1] := DigitChar(w / 10);
      buffer[at + 2] := DigitChar(w % 10);
      next := at + 3;
    } else if v >= 10 {
      buffer[at] := DigitChar(v / 10);
      buffer[at + 1] := DigitChar(v % 10);
      next := at + 2;
    } else {
      buffer[at] := DigitChar(v);
      next := at + 1;
    }
  }

  /** The digits of `v` and a closing character. */
  method PutField(v: nat, close: char, buffer: array<char>, at: nat) returns (next: nat)
    requires v <= 255 && at + 4 <= buffer.Length
    modifies buffer
    ensures at < next <= at + 4 && buffer[..next] == old(buffer[..at]) + (Decimal(v) + [close])
  {
    var p := U8ToDec(v, buffer, at);
    ghost var done := buffer[..p];
    assert done == old(buffer[..at]) + Decimal(v);
    buffer[p] := close;
    next := p + 1;
    assert buffer[..next] == done + [close];
  }

  /** `format_ipv4`: at most fifteen characters and a terminator. */
  method FormatIpv4(ip: nat, buffer: array<char>)
    requires ip < 0x1_0000_0000 && buffer.Length >= 16
    modifies buffer
    ensures |Printed(ip)| <= 15
    ensures buffer[..|Printed(ip)| + 1] == Printed(ip) + "\0"
  {
    var p := PutField(ip / 0x100_0000, '.', buffer, 0);
    p := PutField(ip / 0x1_0000 % 0x100, '.', buffer, p);
    p := PutField(ip / 0x100 % 0x100, '.', buffer, p);
    p := PutField(ip % 0x100, '\0', buffer, p);
    assert buffer[..p] == Printed(ip) + "\0";
  }

  // ---------------------------------------------------------------- round trip

  lemma {:induction false} SplitPiece(a: string, b: string)
    requires '.' !in b
    ensures Split(a + "." + b) == Split(a) + [b]
    decreases |b|
  {
    var s := a + "." + b;
    if b == "" {
      assert s == a + "." && s[..|s| - 1] == a;
    } else {
      SplitPiece(a, b[..|b| - 1]);
      assert s[..|s| - 1] == a + "." + b[..|b| - 1];
      assert b == b[..|b| - 1] + [b[|b| - 1]];
    }
  }

  lemma {:induction false} SplitWhole(a: string)
    requires '.' !in a
    ensures Split(a) == [a]
  {
    if a != "" {
      SplitWhole(a[..|a| - 1]);
      assert a == a[..|a| - 1] + [a[|a| - 1]];
    }
  }

  lemma FourPieces(a: string, b: string, c: string, d: string)
    requires '.' !in a && '.' !in b && '.' !in c && '.' !in d
    ensures Split(a + "." + b + "." + c + "." + d) == [a, b, c, d]
  {
    SplitWhole(a);
    SplitPiece(a, b);
    SplitPiece(a + "." + b, c);
    SplitPiece(a + "." + b + "." + c, d);
  }

  lemma CombineFour(a: string, b: string, c: string, d: string)
    requires IsField(a) && IsField(b) && IsField(c) && IsField(d)
    ensures AllFields([a, b, c, d])
    ensures Combine([a, b, c, d]) == 256 * (256 * (256 * Value(a) + Value(b)) + Value(c)) + Value(d)
  {
    CombineStep([], a);
    CombineStep([a], b);
    CombineStep([a, b], c);
    CombineStep([a, b, c], d);
    assert [] + [a] == [a] && [a] + [b] == [a, b];
    assert [a, b] + [c] == [a, b, c] && [a, b, c] + [d] == [a, b, c, d];
  }

  /** Parsing what was printed gives the address back, for every address. */
  lemma PrintThenParse(ip: nat)
    requires ip < 0x1_0000_0000
    ensures IsQuad(Printed(ip)) && Meaning(Printed(ip)) == ip
  {
    var a, b, c, d := ip / 0x100_0000, ip / 0x1_0000 % 0x100, ip / 0x100 % 0x100, ip % 0x100;
    DecimalIsField(a);
    DecimalIsField(b);
    DecimalIsField(c);
    DecimalIsField(d);
    FourPieces(Decimal(a), Decimal(b), Decimal(c), Decimal(d));
    CombineFour(Decimal(a), Decimal(b), Decimal(c), Decimal(d));
    BytesOf(ip);
  }

  lemma BytesOf(ip: nat)
    requires ip < 0x1_0000_0000
    ensures ip == 256 * (256 * (256 * (ip / 0x100_0000) + ip / 0x1_0000 % 0x100) + ip / 0x100 % 0x100) + ip % 0x100
  {
    assert ip / 0x1_0000 == ip / 0x100 / 0x100 && ip / 0x100_0000 == ip / 0x1_0000 / 0x100;
  }
}
