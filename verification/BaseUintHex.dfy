/**
  Hexadecimal conversion of `base_uint`, which works on the bytes of the word array from
  the least significant one.
 */
module BaseUintHex {
  import opened Wrappers
  import opened Store
  import opened ByteFile
  import Words

  // ----- digits

  /** The digit table; 0 stands for '0' and for every other character. */
  function Digit(c: char): (d: nat)
    ensures d < 16
  {
    if '0' <= c <= '9' then c as int - '0' as int
    else if 'a' <= c <= 'f' then c as int - 'a' as int + 10
    else if 'A' <= c <= 'F' then c as int - 'A' as int + 10
    else 0
  }

  predicate IsHex(c: char)
  {
    Digit(c) != 0 || c == '0'
  }

  predicate IsSpace(c: char)
  {
    c == ' ' || '\t' <= c <= '\r'
  }

  function HexChar(d: nat): (c: char)
    requires d < 16
    ensures IsHex(c) && Digit(c) == d && (c == '0' <==> d == 0) && c != 'x' && c != 'X' && !IsSpace(c)
  {
    if d < 10 then ('0' as int + d) as char else ('a' as int + d - 10) as char
  }

  // ----- what a string stands for

  function SkipSpace(s: string): (r: string)
  {
    if s != [] && IsSpace(s[0]) then SkipSpace(s[1..]) else s
  }

  function SkipPrefix(s: string): (r: string)
  {
    if |s| >= 2 && s[0] == '0' && (s[1] == 'x' || s[1] == 'X') then s[2..] else s
  }

  function HexRun(s: string): (r: string)
  {
    if s != [] && IsHex(s[0]) then [s[0]] + HexRun(s[1..]) else []
  }

  function HexValue(s: string): (v: nat)
  {
    if s == [] then 0 else 16 * HexValue(s[..|s| - 1]) + Digit(s[|s| - 1])
  }

  /** The number written in a string: leading blanks, an optional 0x, then the digits up to the first other character. */
  function Parsed(s: string): (v: nat)
  {
    HexValue(HexRun(SkipPrefix(SkipSpace(s))))
  }

  // ----- arithmetic of digits and bytes

  lemma {:induction false} HexAppend(a: string, b: string)
    ensures HexValue(a + b) == HexValue(a) * HexWeight(|b|) + HexValue(b)
  {
    if b == [] {
      assert a + b == a;
    } else {
      var b' := b[..|b| - 1];
      HexAppend(a, b');
      assert (a + b)[..|a + b| - 1] == a + b';
      ShiftDigit(HexValue(a), HexWeight(|b'|), HexValue(b'), Digit(b[|b| - 1]));
    }
  }

  lemma ShiftDigit(x: nat, w: nat, y: nat, d: nat)
    ensures 16 * (x * w + y) + d == x * (16 * w) + (16 * y + d)
  {
  }

  function HexWeight(n: nat): (w: nat)
    ensures w > 0
  {
    if n == 0 then 1 else 16 * HexWeight(n - 1)
  }

  lemma {:induction false} HexBound(s: string)
    ensures HexValue(s) < HexWeight(|s|)
  {
    if s != [] {
      HexBound(s[..|s| - 1]);
    }
  }

  lemma {:induction false} WeightBytes(n: nat)
    ensures HexWeight(2 * n) == Capacity(n)
  {
    if n > 0 {
      WeightBytes(n - 1);
      assert HexWeight(2 * n) == 16 * HexWeight(2 * n - 1) == 256 * HexWeight(2 * n - 2);
    }
  }

  lemma {:induction false} LittleEndianSnoc(s: Bytes, x: Byte)
    ensures FromLittleEndian(s + [x]) == FromLittleEndian(s) + x * Capacity(|s|)
  {
    if s != [] {
      LittleEndianSnoc(s[1..], x);
      assert (s + [x])[1..] == s[1..] + [x];
      Shift256(FromLittleEndian(s[1..]), x, Capacity(|s[1..]|));
    }
  }

  lemma Shift256(y: nat, x: nat, w: nat)
    ensures 256 * (y + x * w) == 256 * y + x * (256 * w)
  {
  }

  lemma {:induction false} LittleEndianBound(s: Bytes)
    ensures FromLittleEndian(s) < Capacity(|s|)
  {
    if s != [] {
      LittleEndianBound(s[1..]);
    }
  }

  lemma {:induction false} LittleEndianInjective(s: Bytes, t: Bytes)
    requires |s| == |t| && FromLittleEndian(s) == FromLittleEndian(t)
    ensures s == t
  {
    if s != [] {
      LittleEndianInjective(s[1..], t[1..]);
      assert s == [s[0]] + s[1..] && t == [t[0]] + t[1..];
    }
  }

  lemma {:induction false} TrailingZeros(s: Bytes, n: nat)
    requires n <= |s| && forall i | n <= i < |s| :: s[i] == 0
    ensures FromLittleEndian(s) == FromLittleEndian(s[..n])
    decreases |s| - n
  {
    if n == |s| {
      assert s[..n] == s;
    } else {
      TrailingZeros(s, n + 1);
      assert s[..n + 1] == s[..n] + [s[n]];
      LittleEndianSnoc(s[..n], 0);
    }
  }

  // ----- printing

  /** Two lower-case digits a byte, the most significant byte first. */
  method GetHex(pn: array<Byte>) returns (s: string)
    ensures |s| == 2 * pn.Length && HexValue(s) == FromLittleEndian(pn[..])
    ensures forall i | 0 <= i < |s| :: s[i] == HexChar(Digit(s[i]))
  {
    s := "";
    var i := 0;
    var n := pn.Length;
    while i < n
      invariant 0 <= i <= n && |s| == 2 * i
      invariant forall k | 0 <= k < |s| :: s[k] == HexChar(Digit(s[k]))
      invariant HexValue(s) == FromLittleEndian(pn[n - i..])
    {
      var x := pn[n - i - 1];
      assert pn[n - i - 1..] == [x] + pn[n - i..];
      HexByte(s, x);
      s := s + [HexChar(x / 16), HexChar(x % 16)];
      i := i + 1;
    }
    assert pn[0..] == pn[..];
  }

  lemma HexByte(s: string, x: Byte)
    ensures HexValue(s + [HexChar(x / 16), HexChar(x % 16)]) == 256 * HexValue(s) + x
  {
    var t := s + [HexChar(x / 16), HexChar(x % 16)];
    assert t[..|t| - 1] == s + [HexChar(x / 16)];
    assert t[..|t| - 1][..|s|] == s;
  }

  // ----- parsing

  /** Digits read so far from the end of the run, two for each finished byte, the rest of the bytes zero. */
  ghost predicate Filled(pn: Bytes, p1: nat, d: string)
  {
    && p1 <= |pn| && |d| == 2 * p1
    && FromLittleEndian(pn[..p1]) == HexValue(d)
    && forall i | p1 <= i < |pn| :: pn[i] == 0
  }

  lemma TwoDigits(hi: char, lo: char)
    ensures HexValue([hi, lo]) == 16 * Digit(hi) + Digit(lo) && HexValue([lo]) == Digit(lo)
  {
    assert [hi, lo][..1] == [hi] && [hi][..0] == [] && [lo][..0] == [];
    assert HexValue([hi]) == Digit(hi);
  }

  /** A byte made of the next digits, put behind the ones filled. */
  lemma FilledNext(pn: Bytes, pn': Bytes, p1: nat, d: string, ds: string, x: Byte)
    requires Filled(pn, p1, d) && p1 < |pn| && pn' == pn[p1 := x] && HexValue(ds) == x
    ensures FromLittleEndian(pn'[..p1 + 1]) == HexValue(ds + d)
    ensures forall i | p1 + 1 <= i < |pn'| :: pn'[i] == 0
  {
    hide FromLittleEndian, HexValue, Capacity, HexWeight;
    assert pn'[..p1 + 1] == pn[..p1] + [x];
    LittleEndianSnoc(pn[..p1], x);
    HexAppend(ds, d);
    WeightBytes(p1);
    SameProduct(x, Capacity(p1), HexValue(ds), HexWeight(|d|));
  }

  lemma SameProduct(a: int, b: int, c: int, d: int)
    requires a == c && b == d
    ensures a * b == c * d
  {
  }

  lemma FilledByte(pn: Bytes, pn': Bytes, p1: nat, d: string, lo: char, hi: char)
    requires Filled(pn, p1, d) && p1 < |pn|
    requires pn' == pn[p1 := Digit(lo) + 16 * Digit(hi)]
    ensures Filled(pn', p1 + 1, [hi, lo] + d)
  {
    TwoDigits(hi, lo);
    FilledNext(pn, pn', p1, d, [hi, lo], pn'[p1]);
    hide FromLittleEndian, HexValue;
  }

  lemma FilledAll(pn: Bytes, p1: nat, d: string)
    requires Filled(pn, p1, d)
    ensures FromLittleEndian(pn) == HexValue(d) % Capacity(|pn|)
  {
    ZerosAbove(pn, p1);
  }

  /** An odd leading digit fills the low half of one more byte. */
  lemma FilledHalf(pn: Bytes, pn': Bytes, p1: nat, d: string, c: char)
    requires Filled(pn, p1, d) && p1 < |pn| && pn' == pn[p1 := Digit(c)]
    ensures FromLittleEndian(pn') == HexValue([c] + d) % Capacity(|pn'|)
  {
    hide *;
    TwoDigits(c, c);
    FilledNext(pn, pn', p1, d, [c], pn'[p1]);
    ZerosAbove(pn', p1 + 1);
  }

  /** Zero bytes above do not count. */
  lemma ZerosAbove(pn: Bytes, n: nat)
    requires n <= |pn| && forall i | n <= i < |pn| :: pn[i] == 0
    ensures FromLittleEndian(pn) == FromLittleEndian(pn[..n]) % Capacity(|pn|)
  {
    hide *;
    TrailingZeros(pn, n);
    LittleEndianBound(pn);
    ModShift(FromLittleEndian(pn), 0, Capacity(|pn|));
  }

  /** When the bytes are full the digits not read are those above the width. */
  lemma FilledFull(pn: Bytes, d: string, rest: string)
    requires Filled(pn, |pn|, d)
    ensures FromLittleEndian(pn) == HexValue(rest + d) % Capacity(|pn|)
  {
    assert pn[..|pn|] == pn;
    HexAppend(rest, d);
    WeightBytes(|pn|);
    HexBound(d);
    ModShift(HexValue(d), HexValue(rest), Capacity(|pn|));
  }

  lemma ModShift(x: nat, k: nat, m: nat)
    requires x < m
    ensures (k * m + x) % m == x
  {
    Words.ModUnique(x, k, m, k * m + x);
  }

  /** The number in the string modulo 2^BITS: digits above the width are dropped. */
  method SetHex(pn: array<Byte>, psz: string)
    modifies pn
    ensures FromLittleEndian(pn[..]) == Parsed(psz) % Capacity(pn.Length)
  {
    var i := 0;
    while i < pn.Length
      invariant 0 <= i <= pn.Length
      invariant forall k | 0 <= k < i :: pn[k] == 0
    {
      pn[i] := 0;
      i := i + 1;
    }
    var b, p := FindRun(psz);
    FillBytes(pn, psz, b, p);
  }

  /** The bounds of the run of digits. */
  method FindRun(psz: string) returns (b: nat, p: nat)
    ensures b <= p <= |psz| && psz[b..p] == HexRun(SkipPrefix(SkipSpace(psz)))
  {
    hide *;
    b := FindStart(psz);
    p := b;
    RunBegun(psz, b);
    while p < |psz| && IsHex(psz[p])
      invariant b <= p <= |psz|
      invariant RunTo(psz, b, p)
    {
      RunNext(psz, b, p);
      p := p + 1;
    }
    RunEnd(psz, b, p);
  }

  /** The digits from `b` to `p` begin the run. */
  ghost predicate RunTo(psz: string, b: nat, p: nat)
    requires b <= p <= |psz|
  {
    HexRun(psz[b..]) == psz[b..p] + HexRun(psz[p..])
  }

  lemma RunBegun(psz: string, b: nat)
    requires b <= |psz|
    ensures RunTo(psz, b, b)
  {
    hide HexRun;
    assert psz[b..b] == [];
  }

  lemma RunNext(psz: string, b: nat, p: nat)
    requires b <= p < |psz| && RunTo(psz, b, p) && IsHex(psz[p])
    ensures RunTo(psz, b, p + 1)
  {
    RunStep(psz[p..]);
    hide HexRun;
    assert psz[p..][1..] == psz[p + 1..];
    assert psz[b..p + 1] == psz[b..p] + [psz[p]];
  }

  lemma RunEnd(psz: string, b: nat, p: nat)
    requires b <= p <= |psz| && RunTo(psz, b, p) && (p < |psz| ==> !IsHex(psz[p]))
    ensures psz[b..p] == HexRun(psz[b..])
  {
    RunOver(psz[p..]);
    hide HexRun;
  }

  lemma RunStep(s: string)
    requires s != [] && IsHex(s[0])
    ensures HexRun(s) == [s[0]] + HexRun(s[1..])
  {
  }

  lemma RunOver(s: string)
    requires s != [] ==> !IsHex(s[0])
    ensures HexRun(s) == []
  {
  }

  method FindStart(psz: string) returns (b: nat)
    ensures b <= |psz| && psz[b..] == SkipPrefix(SkipSpace(psz))
  {
    hide *;
    b := 0;
    while b < |psz| && IsSpace(psz[b])
      invariant 0 <= b <= |psz|
      invariant SkipSpace(psz) == SkipSpace(psz[b..])
    {
      SpaceNext(psz, b);
      b := b + 1;
    }
    SpaceOver(psz[b..]);
    if b + 1 < |psz| && psz[b] == '0' && (psz[b + 1] == 'x' || psz[b + 1] == 'X') {
      PrefixNext(psz, b);
      b := b + 2;
    } else {
      PrefixOver(psz[b..]);
    }
  }

  lemma SpaceNext(psz: string, b: nat)
    requires b < |psz| && IsSpace(psz[b])
    ensures SkipSpace(psz[b..]) == SkipSpace(psz[b + 1..])
  {
    assert psz[b..][1..] == psz[b + 1..];
  }

  lemma SpaceOver(s: string)
    requires s != [] ==> !IsSpace(s[0])
    ensures SkipSpace(s) == s
  {
  }

  lemma PrefixNext(psz: string, b: nat)
    requires b + 1 < |psz| && psz[b] == '0' && (psz[b + 1] == 'x' || psz[b + 1] == 'X')
    ensures SkipPrefix(psz[b..]) == psz[b + 2..]
  {
    assert psz[b..][2..] == psz[b + 2..];
  }

  lemma PrefixOver(s: string)
    requires !(|s| >= 2 && s[0] == '0' && (s[1] == 'x' || s[1] == 'X'))
    ensures SkipPrefix(s) == s
  {
  }

  /** Two digits a byte from the end of the run, until the run or the bytes are used up. */
  method FillBytes(pn: array<Byte>, psz: string, b: nat, end: nat)
    requires b <= end <= |psz| && forall k | 0 <= k < pn.Length :: pn[k] == 0
    modifies pn
    ensures FromLittleEndian(pn[..]) == HexValue(psz[b..end]) % Capacity(pn.Length)
  {
    hide *;
    var p: int := end;
    p := p - 1;
    var p1 := 0;
    FilledNone(pn[..], psz, end);
    while p >= b && p1 < pn.Length
      invariant b - 1 <= p < end
      invariant Filled(pn[..], p1, psz[p + 1..end])
      decreases p - b
    {
      ghost var was, d := pn[..], psz[p + 1..end];
      var lo := psz[p];
      pn[p1] := Digit(lo);
      p := p - 1;
      if p >= b {
        var hi := psz[p];
        HighNibble(Digit(lo), Digit(hi));
        pn[p1] := Words.Or(pn[p1], 16 * Digit(hi));
        p := p - 1;
        ghost var x: Byte := Digit(lo) + 16 * Digit(hi);
        assert pn[..] == was[p1 := x];
        FilledByte(was, pn[..], p1, d, lo, hi);
        FirstTwo(psz, p + 1, end);
        p1 := p1 + 1;
      } else {
        ghost var x: Byte := Digit(lo);
        assert pn[..] == was[p1 := x];
        FilledHalf(was, pn[..], p1, d, lo);
        FirstOne(psz, b, end);
        return;
      }
    }
    if p < b {
      FilledAll(pn[..], p1, psz[p + 1..end]);
    } else {
      FilledWidth(pn[..], p1, psz[p + 1..end]);
      FilledFull(pn[..], psz[p + 1..end], psz[b..p + 1]);
      Joined(psz, b, p + 1, end);
    }
  }

  lemma FilledNone(pn: Bytes, psz: string, end: nat)
    requires end <= |psz| && forall k | 0 <= k < |pn| :: pn[k] == 0
    ensures Filled(pn, 0, psz[end..end])
  {
    assert psz[end..end] == [] && pn[..0] == [];
  }

  /** No more bytes are filled than there are. */
  lemma FilledWidth(pn: Bytes, p1: nat, d: string)
    requires Filled(pn, p1, d)
    ensures p1 <= |pn|
  {
  }

  lemma FirstOne(s: string, i: nat, j: nat)
    requires i < j <= |s|
    ensures s[i..j] == [s[i]] + s[i + 1..j]
  {
  }

  lemma FirstTwo(s: string, i: nat, j: nat)
    requires i + 2 <= j <= |s|
    ensures s[i..j] == [s[i], s[i + 1]] + s[i + 2..j]
  {
  }

  lemma Joined(s: string, i: nat, m: nat, j: nat)
    requires i <= m <= j <= |s|
    ensures s[i..m] + s[m..j] == s[i..j]
  {
  }

  lemma HighNibble(lo: nat, hi: nat)
    requires lo < 16 && hi < 16
    ensures Words.Or(lo, 16 * hi) == lo + 16 * hi < 0x100
  {
    assert Words.Pow2(4) == 16;
    Words.OrDisjoint(lo, 16 * hi, 4);
  }

  // ----- there and back

  lemma {:induction false} PrintedParses(s: string)
    requires forall i | 0 <= i < |s| :: s[i] == HexChar(Digit(s[i]))
    ensures HexRun(s) == s && SkipSpace(s) == s && SkipPrefix(s) == s
  {
    if s != [] {
      PrintedParses(s[1..]);
      assert s == [s[0]] + s[1..];
    }
  }

  /** Parsing what was printed gives the same bytes back. */
  method HexRoundTrip(pn: array<Byte>, out: array<Byte>)
    requires out.Length == pn.Length && out != pn
    modifies out
    ensures out[..] == pn[..]
  {
    hide FromLittleEndian, HexValue, Capacity, HexRun, SkipSpace, SkipPrefix, HexChar, Digit;
    var s := GetHex(pn);
    PrintedParses(s);
    SetHex(out, s);
    LittleEndianBound(pn[..]);
    ModShift(FromLittleEndian(pn[..]), 0, Capacity(pn.Length));
    LittleEndianInjective(out[..], pn[..]);
  }

  // ----- what strings stand for the same number

  /** The sixteen digits in both cases, and nothing else, have values. */
  lemma DigitTable(c: char)
    ensures forall d | 0 <= d < 16 :: HexChar(d) == "0123456789abcdef"[d]
    ensures forall d | 0 <= d < 16 :: "0123456789abcdef"[d] == c || "0123456789ABCDEF"[d] == c ==> Digit(c) == d && IsHex(c)
    ensures (forall d | 0 <= d < 16 :: "0123456789abcdef"[d] != c && "0123456789ABCDEF"[d] != c) ==> Digit(c) == 0 && !IsHex(c)
  {
    if IsHex(c) {
      var d := Digit(c);
      assert "0123456789abcdef"[d] == c || "0123456789ABCDEF"[d] == c;
    }
  }

  /** The same digits, some of them perhaps in the other case. */
  ghost predicate SameDigits(s: string, u: string)
  {
    |s| == |u| && forall i | 0 <= i < |s| :: IsHex(s[i]) && IsHex(u[i]) && Digit(u[i]) == Digit(s[i])
  }

  function Upper(c: char): (u: char)
  {
    if 'a' <= c <= 'f' then (c as int - 'a' as int + 'A' as int) as char else c
  }

  /** A digit in upper case is the same digit. */
  lemma UpperDigits(s: string, u: string)
    requires |s| == |u| && forall i | 0 <= i < |s| :: IsHex(s[i]) && u[i] == Upper(s[i])
    ensures SameDigits(s, u)
  {
  }

  lemma {:induction false} SameValue(s: string, u: string)
    requires SameDigits(s, u)
    ensures HexValue(u) == HexValue(s)
  {
    if s != [] {
      SameValue(s[..|s| - 1], u[..|u| - 1]);
    }
  }

  lemma {:induction false} RunOf(u: string, rest: string)
    requires forall i | 0 <= i < |u| :: IsHex(u[i])
    requires rest != [] ==> !IsHex(rest[0])
    ensures HexRun(u + rest) == u
  {
    if u == [] {
      assert u + rest == rest;
      RunOver(rest);
    } else {
      RunOf(u[1..], rest);
      assert (u + rest)[1..] == u[1..] + rest;
      RunStep(u + rest);
      assert u == [u[0]] + u[1..];
    }
  }

  lemma {:induction false} SpacesSkipped(b: string, s: string)
    requires forall i | 0 <= i < |b| :: b[i] == ' ' || 9 <= b[i] as int <= 13
    requires s != [] ==> !IsSpace(s[0])
    ensures SkipSpace(b + s) == s
  {
    if b == [] {
      assert b + s == s;
      SpaceOver(s);
    } else {
      SpacesSkipped(b[1..], s);
      assert (b + s)[1..] == b[1..] + s;
    }
  }

  /**
    A number reads the same behind any blanks, behind 0x, 0X or neither, in either case, and before anything that
    does not begin with a digit.
   */
  lemma ReadsAlike(b: string, p: string, s: string, u: string, rest: string)
    requires forall i | 0 <= i < |b| :: b[i] == ' ' || 9 <= b[i] as int <= 13
    requires p in ["", "0x", "0X"] && s != [] && SameDigits(s, u)
    requires rest != [] ==> !IsHex(rest[0])
    requires p == "" && u == "0" ==> rest == [] || (rest[0] != 'x' && rest[0] != 'X')
    ensures Parsed(b + p + u + rest) == HexValue(s)
  {
    var t := p + u + rest;
    assert b + p + u + rest == b + t;
    assert !IsSpace(t[0]) by {
      assert t[0] == '0' || t[0] == u[0];
    }
    SpacesSkipped(b, t);
    PrefixSkipped(p, u, rest);
    RunOf(u, rest);
    SameValue(s, u);
    hide HexRun, HexValue, SkipPrefix, SkipSpace, IsHex, Digit;
  }

  lemma PrefixSkipped(p: string, u: string, rest: string)
    requires p in ["", "0x", "0X"] && u != [] && forall i | 0 <= i < |u| :: IsHex(u[i])
    requires p == "" && u == "0" ==> rest == [] || (rest[0] != 'x' && rest[0] != 'X')
    ensures SkipPrefix(p + u + rest) == u + rest
  {
    var t := p + u + rest;
    if p == "" {
      assert t == u + rest;
      if |u| >= 2 {
        assert t[1] == u[1] && IsHex(t[1]);
      } else {
        assert |t| >= 2 ==> t[1] == rest[0] && t[0] == u[0];
        assert u == [u[0]];
      }
    } else {
      assert t[0] == '0' && t[1] == p[1];
      assert t[2..] == u + rest;
    }
  }
}
