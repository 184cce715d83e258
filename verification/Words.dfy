/**
  Positional arithmetic under `base_uint`: little-endian sequences of 32-bit words,
  their value, powers of two and bitwise OR on naturals.
 */
module Words {

  const BASE: int := 0x1_0000_0000

  type Word = x: int | 0 <= x < 0x1_0000_0000
  type DWord = x: int | 0 <= x < 0x1_0000_0000_0000_0000

  function Pow2(n: nat): (p: int)
    ensures p >= 1
  {
    if n == 0 then 1 else 2 * Pow2(n - 1)
  }

  /** The weight of word `i`. */
  function Weight(i: nat): (w: int)
    ensures w >= 1
  {
    Pow2(32 * i)
  }

  /** The number held by a little-endian word sequence. */
  function Value(s: seq<Word>): (v: int)
    ensures v >= 0
  {
    if s == [] then 0 else
      var n := |s| - 1;
      MulNonNeg(s[n], Weight(n));
      Value(s[..n]) + s[n] * Weight(n)
  }

  /** Bitwise OR. */
  function Or(x: nat, y: nat): (z: nat)
    decreases x + y
  {
    if x == 0 && y == 0 then 0
    else 2 * Or(x / 2, y / 2) + (if x % 2 == 1 || y % 2 == 1 then 1 else 0)
  }

  // ----- small arithmetic steps

  lemma MulNonNeg(x: int, y: int)
    requires 0 <= x && 0 <= y
    ensures 0 <= x * y
  {
  }

  lemma MulLe(x: int, y: int, m: int)
    requires x <= y && 0 <= m
    ensures x * m <= y * m
  {
  }

  lemma MulFactor(a: int, b: int, c: int, w: int)
    ensures w * a + b * (w * c) == w * (a + b * c)
  {
  }

  lemma MulSplit(h: int, c: int, l: int, p: int)
    ensures (h * c + l) * p == h * (p * c) + l * p
  {
  }

  lemma ModUnique(v: int, q: int, m: int, s: int)
    requires 0 <= v < m
    requires v + q * m == s
    ensures s % m == v && s / m == q
  {
    var q', r' := s / m, s % m;
    assert s == m * q' + r';
    assert (q' - q) * m == v - r';
    if q' - q >= 1 {
      MulLe(1, q' - q, m);
    } else if q' - q <= -1 {
      MulLe(q' - q, -1, m);
    }
  }

  lemma DivDiv(x: nat, a: int, b: int)
    requires a > 0 && b > 0
    ensures a * b > 0 && (x / a) / b == x / (a * b)
  {
    var q, r := x / a / b, x / a % b;
    assert x / a == q * b + r;
    assert x == (x / a) * a + x % a;
    assert x == (r * a + x % a) + q * (a * b) by { MulSplit(q, b, r, a); }
    MulLe(r + 1, b, a);
    assert (r + 1) * a == r * a + a;
    MulNonNeg(r, a);
    ModUnique(r * a + x % a, q, a * b, x);
  }

  lemma {:induction false} Pow2Add(a: nat, b: nat)
    ensures Pow2(a + b) == Pow2(a) * Pow2(b)
  {
    if a > 0 {
      Pow2Add(a - 1, b);
      assert Pow2(a + b) == 2 * Pow2(a - 1 + b);
    }
  }

  lemma {:induction false} Pow2Mono(a: nat, b: nat)
    requires a <= b
    ensures Pow2(a) <= Pow2(b)
  {
    if a < b {
      Pow2Mono(a, b - 1);
    }
  }

  lemma Pow2Of32()
    ensures Pow2(0) == 1 && Pow2(32) == BASE
    ensures Pow2(8) == 256 && Pow2(16) == 0x1_0000 && Pow2(24) == 0x100_0000
  {
    assert Pow2(4) == 16;
    Pow2Add(4, 4);
    Pow2Add(8, 8);
    Pow2Add(8, 16);
    Pow2Add(16, 16);
  }

  lemma WeightNext(i: nat)
    ensures Weight(i + 1) == BASE * Weight(i)
  {
    Pow2Add(32, 32 * i);
    Pow2Of32();
  }

  lemma WeightAdd(i: nat, j: nat)
    ensures Weight(i + j) == Weight(i) * Weight(j)
  {
    Pow2Add(32 * i, 32 * j);
    assert 32 * (i + j) == 32 * i + 32 * j;
  }

  // ----- the value of a word sequence

  lemma ValueNone(s: seq<Word>)
    ensures Value(s[..0]) == 0
  {
  }

  lemma ValueSnoc(s: seq<Word>, w: Word)
    ensures Value(s + [w]) == Value(s) + w * Weight(|s|)
  {
    assert (s + [w])[..|s|] == s;
  }

  lemma ValuePrefix(s: seq<Word>, i: nat)
    requires i < |s|
    ensures Value(s[..i + 1]) == Value(s[..i]) + s[i] * Weight(i)
  {
    assert s[..i + 1] == s[..i] + [s[i]];
    ValueSnoc(s[..i], s[i]);
  }

  lemma {:induction false} ValueBound(s: seq<Word>)
    ensures Value(s) < Weight(|s|)
  {
    if s != [] {
      var n := |s| - 1;
      ValueBound(s[..n]);
      WeightNext(n);
      MulLe(s[n], BASE - 1, Weight(n));
      assert (BASE - 1) * Weight(n) == BASE * Weight(n) - Weight(n);
    }
  }

  lemma {:induction false} ValueAppend(s: seq<Word>, t: seq<Word>)
    ensures Value(s + t) == Value(s) + Weight(|s|) * Value(t)
  {
    if t == [] {
      assert s + t == s;
    } else {
      var n := |t| - 1;
      ValueAppend(s, t[..n]);
      assert (s + t)[..|s| + n] == s + t[..n];
      WeightAdd(|s|, n);
      MulFactor(Value(t[..n]), t[n], Weight(n), Weight(|s|));
    }
  }

  lemma ValueSplit(s: seq<Word>, i: nat)
    requires i <= |s|
    ensures Value(s) == Value(s[..i]) + Weight(i) * Value(s[i..])
  {
    assert s == s[..i] + s[i..];
    ValueAppend(s[..i], s[i..]);
  }

  lemma LowestWord(s: seq<Word>)
    requires s != []
    ensures Value(s) == s[0] + BASE * Value(s[1..])
  {
    ValueSplit(s, 1);
    ValuePrefix(s, 0);
    assert Value(s[..0]) == 0 && Weight(0) == 1;
    WeightNext(0);
  }

  lemma {:induction false} ValueZeros(s: seq<Word>)
    ensures (forall i | 0 <= i < |s| :: s[i] == 0) <==> Value(s) == 0
  {
    if s != [] {
      var n := |s| - 1;
      ValueZeros(s[..n]);
      if s[n] > 0 {
        MulLe(1, s[n], Weight(n));
      }
    }
  }

  lemma {:induction false} ValueUpdate(s: seq<Word>, i: nat, w: Word, d: int)
    requires i < |s| && w == s[i] + d
    ensures Value(s[i := w]) == Value(s) + d * Weight(i)
  {
    var n := |s| - 1;
    var t := s[i := w];
    if i == n {
      assert t[..n] == s[..n];
      MulPlus(s[n], d, Weight(n));
    } else {
      ValueUpdate(s[..n], i, w, d);
      assert t[..n] == s[..n][i := w];
    }
  }

  lemma MulPlus(x: int, d: int, w: int)
    ensures (x + d) * w == x * w + d * w
  {
  }

  /** Equal high words: the comparison is decided below them. */
  lemma {:induction false} ValueDropEqual(s: seq<Word>, t: seq<Word>, i: nat)
    requires |s| == |t| && i <= |s|
    requires s[i..] == t[i..]
    ensures Value(s) - Value(t) == Value(s[..i]) - Value(t[..i])
  {
    ValueSplit(s, i);
    ValueSplit(t, i);
  }

  /** The value determines the words. */
  lemma {:induction false} ValueInjective(s: seq<Word>, t: seq<Word>)
    requires |s| == |t| && Value(s) == Value(t)
    ensures s == t
  {
    if s != [] {
      var n := |s| - 1;
      ValueBound(s[..n]);
      ValueBound(t[..n]);
      ModUnique(Value(s[..n]), s[n], Weight(n), Value(s));
      ModUnique(Value(t[..n]), t[n], Weight(n), Value(t));
      ValueInjective(s[..n], t[..n]);
      assert s == s[..n] + [s[n]] && t == t[..n] + [t[n]];
    }
  }

  // ----- OR of disjoint bit ranges is addition

  lemma {:induction false} OrDisjoint(lo: nat, hi: nat, s: nat)
    requires lo < Pow2(s)
    requires hi % Pow2(s) == 0
    ensures Or(lo, hi) == lo + hi && Or(hi, lo) == lo + hi
    decreases s, lo + hi
  {
    if s == 0 {
      if hi != 0 {
        OrDisjoint(0, hi / 2, 0);
      }
    } else {
      HalfAligned(hi, Pow2(s - 1));
      if lo != 0 || hi != 0 {
        OrDisjoint(lo / 2, hi / 2, s - 1);
      }
    }
  }

  lemma HalfAligned(x: nat, m: int)
    requires m > 0 && x % (2 * m) == 0
    ensures (x / 2) % m == 0 && x % 2 == 0
  {
    var q := x / (2 * m);
    assert x == (2 * m) * q == 2 * (m * q);
    ModUnique(0, q, m, m * q);
  }

  /** `x` split at bit `r`. */
  lemma ShiftParts(x: Word, r: nat)
    requires 0 < r < 32
    ensures Pow2(r) * Pow2(32 - r) == BASE
    ensures var lo, hi := (x * Pow2(r)) % BASE, x / Pow2(32 - r);
            x * Pow2(r) == lo + hi * BASE && lo % Pow2(r) == 0 && 0 <= hi < Pow2(r)
  {
    Pow2Add(r, 32 - r);
    Pow2Of32();
    ShiftPartsAt(x, Pow2(r), Pow2(32 - r));
  }

  lemma ShiftPartsAt(x: Word, p: int, c: int)
    requires 0 < p && 0 < c && p * c == BASE
    ensures var lo, hi := (x * p) % BASE, x / c;
            x * p == lo + hi * BASE && lo % p == 0 && lo == (x % c) * p && 0 <= hi < p
  {
    var h, l := x / c, x % c;
    DivMod(x, c);
    LowPart(x, h, l, p, c);
    HighPart(x, h, l, p, c);
  }

  lemma DivMod(x: int, c: int)
    requires c > 0
    ensures x == (x / c) * c + x % c && 0 <= x % c < c
  {
  }

  lemma LowPart(x: int, h: int, l: int, p: int, c: int)
    requires 0 < p && 0 < c && p * c == BASE && x == h * c + l && 0 <= l < c
    ensures (x * p) % BASE == l * p && x * p == l * p + h * BASE && (l * p) % p == 0
  {
    MulSplit(h, c, l, p);
    MulNonNeg(l, p);
    MulLe(l + 1, c, p);
    MulPlus(l, 1, p);
    ModUnique(l * p, h, BASE, x * p);
    ModUnique(0, l, p, l * p);
  }

  lemma HighPart(x: Word, h: int, l: int, p: int, c: int)
    requires 0 < p && 0 < c && p * c == BASE && x == h * c + l && 0 <= l < c
    ensures 0 <= h < p
  {
    if h >= p {
      MulLe(p, h, c);
    } else if h < 0 {
      MulLe(h, -1, c);
    }
  }
}
