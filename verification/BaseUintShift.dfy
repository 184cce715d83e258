/**
  `base_uint` shifts: each source word is split over two target words that are merged
  with OR. `<<=` multiplies modulo 2^BITS, `>>=` divides, for every shift count.
 */
module BaseUintShift {
  import opened Words
  import opened BaseUint

  // ----- left shift

  function Low(x: Word, r: nat): (w: Word)
    requires r < 32
  {
    (x * Pow2(r)) % BASE
  }

  /** The bits `<< r` pushes out of the word; the code skips this part when r is 0. */
  function High(x: Word, r: nat): (w: Word)
    requires r < 32
  {
    if r == 0 then 0 else HighWord(x, r)
  }

  function HighWord(x: Word, r: nat): (w: Word)
    requires 0 < r < 32
    ensures w == x / Pow2(32 - r)
  {
    ShiftParts(x, r);
    Pow2Mono(r, 32);
    Pow2Of32();
    x / Pow2(32 - r)
  }

  /** Word `m` of `a << (32k + r)`. */
  function ShlWord(a: seq<Word>, k: nat, r: nat, m: nat): (w: int)
    requires r < 32
  {
    (if k <= m < k + |a| then Low(a[m - k], r) else 0) + (if k < m <= k + |a| then High(a[m - k - 1], r) else 0)
  }

  lemma LowHigh(x: Word, r: nat)
    requires r < 32
    ensures x * Pow2(r) == Low(x, r) + High(x, r) * BASE
    ensures Low(x, r) % Pow2(r) == 0 && High(x, r) < Pow2(r)
  {
    if r == 0 {
      assert Pow2(0) == 1;
    } else {
      ShiftParts(x, r);
    }
  }

  lemma OrHighLow(y: Word, x: Word, r: nat)
    requires r < 32
    ensures Or(High(y, r), Low(x, r)) == High(y, r) + Low(x, r) < BASE
    ensures Or(0, High(y, r)) == High(y, r) && Or(0, Low(x, r)) == Low(x, r)
  {
    LowHigh(y, r);
    LowHigh(x, r);
    OrDisjoint(High(y, r), Low(x, r), r);
    OrDisjoint(0, High(y, r), 0);
    OrDisjoint(0, Low(x, r), 0);
    Pow2Mono(r, 32);
    Pow2Of32();
    Pow2Add(r, 32 - r);
    AlignedRoom(Low(x, r), Pow2(r), Pow2(32 - r));
  }

  lemma AlignedRoom(x: int, p: int, c: int)
    requires p > 0 && c > 0 && 0 <= x < p * c && x % p == 0
    ensures x + p <= p * c
  {
    var q := x / p;
    assert x == p * q;
    if q >= c {
      MulLe(c, q, p);
    }
    HigherWord(c, q, p);
  }

  /** The bits pushed out of the first `n` words. */
  function HighOf(a: seq<Word>, n: nat, r: nat): (w: Word)
    requires r < 32 && n <= |a|
  {
    if n == 0 then 0 else High(a[n - 1], r)
  }

  /** The first `m` words and the bits pushed out of them are the first source words, scaled. */
  ghost predicate ShlSoFar(a: seq<Word>, k: nat, r: nat, out: seq<Word>, m: nat)
    requires r < 32 && k <= m <= |out| && m - k <= |a|
  {
    Value(out[..m]) + HighOf(a, m - k, r) * Weight(m) == Value(a[..m - k]) * Pow2(32 * k + r)
  }

  lemma {:induction false} ShlValue(a: seq<Word>, k: nat, r: nat, out: seq<Word>, m: nat)
    requires r < 32 && k <= m <= |out| && m - k <= |a|
    requires forall i | 0 <= i < m :: out[i] == ShlWord(a, k, r, i)
    ensures ShlSoFar(a, k, r, out, m)
  {
    hide *;
    if m == k {
      ShlNone(a, k, r, out);
    } else {
      ShlValue(a, k, r, out, m - 1);
      ShlNext(a, k, r, out, m - 1);
    }
  }

  lemma ShlNone(a: seq<Word>, k: nat, r: nat, out: seq<Word>)
    requires r < 32 && k <= |out| && forall i | 0 <= i < k :: out[i] == ShlWord(a, k, r, i)
    ensures ShlSoFar(a, k, r, out, k)
  {
    hide Pow2, Weight;
    assert a[..0] == [];
    ValueZeros(out[..k]);
  }

  lemma ShlNext(a: seq<Word>, k: nat, r: nat, out: seq<Word>, i: nat)
    requires r < 32 && k <= i < |out| && i - k < |a|
    requires ShlSoFar(a, k, r, out, i) && out[i] == ShlWord(a, k, r, i)
    ensures ShlSoFar(a, k, r, out, i + 1)
  {
    hide Value, Pow2, Weight, Low, High;
    ValuePrefix(out, i);
    ValuePrefix(a, i - k);
    ShlStep(a[i - k], r, i, k, Value(a[..i - k]), Value(out[..i]), HighOf(a, i - k, r));
  }

  lemma ShlStep(x: Word, r: nat, i: nat, k: nat, va: int, vo: int, h: int)
    requires r < 32 && k <= i
    requires vo + h * Weight(i) == va * Pow2(32 * k + r)
    ensures vo + (Low(x, r) + h) * Weight(i) + High(x, r) * Weight(i + 1)
         == (va + x * Weight(i - k)) * Pow2(32 * k + r)
  {
    LowHigh(x, r);
    WeightNext(i);
    WeightAdd(k, i - k);
    Pow2Add(32 * k, r);
    ShlAlgebra(x, Pow2(r), Weight(i - k), Weight(k), Low(x, r), High(x, r), va);
    MulPlus(Low(x, r), h, Weight(i));
  }

  lemma ShlAlgebra(x: int, p: int, wd: int, wk: int, lo: int, hi: int, va: int)
    requires x * p == lo + hi * BASE
    ensures (va + x * wd) * (wk * p) == va * (wk * p) + lo * (wk * wd) + hi * (BASE * (wk * wd))
  {
    var w := wk * wd;
    assert x * wd * (wk * p) == (x * p) * w;
    assert (x * p) * w == lo * w + hi * (BASE * w) by {
      MulSplit(hi, BASE, lo, w);
    }
    assert (va + x * wd) * (wk * p) == va * (wk * p) + x * wd * (wk * p);
  }

  lemma ShlTotal(a: seq<Word>, k: nat, r: nat, out: seq<Word>)
    requires r < 32 && |out| == |a|
    requires forall i | 0 <= i < |out| :: out[i] == ShlWord(a, k, r, i)
    ensures Value(out) == (Value(a) * Pow2(32 * k + r)) % Weight(|a|)
  {
    var n := |a|;
    if k >= n {
      ValueZeros(out);
      Pow2Add(32 * n, 32 * k + r - 32 * n);
      MultipleOf(Value(a), Weight(n), Pow2(32 * k + r - 32 * n));
    } else {
      ShlInside(a, k, r, out);
    }
  }

  lemma ShlInside(a: seq<Word>, k: nat, r: nat, out: seq<Word>)
    requires r < 32 && |out| == |a| && k < |a|
    requires forall i | 0 <= i < |out| :: out[i] == ShlWord(a, k, r, i)
    ensures Value(out) == (Value(a) * Pow2(32 * k + r)) % Weight(|a|)
  {
    hide *;
    var n := |a|;
    ShlAll(a, k, r, out);
    ValueBound(out);
    ValueSplit(a, n - k);
    WeightPow(k, r);
    WeightAdd(n - k, k);
    ShlWrap(Value(a[..n - k]), Weight(n - k), Value(a[n - k..]), Weight(k), Pow2(r),
            HighOf(a, n - k, r), Value(out), Value(a), Pow2(32 * k + r), Weight(n));
  }

  lemma ShlAll(a: seq<Word>, k: nat, r: nat, out: seq<Word>)
    requires r < 32 && |out| == |a| && k < |a|
    requires forall i | 0 <= i < |out| :: out[i] == ShlWord(a, k, r, i)
    ensures Value(out) + HighOf(a, |a| - k, r) * Weight(|a|) == Value(a[..|a| - k]) * Pow2(32 * k + r)
  {
    hide Value, Pow2, Weight, HighOf, ShlWord;
    ShlValue(a, k, r, out, |a|);
    assert out[..|a|] == out;
  }

  lemma WeightPow(k: nat, r: nat)
    ensures Pow2(32 * k + r) == Weight(k) * Pow2(r)
  {
    hide Pow2;
    Pow2Add(32 * k, r);
  }

  lemma MultipleOf(v: int, w: int, p: int)
    requires w > 0
    ensures (v * (w * p)) % w == 0
  {
    assert v * (w * p) == (v * p) * w;
    ModUnique(0, v * p, w, v * (w * p));
  }

  lemma ShlWrap(lo: int, wn: int, top: int, wk: int, p: int, hi: int, out: int, v: int, pw: int, w: int)
    requires v == lo + wn * top && pw == wk * p && w == wn * wk
    requires out + hi * w == lo * pw && 0 <= out < w
    ensures out == (v * pw) % w
  {
    assert (wn * top) * (wk * p) == (top * p) * (wn * wk);
    MulPlus(lo, wn * top, pw);
    MulPlus(hi, top * p, w);
    ModUnique(out, hi + top * p, w, v * pw);
  }

  method ShiftLeft(pn: array<Word>, shift: nat)
    modifies pn
    ensures Num(pn) == (old(Num(pn)) * Pow2(shift)) % Weight(pn.Length)
  {
    hide ShlUpTo, ShlWord, HighWord, Low, Or, Value, Weight, Pow2;
    ghost var a0 := pn[..];
    var a := Clone(pn);
    ZeroWords(pn);
    var k, r := shift / 32, shift % 32;
    var i := 0;
    ShlBegun(pn[..], a0, k, r);
    while i < pn.Length
      invariant 0 <= i <= pn.Length
      invariant a[..] == a0
      invariant ShlUpTo(pn[..], a0, k, r, i)
    {
      ghost var s := pn[..];
      ShlIteration(s, a0, k, r, i);
      if i + k + 1 < pn.Length && r != 0 {
        pn[i + k + 1] := Or(pn[i + k + 1], HighWord(a[i], r));
      }
      if i + k < pn.Length {
        pn[i + k] := Or(pn[i + k], Low(a[i], r));
      }
      ShlAdvance(s, pn[..], a0, k, r, i);
      i := i + 1;
    }
    ShlDone(pn[..], a0, k, r);
    ShlTotal(a0, k, r, pn[..]);
  }

  lemma ShlBegun(s: seq<Word>, a: seq<Word>, k: nat, r: nat)
    requires |s| == |a| && r < 32 && forall m | 0 <= m < |s| :: s[m] == 0
    ensures ShlUpTo(s, a, k, r, 0)
  {
    hide Low, High;
  }

  lemma ShlAdvance(s: seq<Word>, s': seq<Word>, a: seq<Word>, k: nat, r: nat, i: nat)
    requires |s'| == |s| == |a| && i < |a| && r < 32 && ShlUpTo(s, a, k, r, i)
    requires forall m | 0 <= m < |s| && m != i + k && (m != i + k + 1 || r == 0) :: s'[m] == s[m]
    requires i + k + 1 < |s| && r != 0 ==> s'[i + k + 1] == HighWord(a[i], r)
    requires i + k < |s| ==> s'[i + k] == ShlWord(a, k, r, i + k)
    ensures ShlUpTo(s', a, k, r, i + 1)
  {
    hide ShlWord, HighWord;
  }

  lemma ShlDone(s: seq<Word>, a: seq<Word>, k: nat, r: nat)
    requires |s| == |a| && r < 32 && ShlUpTo(s, a, k, r, |a|)
    ensures forall m | 0 <= m < |s| :: s[m] == ShlWord(a, k, r, m)
  {
  }

  /** After `i` source words: finished words, then one that waits for its low part, then zeros. */
  ghost predicate ShlUpTo(s: seq<Word>, a: seq<Word>, k: nat, r: nat, i: nat)
    requires |s| == |a| && i <= |a| && r < 32
  {
    forall m | 0 <= m < |s| ::
      s[m] == (if m < i + k then ShlWord(a, k, r, m) else if m == i + k && i > 0 then High(a[i - 1], r) else 0)
  }

  lemma ShlIteration(s: seq<Word>, a: seq<Word>, k: nat, r: nat, i: nat)
    requires |s| == |a| && i < |a| && r < 32
    requires ShlUpTo(s, a, k, r, i)
    ensures i + k + 1 < |s| && r != 0 ==> Or(s[i + k + 1], HighWord(a[i], r)) == HighWord(a[i], r)
    ensures i + k < |s| ==> Or(s[i + k], Low(a[i], r)) == ShlWord(a, k, r, i + k) < BASE
  {
    OrHighLow(a[i], a[i], r);
    if i > 0 {
      OrHighLow(a[i - 1], a[i], r);
    }
  }

  method ZeroWords(pn: array<Word>)
    modifies pn
    ensures forall m | 0 <= m < pn.Length :: pn[m] == 0
  {
    var i := 0;
    while i < pn.Length
      invariant 0 <= i <= pn.Length
      invariant forall m | 0 <= m < i :: pn[m] == 0
    {
      pn[i] := 0;
      i := i + 1;
    }
  }

  // ----- right shift

  /** The bits `>> r` keeps of a word, and the ones that fall into the word below. */
  function Kept(x: Word, r: nat): (w: Word)
    requires r < 32
  {
    DivLe(x, Pow2(r));
    x / Pow2(r)
  }

  function Fallen(x: Word, r: nat): (w: Word)
    requires r < 32
  {
    if r == 0 then 0 else (x * Pow2(32 - r)) % BASE
  }

  lemma DivLe(x: int, p: int)
    requires 0 <= x && 1 <= p
    ensures 0 <= x / p <= x
  {
    var q := x / p;
    assert x == p * q + x % p;
    if q < 0 {
      MulLe(q, -1, p);
    } else {
      MulLe(1, p, q);
    }
  }

  function ShrWord(a: seq<Word>, k: nat, r: nat, m: nat): (w: int)
    requires r < 32
  {
    (if m + k < |a| then Kept(a[m + k], r) else 0) + (if m + k + 1 < |a| then Fallen(a[m + k + 1], r) else 0)
  }

  /** The low bits `>> r` drops from a word. */
  function Cut(x: Word, r: nat): (d: int)
    requires r < 32
  {
    x % Pow2(r)
  }

  lemma CutBound(x: Word, r: nat)
    requires r < 32
    ensures 0 <= Cut(x, r) < Pow2(r)
  {
  }

  lemma KeptFallen(x: Word, r: nat)
    requires r < 32
    ensures x == Kept(x, r) * Pow2(r) + Cut(x, r)
    ensures Fallen(x, r) * Pow2(r) == Cut(x, r) * BASE
    ensures Kept(x, r) < Pow2(32 - r) && Fallen(x, r) % Pow2(32 - r) == 0
  {
    Pow2Of32();
    if r == 0 {
      assert Pow2(0) == 1;
    } else {
      Pow2Add(r, 32 - r);
      KeptFallenAt(x, Pow2(r), Pow2(32 - r));
    }
  }

  lemma KeptFallenAt(x: Word, p: int, c: int)
    requires 0 < p && 0 < c && p * c == BASE
    ensures x == (x / p) * p + x % p && x / p < c
    ensures (x * c) % BASE * p == (x % p) * BASE && (x * c) % BASE % c == 0
  {
    ShiftPartsAt(x, c, p);
    ScaleBack(x % p, c, p);
  }

  lemma ScaleBack(l: int, c: int, p: int)
    ensures (l * c) * p == l * (p * c)
  {
  }

  lemma OrKeptFallen(y: Word, x: Word, r: nat)
    requires r < 32
    ensures Or(Kept(y, r), Fallen(x, r)) == Kept(y, r) + Fallen(x, r) < BASE
    ensures Or(0, Kept(y, r)) == Kept(y, r) && Or(0, Fallen(x, r)) == Fallen(x, r)
  {
    KeptFallen(y, r);
    KeptFallen(x, r);
    OrDisjoint(Kept(y, r), Fallen(x, r), 32 - r);
    OrDisjoint(0, Kept(y, r), 0);
    OrDisjoint(0, Fallen(x, r), 0);
    Pow2Add(32 - r, r);
    Pow2Of32();
    AlignedRoom(Fallen(x, r), Pow2(32 - r), Pow2(r));
  }

  /** What is dropped from word `i`, and what of it falls into the word below; nothing beyond the last word. */
  function CutOf(a: seq<Word>, i: nat, r: nat): (d: int)
    requires r < 32
  {
    if i < |a| then Cut(a[i], r) else 0
  }

  function FallenOf(a: seq<Word>, i: nat, r: nat): (w: Word)
    requires r < 32
  {
    if i < |a| then Fallen(a[i], r) else 0
  }

  lemma CutFalls(a: seq<Word>, i: nat, r: nat)
    requires r < 32
    ensures FallenOf(a, i, r) * Pow2(r) == CutOf(a, i, r) * BASE
  {
    if i < |a| {
      KeptFallen(a[i], r);
    }
  }

  /** The first `m` words, scaled, with what was dropped first are the source words with what is to be dropped next. */
  ghost predicate ShrSoFar(a: seq<Word>, k: nat, r: nat, out: seq<Word>, m: nat)
    requires r < 32 && k + m <= |a| && m <= |out|
  {
    Value(out[..m]) * Pow2(r) + CutOf(a, k, r) == Value(a[k..k + m]) + CutOf(a, k + m, r) * Weight(m)
  }

  /** Nothing is lost above the cut: each dropped low part reappears one word below. */
  lemma {:induction false} ShrValue(a: seq<Word>, k: nat, r: nat, out: seq<Word>, m: nat)
    requires r < 32 && k + m <= |a| && m <= |out|
    requires forall i | 0 <= i < m :: out[i] == ShrWord(a, k, r, i)
    ensures ShrSoFar(a, k, r, out, m)
  {
    hide *;
    if m == 0 {
      ShrNone(a, k, r, out);
    } else {
      ShrValue(a, k, r, out, m - 1);
      ShrNext(a, k, r, out, m - 1);
    }
  }

  lemma ShrNone(a: seq<Word>, k: nat, r: nat, out: seq<Word>)
    requires r < 32 && k <= |a|
    ensures ShrSoFar(a, k, r, out, 0)
  {
    hide CutOf;
    assert out[..0] == [] && a[k..k] == [];
    assert Weight(0) == 1;
  }

  lemma ShrNext(a: seq<Word>, k: nat, r: nat, out: seq<Word>, i: nat)
    requires r < 32 && k + i < |a| && i < |out|
    requires ShrSoFar(a, k, r, out, i) && out[i] == ShrWord(a, k, r, i)
    ensures ShrSoFar(a, k, r, out, i + 1)
  {
    hide Value, Pow2, Weight, Kept, Fallen, Cut;
    ValuePrefix(out, i);
    SliceValue(a, k, i);
    KeptFallen(a[k + i], r);
    CutFalls(a, k + i + 1, r);
    WeightNext(i);
    ShrAlgebra(Value(out[..i]), Value(a[k..k + i]), Kept(a[k + i], r), FallenOf(a, k + i + 1, r), a[k + i],
               CutOf(a, k, r), CutOf(a, k + i, r), CutOf(a, k + i + 1, r), Pow2(r), Weight(i));
  }

  lemma SliceValue(a: seq<Word>, k: nat, i: nat)
    requires k + i < |a|
    ensures Value(a[k..k + (i + 1)]) == Value(a[k..k + i]) + a[k + i] * Weight(i)
  {
    ValuePrefix(a[k..], i);
    hide Value, Weight;
    assert a[k..][..i] == a[k..k + i] && a[k..][..i + 1] == a[k..k + (i + 1)];
  }

  lemma ShrAlgebra(vo: int, va: int, kept: int, y: int, x: int, d: int, xr: int, yr: int, p: int, w: int)
    requires vo * p + d == va + xr * w && x == kept * p + xr && y * p == yr * BASE
    ensures (vo + (kept + y) * w) * p + d == va + x * w + yr * (BASE * w)
  {
    ShrStep(vo, kept, y, x, xr, yr, p, w);
  }

  lemma ShrStep(vo: int, kept: int, y: int, x: int, xr: int, yr: int, p: int, w: int)
    requires x == kept * p + xr && y * p == yr * BASE
    ensures (vo + (kept + y) * w) * p == vo * p + x * w - xr * w + yr * (BASE * w)
  {
    assert (vo + (kept + y) * w) * p == vo * p + (kept * p) * w + (y * p) * w;
    assert (kept * p) * w == x * w - xr * w by { assert kept * p == x - xr; }
    assert (y * p) * w == yr * (BASE * w) by { ScaleBack(yr, BASE, w); }
  }

  lemma ShrTotal(a: seq<Word>, k: nat, r: nat, out: seq<Word>)
    requires r < 32 && |out| == |a|
    requires forall i | 0 <= i < |out| :: out[i] == ShrWord(a, k, r, i)
    ensures Value(out) == Value(a) / Pow2(32 * k + r)
  {
    var n := |a|;
    ValueBound(a);
    if k >= n {
      ValueZeros(out);
      Pow2Mono(32 * n, 32 * k + r);
      ModUnique(Value(a), 0, Pow2(32 * k + r), Value(a));
    } else {
      ShrCut(a, k, r, out);
    }
  }

  lemma ShrCut(a: seq<Word>, k: nat, r: nat, out: seq<Word>)
    requires r < 32 && |out| == |a| && k < |a|
    requires forall i | 0 <= i < |out| :: out[i] == ShrWord(a, k, r, i)
    ensures Value(out) == Value(a) / Pow2(32 * k + r)
  {
    hide *;
    ShrInside(a, k, r, out);
    ValueSplit(a, k);
    ValueBound(a[..k]);
    WeightPow(k, r);
    CutBound(a[k], r);
    ShrQuotient(Value(a[..k]), Weight(k), Value(a[k..]), Cut(a[k], r), Pow2(r), Value(out), Value(a));
  }

  lemma ShrInside(a: seq<Word>, k: nat, r: nat, out: seq<Word>)
    requires r < 32 && |out| == |a| && k < |a|
    requires forall i | 0 <= i < |out| :: out[i] == ShrWord(a, k, r, i)
    ensures Value(a[k..]) == Value(out) * Pow2(r) + Cut(a[k], r)
  {
    var n := |a|;
    ShrValue(a, k, r, out, n - k);
    ZeroAbove(a, k, r, out);
    hide Value, Weight, Pow2, Cut, ShrWord;
    assert a[k..k + (n - k)] == a[k..];
  }

  lemma ZeroAbove(a: seq<Word>, k: nat, r: nat, out: seq<Word>)
    requires r < 32 && |out| == |a| && k < |a|
    requires forall i | 0 <= i < |out| :: out[i] == ShrWord(a, k, r, i)
    ensures Value(out) == Value(out[..|a| - k])
  {
    hide Value, Kept, Fallen;
    TrailingZeros(out, |a| - k);
  }

  lemma TrailingZeros(s: seq<Word>, i: nat)
    requires i <= |s|
    requires forall m | i <= m < |s| :: s[m] == 0
    ensures Value(s) == Value(s[..i])
  {
    ValueSplit(s, i);
    ValueZeros(s[i..]);
  }

  lemma ShrQuotient(lo: int, w: int, rest: int, d: int, p: int, q: int, v: int)
    requires 0 <= lo < w && 0 <= d < p
    requires rest == q * p + d
    requires v == lo + w * rest
    ensures w * p > 0 && v / (w * p) == q
  {
    MulFactor(d, q, p, w);
    MulNonNeg(w, d);
    MulLe(d + 1, p, w);
    assert (d + 1) * w == w * d + w;
    assert w * p > 0 && lo + w * d < w * p;
    assert q * (w * p) + w * d == w * rest;
    ModUnique(lo + w * d, q, w * p, v);
  }

  method ShiftRight(pn: array<Word>, shift: nat)
    modifies pn
    ensures Num(pn) == old(Num(pn)) / Pow2(shift)
  {
    hide ShrUpTo, ShrWord, Kept, Fallen, Or, Value, Pow2;
    ghost var a0 := pn[..];
    var a := Clone(pn);
    ZeroWords(pn);
    var k, r := shift / 32, shift % 32;
    var i := 0;
    ShrBegun(pn[..], a0, k, r);
    while i < pn.Length
      invariant 0 <= i <= pn.Length
      invariant a[..] == a0
      invariant ShrUpTo(pn[..], a0, k, r, i)
    {
      ghost var s := pn[..];
      ShrIteration(s, a0, k, r, i);
      if i - k - 1 >= 0 && r != 0 {
        pn[i - k - 1] := Or(pn[i - k - 1], Fallen(a[i], r));
      }
      if i - k >= 0 {
        pn[i - k] := Or(pn[i - k], Kept(a[i], r));
      }
      ShrAdvance(s, pn[..], a0, k, r, i);
      i := i + 1;
    }
    ShrDone(pn[..], a0, k, r);
    ShrTotal(a0, k, r, pn[..]);
  }

  lemma ShrBegun(s: seq<Word>, a: seq<Word>, k: nat, r: nat)
    requires |s| == |a| && r < 32 && forall m | 0 <= m < |s| :: s[m] == 0
    ensures ShrUpTo(s, a, k, r, 0)
  {
    hide Kept, Fallen;
  }

  lemma ShrAdvance(s: seq<Word>, s': seq<Word>, a: seq<Word>, k: nat, r: nat, i: nat)
    requires |s'| == |s| == |a| && i < |a| && r < 32 && ShrUpTo(s, a, k, r, i)
    requires forall m | 0 <= m < |s| && m != i - k && (m != i - k - 1 || r == 0) :: s'[m] == s[m]
    requires i - k - 1 >= 0 && r != 0 ==> s'[i - k - 1] == ShrWord(a, k, r, i - k - 1)
    requires i - k >= 0 ==> s'[i - k] == Kept(a[i], r)
    ensures ShrUpTo(s', a, k, r, i + 1)
  {
    hide Kept;
  }

  lemma ShrDone(s: seq<Word>, a: seq<Word>, k: nat, r: nat)
    requires |s| == |a| && r < 32 && ShrUpTo(s, a, k, r, |a|)
    ensures forall m | 0 <= m < |s| :: s[m] == ShrWord(a, k, r, m)
  {
    hide Kept, Fallen;
  }

  ghost predicate ShrUpTo(s: seq<Word>, a: seq<Word>, k: nat, r: nat, i: nat)
    requires |s| == |a| && i <= |a| && r < 32
  {
    forall m | 0 <= m < |s| ::
      s[m] == (if m + k + 1 < i then ShrWord(a, k, r, m) else if m + k + 1 == i then Kept(a[m + k], r) else 0)
  }

  lemma ShrIteration(s: seq<Word>, a: seq<Word>, k: nat, r: nat, i: nat)
    requires |s| == |a| && i < |a| && r < 32
    requires ShrUpTo(s, a, k, r, i)
    ensures i - k - 1 >= 0 && r != 0 ==> Or(s[i - k - 1], Fallen(a[i], r)) == ShrWord(a, k, r, i - k - 1) < BASE
    ensures i - k >= 0 ==> Or(s[i - k], Kept(a[i], r)) == Kept(a[i], r)
  {
    OrKeptFallen(a[i], a[i], r);
    if i > 0 {
      OrKeptFallen(a[i - 1], a[i], r);
    }
  }
}
