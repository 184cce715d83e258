/**
  `base_uint::operator*=`: schoolbook multiplication, truncated to the word count.
 */
module BaseUintMul {
  import opened Words
  import opened BaseUint

  /** One row step: the double word `n = carry + a + p*q` splits into a word and the next carry. */
  lemma RowStep(a: seq<Word>, m: nat, n: DWord, carry: int, x: int, p: int, q: int, i: nat, j: nat, done: int)
    requires m == i + j < |a|
    requires n == carry + x + p * q
    requires a[m] == n % BASE
    requires Value(a[..m]) + carry * Weight(m) == done
    ensures Value(a[..m + 1]) + (n / BASE) * Weight(m + 1)
         == done + x * Weight(m) + p * Weight(j) * (q * Weight(i))
  {
    hide *;
    ValuePrefix(a, m);
    WeightNext(m);
    WeightAdd(i, j);
    RowSum(Value(a[..m]), n, carry, x, p, q, Weight(i), Weight(j), Weight(m), done);
  }

  lemma RowSum(va: int, n: int, carry: int, x: int, p: int, q: int, wi: int, wj: int, w: int, done: int)
    requires n == carry + x + p * q && w == wi * wj && va + carry * w == done
    ensures va + (n % BASE) * w + (n / BASE) * (BASE * w) == done + x * w + p * wj * (q * wi)
  {
    Carry(carry, x, p * q, w);
    Regroup(p, q, wi, wj);
  }

  lemma Regroup(p: int, q: int, wi: int, wj: int)
    ensures p * q * (wi * wj) == p * wj * (q * wi)
  {
    assert p * q * (wi * wj) == (p * wj) * (q * wi);
  }

  /** `carry + a + p*q` never leaves 64 bits. */
  lemma RowFits(carry: int, a: Word, p: Word, q: Word)
    requires 0 <= carry < BASE
    ensures 0 <= carry + a + p * q < BASE * BASE
  {
    MulNonNeg(p, q);
    MulLe(p, BASE - 1, q);
    MulLe(q, BASE - 1, BASE - 1);
  }

  /** What the words of `b` above the truncation add is a multiple of 2^BITS. */
  lemma RowTruncation(b: seq<Word>, p: int, j: nat, a: int, a0: int, carry: int)
    requires j <= |b|
    requires a + carry * Weight(|b|) == a0 + p * Weight(j) * Value(b[..|b| - j])
    ensures a + (carry + p * Value(b[|b| - j..])) * Weight(|b|) == a0 + p * Weight(j) * Value(b)
  {
    hide *;
    var k := |b| - j;
    ValueSplit(b, k);
    WeightAdd(k, j);
    TruncationSum(a, a0, carry, p, Weight(j), Weight(k), Weight(|b|), Value(b[..k]), Value(b[k..]), Value(b));
  }

  lemma TruncationSum(a: int, a0: int, carry: int, p: int, wj: int, wk: int, w: int, lo: int, hi: int, v: int)
    requires v == lo + wk * hi && w == wk * wj && a + carry * w == a0 + p * wj * lo
    ensures a + (carry + p * hi) * w == a0 + p * wj * v
  {
    TruncationAlgebra(p, wj, wk, lo, hi, carry);
  }

  lemma TruncationAlgebra(p: int, wj: int, wk: int, lo: int, hi: int, carry: int)
    ensures p * wj * (lo + wk * hi) == p * wj * lo + (p * hi) * (wk * wj)
    ensures (carry + p * hi) * (wk * wj) == carry * (wk * wj) + (p * hi) * (wk * wj)
  {
    assert p * wj * (lo + wk * hi) == p * wj * lo + p * wj * (wk * hi);
    assert p * wj * (wk * hi) == (p * hi) * (wk * wj);
  }

  lemma Distribute3(v: int, x: int, w: int, y: int)
    ensures (v + x * w) * y == v * y + x * w * y
    ensures x * w * (v + y) == x * w * v + x * w * y
  {
  }

  method MulRow(a: array<Word>, p: Word, b: array<Word>, j: nat)
    requires a.Length == b.Length && a != b && j < a.Length
    modifies a
    ensures exists q :: Num(a) + q * Weight(a.Length) == old(Num(a)) + p * Weight(j) * Num(b)
  {
    ghost var a0, b0 := a[..], b[..];
    var carry: DWord := 0;
    var i := 0;
    RowStart(a0, b0, p, j);
    while i + j < a.Length
      invariant 0 <= i <= a.Length - j
      invariant 0 <= carry < BASE
      invariant RowUpTo(a[..], a0, b0, p, j, i, carry)
    {
      RowFits(carry, a[i + j], p, b[i]);
      var n: DWord := carry + a[i + j] + p * b[i];
      RowIteration(a[..], a0, b0, p, j, i, carry, n);
      a[i + j] := n % BASE;
      carry := n / BASE;
      i := i + 1;
    }
    RowEnd(a[..], a0, b0, p, j, carry);
  }

  /** After `i` words of row `j`: the low part plus the carry is the old number plus `p * b[..i]` at weight `j`. */
  ghost predicate RowUpTo(a: seq<Word>, a0: seq<Word>, b: seq<Word>, p: Word, j: nat, i: nat, carry: int)
    requires |a| == |a0| == |b| && i + j <= |a|
  {
    && a[i + j..] == a0[i + j..]
    && Value(a[..i + j]) + carry * Weight(i + j) == Value(a0[..i + j]) + p * Weight(j) * Value(b[..i])
  }

  lemma RowStart(a: seq<Word>, b: seq<Word>, p: Word, j: nat)
    requires |a| == |b| && j < |a|
    ensures RowUpTo(a, a, b, p, j, 0, 0)
  {
    assert b[..0] == [];
  }

  lemma RowIteration(a: seq<Word>, a0: seq<Word>, b: seq<Word>, p: Word, j: nat, i: nat, carry: int, n: DWord)
    requires |a| == |a0| == |b| && i + j < |a|
    requires RowUpTo(a, a0, b, p, j, i, carry)
    requires n == carry + a[i + j] + p * b[i]
    ensures RowUpTo(a[i + j := n % BASE], a0, b, p, j, i + 1, n / BASE)
  {
    var m := i + j;
    var a' := a[m := n % BASE];
    assert a[m] == a[m..][0] == a0[m..][0];
    assert a'[..m] == a[..m];
    assert a'[m + 1..] == a[m..][1..] && a0[m + 1..] == a0[m..][1..];
    RowStep(a', m, n, carry, a0[m], p, b[i], i, j, Value(a0[..m]) + p * Weight(j) * Value(b[..i]));
    ValuePrefix(a0, m);
    ValuePrefix(b, i);
    Distribute3(Value(b[..i]), p, Weight(j), b[i] * Weight(i));
  }

  lemma RowEnd(a: seq<Word>, a0: seq<Word>, b: seq<Word>, p: Word, j: nat, carry: int)
    requires |a| == |a0| == |b| && j <= |a|
    requires RowUpTo(a, a0, b, p, j, |a| - j, carry)
    ensures exists q :: Value(a) + q * Weight(|a|) == Value(a0) + p * Weight(j) * Value(b)
  {
    assert a[..|a|] == a && a0[..|a|] == a0;
    RowTruncation(b, p, j, Value(a), Value(a0), carry);
  }

  method MulAssign(pn: array<Word>, b: array<Word>)
    requires pn.Length == b.Length
    modifies pn
    ensures Num(pn) == old(Num(pn) * Num(b)) % Weight(pn.Length)
  {
    hide Value, Weight;
    ghost var p0, vb, w := pn[..], Num(b), Weight(pn.Length);
    var a := new Word[pn.Length](i => 0);
    ValueZeros(a[..]);
    ValueNone(p0);
    ghost var q := 0;
    var j := 0;
    while j < pn.Length
      invariant 0 <= j <= pn.Length
      invariant pn[..] == p0 && Num(b) == vb
      invariant Num(a) + q * w == Value(p0[..j]) * vb
    {
      MulRow(a, pn[j], b, j);
      ghost var q' :| Num(a) + q' * w == Value(p0[..j]) * vb - q * w + pn[j] * Weight(j) * vb;
      ValuePrefix(p0, j);
      Distribute3(Value(p0[..j]), p0[j], Weight(j), vb);
      MulPlus(q, q', w);
      q := q + q';
      j := j + 1;
    }
    assert p0[..j] == p0;
    ValueBound(a[..]);
    ModUnique(Num(a), q, w, Value(p0) * vb);
    CopyWords(pn, a);
  }
}
