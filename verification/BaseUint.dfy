/**
  `base_uint`: in-place multi-word arithmetic, at every word count. A number is its
  word array `pn`; each method states the value it leaves modulo 2^BITS.
 */
module BaseUint {
  import opened Words

  ghost function Num(a: array<Word>): (v: int)
    reads a
  {
    Value(a[..])
  }

  /** Copy assignment. */
  method CopyWords(pn: array<Word>, a: array<Word>)
    requires pn.Length == a.Length
    modifies pn
    ensures pn[..] == old(a[..])
  {
    ghost var a0 := a[..];
    var i := 0;
    while i < pn.Length
      invariant 0 <= i <= pn.Length
      invariant forall k | 0 <= k < i :: pn[k] == a0[k]
      invariant forall k | i <= k < pn.Length :: a[k] == a0[k]
    {
      pn[i] := a[i];
      i := i + 1;
    }
  }

  /** Copy construction. */
  method Clone(a: array<Word>) returns (c: array<Word>)
    ensures fresh(c) && c[..] == a[..]
  {
    c := new Word[a.Length];
    CopyWords(c, a);
  }

  // ----- addition

  lemma AddStep(s: seq<Word>, i: nat, pre: int, carry: int, x: int, y: int, done: int)
    requires i < |s|
    requires pre == Value(s[..i])
    requires pre + carry * Weight(i) == done
    requires carry + x + y >= 0
    requires s[i] == (carry + x + y) % BASE
    ensures Value(s[..i + 1]) + ((carry + x + y) / BASE) * Weight(i + 1) == done + x * Weight(i) + y * Weight(i)
  {
    ValuePrefix(s, i);
    WeightNext(i);
    Carry(carry, x, y, Weight(i));
  }

  lemma Carry(carry: int, x: int, y: int, w: int)
    ensures var n := carry + x + y;
            (n % BASE) * w + (n / BASE) * (BASE * w) == carry * w + x * w + y * w
  {
    var n := carry + x + y;
    assert n == (n / BASE) * BASE + n % BASE;
    assert n * w == (n / BASE) * (BASE * w) + (n % BASE) * w by {
      MulSplit(n / BASE, BASE, n % BASE, w);
    }
  }

  method AddAssign(pn: array<Word>, b: array<Word>)
    requires pn.Length == b.Length
    modifies pn
    ensures Num(pn) == old(Num(pn) + Num(b)) % Weight(pn.Length)
  {
    hide Value, Weight, AddUpTo;
    ghost var p0, b0 := pn[..], b[..];
    var carry: DWord := 0;
    var i := 0;
    AddStart(p0, b0);
    while i < pn.Length
      invariant 0 <= i <= pn.Length
      invariant 0 <= carry <= 1
      invariant forall k | i <= k < pn.Length :: pn[k] == p0[k] && b[k] == b0[k]
      invariant AddUpTo(pn[..], p0, b0, i, carry)
    {
      ghost var s := pn[..];
      var n: DWord := carry + pn[i] + b[i];
      pn[i] := n % BASE;
      AddIteration(s, p0, b0, i, carry, n);
      assert pn[..] == s[i := pn[i]];
      carry := n / BASE;
      i := i + 1;
    }
    AddEnd(pn[..], p0, b0, carry);
  }

  /** The low words plus the carry are the sum of the low words. */
  ghost predicate AddUpTo(s: seq<Word>, p0: seq<Word>, b0: seq<Word>, i: nat, carry: int)
    requires |s| == |p0| == |b0| && i <= |s|
  {
    Value(s[..i]) + carry * Weight(i) == Value(p0[..i]) + Value(b0[..i])
  }

  lemma AddStart(p0: seq<Word>, b0: seq<Word>)
    requires |p0| == |b0|
    ensures AddUpTo(p0, p0, b0, 0, 0)
  {
    ValueNone(p0);
    ValueNone(b0);
  }

  lemma AddIteration(s: seq<Word>, p0: seq<Word>, b0: seq<Word>, i: nat, carry: int, n: DWord)
    requires |s| == |p0| == |b0| && i < |s| && AddUpTo(s, p0, b0, i, carry) && n == carry + p0[i] + b0[i]
    ensures AddUpTo(s[i := n % BASE], p0, b0, i + 1, n / BASE)
  {
    hide Value, Weight;
    var s' := s[i := n % BASE];
    assert s'[..i] == s[..i];
    AddStep(s', i, Value(s[..i]), carry, p0[i], b0[i], Value(p0[..i]) + Value(b0[..i]));
    ValuePrefix(p0, i);
    ValuePrefix(b0, i);
  }

  lemma AddEnd(s: seq<Word>, p0: seq<Word>, b0: seq<Word>, carry: int)
    requires |s| == |p0| == |b0| && AddUpTo(s, p0, b0, |s|, carry)
    ensures Value(s) == (Value(p0) + Value(b0)) % Weight(|s|)
  {
    hide Value, Weight;
    assert s[..|s|] == s && p0[..|s|] == p0 && b0[..|s|] == b0;
    ValueBound(s);
    ModUnique(Value(s), carry, Weight(|s|), Value(p0) + Value(b0));
  }

  // ----- increment, negation, subtraction

  /** Word increment with wrap-around. */
  function Succ(x: Word): (y: Word)
  {
    if x == BASE - 1 then 0 else x + 1
  }

  /** Prefix increment: the carry ripples while the word wrapped to zero. */
  method Increment(pn: array<Word>)
    requires pn.Length > 0
    modifies pn
    ensures Num(pn) == old(Num(pn) + 1) % Weight(pn.Length)
  {
    hide Value, Weight, Rippled;
    ghost var p0 := pn[..];
    var i := 0;
    pn[0] := Succ(pn[0]);
    assert pn[..] == p0[0 := Succ(p0[0])];
    RippleStep(p0, p0, 0);
    while pn[i] == 0 && i < pn.Length - 1
      invariant 0 <= i < pn.Length
      invariant Rippled(p0, pn[..], i)
    {
      ghost var p := pn[..];
      RippleStep(p0, p, i + 1);
      i := i + 1;
      pn[i] := Succ(pn[i]);
      assert pn[..] == p[i := Succ(p[i])];
    }
    RippleDone(p0, pn[..], i);
  }

  /** The increment has reached word `i`; a word left at zero carries on. */
  ghost predicate Rippled(p0: seq<Word>, p: seq<Word>, i: nat)
    requires |p0| == |p| && i < |p|
  {
    && p[i + 1..] == p0[i + 1..]
    && Value(p[..i + 1]) + (if p[i] == 0 then Weight(i + 1) else 0) == Value(p0[..i + 1]) + 1
  }

  lemma RippleDone(p0: seq<Word>, p: seq<Word>, i: nat)
    requires |p0| == |p| && i < |p|
    requires Rippled(p0, p, i)
    requires p[i] != 0 || i == |p| - 1
    ensures Value(p) == (Value(p0) + 1) % Weight(|p|)
  {
    hide Value, Weight;
    ValueBound(p);
    ValueDropEqual(p, p0, i + 1);
    if p[i] != 0 {
      ModUnique(Value(p), 0, Weight(|p|), Value(p0) + 1);
    } else {
      assert p[..i + 1] == p && p0[..i + 1] == p0;
      ModUnique(Value(p), 1, Weight(|p|), Value(p0) + 1);
    }
  }

  lemma RippleStep(p0: seq<Word>, p: seq<Word>, i: nat)
    requires |p0| == |p| && i < |p|
    requires if i == 0 then p == p0 else Rippled(p0, p, i - 1) && p[i - 1] == 0
    ensures Rippled(p0, p[i := Succ(p[i])], i)
  {
    var p' := p[i := Succ(p[i])];
    assert p'[..i] == p[..i];
    assert p'[i + 1..] == p[i + 1..] == p[i..][1..] && p0[i + 1..] == p0[i..][1..];
    assert p[i] == p[i..][0] == p0[i..][0];
    ValuePrefix(p0, i);
    ValuePrefix(p', i);
    WeightNext(i);
    assert i == 0 ==> p[..i] == [] && p0[..i] == [] && Weight(0) == 1;
    RippleCarry(p0[i], p'[i], Weight(i), Value(p[..i]), Value(p0[..i]));
  }

  lemma RippleCarry(x: Word, y: Word, w: int, lo: int, lo0: int)
    requires y == Succ(x)
    requires lo + w == lo0 + 1
    ensures lo + y * w + (if y == 0 then BASE * w else 0) == lo0 + x * w + 1
  {
    if x == BASE - 1 {
      assert y == 0;
      assert x * w == BASE * w - w;
    } else {
      assert y == x + 1;
      assert (x + 1) * w == x * w + w;
    }
  }

  /** Unary minus: complement every word, then increment. */
  method Negate(b: array<Word>) returns (ret: array<Word>)
    requires b.Length > 0
    ensures fresh(ret) && ret.Length == b.Length
    ensures Num(ret) == -Num(b) % Weight(b.Length)
  {
    ret := new Word[b.Length];
    var i := 0;
    while i < b.Length
      invariant 0 <= i <= b.Length
      invariant forall k | 0 <= k < i :: ret[k] == BASE - 1 - b[k]
    {
      ret[i] := BASE - 1 - b[i];
      i := i + 1;
    }
    ComplementValue(ret[..], b[..]);
    ghost var w, v := Weight(b.Length), Num(b);
    Increment(ret);
    ModShift(-v, 1, w);
  }

  lemma {:induction false} ComplementValue(c: seq<Word>, b: seq<Word>)
    requires |c| == |b|
    requires forall k | 0 <= k < |b| :: c[k] == BASE - 1 - b[k]
    ensures Value(c) == Weight(|b|) - 1 - Value(b)
  {
    if b == [] {
      assert Weight(0) == 1;
    } else {
      var n := |b| - 1;
      ComplementValue(c[..n], b[..n]);
      ComplementNext(c, b, n);
    }
  }

  lemma ComplementNext(c: seq<Word>, b: seq<Word>, n: nat)
    requires |c| == |b| == n + 1 && c[n] == BASE - 1 - b[n]
    requires Value(c[..n]) == Weight(n) - 1 - Value(b[..n])
    ensures Value(c) == Weight(n + 1) - 1 - Value(b)
  {
    hide *;
    ValuePrefix(c, n);
    ValuePrefix(b, n);
    WeightNext(n);
    ComplementWord(b[n], Weight(n));
    assert c[..n + 1] == c && b[..n + 1] == b;
  }

  lemma ComplementWord(x: int, w: int)
    ensures (BASE - 1 - x) * w == BASE * w - w - x * w
  {
  }

  lemma ModShift(x: int, k: int, m: int)
    requires m > 0
    ensures (x + k * m) % m == x % m
  {
    ModUnique(x % m, x / m + k, m, x + k * m);
  }

  /** `-=` adds the negation; the result is subtraction modulo 2^BITS. */
  method SubAssign(pn: array<Word>, b: array<Word>)
    requires pn.Length == b.Length > 0
    modifies pn
    ensures Num(pn) == old(Num(pn) - Num(b)) % Weight(pn.Length)
  {
    ghost var x, y, w := Num(pn), Num(b), Weight(pn.Length);
    var neg := Negate(b);
    AddAssign(pn, neg);
    ModOfMod(x, -y, w);
  }

  lemma ModOfMod(x: int, y: int, m: int)
    requires m > 0
    ensures (x + y % m) % m == (x + y) % m
  {
    assert y == (y / m) * m + y % m;
    ModShift(x + y % m, y / m, m);
  }

  // ----- comparison and bit length

  method GreaterEqual(pn: array<Word>, n: array<Word>) returns (r: bool)
    requires pn.Length == n.Length
    ensures r <==> Num(pn) >= Num(n)
  {
    var i := pn.Length - 1;
    while i >= 0
      invariant -1 <= i < pn.Length
      invariant forall k | i < k < pn.Length :: pn[k] == n[k]
    {
      if pn[i] > n[i] {
        FirstDifference(pn[..], n[..], i);
        return true;
      } else if pn[i] < n[i] {
        FirstDifference(pn[..], n[..], i);
        return false;
      }
      i := i - 1;
    }
    assert pn[..] == n[..];
    return true;
  }

  lemma FirstDifference(s: seq<Word>, t: seq<Word>, i: nat)
    requires |s| == |t| && i < |s|
    requires forall k | i < k < |s| :: s[k] == t[k]
    ensures s[i] > t[i] ==> Value(s) > Value(t)
    ensures s[i] < t[i] ==> Value(s) < Value(t)
  {
    assert s[i + 1..] == t[i + 1..];
    ValueDropEqual(s, t, i + 1);
    TopWordDecides(s, t, i);
  }

  lemma TopWordDecides(s: seq<Word>, t: seq<Word>, i: nat)
    requires |s| == |t| && i < |s|
    ensures s[i] > t[i] ==> Value(s[..i + 1]) > Value(t[..i + 1])
    ensures s[i] < t[i] ==> Value(s[..i + 1]) < Value(t[..i + 1])
  {
    ValuePrefix(s, i);
    ValuePrefix(t, i);
    ValueBound(s[..i]);
    ValueBound(t[..i]);
    if s[i] > t[i] {
      HigherWord(s[i], t[i], Weight(i));
    } else if s[i] < t[i] {
      HigherWord(t[i], s[i], Weight(i));
    }
  }

  lemma HigherWord(x: int, y: int, w: int)
    requires x > y && w >= 0
    ensures x * w >= y * w + w
  {
    MulLe(y + 1, x, w);
  }

  /** The number of significant bits. */
  predicate IsBitLength(v: int, r: nat)
  {
    if r == 0 then v == 0 else Pow2(r - 1) <= v < Pow2(r)
  }

  lemma BitLengthUnique(v: int, r: nat, r': nat)
    requires IsBitLength(v, r) && IsBitLength(v, r')
    ensures r == r'
  {
    if 0 < r < r' {
      Pow2Mono(r, r' - 1);
    } else if 0 < r' < r {
      Pow2Mono(r', r - 1);
    }
  }

  method Bits(pn: array<Word>) returns (r: nat)
    ensures IsBitLength(Num(pn), r) && r <= 32 * pn.Length
  {
    hide Value, Weight, Pow2, ValueTop;
    var pos := pn.Length - 1;
    while pos >= 0
      invariant -1 <= pos < pn.Length
      invariant forall k | pos < k < pn.Length :: pn[k] == 0
    {
      if pn[pos] != 0 {
        TopWord(pn[..], pos);
        var nbits := 31;
        Pow2Of32();
        while nbits > 0
          invariant 0 <= nbits <= 31
          invariant pn[pos] < Pow2(nbits + 1)
        {
          if (pn[pos] / Pow2(nbits)) % 2 == 1 {
            BitAt(pn[pos], nbits);
            WordBits(pn[..], pos, nbits);
            return 32 * pos + nbits + 1;
          }
          BitClear(pn[pos], nbits);
          nbits := nbits - 1;
        }
        WordBits(pn[..], pos, 0);
        return 32 * pos + 1;
      }
      pos := pos - 1;
    }
    ValueZeros(pn[..]);
    return 0;
  }

  /** All words above `pos` are zero, so only the words up to it count. */
  ghost predicate ValueTop(s: seq<Word>, pos: nat)
    requires pos < |s|
  {
    s[pos] * Weight(pos) <= Value(s) < s[pos] * Weight(pos) + Weight(pos)
  }

  lemma TopWord(s: seq<Word>, pos: nat)
    requires pos < |s|
    requires forall k | pos < k < |s| :: s[k] == 0
    ensures ValueTop(s, pos)
  {
    ValueSplit(s, pos + 1);
    ValueZeros(s[pos + 1..]);
    assert Value(s[pos + 1..]) == 0;
    ValuePrefix(s, pos);
    ValueBound(s[..pos]);
  }

  lemma BitAt(x: Word, n: nat)
    requires x < Pow2(n + 1) && (x / Pow2(n)) % 2 == 1
    ensures Pow2(n) <= x
  {
    if x < Pow2(n) {
      ModUnique(x, 0, Pow2(n), x);
    }
  }

  lemma BitClear(x: Word, n: nat)
    requires x < Pow2(n + 1) && (x / Pow2(n)) % 2 != 1
    ensures x < Pow2(n)
  {
    if x >= Pow2(n) {
      ModUnique(x - Pow2(n), 1, Pow2(n), x);
    }
  }

  lemma WordBits(s: seq<Word>, pos: nat, n: nat)
    requires pos < |s| && ValueTop(s, pos)
    requires Pow2(n) <= s[pos] < Pow2(n + 1)
    ensures IsBitLength(Value(s), 32 * pos + n + 1)
  {
    Pow2Add(32 * pos, n);
    Pow2Add(32 * pos, n + 1);
    WordBitsAt(Value(s), s[pos], Weight(pos), Pow2(n), Pow2(n + 1));
  }

  lemma WordBitsAt(v: int, x: int, w: int, p: int, p2: int)
    requires w >= 1 && p <= x < p2
    requires x * w <= v < x * w + w
    ensures w * p <= v < w * p2
  {
    MulLe(p, x, w);
    HigherWord(p2, x, w);
  }
}
