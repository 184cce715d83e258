/**
  `base_uint::operator/=`: shift-subtract division. The divisor is aligned with the
  numerator by bit length, then subtracted and shifted back one bit at a time.
 */
module BaseUintDiv {
  import opened Words
  import opened BaseUint
  import opened BaseUintShift

  /** One bit of the result is set where the quotient is still all zeros. */
  lemma SetBit(s: seq<Word>, i: nat, j: nat)
    requires i < |s| && j < 32
    requires Value(s) % Pow2(32 * i + j + 1) == 0
    ensures Or(s[i], Pow2(j)) == s[i] + Pow2(j) < BASE
    ensures Value(s[i := Or(s[i], Pow2(j))]) == Value(s) + Pow2(32 * i + j)
  {
    ZeroBelow(s, i, j);
    FreeBit(s[i], j);
    AddBit(s, i, j, s[i] + Pow2(j));
  }

  lemma AddBit(s: seq<Word>, i: nat, j: nat, w: Word)
    requires i < |s| && w == s[i] + Pow2(j)
    ensures Value(s[i := w]) == Value(s) + Pow2(32 * i + j)
  {
    hide *;
    ValueUpdate(s, i, w, Pow2(j));
    WeightPow(i, j);
    Commute(Pow2(j), Weight(i));
  }

  lemma Commute(x: int, y: int)
    ensures x * y == y * x
  {
  }

  lemma FreeBit(x: Word, j: nat)
    requires j < 32 && x % Pow2(j + 1) == 0
    ensures Or(x, Pow2(j)) == x + Pow2(j) < BASE
  {
    OrDisjoint(Pow2(j), x, j + 1);
    Pow2Add(j + 1, 31 - j);
    Pow2Of32();
    AlignedRoom(x, Pow2(j + 1), Pow2(31 - j));
  }

  lemma ZeroBelow(s: seq<Word>, i: nat, j: nat)
    requires i < |s| && j < 32
    requires Value(s) % Pow2(32 * i + j + 1) == 0
    ensures s[i] % Pow2(j + 1) == 0
  {
    ValueSplit(s, i);
    LowestWord(s[i..]);
    ValueBound(s[..i]);
    Pow2Add(32 * i, j + 1);
    Pow2Add(j + 1, 31 - j);
    Pow2Of32();
    AlignedDigit(Value(s[..i]), Weight(i), s[i], Value(s[i..]), Value(s[i..][1..]), Pow2(j + 1), Pow2(31 - j), Value(s));
  }

  lemma AlignedDigit(lo: int, w: int, x: int, rest: int, hi: int, p: int, c: int, v: int)
    requires 0 <= lo < w && p > 0 && p * c == BASE
    requires rest == x + BASE * hi
    requires v == lo + w * rest
    requires w * p > 0 && v % (w * p) == 0
    ensures x % p == 0
  {
    var q := v / (w * p);
    assert v == q * (w * p) == (q * p) * w;
    ModUnique(lo, rest, w, v);
    ModUnique(0, q * p, w, v);
    assert x == q * p - BASE * hi;
    assert BASE * hi == (c * hi) * p;
    assert x == (q - c * hi) * p;
    ModUnique(0, q - c * hi, p, x);
  }

  /** The loop invariant: `n = q*d + num`, with every quotient bit at or below `shift` still clear. */
  ghost predicate Divided(n: int, d: int, q: int, num: int, shift: int)
    requires -1 <= shift
  {
    && n == q * d + num
    && 0 <= num < d * Pow2(shift + 1)
    && q % Pow2(shift + 1) == 0
  }

  lemma SubtractStep(n: int, d: int, q: int, num: int, shift: nat)
    requires Divided(n, d, q, num, shift)
    requires num >= d * Pow2(shift)
    ensures Divided(n, d, q + Pow2(shift), num - d * Pow2(shift), shift - 1)
  {
    var p := Pow2(shift);
    assert (q + p) * d == q * d + d * p;
    assert d * (2 * p) == d * p + d * p;
    HalfMultiple(q, p);
  }

  lemma SkipStep(n: int, d: int, q: int, num: int, shift: nat)
    requires Divided(n, d, q, num, shift)
    requires num < d * Pow2(shift)
    ensures Divided(n, d, q, num, shift - 1)
  {
    HalfMultiple(q, Pow2(shift));
  }

  lemma HalfMultiple(q: int, p: int)
    requires p > 0 && q % (2 * p) == 0
    ensures q % p == 0 && (q + p) % p == 0
  {
    var k := q / (2 * p);
    assert q == (2 * p) * k == (2 * k) * p;
    ModUnique(0, 2 * k, p, q);
    ModUnique(0, 2 * k + 1, p, q + p);
  }

  /** Aligning the divisor loses no bit, and the numerator is below twice the aligned divisor. */
  lemma Aligned(n: int, d: int, nb: nat, db: nat, w: nat)
    requires IsBitLength(n, nb) && IsBitLength(d, db) && 0 < db <= nb <= 32 * w
    ensures 0 <= d * Pow2(nb - db) < Weight(w)
    ensures Divided(n, d, 0, n, nb - db)
  {
    var s := nb - db;
    Pow2Add(db, s);
    Pow2Add(db - 1, s + 1);
    Pow2Mono(nb, 32 * w);
    MulNonNeg(d, Pow2(s));
    HigherWord(Pow2(db), d, Pow2(s));
    MulLe(Pow2(db - 1), d, Pow2(s + 1));
    ModUnique(0, 0, Pow2(s + 1), 0);
  }

  lemma ShiftBack(d: int, shift: nat)
    requires shift > 0
    ensures (d * Pow2(shift)) / Pow2(1) == d * Pow2(shift - 1)
  {
    assert Pow2(1) == 2 * Pow2(0) == 2;
    assert d * Pow2(shift) == 2 * (d * Pow2(shift - 1));
  }

  /** The quotient of `/=`; false models the thrown domain error, by which time `*this` is already zero. */
  method DivAssign(pn: array<Word>, b: array<Word>) returns (ok: bool)
    requires pn.Length == b.Length > 0
    modifies pn
    ensures ok <==> old(Num(b)) != 0
    ensures !ok ==> Num(pn) == 0
    ensures ok ==> Num(pn) == old(Num(pn)) / old(Num(b))
  {
    ghost var n, d := Num(pn), Num(b);
    var div := Clone(b);
    var num := Clone(pn);
    ZeroWords(pn);
    ValueZeros(pn[..]);
    var numBits := Bits(num);
    var divBits := Bits(div);
    if divBits == 0 {
      return false;
    }
    if divBits > numBits {
      BelowDivisor(n, d, numBits, divBits);
      return true;
    }
    Aligned(n, d, numBits, divBits, pn.Length);
    var shift: int := numBits - divBits;
    ShiftLeft(div, shift);
    ModUnique(d * Pow2(shift), 0, Weight(pn.Length), d * Pow2(shift));
    DivLoop(pn, num, div, shift, n, d);
    ModUnique(Num(num), Num(pn), d, n);
    return true;
  }

  lemma BelowDivisor(n: int, d: int, nb: nat, db: nat)
    requires IsBitLength(n, nb) && IsBitLength(d, db) && nb < db
    ensures 0 <= n < d && n / d == 0
  {
    if nb > 0 {
      Pow2Mono(nb, db - 1);
    }
    ModUnique(n, 0, d, n);
  }

  method DivLoop(pn: array<Word>, num: array<Word>, div: array<Word>, top: nat, ghost n: int, ghost d: int)
    requires pn.Length == num.Length == div.Length > 0
    requires pn != num && num != div && pn != div
    requires top < 32 * pn.Length && d > 0
    requires Num(div) == d * Pow2(top)
    requires Divided(n, d, Num(pn), Num(num), top)
    modifies pn, num, div
    ensures n == Num(pn) * d + Num(num) && 0 <= Num(num) < d
  {
    var shift: int := top;
    while shift >= 0
      invariant -1 <= shift < 32 * pn.Length
      invariant shift >= 0 ==> Num(div) == d * Pow2(shift)
      invariant Divided(n, d, Num(pn), Num(num), shift)
      decreases shift
    {
      DivBit(pn, num, div, shift, n, d);
      ShiftRight(div, 1);
      if shift > 0 {
        ShiftBack(d, shift);
      }
      shift := shift - 1;
    }
    assert Pow2(0) == 1;
  }

  method DivBit(pn: array<Word>, num: array<Word>, div: array<Word>, shift: nat, ghost n: int, ghost d: int)
    requires pn.Length == num.Length == div.Length > 0
    requires pn != num && num != div && pn != div
    requires shift < 32 * pn.Length
    requires Num(div) == d * Pow2(shift)
    requires Divided(n, d, Num(pn), Num(num), shift)
    modifies pn, num
    ensures Divided(n, d, Num(pn), Num(num), shift - 1)
  {
    var ge := GreaterEqual(num, div);
    ghost var q, x, y := Num(pn), Num(num), Num(div);
    if ge {
      SubtractStep(n, d, q, x, shift);
      SubAssign(num, div);
      ValueBound(old(num[..]));
      ModUnique(x - y, 0, Weight(num.Length), x - y);
      SetBit(pn[..], shift / 32, shift % 32);
      ghost var s := pn[..];
      pn[shift / 32] := Or(pn[shift / 32], Pow2(shift % 32));
      assert pn[..] == s[shift / 32 := Or(s[shift / 32], Pow2(shift % 32))];
    } else {
      SkipStep(n, d, q, x, shift);
    }
  }
}
