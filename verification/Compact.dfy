/**
  The compact 32-bit encoding of large numbers, in both of its implementations:
  `base_uint` works with shifts and bit lengths, `CBigNum` reads and writes the bytes
  of the MPI format (big-endian magnitude, top bit of the first byte is the sign).
 */
module Compact {
  import opened Words
  import opened BaseUint
  import opened BaseUintShift

  const SIZE_UNIT: int := 0x100_0000
  const SIGN: int := 0x80_0000

  function BitLen(x: nat): (b: nat)
  {
    if x == 0 then 0 else 1 + BitLen(x / 2)
  }

  lemma {:induction false} BitLenIs(x: nat)
    ensures IsBitLength(x, BitLen(x))
  {
    if x > 1 {
      BitLenIs(x / 2);
    } else if x == 1 {
      assert BitLen(1) == 1 + BitLen(0);
      assert Pow2(1) == 2 * Pow2(0);
    }
  }

  /** The size byte: bytes of the magnitude, one more when its top bit would read as a sign. */
  function Size(x: nat): (n: nat)
    ensures n >= 1
  {
    BitLen(x) / 8 + 1
  }

  function Mantissa(x: nat): (m: nat)
  {
    if Size(x) <= 3 then x * Pow2(8 * (3 - Size(x)))
    else DivLe(x, Pow2(8 * (Size(x) - 3))); x / Pow2(8 * (Size(x) - 3))
  }

  function Encode(x: nat): (c: nat)
  {
    Mantissa(x) + Size(x) * SIZE_UNIT
  }

  /** The number a compact word stands for, before it is cut to a word count; the sign bit is ignored. */
  function Decode(c: nat): (x: nat)
  {
    Scale(c / SIZE_UNIT, c % SIGN)
  }

  function Scale(n: nat, w: nat): (x: nat)
  {
    if n <= 3 then DivLe(w, Pow2(8 * (3 - n))); w / Pow2(8 * (3 - n)) else w * Pow2(8 * (n - 3))
  }

  /** Compact words that `Encode` produces: no sign bit, and the first mantissa byte is needed. */
  predicate Canonical(c: nat)
  {
    var n, w := c / SIZE_UNIT, c % SIZE_UNIT;
    && w < SIGN
    && (n == 1 ==> w % 0x1_0000 == 0)
    && (n == 2 ==> w % 0x100 == 0)
    && (n == 1 || (n >= 2 && w >= 0x8000))
  }

  // ----- the size byte and the mantissa

  lemma SizeIs(x: nat, n: nat)
    ensures Size(x) == n <==> n >= 1 && x < Pow2(8 * n - 1) && (n == 1 || Pow2(8 * n - 9) <= x)
  {
    var b := BitLen(x);
    BitLenIs(x);
    if n >= 1 {
      if b <= 8 * n - 1 {
        Pow2Mono(b, 8 * n - 1);
      } else {
        Pow2Mono(8 * n - 1, b - 1);
      }
      if n >= 2 {
        if b >= 8 * n - 8 {
          Pow2Mono(8 * n - 9, b - 1);
        } else {
          Pow2Mono(b, 8 * n - 9);
        }
      }
    }
  }

  lemma SmallPowers()
    ensures Pow2(0) == 1 && Pow2(8) == 0x100 && Pow2(16) == 0x1_0000 && Pow2(24) == SIZE_UNIT
    ensures Pow2(7) == 0x80 && Pow2(15) == 0x8000 && Pow2(23) == SIGN
  {
    Pow2Of32();
    assert Pow2(8) == 2 * Pow2(7) && Pow2(16) == 2 * Pow2(15) && Pow2(24) == 2 * Pow2(23);
  }

  lemma MantissaBounds(x: nat)
    ensures Mantissa(x) < SIGN
    ensures Size(x) >= 2 ==> Mantissa(x) >= 0x8000
    ensures Size(x) == 1 ==> Mantissa(x) % 0x1_0000 == 0
    ensures Size(x) == 2 ==> Mantissa(x) % 0x100 == 0
  {
    var n := Size(x);
    SizeIs(x, n);
    hide BitLen, Pow2, Size;
    if n > 3 {
      MantissaLong(x, n);
    } else {
      ShortPowers(n);
      ShortUnits(x, n);
    }
  }

  /** The bounds of a short mantissa, and the bytes below it. */
  lemma ShortUnits(x: nat, n: nat)
    requires 1 <= n <= 3
    ensures var u := if n == 1 then 0x1_0000 else if n == 2 then 0x100 else 1;
            && (x < (if n == 1 then 0x80 else if n == 2 then 0x8000 else SIGN) <==> x * u < SIGN)
            && (n >= 2 ==> (x >= (if n == 2 then 0x80 else 0x8000) <==> x * u >= 0x8000))
            && (x * u) % u == 0
  {
    ModUnique(0, x, if n == 1 then 0x1_0000 else if n == 2 then 0x100 else 1, if n == 1 then x * 0x1_0000 else if n == 2 then x * 0x100 else x);
  }

  lemma ShortPowers(n: nat)
    requires 1 <= n <= 3
    ensures Pow2(8 * (3 - n)) == if n == 1 then 0x1_0000 else if n == 2 then 0x100 else 1
    ensures Pow2(8 * n - 1) == if n == 1 then 0x80 else if n == 2 then 0x8000 else SIGN
    ensures n == 2 ==> Pow2(8 * n - 9) == 0x80
    ensures n == 3 ==> Pow2(8 * n - 9) == 0x8000
  {
    SmallPowers();
  }

  lemma MantissaLong(x: nat, n: nat)
    requires n > 3 && Pow2(8 * n - 9) <= x < Pow2(8 * n - 1)
    ensures 0x8000 <= x / Pow2(8 * (n - 3)) < SIGN
  {
    var s := 8 * (n - 3);
    SmallPowers();
    Pow2Add(s, 23);
    Pow2Add(s, 15);
    QuotientBounds(x, Pow2(s), 0x8000, SIGN);
  }

  lemma QuotientBounds(x: nat, p: int, lo: int, hi: int)
    requires p > 0 && p * lo <= x < p * hi
    ensures lo <= x / p < hi
  {
    var q := x / p;
    assert x == p * q + x % p;
    if q < lo {
      HigherWord(lo, q, p);
    }
    if q >= hi {
      MulLe(hi, q, p);
    }
  }

  lemma EncodeParts(x: nat)
    ensures Encode(x) / SIZE_UNIT == Size(x) && Encode(x) % SIZE_UNIT == Mantissa(x)
    ensures Encode(x) % SIGN == Mantissa(x)
  {
    MantissaBounds(x);
    ModUnique(Mantissa(x), Size(x), SIZE_UNIT, Encode(x));
    ModUnique(Mantissa(x), 2 * Size(x), SIGN, Encode(x));
  }

  lemma EncodeCanonical(x: nat)
    ensures Canonical(Encode(x))
  {
    EncodeParts(x);
    MantissaBounds(x);
  }

  // ----- round trips

  /** Decoding an encoded number cuts it to the leading bytes the mantissa holds. */
  lemma DecodeEncode(x: nat)
    ensures Size(x) <= 3 ==> Decode(Encode(x)) == x
    ensures Size(x) > 3 ==> Decode(Encode(x)) == x - x % Pow2(8 * (Size(x) - 3))
    ensures Decode(Encode(x)) <= x
  {
    EncodeParts(x);
    var n := Size(x);
    if n <= 3 {
      var p := Pow2(8 * (3 - n));
      ModUnique(0, x, p, x * p);
    } else {
      var p := Pow2(8 * (n - 3));
      assert x == (x / p) * p + x % p;
    }
  }

  /** Encoding a decoded word gives the word back exactly for the canonical words. */
  lemma EncodeDecode(c: nat)
    ensures Encode(Decode(c)) == c <==> Canonical(c)
  {
    EncodeCanonical(Decode(c));
    if Canonical(c) {
      var n, w := c / SIZE_UNIT, c % SIZE_UNIT;
      assert c == n * SIZE_UNIT + w;
      ModUnique(w, 2 * n, SIGN, c);
      DecodeSize(n, w, Decode(c));
    }
  }

  lemma DecodeSize(n: nat, w: nat, x: nat)
    requires n >= 1 && w < SIGN && (n == 1 || w >= 0x8000)
    requires n == 1 ==> w % 0x1_0000 == 0
    requires n == 2 ==> w % 0x100 == 0
    requires x == Scale(n, w)
    ensures Size(x) == n && Mantissa(x) == w
  {
    SizeIs(x, n);
    if n > 3 {
      DecodeSizeLong(n, w, x);
    } else {
      ShortPowers(n);
    }
  }

  lemma DecodeSizeLong(n: nat, w: nat, x: nat)
    requires n > 3 && 0x8000 <= w < SIGN
    requires x == w * Pow2(8 * (n - 3))
    ensures Pow2(8 * n - 9) <= x < Pow2(8 * n - 1) && x / Pow2(8 * (n - 3)) == w
  {
    var s := 8 * (n - 3);
    SmallPowers();
    Pow2Add(23, s);
    Pow2Add(15, s);
    HigherWord(SIGN, w, Pow2(s));
    MulLe(0x8000, w, Pow2(s));
    ModUnique(0, w, Pow2(s), x);
  }

  // ----- CBigNum: the MPI byte format

  type Byte = x: int | 0 <= x < 0x100

  /** Big-endian bytes without leading zeros. */
  function Magnitude(x: nat): (s: seq<Byte>)
  {
    if x == 0 then [] else Magnitude(x / 0x100) + [x % 0x100]
  }

  /** The bytes after the length field: a zero byte keeps a set top bit from reading as a sign. */
  function MpiBytes(x: nat): (s: seq<Byte>)
  {
    var s := Magnitude(x);
    if s != [] && s[0] >= 0x80 then [0] + s else s
  }

  function BytesValue(s: seq<Byte>): (x: nat)
  {
    if s == [] then 0 else BytesValue(s[..|s| - 1]) * 0x100 + s[|s| - 1]
  }

  /** The signed number behind MPI bytes. */
  function MpiValue(s: seq<Byte>): (x: int)
  {
    if s == [] then 0
    else if s[0] >= 0x80 then 0 - BytesValue(s[0 := s[0] - 0x80])
    else BytesValue(s)
  }

  function BigNumGetCompact(x: nat): (c: nat)
  {
    var s := MpiBytes(x);
    |s| * SIZE_UNIT
    + Three(if |s| >= 1 then s[0] else 0, if |s| >= 2 then s[1] else 0, if |s| >= 3 then s[2] else 0)
  }

  function Three(a: int, b: int, c: int): (w: int)
  {
    a * 0x1_0000 + b * 0x100 + c
  }

  function BigNumBytes(c: Word): (s: seq<Byte>)
    ensures |s| == c / SIZE_UNIT
  {
    var n := c / SIZE_UNIT;
    seq(n, i requires 0 <= i < n =>
      if i == 0 then c / 0x1_0000 % 0x100 else if i == 1 then c / 0x100 % 0x100 else if i == 2 then c % 0x100 else 0)
  }

  function BigNumSetCompact(c: Word): (x: int)
  {
    MpiValue(BigNumBytes(c))
  }

  lemma {:induction false} BytesSnoc(s: seq<Byte>, b: Byte)
    ensures BytesValue(s + [b]) == BytesValue(s) * 0x100 + b
  {
    assert (s + [b])[..|s|] == s;
  }

  /** A prefix of the bytes is the number shifted right by whole bytes. */
  lemma {:induction false} BytesPrefix(s: seq<Byte>, k: nat)
    requires k <= |s|
    ensures BytesValue(s[..|s| - k]) == BytesValue(s) / Pow2(8 * k)
  {
    if k == 0 {
      assert s[..|s|] == s;
    } else {
      var t := s[..|s| - 1];
      BytesPrefix(t, k - 1);
      assert t[..|t| - (k - 1)] == s[..|s| - k];
      Pow2Add(8, 8 * (k - 1));
      Pow2Of32();
      var v := BytesValue(s);
      assert BytesValue(t) == v / 0x100;
      DivDiv(v, 0x100, Pow2(8 * (k - 1)));
    }
  }

  lemma {:induction false} MagnitudeIs(x: nat)
    ensures BytesValue(Magnitude(x)) == x
    ensures Magnitude(x) != [] ==> Magnitude(x)[0] > 0
    ensures x > 0 ==> Magnitude(x) != []
  {
    if x > 0 {
      MagnitudeIs(x / 0x100);
      BytesSnoc(Magnitude(x / 0x100), x % 0x100);
    }
  }

  lemma {:induction false} BytesBounds(s: seq<Byte>)
    requires s != []
    ensures s[0] * Pow2(8 * (|s| - 1)) <= BytesValue(s) < (s[0] as int + 1) * Pow2(8 * (|s| - 1))
  {
    if |s| == 1 {
      BytesSnoc([], s[0]);
      assert s == [] + [s[0]];
    } else {
      var t := s[..|s| - 1];
      BytesBounds(t);
      Pow2Add(8, 8 * (|t| - 1));
      Pow2Of32();
      ScaleByte(s[0], Pow2(8 * (|t| - 1)), BytesValue(t), s[|s| - 1]);
    }
  }

  lemma ScaleByte(h: int, p: int, v: int, b: Byte)
    requires h * p <= v < (h + 1) * p
    ensures h * (0x100 * p) <= v * 0x100 + b < (h + 1) * (0x100 * p)
  {
    assert h * (0x100 * p) == 0x100 * (h * p);
    assert (h + 1) * (0x100 * p) == 0x100 * ((h + 1) * p);
  }

  lemma {:induction false} LeadingZero(s: seq<Byte>)
    ensures BytesValue([0] + s) == BytesValue(s)
  {
    if s == [] {
      assert [0] + s == [] + [0];
      BytesSnoc([], 0);
    } else {
      var n := |s| - 1;
      LeadingZero(s[..n]);
      assert [0] + s == ([0] + s[..n]) + [s[n]];
      BytesSnoc([0] + s[..n], s[n]);
      assert s == s[..n] + [s[n]];
    }
  }

  /** The MPI length is the size byte. */
  lemma MpiSize(x: nat)
    requires x > 0
    ensures |MpiBytes(x)| == Size(x) && BytesValue(MpiBytes(x)) == x && MpiBytes(x)[0] < 0x80
  {
    hide Magnitude, BytesValue, Pow2, Size;
    var s := Magnitude(x);
    MagnitudeIs(x);
    BytesBounds(s);
    LeadingZero(s);
    var k := 8 * (|s| - 1);
    if s[0] >= 0x80 {
      HighByte(x, s[0], k);
      SizeOf(x, |s| + 1);
    } else {
      LowByte(x, s[0], k);
      SizeOf(x, |s|);
    }
  }

  lemma SizeOf(x: nat, n: nat)
    requires n >= 1 && x < Pow2(8 * (n - 1) + 7) && (n > 1 ==> Pow2(8 * (n - 1) - 1) <= x)
    ensures Size(x) == n
  {
    hide Pow2, Size;
    SizeIs(x, n);
    assert 8 * (n - 1) + 7 == 8 * n - 1 && 8 * (n - 1) - 1 == 8 * n - 9;
  }

  lemma HighByte(x: nat, h: int, k: nat)
    requires 0x80 <= h < 0x100
    requires h * Pow2(k) <= x < (h + 1) * Pow2(k)
    ensures Pow2(k + 7) <= x < Pow2(k + 15)
  {
    SmallPowers();
    Pow2Add(7, k);
    Pow2Add(15, k);
    MulLe(0x80, h, Pow2(k));
    MulLe(h + 1, 0x8000, Pow2(k));
  }

  lemma LowByte(x: nat, h: int, k: nat)
    requires 0 < h < 0x80
    requires h * Pow2(k) <= x < (h + 1) * Pow2(k)
    ensures x < Pow2(k + 7) && (k > 0 ==> Pow2(k - 1) <= x)
  {
    SmallPowers();
    Pow2Add(7, k);
    MulLe(1, h, Pow2(k));
    MulLe(h + 1, 0x80, Pow2(k));
  }

  lemma FirstBytes(s: seq<Byte>)
    requires |s| >= 3
    ensures BytesValue(s[..3]) == Three(s[0], s[1], s[2])
  {
    assert s[..3] == (([] + [s[0]]) + [s[1]]) + [s[2]];
    BytesSnoc([], s[0]);
    BytesSnoc([] + [s[0]], s[1]);
    BytesSnoc([] + [s[0]] + [s[1]], s[2]);
  }

  /** The two encoders agree exactly on the nonzero numbers. */
  lemma EncodersAgree(x: nat)
    ensures BigNumGetCompact(x) == Encode(x) <==> x > 0
  {
    hide MpiBytes, Size, Mantissa, Three;
    if x == 0 {
      ZeroEncodings();
    } else {
      MpiSize(x);
      MpiMantissa(x);
    }
  }

  lemma ZeroEncodings()
    ensures MpiBytes(0) == [] && Three(0, 0, 0) == 0 && Size(0) == 1
  {
    assert BitLen(0) == 0;
  }

  lemma MpiMantissa(x: nat)
    requires x > 0 && |MpiBytes(x)| == Size(x) && BytesValue(MpiBytes(x)) == x
    ensures var s := MpiBytes(x);
            Mantissa(x) == Three(s[0], if |s| >= 2 then s[1] else 0, if |s| >= 3 then s[2] else 0)
  {
    hide *;
    var s := MpiBytes(x);
    if |s| == 1 {
      OneByte(s);
      MantissaOf(x);
      ThreeUnits(s[0], 0);
    } else if |s| == 2 {
      TwoBytes(s);
      MantissaOf(x);
      ThreeUnits(s[0], s[1]);
    } else {
      FirstBytes(s);
      BytesPrefix(s, |s| - 3);
      MantissaOf(x);
    }
  }

  lemma MantissaOf(x: nat)
    ensures Size(x) == 1 ==> Mantissa(x) == x * 0x1_0000
    ensures Size(x) == 2 ==> Mantissa(x) == x * 0x100
    ensures Size(x) >= 3 ==> Mantissa(x) == x / Pow2(8 * (Size(x) - 3))
  {
    hide Size;
    SmallPowers();
    DivOne(x);
  }

  lemma DivOne(x: nat)
    ensures x / 1 == x
  {
  }

  lemma ThreeUnits(a: int, b: int)
    ensures Three(a, 0, 0) == a * 0x1_0000 && Three(a, b, 0) == Three(0, a, b) * 0x100
  {
  }

  lemma {:induction false} TrailingZeroBytes(s: seq<Byte>, k: nat)
    requires k <= |s| && forall i | k <= i < |s| :: s[i] == 0
    ensures BytesValue(s) == BytesValue(s[..k]) * Pow2(8 * (|s| - k))
  {
    if k == |s| {
      assert s[..k] == s;
    } else {
      var t := s[..|s| - 1];
      TrailingZeroBytes(t, k);
      assert t[..k] == s[..k];
      Pow2Add(8, 8 * (|t| - k));
      Pow2Of32();
      var v, p := BytesValue(s[..k]), Pow2(8 * (|t| - k));
      ScaleBack(v, p, 0x100);
      assert BytesValue(s) == (v * p) * 0x100;
    }
  }

  /** The two decoders agree up to the sign, which only `CBigNum` reads. */
  lemma DecodersAgree(c: Word)
    ensures BigNumSetCompact(c) == if c % SIZE_UNIT >= SIGN then 0 - Decode(c) else Decode(c)
  {
    var n := c / SIZE_UNIT;
    if n == 0 {
      SmallPowers();
      ModUnique(c % SIGN, 0, SIZE_UNIT, c % SIGN);
    } else {
      Digits(c);
      SignByte(c);
      DecodeSigned(n, BigNumBytes(c), c / 0x1_0000 % 0x100, c / 0x1_0000 % 0x80, c / 0x100 % 0x100, c % 0x100);
    }
  }

  lemma DecodeSigned(n: nat, s: seq<Byte>, h: Byte, a: nat, b: Byte, d: Byte)
    requires n == |s| >= 1
    requires s[0] == h && a == if h >= 0x80 then h - 0x80 else h
    requires n >= 2 ==> s[1] == b
    requires n >= 3 ==> s[2] == d
    requires forall i | 3 <= i < n :: s[i] == 0
    ensures MpiValue(s) == if h >= 0x80 then 0 - Scale(n, Three(a, b, d)) else Scale(n, Three(a, b, d))
  {
    DecodeBytes(n, if h >= 0x80 then s[0 := a] else s, a, b, d);
  }

  lemma SignByte(c: Word)
    ensures var h := c / 0x1_0000 % 0x100;
            (h >= 0x80 <==> c % SIZE_UNIT >= SIGN) && c / 0x1_0000 % 0x80 == (if h >= 0x80 then h - 0x80 else h)
  {
    var a := c / 0x1_0000;
    assert c == a * 0x1_0000 + c % 0x1_0000;
    assert a == (a / 0x100) * 0x100 + a % 0x100;
    ModUnique(a % 0x100 * 0x1_0000 + c % 0x1_0000, a / 0x100, SIZE_UNIT, c);
  }

  lemma DecodeBytes(n: nat, t: seq<Byte>, a: nat, b: Byte, d: Byte)
    requires n == |t| >= 1
    requires t[0] == a
    requires n >= 2 ==> t[1] == b
    requires n >= 3 ==> t[2] == d
    requires forall i | 3 <= i < n :: t[i] == 0
    ensures BytesValue(t) == Scale(n, Three(a, b, d))
  {
    hide BytesValue, Scale, Three, Pow2;
    if n == 1 {
      OneByte(t);
      ScaleOne(a, b, d);
    } else if n == 2 {
      TwoBytes(t);
      ScaleTwo(a, b, d);
    } else {
      FirstBytes(t);
      TrailingZeroBytes(t, 3);
      ScaleLong(n, Three(a, b, d));
    }
  }

  lemma ScaleLong(n: nat, w: nat)
    requires n >= 3
    ensures Scale(n, w) == w * Pow2(8 * (n - 3))
  {
    SmallPowers();
    hide Pow2;
    DivOne(w);
  }

  lemma ScaleOne(a: nat, b: Byte, d: Byte)
    ensures Scale(1, Three(a, b, d)) == a
  {
    SmallPowers();
    ThreeParts(a, b, d);
  }

  lemma ScaleTwo(a: nat, b: Byte, d: Byte)
    ensures Scale(2, Three(a, b, d)) == Three(0, a, b)
  {
    SmallPowers();
    ThreeParts(a, b, d);
  }

  lemma Digits(c: Word)
    ensures c % SIGN == Three(c / 0x1_0000 % 0x80, c / 0x100 % 0x100, c % 0x100)
  {
    var a, q := c / 0x100, c / 0x1_0000 / 0x80;
    DivDiv(c, 0x100, 0x100);
    assert c == a * 0x100 + c % 0x100;
    assert a == (a / 0x100) * 0x100 + a % 0x100;
    assert c / 0x1_0000 == q * 0x80 + c / 0x1_0000 % 0x80;
    ModUnique(Three(c / 0x1_0000 % 0x80, a % 0x100, c % 0x100), q, SIGN, c);
  }

  lemma ThreeParts(a: int, b: Byte, d: Byte)
    requires a >= 0
    ensures Three(a, b, d) / 0x1_0000 == a && Three(a, b, d) / 0x100 == a * 0x100 + b
  {
    ModUnique(Three(0, b, d), a, 0x1_0000, Three(a, b, d));
    ModUnique(d, a * 0x100 + b, 0x100, Three(a, b, d));
  }

  lemma OneByte(s: seq<Byte>)
    requires |s| == 1
    ensures BytesValue(s) == s[0]
  {
    assert s == [] + [s[0]];
    BytesSnoc([], s[0]);
  }

  lemma TwoBytes(s: seq<Byte>)
    requires |s| == 2
    ensures BytesValue(s) == Three(0, s[0], s[1])
  {
    assert s == ([] + [s[0]]) + [s[1]];
    OneByte([] + [s[0]]);
    BytesSnoc([] + [s[0]], s[1]);
  }

  // ----- base_uint: the shift implementation on words

  method SetCompact(pn: array<Word>, c: Word)
    requires pn.Length >= 2
    modifies pn
    ensures Num(pn) == Decode(c) % Weight(pn.Length)
  {
    var n := c / SIZE_UNIT;
    var w := c % SIGN;
    SmallPowers();
    if n <= 3 {
      DivLe(w, Pow2(8 * (3 - n)));
      AssignWord(pn, w / Pow2(8 * (3 - n)));
      ValueBound(pn[..]);
      ModUnique(Num(pn), 0, Weight(pn.Length), Num(pn));
    } else {
      AssignWord(pn, w);
      ShiftLeft(pn, 8 * (n - 3));
    }
  }

  method AssignWord(pn: array<Word>, w: Word)
    requires pn.Length >= 2
    modifies pn
    ensures Num(pn) == w
  {
    ZeroWords(pn);
    ValueZeros(pn[..]);
    ghost var s := pn[..];
    pn[0] := w;
    assert pn[..] == s[0 := w];
    ValueUpdate(s, 0, w, w);
    assert Weight(0) == 1;
  }

  /** The encoder; widths up to 2032 bits keep the size byte in range. */
  method GetCompact(pn: array<Word>) returns (c: nat)
    requires 2 <= pn.Length < 64
    ensures c == Encode(Num(pn)) && c < BASE
  {
    var nBits := Bits(pn);
    BitLenIs(Num(pn));
    BitLengthUnique(Num(pn), nBits, BitLen(Num(pn)));
    var nSize := (nBits + 7) / 8 + (if nBits % 8 == 0 then 1 else 0);
    MantissaBounds(Num(pn));
    var w := MantissaWord(pn, nSize);
    PackSize(w, nSize);
    c := Or(w, nSize * SIZE_UNIT);
  }

  lemma PackSize(w: nat, n: nat)
    requires w < SIGN && n < 0x100
    ensures Or(w, n * SIZE_UNIT) == w + n * SIZE_UNIT < BASE
  {
    SmallPowers();
    ModUnique(0, n, SIZE_UNIT, n * SIZE_UNIT);
    OrDisjoint(w, n * SIZE_UNIT, 24);
  }

  method MantissaWord(pn: array<Word>, nSize: nat) returns (w: nat)
    requires pn.Length >= 2
    requires nSize == Size(Num(pn))
    ensures w == Mantissa(Num(pn))
  {
    MantissaBounds(Num(pn));
    if nSize <= 3 {
      SmallPowers();
      SizeIs(Num(pn), nSize);
      Pow2Mono(8 * nSize - 1, 23);
      LowWord(pn[..]);
      w := pn[0] * Pow2(8 * (3 - nSize));
    } else {
      var bn := Clone(pn);
      ShiftRight(bn, 8 * (nSize - 3));
      LowWord(bn[..]);
      w := bn[0];
    }
  }

  /** Below 2^32 the lowest word is the number, and so is the low double word the code reads. */
  lemma LowWord(s: seq<Word>)
    requires |s| >= 2 && Value(s) < BASE
    ensures s[0] == Value(s) && s[1] == 0
  {
    LowestWord(s);
    ValueZeros(s[1..]);
    assert s[1..][0] == s[1];
  }
}
