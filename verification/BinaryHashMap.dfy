/**
  `BinaryHashMap` on bytes: the bucket counters in memory and in the index file, and one
  slot per bucket in every hashmap file.
 */
module BinaryHashMap {
  import opened Wrappers
  import opened Store
  import opened ByteFile
  import C = Chain
  import Words
  import opened Keychain

  // ----- key compression

  /** Exclusive or of the lowest `n` bits. */
  function XorBits(a: nat, b: nat, n: nat): (c: nat)
    ensures c < Words.Pow2(n)
  {
    if n == 0 then 0 else (if a % 2 == b % 2 then 0 else 1) + 2 * XorBits(a / 2, b / 2, n - 1)
  }

  function Xor(a: Byte, b: Byte): (c: Byte)
  {
    assert Words.Pow2(8) == 0x100;
    XorBits(a, b, 8)
  }

  /** One round: each byte of the first half is combined with the byte at twice its position. */
  function Folded(v: Bytes): (r: Bytes)
    ensures |r| == |v|
  {
    seq(|v|, i requires 0 <= i < |v| => if i < |v| / 2 then Xor(v[i], v[2 * i]) else v[i])
  }

  function Compressed(v: Bytes, nSize: nat): (r: Bytes)
    requires nSize > 0
    ensures |r| == if |v| > nSize then nSize else |v|
    decreases |v|
  {
    if |v| <= nSize then v
    else
      var n := |v| / 2 % 0x1_0000;
      Compressed(Folded(v)[..if n > nSize then n else nSize], nSize)
  }

  /** Every compressed key starts with a zero byte: the first byte is combined with itself. */
  lemma {:induction false} CompressedStart(v: Bytes, nSize: nat)
    requires 0 < nSize < |v|
    ensures Compressed(v, nSize)[0] == 0
    decreases |v|
  {
    var n := |v| / 2 % 0x1_0000;
    var w := Folded(v)[..if n > nSize then n else nSize];
    XorSelf(v[0], 8);
    assert w[0] == Xor(v[0], v[0]);
    if |w| > nSize {
      CompressedStart(w, nSize);
    }
  }

  function Bit(a: nat, i: nat): (b: nat)
    ensures b < 2
  {
    if i == 0 then a % 2 else Bit(a / 2, i - 1)
  }

  /** A bit is set when it is set in one of the two. */
  lemma {:induction false} XorBit(a: nat, b: nat, n: nat, i: nat)
    requires i < n
    ensures Bit(XorBits(a, b, n), i) == 1 <==> Bit(a, i) != Bit(b, i)
  {
    if i > 0 {
      XorBit(a / 2, b / 2, n - 1, i - 1);
    }
  }

  lemma {:induction false} XorSelf(a: nat, n: nat)
    ensures XorBits(a, a, n) == 0
  {
    if n > 0 {
      XorSelf(a / 2, n - 1);
    }
  }

  lemma {:induction false} XorDiffers(a: nat, b: nat, x: nat, n: nat)
    requires b < Words.Pow2(n) && x < Words.Pow2(n) && b != x
    ensures XorBits(a, b, n) != XorBits(a, x, n) && XorBits(b, a, n) != XorBits(x, a, n)
  {
    if n > 0 && b % 2 == x % 2 {
      XorDiffers(a / 2, b / 2, x / 2, n - 1);
    }
  }

  /** A key of 64 bytes becomes its first 32 bytes, each combined with the byte at twice its position. */
  lemma Compressed64(v: Bytes)
    requires |v| == 64
    ensures |Compressed(v, 32)| == 32 && forall i | 0 <= i < 32 :: Compressed(v, 32)[i] == Xor(v[i], v[2 * i])
  {
    hide Xor, Compressed;
    FoldedOnce(v, 32);
  }

  /** A key of twice the size is folded once. */
  lemma FoldedOnce(v: Bytes, n: nat)
    requires 0 < n < 0x8000 && |v| == 2 * n
    ensures Compressed(v, n) == Folded(v)[..n]
  {
    hide Folded;
    CompressedShort(Folded(v)[..n], n);
    assert |v| / 2 % 0x1_0000 == n;
  }

  lemma CompressedShort(v: Bytes, n: nat)
    requires 0 < n && |v| <= n
    ensures Compressed(v, n) == v
  {
  }

  /** Bit by bit: a bit is set when it is set in one of the two bytes. */
  lemma CompressedBit(v: Bytes, i: nat, j: nat)
    requires |v| == 64 && i < 32 && j < 8
    ensures |Compressed(v, 32)| == 32
    ensures Bit(Compressed(v, 32)[i], j) == 1 <==> Bit(v[i], j) != Bit(v[2 * i], j)
  {
    hide Compressed, XorBits, Bit;
    Compressed64(v);
    XorBit(v[i], v[2 * i], 8, j);
  }

  lemma OtherXor(a: Byte, b: Byte, x: Byte)
    requires b != x
    ensures Xor(a, b) != Xor(a, x) && Xor(b, a) != Xor(x, a)
  {
    assert Words.Pow2(8) == 0x100;
    hide XorBits;
    XorDiffers(a, b, x, 8);
  }

  /** One byte of a key of 64 bytes tells in its compressed form unless it is the first, or an odd one of the second half. */
  lemma ByteTells(v: Bytes, p: nat, x: Byte)
    requires |v| == 64 && p < 64 && x != v[p]
    ensures Compressed(v[p := x], 32) != Compressed(v, 32) <==> p > 0 && (p < 32 || p % 2 == 0)
  {
    hide Compressed, Xor;
    var w := v[p := x];
    Compressed64(v);
    Compressed64(w);
    if 0 < p < 32 {
      OtherXor(v[2 * p], v[p], x);
      assert w[2 * p] == v[2 * p];
      assert Compressed(w, 32)[p] != Compressed(v, 32)[p];
    } else if p > 0 && p % 2 == 0 {
      OtherXor(v[p / 2], v[p], x);
      assert w[p / 2] == v[p / 2] && 2 * (p / 2) == p;
      assert Compressed(w, 32)[p / 2] != Compressed(v, 32)[p / 2];
    } else {
      SelfXor(v[0]);
      SelfXor(w[0]);
      assert Compressed(w, 32) == Compressed(v, 32);
    }
  }

  lemma SelfXor(a: Byte)
    ensures Xor(a, a) == 0
  {
    XorSelf(a, 8);
  }

  method CompressKey(vKey: Bytes, nSize: nat) returns (vData: Bytes)
    requires 0 < nSize
    ensures vData == Compressed(vKey, nSize)
  {
    hide Xor;
    vData := vKey;
    while |vData| > nSize
      invariant Compressed(vData, nSize) == Compressed(vKey, nSize)
      decreases |vData|
    {
      ghost var v := vData;
      var nSize2 := |vData| / 2;
      var i := 0;
      while i < nSize2
        invariant 0 <= i <= nSize2 && |vData| == |v|
        invariant forall k | 0 <= k < i :: vData[k] == Xor(v[k], v[2 * k])
        invariant forall k | i <= k < |v| :: vData[k] == v[k]
      {
        vData := vData[i := Xor(vData[i], vData[2 * i])];
        i := i + 1;
      }
      assert vData == Folded(v);
      vData := vData[..if nSize2 % 0x1_0000 > nSize then nSize2 % 0x1_0000 else nSize];
    }
  }

  // ----- slots in files

  function SlotAt(files: seq<Bytes>, i: nat, b: nat): (r: Slot)
    requires i < |files| && HASHMAP_KEY_ALLOCATION * (b + 1) <= |files[i]|
  {
    files[i][HASHMAP_KEY_ALLOCATION * b..HASHMAP_KEY_ALLOCATION * (b + 1)]
  }

  ghost predicate FilesOf(files: seq<Bytes>, n: nat)
  {
    forall i | 0 <= i < |files| :: |files[i]| == HASHMAP_KEY_ALLOCATION * n
  }

  function WriteSlot(files: seq<Bytes>, i: nat, b: nat, k: ShortKey, h: Header): (files': seq<Bytes>)
    requires i < |files| && HASHMAP_KEY_ALLOCATION * (b + 1) <= |files[i]|
  {
    files[i := Splice(files[i], HASHMAP_KEY_ALLOCATION * b, h + k)]
  }

  /** A write changes the one slot and no other. */
  lemma WriteSlotOnly(files: seq<Bytes>, n: nat, i: nat, b: nat, k: ShortKey, h: Header)
    requires FilesOf(files, n) && i < |files| && b < n
    ensures var files' := WriteSlot(files, i, b, k, h);
            && FilesOf(files', n) && |files'| == |files|
            && forall j, a | 0 <= j < |files| && 0 <= a < n ::
                 SlotAt(files', j, a) == if j == i && a == b then Written(SlotAt(files, i, b), k, h) else SlotAt(files, j, a)
  {
    hide Splice, Written;
    var files' := WriteSlot(files, i, b, k, h);
    SlotPlaced(files[i], n, b, b, k, h);
    forall j, a | 0 <= j < |files| && 0 <= a < n
      ensures SlotAt(files', j, a) == if j == i && a == b then Written(SlotAt(files, i, b), k, h) else SlotAt(files, j, a)
    {
      if j == i {
        SlotPlaced(files[i], n, b, a, k, h);
      }
    }
  }

  /** A slot of a file after header and key were written to one of its slots. */
  lemma SlotPlaced(f: Bytes, n: nat, b: nat, a: nat, k: ShortKey, h: Header)
    requires |f| == HASHMAP_KEY_ALLOCATION * n && b < n && a < n
    ensures var f', p := Splice(f, HASHMAP_KEY_ALLOCATION * b, h + k), HASHMAP_KEY_ALLOCATION * a;
            && |f'| == |f|
            && f'[p..p + HASHMAP_KEY_ALLOCATION] == if a == b then Written(f[p..p + HASHMAP_KEY_ALLOCATION], k, h)
                                                    else f[p..p + HASHMAP_KEY_ALLOCATION]
  {
  }

  lemma WrittenZeros(r: Slot)
    ensures Written(r, Zeros(HASHMAP_MAX_KEY_SIZE), Zeros(HEADER)) == Zeros(HASHMAP_KEY_ALLOCATION)
  {
  }

  ghost function ChainOf(files: seq<Bytes>, n: nat, b: nat, count: nat): (c: seq<Slot>)
    requires FilesOf(files, n) && b < n && count <= |files|
    ensures |c| == count && forall i | 0 <= i < count :: c[i] == SlotAt(files, i, b)
  {
    seq(count, i requires 0 <= i < count => SlotAt(files, i, b))
  }

  /** Slots that no counter reaches are zero. */
  ghost predicate Blank(files: seq<Bytes>, n: nat, counts: seq<nat>)
    requires FilesOf(files, n) && |counts| == n
  {
    forall i, b | 0 <= b < n && counts[b] <= i < |files| :: SlotAt(files, i, b) == Zeros(HASHMAP_KEY_ALLOCATION)
  }

  lemma ExtendChain(files: seq<Bytes>, n: nat, counts: seq<nat>, b: nat, k: ShortKey, h: Header)
    requires FilesOf(files, n) && |counts| == n && Blank(files, n, counts) && b < n && counts[b] < |files|
    requires forall a | 0 <= a < n :: counts[a] <= |files|
    ensures var files' := WriteSlot(files, counts[b], b, k, h);
            && FilesOf(files', n) && |files'| == |files| && Blank(files', n, counts[b := counts[b] + 1])
            && ChainOf(files', n, b, counts[b] + 1)
               == ChainOf(files, n, b, counts[b]) + [Written(Zeros(HASHMAP_KEY_ALLOCATION), k, h)]
            && forall a | 0 <= a < n && a != b :: ChainOf(files', n, a, counts[a]) == ChainOf(files, n, a, counts[a])
  {
    WriteSlotOnly(files, n, counts[b], b, k, h);
    hide WriteSlot, SlotAt, Written;
    assert SlotAt(files, counts[b], b) == Zeros(HASHMAP_KEY_ALLOCATION);
  }

  /** The index file holds the counter of every bucket in two bytes. */
  ghost predicate Indexed(index: Bytes, counts: seq<nat>)
  {
    && 2 * |counts| <= |index|
    && forall b | 0 <= b < |counts| :: counts[b] <= 0x7fff && index[2 * b..2 * b + 2] == LittleEndian(counts[b], 2)
  }

  lemma IndexUpdate(index: Bytes, counts: seq<nat>, b: nat, n: nat)
    requires Indexed(index, counts) && b < |counts| && n <= 0x7fff
    ensures Indexed(Splice(index, 2 * b, LittleEndian(n, 2)), counts[b := n])
  {
    var index' := Splice(index, 2 * b, LittleEndian(n, 2));
    forall a | 0 <= a < |counts|
      ensures index'[2 * a..2 * a + 2] == LittleEndian(counts[b := n][a], 2)
    {
      if a != b {
        assert index'[2 * a..2 * a + 2] == index[2 * a..2 * a + 2];
      }
    }
  }

  lemma ZeroCounter()
    ensures LittleEndian(0, 2) == [0, 0]
  {
    assert LittleEndian(0, 1) == [0] + LittleEndian(0, 0);
  }

  /** Header and key stand in a file at `p`. */
  predicate EntryAt(f: Bytes, p: nat, h: Header, k: ShortKey)
  {
    p + 45 <= |f| && f[p..p + 13] == h && f[p + 13..p + 13 + |k|] == k
  }

  lemma Slice(f: Bytes, p: nat, q: nat, a: nat, b: nat)
    requires p <= q <= |f| && a <= b <= q - p
    ensures f[p..q][a..b] == f[p + a..p + b]
  {
    var s, t := f[p..q][a..b], f[p + a..p + b];
    assert |s| == |t| && forall i | 0 <= i < |s| :: s[i] == t[i];
  }

  lemma SlotEntry(f: Bytes, b: nat, k: ShortKey, h: Header, w: Slot)
    requires 45 * (b + 1) <= |f| && f[45 * b..45 * (b + 1)] == w && w[..13] == h && w[13..13 + |k|] == k
    ensures EntryAt(f, 45 * b, h, k)
  {
    var p := 45 * b;
    Slice(f, p, p + 45, 0, 13);
    Slice(f, p, p + 45, 13, 13 + |k|);
  }

  class BinaryHashMap {
    const HASHMAP_TOTAL_BUCKETS: nat
    /** XXH64 over the key bytes. */
    const hash: Key -> nat
    const hashmap: array<nat>
    var files: seq<Bytes>
    var index: Bytes

    ghost predicate Valid()
      reads this, hashmap
    {
      && hashmap.Length == HASHMAP_TOTAL_BUCKETS > 0
      && HASHMAP_TOTAL_BUCKETS * HASHMAP_KEY_ALLOCATION < 0x1_0000_0000
      && FilesOf(files, HASHMAP_TOTAL_BUCKETS) && |files| > 0
      && (forall b | 0 <= b < hashmap.Length :: hashmap[b] <= |files|)
      && Blank(files, HASHMAP_TOTAL_BUCKETS, hashmap[..])
      && Indexed(index, hashmap[..])
    }

    ghost function Chain(b: nat): (c: seq<Slot>)
      requires Valid() && b < HASHMAP_TOTAL_BUCKETS
      reads this, hashmap
    {
      ChainOf(files, HASHMAP_TOTAL_BUCKETS, b, hashmap[b])
    }

    function GetBucket(vKey: Key): (b: nat)
      requires HASHMAP_TOTAL_BUCKETS > 0
      ensures b < HASHMAP_TOTAL_BUCKETS
    {
      hash(vKey) / 7 % HASHMAP_TOTAL_BUCKETS
    }

    /** A new keychain: an index of zeros and one empty hashmap file. */
    constructor (nBuckets: nat, hash: Key -> nat)
      requires 0 < nBuckets && nBuckets * HASHMAP_KEY_ALLOCATION < 0x1_0000_0000
      ensures Valid() && HASHMAP_TOTAL_BUCKETS == nBuckets && this.hash == hash && fresh(hashmap)
      ensures forall b | 0 <= b < nBuckets :: Chain(b) == []
      ensures |files| == 1 && |files[0]| == 45 * nBuckets && forall i | 0 <= i < |files[0]| :: files[0][i] == 0
    {
      HASHMAP_TOTAL_BUCKETS := nBuckets;
      this.hash := hash;
      hashmap := new nat[nBuckets](_ => 0);
      files := [Zeros(HASHMAP_KEY_ALLOCATION * nBuckets)];
      index := Zeros(4 * nBuckets);
      ZeroCounter();
    }

    /** Reopening loads every counter from the index file and finds the same chains. */
    constructor Reopen(m: BinaryHashMap)
      requires m.Valid()
      ensures Valid() && HASHMAP_TOTAL_BUCKETS == m.HASHMAP_TOTAL_BUCKETS && hash == m.hash && fresh(hashmap)
      ensures forall b | 0 <= b < HASHMAP_TOTAL_BUCKETS :: Chain(b) == m.Chain(b)
    {
      HASHMAP_TOTAL_BUCKETS := m.HASHMAP_TOTAL_BUCKETS;
      hash := m.hash;
      hashmap := new nat[m.HASHMAP_TOTAL_BUCKETS](_ => 0);
      files := m.files;
      index := m.index;
      new;
      var nBucket := 0;
      while nBucket < HASHMAP_TOTAL_BUCKETS
        invariant 0 <= nBucket <= HASHMAP_TOTAL_BUCKETS
        invariant forall b | 0 <= b < nBucket :: hashmap[b] == m.hashmap[b]
        invariant index == m.index && files == m.files
      {
        assert m.hashmap[..][nBucket] == m.hashmap[nBucket];
        LittleEndianRoundTrip(m.hashmap[nBucket], 2);
        hashmap[nBucket] := FromLittleEndian(index[2 * nBucket..2 * nBucket + 2]);
        nBucket := nBucket + 1;
      }
      assert hashmap[..] == m.hashmap[..];
    }

    /** The newest ready slot that holds the compressed key. */
    method Get(vKey: Key) returns (r: Option<Header>)
      requires Valid()
      ensures r == Keychain.Get(Chain(GetBucket(vKey)), Compressed(vKey, HASHMAP_MAX_KEY_SIZE))
    {
      hide SlotAt, Matches, C.Newest, Written, Compressed, Zeros, Blank, Indexed;
      var nBucket := GetBucket(vKey);
      ghost var c := Chain(nBucket);
      var vKeyCompressed := CompressKey(vKey, HASHMAP_MAX_KEY_SIZE);
      var i: int := hashmap[nBucket];
      i := i - 1;
      while i >= 0
        invariant -1 <= i < |c|
        invariant forall j | i < j < |c| :: !Live(vKeyCompressed)(c[j])
      {
        var vBucket := SlotAt(files, i, nBucket);
        if Matches(vBucket, vKeyCompressed) && Ready(vBucket) {
          C.NewestIs(c, Live(vKeyCompressed), i);
          return Some(HeaderOf(vBucket));
        }
        i := i - 1;
      }
      C.NewestIs(c, Live(vKeyCompressed), -1);
      return None;
    }

    /** Overwrite one slot of a chain. */
    method Store(i: nat, nBucket: nat, k: ShortKey, h: Header)
      requires Valid() && nBucket < HASHMAP_TOTAL_BUCKETS && i < hashmap[nBucket]
      modifies this`files
      ensures Valid()
      ensures Chain(nBucket) == old(Chain(nBucket))[i := Written(old(Chain(nBucket))[i], k, h)]
      ensures forall b | 0 <= b < HASHMAP_TOTAL_BUCKETS && b != nBucket :: Chain(b) == old(Chain(b))
    {
      WriteSlotOnly(files, HASHMAP_TOTAL_BUCKETS, i, nBucket, k, h);
      hide WriteSlot, SlotAt;
      files := WriteSlot(files, i, nBucket, k, h);
    }

    method Put(vKey: Key, h: Header)
      requires Valid() && hashmap[GetBucket(vKey)] < 0x7fff
      modifies this`files, this`index, hashmap
      ensures Valid()
      ensures Chain(GetBucket(vKey)) == Keychain.Put(old(Chain(GetBucket(vKey))), Compressed(vKey, HASHMAP_MAX_KEY_SIZE), h)
      ensures forall b | 0 <= b < HASHMAP_TOTAL_BUCKETS && b != GetBucket(vKey) :: Chain(b) == old(Chain(b))
      ensures exists i :: 0 <= i < |files| && EntryAt(files[i], 45 * (hash(vKey) / 7 % HASHMAP_TOTAL_BUCKETS), h, Compressed(vKey, 32))
    {
      PutBytes(vKey, h);
      PutPlace(GetBucket(vKey), old(Chain(GetBucket(vKey))), Compressed(vKey, 32), h);
    }

    /** The chain after a write has header and key in some file, at the bucket's place. */
    lemma PutPlace(b: nat, c: seq<Slot>, k: ShortKey, h: Header)
      requires Valid() && b < HASHMAP_TOTAL_BUCKETS && Chain(b) == Keychain.Put(c, k, h)
      ensures exists i :: 0 <= i < |files| && EntryAt(files[i], 45 * b, h, k)
    {
      var i := C.Newest(c, Usable(k));
      var n := if i < 0 then |c| else i;
      var w := Written(if i < 0 then Zeros(HASHMAP_KEY_ALLOCATION) else c[i], k, h);
      assert Chain(b)[n] == w && SlotAt(files, n, b) == w;
      hide C.Newest, Blank, Indexed;
      SlotEntry(files[n], b, k, h, w);
    }

    method PutBytes(vKey: Key, h: Header)
      requires Valid() && hashmap[GetBucket(vKey)] < 0x7fff
      modifies this`files, this`index, hashmap
      ensures Valid()
      ensures Chain(GetBucket(vKey)) == Keychain.Put(old(Chain(GetBucket(vKey))), Compressed(vKey, HASHMAP_MAX_KEY_SIZE), h)
      ensures forall b | 0 <= b < HASHMAP_TOTAL_BUCKETS && b != GetBucket(vKey) :: Chain(b) == old(Chain(b))
    {
      hide SlotAt, Matches, C.Newest, Written, Compressed, Zeros, Blank, Indexed;
      var nBucket := GetBucket(vKey);
      ghost var c := Chain(nBucket);
      var vKeyCompressed := CompressKey(vKey, HASHMAP_MAX_KEY_SIZE);
      var i: int := hashmap[nBucket];
      i := i - 1;
      while i >= 0
        invariant -1 <= i < |c|
        invariant forall j | i < j < |c| :: !Usable(vKeyCompressed)(c[j])
      {
        var vBucket := SlotAt(files, i, nBucket);
        if Empty(vBucket) || Matches(vBucket, vKeyCompressed) {
          C.NewestIs(c, Usable(vKeyCompressed), i);
          Store(i, nBucket, vKeyCompressed, h);
          return;
        }
        i := i - 1;
      }
      C.NewestIs(c, Usable(vKeyCompressed), -1);
      Extend(nBucket, vKeyCompressed, h);
    }

    /** Add a slot to a chain, in a new hashmap file when the last one of the chain is the last file. */
    method Extend(nBucket: nat, k: ShortKey, h: Header)
      requires Valid() && nBucket < HASHMAP_TOTAL_BUCKETS && hashmap[nBucket] < 0x7fff
      modifies this`files, this`index, hashmap
      ensures Valid()
      ensures Chain(nBucket) == old(Chain(nBucket)) + [Written(Zeros(HASHMAP_KEY_ALLOCATION), k, h)]
      ensures forall b | 0 <= b < HASHMAP_TOTAL_BUCKETS && b != nBucket :: Chain(b) == old(Chain(b))
    {
      hide BinaryHashMap.Valid, BinaryHashMap.Chain, Written;
      CountersOf();
      if hashmap[nBucket] >= |files| {
        NewFile();
      }
      Occupy(nBucket, k, h);
    }

    lemma CountersOf()
      requires Valid()
      ensures hashmap.Length == HASHMAP_TOTAL_BUCKETS && forall b | 0 <= b < hashmap.Length :: hashmap[b] <= |files|
    {
    }

    /** Write the first slot behind a chain and count it, in memory and in the index file. */
    method Occupy(nBucket: nat, k: ShortKey, h: Header)
      requires Valid() && nBucket < HASHMAP_TOTAL_BUCKETS && hashmap[nBucket] < 0x7fff && hashmap[nBucket] < |files|
      modifies this`files, this`index, hashmap
      ensures Valid()
      ensures Chain(nBucket) == old(Chain(nBucket)) + [Written(Zeros(HASHMAP_KEY_ALLOCATION), k, h)]
      ensures forall b | 0 <= b < HASHMAP_TOTAL_BUCKETS && b != nBucket :: Chain(b) == old(Chain(b))
    {
      var n := hashmap[nBucket];
      ExtendChain(files, HASHMAP_TOTAL_BUCKETS, hashmap[..], nBucket, k, h);
      IndexUpdate(index, hashmap[..], nBucket, n + 1);
      assert 2 * nBucket <= |index|;
      hide WriteSlot, Indexed, Blank, Written;
      files := WriteSlot(files, n, nBucket, k, h);
      index := Splice(index, 2 * nBucket, LittleEndian(n + 1, 2));
      hashmap[nBucket] := n + 1;
      assert hashmap[..] == old(hashmap[..])[nBucket := n + 1];
    }

    method NewFile()
      requires Valid()
      modifies this`files
      ensures Valid() && |files| == |old(files)| + 1 && hashmap[..] == old(hashmap[..])
      ensures forall b | 0 <= b < HASHMAP_TOTAL_BUCKETS :: Chain(b) == old(Chain(b))
    {
      files := files + [Zeros(HASHMAP_KEY_ALLOCATION * HASHMAP_TOTAL_BUCKETS)];
      assert forall i, b | 0 <= i < |old(files)| && 0 <= b < HASHMAP_TOTAL_BUCKETS :: SlotAt(files, i, b) == SlotAt(old(files), i, b);
    }

    method Erase(vKey: Key) returns (ok: bool)
      requires Valid()
      modifies this`files
      ensures Valid()
      ensures Chain(GetBucket(vKey)) == Keychain.Erase(old(Chain(GetBucket(vKey))), Compressed(vKey, HASHMAP_MAX_KEY_SIZE))
      ensures ok <==> exists i :: 0 <= i < |old(Chain(GetBucket(vKey)))| && Matches(old(Chain(GetBucket(vKey)))[i], Compressed(vKey, HASHMAP_MAX_KEY_SIZE))
      ensures forall b | 0 <= b < HASHMAP_TOTAL_BUCKETS && b != GetBucket(vKey) :: Chain(b) == old(Chain(b))
    {
      hide SlotAt, Matches, C.Newest, Written, Compressed, Zeros, Blank, Indexed;
      var nBucket := GetBucket(vKey);
      ghost var c := Chain(nBucket);
      var vKeyCompressed := CompressKey(vKey, HASHMAP_MAX_KEY_SIZE);
      var i: int := hashmap[nBucket];
      i := i - 1;
      while i >= 0
        invariant -1 <= i < |c|
        invariant forall j | i < j < |c| :: !Holding(vKeyCompressed)(c[j])
      {
        var vBucket := SlotAt(files, i, nBucket);
        if Matches(vBucket, vKeyCompressed) {
          C.NewestIs(c, Holding(vKeyCompressed), i);
          Store(i, nBucket, Zeros(HASHMAP_MAX_KEY_SIZE), Zeros(HEADER));
          WrittenZeros(c[i]);
          return true;
        }
        i := i - 1;
      }
      C.NewestIs(c, Holding(vKeyCompressed), -1);
      return false;
    }
  }
}
