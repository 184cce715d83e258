/**
  `BinaryHashTree` on bytes: one file per tree position, one slot per bucket in each.
*/
module BinaryHashTree {
  import opened Wrappers
  import opened Store
  import opened ByteFile
  import opened Keychain
  import opened SearchTree
  import opened Words
  import BinaryHashMap

  const BLANK: Byte := 0xff

  function Blanks(n: nat): (s: Bytes)
    ensures |s| == n
  {
    seq(n, _ => BLANK)
  }

  function SlotIn(f: Bytes, b: nat): (r: Slot)
    requires HASHMAP_KEY_ALLOCATION * (b + 1) <= |f|
  {
    f[HASHMAP_KEY_ALLOCATION * b..HASHMAP_KEY_ALLOCATION * (b + 1)]
  }

  function NodeOf(r: Slot): (n: Node)
  {
    Node(r[HEADER..], r[..HEADER])
  }

  ghost predicate FilesOf(files: map<nat, Bytes>, n: nat)
  {
    0 !in files && forall i | i in files :: |files[i]| == HASHMAP_KEY_ALLOCATION * n
  }

  /** The occupied positions of a bucket; a missing file is free like a blank slot. */
  ghost function TreeOf(files: map<nat, Bytes>, n: nat, b: nat): (t: Tree)
    requires FilesOf(files, n) && b < n
  {
    map i | i in files && SlotIn(files[i], b) != Blanks(HASHMAP_KEY_ALLOCATION) :: NodeOf(SlotIn(files[i], b))
  }

  lemma SlotWrite(f: Bytes, n: nat, b: nat, k: FullKey, h: Header)
    requires |f| == HASHMAP_KEY_ALLOCATION * n && b < n
    ensures var f' := Splice(f, HASHMAP_KEY_ALLOCATION * b, h + k);
            |f'| == |f| && SlotIn(f', b) == h + k && forall a | 0 <= a < n && a != b :: SlotIn(f', a) == SlotIn(f, a)
  {
    var f' := Splice(f, HASHMAP_KEY_ALLOCATION * b, h + k);
    forall a | 0 <= a < n && a != b
      ensures SlotIn(f', a) == SlotIn(f, a)
    {
    }
  }

  /** Writing a slot adds or replaces the node of one bucket at one position. */
  lemma TreeWrite(files: map<nat, Bytes>, n: nat, b: nat, i: nat, k: FullKey, h: Header)
    requires FilesOf(files, n) && i in files && b < n && h[0] == READY
    ensures var files' := files[i := Splice(files[i], HASHMAP_KEY_ALLOCATION * b, h + k)];
            && FilesOf(files', n)
            && TreeOf(files', n, b) == TreeOf(files, n, b)[i := Node(k, h)]
            && forall a | 0 <= a < n && a != b :: TreeOf(files', n, a) == TreeOf(files, n, a)
  {
    hide Splice, SlotIn;
    SlotWrite(files[i], n, b, k, h);
    NodeBytes(h, k);
    var files' := files[i := Splice(files[i], HASHMAP_KEY_ALLOCATION * b, h + k)];
    forall a | 0 <= a < n
      ensures TreeOf(files', n, a) == if a == b then TreeOf(files, n, a)[i := Node(k, h)] else TreeOf(files, n, a)
    {
      SlotChange(files, files', n, i, a, if a == b then Some(Node(k, h)) else None);
    }
  }

  /** The bytes of a node, which are not blank. */
  lemma NodeBytes(h: Header, k: FullKey)
    requires h[0] == READY
    ensures h + k != Blanks(HASHMAP_KEY_ALLOCATION) && NodeOf(h + k) == Node(k, h)
  {
    assert (h + k)[0] == READY;
  }

  /** The tree after one slot of one file was written, or none of the bucket's. */
  lemma SlotChange(files: map<nat, Bytes>, files': map<nat, Bytes>, n: nat, i: nat, a: nat, x: Option<Node>)
    requires FilesOf(files, n) && FilesOf(files', n) && a < n && i in files && files'.Keys == files.Keys
    requires forall j | j in files && j != i :: files'[j] == files[j]
    requires var r := SlotIn(files'[i], a);
             if x.None? then r == SlotIn(files[i], a) else r != Blanks(HASHMAP_KEY_ALLOCATION) && NodeOf(r) == x.value
    ensures TreeOf(files', n, a) == if x.None? then TreeOf(files, n, a) else TreeOf(files, n, a)[i := x.value]
  {
    hide NodeOf, SlotIn;
  }

  lemma TreeNewFile(files: map<nat, Bytes>, n: nat, i: nat)
    requires FilesOf(files, n) && i !in files && i > 0
    ensures var files' := files[i := Blanks(HASHMAP_KEY_ALLOCATION * n)];
            FilesOf(files', n) && forall b | 0 <= b < n :: TreeOf(files', n, b) == TreeOf(files, n, b)
  {
    var files' := files[i := Blanks(HASHMAP_KEY_ALLOCATION * n)];
    forall b | 0 <= b < n
      ensures TreeOf(files', n, b) == TreeOf(files, n, b)
    {
      assert SlotIn(files'[i], b) == Blanks(HASHMAP_KEY_ALLOCATION);
    }
  }

  /** The byte-wise comparison loop. */
  method CompareBytes(a: Bytes, b: Bytes) returns (n: int)
    requires |a| == |b|
    ensures n == Compare(a, b)
  {
    var i := 0;
    while i < |a|
      invariant 0 <= i <= |a|
      invariant Compare(a, b) == Compare(a[i..], b[i..])
    {
      if a[i] != b[i] {
        var x: int, y: int := a[i], b[i];
        return x - y;
      }
      assert a[i..][1..] == a[i + 1..] && b[i..][1..] == b[i + 1..];
      i := i + 1;
    }
    return 0;
  }

  /** Where a walk stands: the position after `d` steps. */
  ghost predicate OnWalk(t: Tree, k: FullKey, i: nat, d: nat)
    requires i > 0
  {
    && Walk(t, k, i) == Walk(t, k, 1)
    && d + Steps(t, k, i) == Steps(t, k, 1)
    && i < Pow2(d + 1)
  }

  /** The next position: it fits 32 bits while the bucket has at most 31 keys. */
  lemma NextOnWalk(t: Tree, k: FullKey, i: nat, d: nat)
    requires i > 0 && OnWalk(t, k, i, d) && i in t && t[i].key != k && |t| <= 31
    ensures var j := Child(i, Compare(t[i].key, k) > 0);
            OnWalk(t, k, j, d + 1) && j < 0x1_0000_0000 && Steps(t, k, j) < Steps(t, k, i)
  {
    var j := Child(i, Compare(t[i].key, k) > 0);
    FromShrinks(t, i, j);
    WalkLength(t, k);
    Pow2Mono(d + 2, 32);
    Pow2Of32();
  }

  /** What the slot at a position says about the tree. */
  lemma NodeAt(files: map<nat, Bytes>, n: nat, b: nat, i: nat, k: FullKey)
    requires FilesOf(files, n) && b < n
    ensures var t := TreeOf(files, n, b);
            if i !in files then i !in t
            else
              var r := SlotIn(files[i], b);
              && (r == Blanks(HASHMAP_KEY_ALLOCATION) <==> i !in t)
              && (i !in t ==> !Ready(r))
              && (i in t ==> t[i] == Node(r[HEADER..], HeaderOf(r)) && (Ready(r) <==> t[i].header[0] == READY))
  {
  }

  lemma WalkStart(t: Tree, k: FullKey)
    ensures OnWalk(t, k, 1, 0)
  {
  }

  lemma Stops(t: Tree, k: FullKey, i: nat, d: nat)
    requires i > 0 && OnWalk(t, k, i, d) && (i !in t || t[i].key == k)
    ensures Walk(t, k, 1) == i
  {
  }

  class BinaryHashTree {
    const HASHMAP_TOTAL_BUCKETS: nat
    /** XXH64 over the key bytes. */
    const hash: Key -> nat
    var files: map<nat, Bytes>

    ghost predicate Valid()
      reads this
    {
      && HASHMAP_TOTAL_BUCKETS > 0 && HASHMAP_TOTAL_BUCKETS * HASHMAP_KEY_ALLOCATION < 0x1_0000_0000
      && FilesOf(files, HASHMAP_TOTAL_BUCKETS)
    }

    ghost function Bucket(b: nat): (t: Tree)
      requires Valid() && b < HASHMAP_TOTAL_BUCKETS
      reads this
    {
      TreeOf(files, HASHMAP_TOTAL_BUCKETS, b)
    }

    function GetBucket(vKey: Key): (b: nat)
      requires HASHMAP_TOTAL_BUCKETS > 0
      ensures b < HASHMAP_TOTAL_BUCKETS
    {
      hash(vKey) % HASHMAP_TOTAL_BUCKETS
    }

    constructor (nBuckets: nat, hash: Key -> nat)
      requires 0 < nBuckets && nBuckets * HASHMAP_KEY_ALLOCATION < 0x1_0000_0000
      ensures Valid() && HASHMAP_TOTAL_BUCKETS == nBuckets && this.hash == hash
      ensures forall b | 0 <= b < nBuckets :: Bucket(b) == map[]
      ensures files.Keys == {1} && |files[1]| == 45 * nBuckets && forall i | 0 <= i < |files[1]| :: files[1][i] == 255
    {
      HASHMAP_TOTAL_BUCKETS := nBuckets;
      this.hash := hash;
      files := map[1 := Blanks(HASHMAP_KEY_ALLOCATION * nBuckets)];
      new;
      TreeNewFile(map[], nBuckets, 1);
    }

    method Get(vKey: Key) returns (r: Option<Header>)
      requires Valid() && |vKey| >= HASHMAP_MAX_KEY_SIZE && |Bucket(GetBucket(vKey))| <= 31
      ensures r == SearchTree.Get(Bucket(GetBucket(vKey)), BinaryHashMap.Compressed(vKey, HASHMAP_MAX_KEY_SIZE))
    {
      hide TreeOf, SlotIn, Walk, Steps, OnWalk, Ready, HeaderOf, BinaryHashMap.Compressed;
      var nBucket := GetBucket(vKey);
      ghost var t := Bucket(nBucket);
      var vKeyCompressed := BinaryHashMap.CompressKey(vKey, HASHMAP_MAX_KEY_SIZE);
      var i := 1;
      ghost var d := 0;
      WalkStart(t, vKeyCompressed);
      while true
        invariant i > 0 && OnWalk(t, vKeyCompressed, i, d)
        decreases Steps(t, vKeyCompressed, i)
      {
        NodeAt(files, HASHMAP_TOTAL_BUCKETS, nBucket, i, vKeyCompressed);
        if i !in files {
          Stops(t, vKeyCompressed, i, d);
          return None;
        }
        var vBucket := SlotIn(files[i], nBucket);
        var nCompare := CompareBytes(vBucket[HEADER..], vKeyCompressed);
        if nCompare == 0 {
          Stops(t, vKeyCompressed, i, d);
          if !Ready(vBucket) {
            return None;
          }
          return Some(HeaderOf(vBucket));
        } else if vBucket == Blanks(HASHMAP_KEY_ALLOCATION) {
          Stops(t, vKeyCompressed, i, d);
          return None;
        }
        NextOnWalk(t, vKeyCompressed, i, d);
        i := i * 2 % 0x1_0000_0000;
        if nCompare > 0 {
          i := i + 1;
        }
        d := d + 1;
      }
    }

    method Put(vKey: Key, h: Header)
      requires Valid() && |vKey| >= HASHMAP_MAX_KEY_SIZE && |Bucket(GetBucket(vKey))| <= 31 && h[0] == READY
      modifies this`files
      ensures Valid()
      ensures Bucket(GetBucket(vKey)) == SearchTree.Put(old(Bucket(GetBucket(vKey))), BinaryHashMap.Compressed(vKey, HASHMAP_MAX_KEY_SIZE), h)
      ensures forall b | 0 <= b < HASHMAP_TOTAL_BUCKETS && b != GetBucket(vKey) :: Bucket(b) == old(Bucket(b))
      ensures exists i :: i in files && BinaryHashMap.EntryAt(files[i], 45 * (hash(vKey) % HASHMAP_TOTAL_BUCKETS), h, BinaryHashMap.Compressed(vKey, 32))
    {
      PutBytes(vKey, h);
      PutPlace(GetBucket(vKey), old(Bucket(GetBucket(vKey))), BinaryHashMap.Compressed(vKey, 32), h);
    }

    /** The tree after a write has header and key in some file, at the bucket's place. */
    lemma PutPlace(b: nat, t: Tree, k: FullKey, h: Header)
      requires Valid() && b < HASHMAP_TOTAL_BUCKETS && Bucket(b) == SearchTree.Put(t, k, h)
      ensures exists i :: i in files && BinaryHashMap.EntryAt(files[i], 45 * b, h, k)
    {
      hide Walk;
      var i := Walk(t, k, 1);
      assert Bucket(b)[i] == Node(k, h);
      var w := SlotIn(files[i], b);
      assert NodeOf(w) == Node(k, h);
      BinaryHashMap.SlotEntry(files[i], b, k, h, w);
    }

    method PutBytes(vKey: Key, h: Header)
      requires Valid() && |vKey| >= HASHMAP_MAX_KEY_SIZE && |Bucket(GetBucket(vKey))| <= 31 && h[0] == READY
      modifies this`files
      ensures Valid()
      ensures Bucket(GetBucket(vKey)) == SearchTree.Put(old(Bucket(GetBucket(vKey))), BinaryHashMap.Compressed(vKey, HASHMAP_MAX_KEY_SIZE), h)
      ensures forall b | 0 <= b < HASHMAP_TOTAL_BUCKETS && b != GetBucket(vKey) :: Bucket(b) == old(Bucket(b))
    {
      hide TreeOf, SlotIn, Splice, Walk, Steps, OnWalk, Ready, HeaderOf, BinaryHashMap.Compressed;
      var nBucket := GetBucket(vKey);
      ghost var t := Bucket(nBucket);
      var vKeyCompressed := BinaryHashMap.CompressKey(vKey, HASHMAP_MAX_KEY_SIZE);
      var i := 1;
      ghost var d := 0;
      WalkStart(t, vKeyCompressed);
      while true
        invariant i > 0 && OnWalk(t, vKeyCompressed, i, d)
        invariant Valid() && forall b | 0 <= b < HASHMAP_TOTAL_BUCKETS :: Bucket(b) == old(Bucket(b))
        decreases Steps(t, vKeyCompressed, i)
      {
        if i !in files {
          TreeNewFile(files, HASHMAP_TOTAL_BUCKETS, i);
          files := files[i := Blanks(HASHMAP_KEY_ALLOCATION * HASHMAP_TOTAL_BUCKETS)];
        }
        NodeAt(files, HASHMAP_TOTAL_BUCKETS, nBucket, i, vKeyCompressed);
        var vBucket := SlotIn(files[i], nBucket);
        var nCompare := CompareBytes(vBucket[HEADER..], vKeyCompressed);
        if nCompare == 0 || vBucket == Blanks(HASHMAP_KEY_ALLOCATION) {
          Stops(t, vKeyCompressed, i, d);
          TreeWrite(files, HASHMAP_TOTAL_BUCKETS, nBucket, i, vKeyCompressed, h);
          files := files[i := Splice(files[i], HASHMAP_KEY_ALLOCATION * nBucket, h + vKeyCompressed)];
          return;
        }
        NextOnWalk(t, vKeyCompressed, i, d);
        i := i * 2 % 0x1_0000_0000;
        if nCompare > 0 {
          i := i + 1;
        }
        d := d + 1;
      }
    }
  }
}
