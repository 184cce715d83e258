/**
  The keychain's buckets as the database has them, with positions in the sector files,
  beside the buckets of the record store, with sector numbers.
 */
module SectorKeys {
  import opened Wrappers
  import opened Store
  import Chain

  /** Where a record lies; the bare key entry is all zeros. */
  datatype SectorKey = SectorKey(file: nat, start: nat, size: nat)

  const BareKey := SectorKey(0, 0, 0)

  type Slots = seq<Chain.Cell<Key, SectorKey>>

  predicate Located(layout: seq<SectorKey>, r: Ref, k: SectorKey)
  {
    if r.KeyOnly? then k == BareKey else r.id < |layout| && k == layout[r.id]
  }

  predicate SameCell(layout: seq<SectorKey>, x: Chain.Cell<Key, Ref>, y: Chain.Cell<Key, SectorKey>)
  {
    (x.Free? <==> y.Free?) && (x.Held? ==> x.key == y.key && Located(layout, x.value, y.value))
  }

  /** Slot by slot the same keys, located in the files. */
  ghost predicate Mirrors(layout: seq<SectorKey>, c: seq<Chain.Cell<Key, Ref>>, d: Slots)
  {
    |c| == |d| && forall i | 0 <= i < |c| :: SameCell(layout, c[i], d[i])
  }

  ghost predicate AllMirror(layout: seq<SectorKey>, chains: Chains, keychain: map<nat, Slots>)
  {
    keychain.Keys == chains.Keys && forall b | b in keychain :: Mirrors(layout, chains[b], keychain[b])
  }

  lemma SameNewest(layout: seq<SectorKey>, c: seq<Chain.Cell<Key, Ref>>, d: Slots, k: Key)
    requires Mirrors(layout, c, d)
    ensures Chain.Newest(d, Chain.Holding(k)) == Chain.Newest(c, Chain.Holding(k))
    ensures Chain.Newest(d, Chain.Usable(k)) == Chain.Newest(c, Chain.Usable(k))
  {
    forall i | 0 <= i < |c|
      ensures Chain.Holds(d[i], k) <==> Chain.Holds(c[i], k)
      ensures d[i].Free? <==> c[i].Free?
    {
      assert SameCell(layout, c[i], d[i]);
    }
    Chain.NewestIs(d, Chain.Holding(k), Chain.Newest(c, Chain.Holding(k)));
    Chain.NewestIs(d, Chain.Usable(k), Chain.Newest(c, Chain.Usable(k)));
  }

  lemma FindMirrors(layout: seq<SectorKey>, c: seq<Chain.Cell<Key, Ref>>, d: Slots, k: Key)
    requires Mirrors(layout, c, d)
    ensures Chain.Find(d, k).Some? <==> Chain.Find(c, k).Some?
    ensures Chain.Find(c, k).Some? ==> Located(layout, Chain.Find(c, k).value, Chain.Find(d, k).value)
  {
    SameNewest(layout, c, d, k);
    var i := Chain.Newest(c, Chain.Holding(k));
    if i >= 0 {
      assert Chain.Holds(c[i], k) && Chain.Holds(d[i], k);
      assert SameCell(layout, c[i], d[i]);
    }
  }

  lemma PutMirrors(layout: seq<SectorKey>, c: seq<Chain.Cell<Key, Ref>>, d: Slots, k: Key, r: Ref, key: SectorKey)
    requires Mirrors(layout, c, d) && Located(layout, r, key)
    ensures Mirrors(layout, Chain.Put(c, k, r), Chain.Put(d, k, key))
  {
    SameNewest(layout, c, d, k);
  }

  lemma EraseMirrors(layout: seq<SectorKey>, c: seq<Chain.Cell<Key, Ref>>, d: Slots, k: Key)
    requires Mirrors(layout, c, d)
    ensures Mirrors(layout, Chain.Erase(c, k), Chain.Erase(d, k))
  {
    SameNewest(layout, c, d, k);
  }

  /** A bucket changes on both sides. */
  lemma MirrorUpdate(layout: seq<SectorKey>, chains: Chains, keychain: map<nat, Slots>, b: nat, c: seq<Chain.Cell<Key, Ref>>, d: Slots)
    requires AllMirror(layout, chains, keychain) && Mirrors(layout, c, d)
    ensures AllMirror(layout, chains[b := c], keychain[b := d])
  {
  }

  lemma CellGrow(layout: seq<SectorKey>, key: SectorKey, x: Chain.Cell<Key, Ref>, y: Chain.Cell<Key, SectorKey>)
    requires SameCell(layout, x, y)
    ensures SameCell(layout + [key], x, y)
  {
  }

  /** New sectors move no old one. */
  lemma MirrorGrow(layout: seq<SectorKey>, chains: Chains, keychain: map<nat, Slots>, key: SectorKey)
    requires AllMirror(layout, chains, keychain)
    ensures AllMirror(layout + [key], chains, keychain)
  {
    forall b | b in keychain
      ensures Mirrors(layout + [key], chains[b], keychain[b])
    {
      assert Mirrors(layout, chains[b], keychain[b]);
      forall i | 0 <= i < |chains[b]|
        ensures SameCell(layout + [key], chains[b][i], keychain[b][i])
      {
        assert SameCell(layout, chains[b][i], keychain[b][i]);
        CellGrow(layout, key, chains[b][i], keychain[b][i]);
      }
    }
  }
}
