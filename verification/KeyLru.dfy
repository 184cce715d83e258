/**
  `KeyLRU`: at most one key per bucket, the occupied buckets threaded on a list from the
  most to the least recently used. Freed nodes are those that left list and table.
 */
module KeyLru {
  import opened Wrappers
  import opened Store
  import opened NodeList

  datatype Stamped = Stamped(vKey: Key, nTimestamp: nat)

  type BinaryKey = Node<Stamped>

  function KeySize(s: Stamped): (n: nat)
  {
    |s.vKey|
  }

  class KeyLRU {
    const MAX_CACHE_SIZE: nat
    const MAX_CACHE_BUCKETS: nat
    /** XXH64 over the key bytes. */
    const hash: Key -> nat
    const hashmap: array<Node?<Stamped>>
    const list: LinkedNodes<Stamped>
    var nCurrentSize: int

    function Bucket(vKey: Key): (b: nat)
      requires MAX_CACHE_BUCKETS > 0
      ensures b < MAX_CACHE_BUCKETS
    {
      hash(vKey) % MAX_CACHE_BUCKETS
    }

    ghost predicate Sized()
    {
      hashmap.Length == MAX_CACHE_BUCKETS > 0 && MAX_CACHE_BUCKETS == MAX_CACHE_SIZE / 32
    }

    /** The list is exactly the occupied buckets, and every node lies in its key's bucket. */
    ghost predicate TableValid()
      requires Sized()
      reads list`l, hashmap, list.l`item
    {
      && (forall b | 0 <= b < hashmap.Length && hashmap[b] != null :: hashmap[b] in list.l && hashmap[b].slot == b)
      && (forall n | n in list.l :: n.slot < hashmap.Length && hashmap[n.slot] == n && Bucket(n.item.vKey) == n.slot)
    }

    ghost predicate SizeValid()
      reads this`nCurrentSize, list`l, list.l`item
    {
      nCurrentSize == 8 * MAX_CACHE_BUCKETS + Total(list.l, KeySize)
    }

    ghost predicate Valid()
      reads this, list, hashmap, list.l
    {
      Sized() && list.Valid() && TableValid() && SizeValid()
    }

    ghost function Recent(): (c: seq<Cell<Stamped>>)
      reads list`l, list.l`item
    {
      Cells(list.l)
    }

    ghost function Entry(b: nat): (e: Option<Stamped>)
      requires hashmap.Length == MAX_CACHE_BUCKETS
      reads hashmap, (if b < hashmap.Length && hashmap[b] != null then {hashmap[b]} else {})`item
    {
      if b < hashmap.Length && hashmap[b] != null then Some(hashmap[b].item) else None
    }

    constructor (nCacheSize: nat, hash: Key -> nat)
      requires nCacheSize >= 32
      ensures Valid() && list.l == [] && MAX_CACHE_SIZE == nCacheSize && this.hash == hash
      ensures fresh(hashmap) && fresh(list)
    {
      MAX_CACHE_SIZE := nCacheSize;
      MAX_CACHE_BUCKETS := nCacheSize / 32;
      this.hash := hash;
      hashmap := new Node?<Stamped>[nCacheSize / 32](_ => null);
      list := new LinkedNodes();
      nCurrentSize := nCacheSize / 32 * 8;
    }

    /** A hit is a stored key whose time, plus ten seconds, has not passed. */
    method Get(vKey: Key, now: nat) returns (ok: bool)
      requires Valid()
      modifies list, list.l`pprev, list.l`pnext
      ensures Valid()
      ensures ok <==> Entry(Bucket(vKey)).Some? && Entry(Bucket(vKey)).value.vKey == vKey && Entry(Bucket(vKey)).value.nTimestamp + 10 >= now
      ensures forall b | 0 <= b < MAX_CACHE_BUCKETS :: Entry(b) == old(Entry(b))
      ensures forall n | n in list.l :: n in old(list.l)
      ensures Recent() == if ok then [Cell(Bucket(vKey), Entry(Bucket(vKey)).value)] + Off(old(Recent()), Bucket(vKey)) else old(Recent())
    {
      hide LinkedNodes.Valid, KeyLRU.TableValid, KeyLRU.SizeValid, KeyLRU.Recent, KeyLRU.Bucket, Off;
      var pthis := hashmap[Bucket(vKey)];
      if pthis == null {
        return false;
      }
      InTable(Bucket(vKey));
      if pthis.item.vKey != vKey {
        return false;
      }
      if pthis.item.nTimestamp + 10 < now {
        return false;
      }
      Touch(pthis);
      return true;
    }

    method Touch(pthis: BinaryKey)
      requires Valid() && pthis in list.l
      modifies list, list.l`pprev, list.l`pnext
      ensures Valid() && Recent() == [CellOf(pthis)] + Off(old(Recent()), pthis.slot)
      ensures forall n | n in list.l :: n in old(list.l)
    {
      hide KeyLRU.TableValid, KeyLRU.SizeValid, LinkedNodes.Valid, Removed, Cells, Off;
      ListSlots();
      ghost var l0, c0 := list.l, Recent();
      ghost var k := TouchNode(pthis);
      CellsDropped(l0, c0, k);
      FrontCells(pthis);
    }

    method TouchNode(pthis: BinaryKey) returns (ghost k: nat)
      requires Valid() && pthis in list.l
      modifies list, list.l`pprev, list.l`pnext
      ensures Valid() && k < |old(list.l)| && old(list.l)[k] == pthis && list.l == [pthis] + Removed(old(list.l), k)
      ensures forall n | n in list.l :: n in old(list.l)
    {
      hide Total, LinkedNodes.Valid, Without;
      ghost var l0 := list.l;
      k :| 0 <= k < |list.l| && list.l[k] == pthis;
      MoveToFront(pthis, k);
      FrontMultiset(l0, k);
      SameMembers(l0, list.l);
      FrontTotal(l0, k, KeySize);
      assert Total(l0, KeySize) == old(Total(list.l, KeySize));
    }

    lemma FrontCells(n: BinaryKey)
      requires list.l != [] && list.l[0] == n
      ensures Recent() == [CellOf(n)] + Cells(list.l[1..])
    {
    }

    /** Nodes of the list lie in different slots. */
    lemma ListSlots()
      requires Sized() && TableValid() && list.Valid()
      ensures forall i, j | 0 <= i < |list.l| && 0 <= j < |list.l| && i != j :: list.l[i].slot != list.l[j].slot
    {
      forall i, j | 0 <= i < |list.l| && 0 <= j < |list.l| && i != j
        ensures list.l[i].slot != list.l[j].slot
      {
        assert Distinct(list.l);
        assert hashmap[list.l[i].slot] == list.l[i] && hashmap[list.l[j].slot] == list.l[j];
      }
    }

    /** An empty bucket has no cell. */
    lemma NoCell(b: nat)
      requires Sized() && TableValid() && b < MAX_CACHE_BUCKETS && hashmap[b] == null
      ensures Off(Recent(), b) == Recent()
    {
      OffNone(Recent(), b);
    }

    /** The last node is cut off without a full removal; any other is removed. */
    method MoveToFront(pthis: BinaryKey, ghost k: int)
      requires list.Valid() && Position(list.l, pthis, k)
      modifies list, list.l`pprev, list.l`pnext, pthis`pprev, pthis`pnext
      ensures list.Valid() && list.l == [pthis] + Removed(old(list.l), k)
    {
      AlreadyFirst(list.l, list.pfirst, list.plast, pthis, k);
      if pthis == list.pfirst {
        return;
      }
      ghost var l0 := list.l;
      assert Distinct(l0);
      assert pthis == list.plast ==> k == |l0| - 1 && |l0| >= 2;
      RemovedAbsent(l0, pthis, k);
      hide LinkedNodes.Valid, Distinct;
      if pthis == list.plast {
        list.CutLast(pthis);
        assert list.l == Removed(l0, k);
      } else {
        list.RemoveNode(pthis, k);
      }
      list.LinkFront(pthis);
    }

    /** Free the node of a bucket. */
    method Free(nBucket: nat)
      requires Valid() && nBucket < MAX_CACHE_BUCKETS && hashmap[nBucket] != null
      modifies this`nCurrentSize, list, hashmap, list.l`pprev, list.l`pnext
      ensures Valid() && hashmap[nBucket] == null && old(hashmap[nBucket]) !in list.l
      ensures forall n | n in list.l :: n in old(list.l)
      ensures forall b | 0 <= b < MAX_CACHE_BUCKETS && b != nBucket :: hashmap[b] == old(hashmap[b])
      ensures Recent() == Off(old(Recent()), nBucket)
    {
      hide KeyLRU.TableValid, KeyLRU.SizeValid, LinkedNodes.Valid, Removed, Cells, Off;
      ListSlots();
      ghost var l0, c0 := list.l, Recent();
      ghost var k := FreeNode(nBucket);
      CellsDropped(l0, c0, k);
    }

    method FreeNode(nBucket: nat) returns (ghost k: nat)
      requires Valid() && nBucket < MAX_CACHE_BUCKETS && hashmap[nBucket] != null
      modifies this`nCurrentSize, list, hashmap, list.l`pprev, list.l`pnext
      ensures Valid() && hashmap[nBucket] == null && old(hashmap[nBucket]) !in list.l
      ensures forall n | n in list.l :: n in old(list.l)
      ensures forall b | 0 <= b < MAX_CACHE_BUCKETS && b != nBucket :: hashmap[b] == old(hashmap[b])
      ensures k < |old(list.l)| && old(list.l)[k].slot == nBucket && list.l == Removed(old(list.l), k)
    {
      hide Total, LinkedNodes.Valid, Removed;
      var pthis := hashmap[nBucket];
      k := Unlink(pthis);
      assert forall n | n in list.l :: n.slot != nBucket && n.slot < hashmap.Length && hashmap[n.slot] == n;
      hashmap[nBucket] := null;
      nCurrentSize := nCurrentSize - |pthis.item.vKey|;
    }

    method Unlink(pthis: BinaryKey) returns (ghost k: nat)
      requires list.Valid() && pthis in list.l
      modifies list, list.l`pprev, list.l`pnext
      ensures list.Valid() && k < |old(list.l)| && old(list.l)[k] == pthis && list.l == Removed(old(list.l), k)
      ensures forall n :: n in list.l <==> n in old(list.l) && n != pthis
      ensures Total(list.l, KeySize) == old(Total(list.l, KeySize)) - |pthis.item.vKey|
    {
      k :| 0 <= k < |list.l| && list.l[k] == pthis;
      ghost var l0 := list.l;
      assert Distinct(l0);
      hide Total, LinkedNodes.Valid, Without, Distinct, Linked, Ends;
      list.RemoveNode(pthis, k);
      assert list.l == Without(l0, k);
      TotalWithout(l0, k, KeySize);
      assert Total(l0, KeySize) == old(Total(list.l, KeySize));
      WithoutMembers(l0, k);
    }

    method Remove(vKey: Key) returns (ok: bool)
      requires Valid()
      modifies this`nCurrentSize, list, hashmap, list.l`pprev, list.l`pnext
      ensures Valid()
      ensures ok <==> old(Entry(Bucket(vKey))).Some? && old(Entry(Bucket(vKey))).value.vKey == vKey
      ensures forall b | 0 <= b < MAX_CACHE_BUCKETS :: Entry(b) == if ok && b == Bucket(vKey) then None else old(Entry(b))
      ensures Recent() == if ok then Off(old(Recent()), Bucket(vKey)) else old(Recent())
    {
      hide KeyLRU.TableValid, KeyLRU.SizeValid, LinkedNodes.Valid, KeyLRU.Bucket, KeyLRU.Recent, Off;
      var pthis := hashmap[Bucket(vKey)];
      if pthis == null || pthis.item.vKey != vKey {
        return false;
      }
      Free(Bucket(vKey));
      return true;
    }

    /** A penalty moves the key's time into the future and nothing else. */
    method Penalize(vKey: Key, nPenalties: nat, now: nat)
      requires Valid()
      modifies list.l`item
      ensures Valid()
      ensures forall b | 0 <= b < MAX_CACHE_BUCKETS ::
        Entry(b) == if b == Bucket(vKey) && old(Entry(b)).Some? && old(Entry(b)).value.vKey == vKey
                    then Some(Stamped(vKey, now + nPenalties)) else old(Entry(b))
    {
      var pthis := hashmap[Bucket(vKey)];
      if pthis == null || pthis.item.vKey != vKey {
        return;
      }
      InTable(Bucket(vKey));
      hide LinkedNodes.Valid, Total;
      Stamp(pthis, now + nPenalties);
    }

    /** Nodes of different buckets are different. */
    lemma InTable(nBucket: nat)
      requires Valid() && nBucket < MAX_CACHE_BUCKETS && hashmap[nBucket] != null
      ensures hashmap[nBucket] in list.l && hashmap[nBucket].slot == nBucket
      ensures forall b | 0 <= b < MAX_CACHE_BUCKETS && b != nBucket :: hashmap[b] != hashmap[nBucket]
    {
    }

    method Stamp(pthis: BinaryKey, nTimestamp: nat)
      requires Valid() && pthis in list.l
      modifies pthis`item
      ensures Valid() && pthis.item == Stamped(old(pthis.item.vKey), nTimestamp)
    {
      hide LinkedNodes.Valid, Total;
      ghost var l0 := list.l;
      SameTotal(l0);
      ghost var keys := Keys(l0);
      pthis.item := Stamped(pthis.item.vKey, nTimestamp);
      SameTotal(l0);
      assert Keys(l0) == keys;
    }

    /** Insert a key in an empty bucket. */
    method Insert(vKey: Key, now: nat)
      requires Valid() && hashmap[Bucket(vKey)] == null
      modifies this`nCurrentSize, list, hashmap, list.l`pprev, list.l`pnext
      ensures Valid() && list.l == [hashmap[Bucket(vKey)]] + old(list.l)
      ensures fresh(list.l[0]) && list.l[0].item == Stamped(vKey, now) && list.l[0].slot == Bucket(vKey)
      ensures forall b | 0 <= b < MAX_CACHE_BUCKETS && b != Bucket(vKey) :: hashmap[b] == old(hashmap[b])
    {
      hide Total, LinkedNodes.Valid;
      var pthis := new Node(Stamped(vKey, now), Bucket(vKey));
      hashmap[Bucket(vKey)] := pthis;
      LinkNew(pthis);
      nCurrentSize := nCurrentSize + |vKey|;
    }

    method LinkNew(pthis: BinaryKey)
      requires list.Valid() && pthis !in list.l && pthis.pprev == null && pthis.pnext == null
      modifies list, list.l`pprev, list.l`pnext, pthis`pprev, pthis`pnext
      ensures list.Valid() && list.l == [pthis] + old(list.l)
      ensures Total(list.l, KeySize) == old(Total(list.l, KeySize)) + |pthis.item.vKey|
    {
      ghost var l0 := list.l;
      hide Total, LinkedNodes.Valid;
      MoveToFront(pthis, -1);
      RemovedNone(l0);
      TotalAppend([pthis], l0, KeySize);
      TotalOne(pthis, KeySize);
      assert Total(l0, KeySize) == old(Total(list.l, KeySize));
    }

    /** Free the last node, which its own key's bucket leads back to. */
    method EvictLast() returns (pnode: BinaryKey)
      requires Valid() && |list.l| >= 2 && list.plast != null
      modifies this`nCurrentSize, list, hashmap, list.l`pprev, list.l`pnext
      ensures Valid() && old(list.l) == list.l + [pnode] && pnode !in list.l
      ensures hashmap[pnode.slot] == null && old(hashmap[pnode.slot]) == pnode
      ensures nCurrentSize + |pnode.item.vKey| == old(nCurrentSize)
      ensures forall b | 0 <= b < MAX_CACHE_BUCKETS && b != pnode.slot :: hashmap[b] == old(hashmap[b])
    {
      hide Total, LinkedNodes.Valid, KeyLRU.Bucket;
      LastPrev();
      pnode := list.plast;
      Cut(pnode);
      assert forall n | n in list.l :: n.slot != pnode.slot && n.slot < hashmap.Length && hashmap[n.slot] == n;
      nCurrentSize := nCurrentSize - |pnode.item.vKey|;
      hashmap[Bucket(pnode.item.vKey)] := null;
    }

    method Cut(pnode: BinaryKey)
      requires list.Valid() && |list.l| >= 2 && pnode == list.plast
      modifies list, list.l`pprev, list.l`pnext
      ensures list.Valid() && old(list.l) == list.l + [pnode] && pnode !in list.l
      ensures forall n :: n in list.l <==> n in old(list.l) && n != pnode
      ensures Total(list.l, KeySize) == old(Total(list.l, KeySize)) - |pnode.item.vKey|
    {
      ghost var l0 := list.l;
      hide Total, LinkedNodes.Valid;
      list.CutLast(pnode);
      TotalAppend(list.l, [pnode], KeySize);
      TotalOne(pnode, KeySize);
      assert Total(l0, KeySize) == old(Total(list.l, KeySize));
    }

    /** Evict from the end while the size is over the limit and another node is left. */
    method Evict()
      requires Valid() && list.l != []
      modifies this`nCurrentSize, list, hashmap, list.l`pprev, list.l`pnext
      ensures Valid() && 1 <= |list.l| <= |old(list.l)| && list.l == old(list.l)[..|list.l|]
      ensures nCurrentSize <= MAX_CACHE_SIZE || |list.l| == 1
      ensures Recent() == [old(Recent())[0]] + Kept(old(Recent())[1..], KeySize, MAX_CACHE_SIZE - 8 * MAX_CACHE_BUCKETS - |old(Recent())[0].item.vKey|)
      ensures forall b | 0 <= b < MAX_CACHE_BUCKETS :: hashmap[b] == old(hashmap[b]) || (hashmap[b] == null && old(hashmap[b]) !in list.l)
    {
      hide KeyLRU.TableValid, KeyLRU.SizeValid, LinkedNodes.Valid, Cells, Kept, Sum, CellOf;
      ghost var l0, c0 := list.l, Recent();
      ghost var budget := MAX_CACHE_SIZE - 8 * MAX_CACHE_BUCKETS - |c0[0].item.vKey|;
      while nCurrentSize > MAX_CACHE_SIZE
        invariant Valid() && 1 <= |list.l| <= |l0| && list.l == l0[..|list.l|]
        invariant Recent() == c0[..|list.l|] && Kept(c0[1..], KeySize, budget) == Kept(c0[1..|list.l|], KeySize, budget)
        invariant forall b | 0 <= b < MAX_CACHE_BUCKETS :: hashmap[b] == old(hashmap[b]) || (hashmap[b] == null && old(hashmap[b]) !in list.l)
        decreases |list.l|
      {
        LastPrev();
        SizeOfRest(c0[..|list.l|]);
        if list.plast != null && list.plast.pprev != null {
          KeptShorter(c0, KeySize, |list.l|, budget);
          var pnode := EvictLast();
          CellsPrefix(c0);
          continue;
        }
        KeptNone(c0, budget);
        return;
      }
      SizeOfRest(c0[..|list.l|]);
      KeptWhole(c0, KeySize, |list.l|, budget);
    }

    lemma CellsPrefix(c0: seq<Cell<Stamped>>)
      requires |list.l| <= |c0| && forall i | 0 <= i < |list.l| :: c0[i] == CellOf(list.l[i])
      ensures Recent() == c0[..|list.l|]
    {
      CellsSame(list.l, c0[..|list.l|]);
    }

    lemma KeptNone(c0: seq<Cell<Stamped>>, budget: int)
      requires |c0| >= 1
      ensures Kept(c0[1..1], KeySize, budget) == c0[1..1] == []
    {
    }

    lemma SizeOfRest(c: seq<Cell<Stamped>>)
      requires SizeValid() && list.l != [] && Recent() == c
      ensures nCurrentSize == 8 * MAX_CACHE_BUCKETS + |c[0].item.vKey| + Sum(c[1..], KeySize)
    {
      CellsSum(list.l, KeySize);
    }

    /** The last node has a predecessor exactly when there are two nodes. */
    lemma LastPrev()
      requires Valid()
      ensures (list.plast != null && list.plast.pprev != null) <==> |list.l| >= 2
      ensures list.plast != null ==> list.plast in list.l
    {
    }

    /**
      The node of the key's bucket makes way whatever its key, the key becomes the most recent one, and the
      least recent ones go as long as the size is over the limit and another node is left.
    */
    method Put(vKey: Key, now: nat)
      requires Valid()
      modifies this`nCurrentSize, list, hashmap, list.l`pprev, list.l`pnext
      ensures Valid() && list.l != [] && list.l[0] == hashmap[Bucket(vKey)] && fresh(list.l[0])
      ensures forall n | n in list.l :: n == list.l[0] || n in old(list.l)
      ensures Recent() == [Cell(Bucket(vKey), Stamped(vKey, now))]
                          + Kept(Off(old(Recent()), Bucket(vKey)), KeySize, MAX_CACHE_SIZE - 8 * MAX_CACHE_BUCKETS - |vKey|)
      ensures Entry(Bucket(vKey)) == Some(Stamped(vKey, now))
      ensures forall b | 0 <= b < MAX_CACHE_BUCKETS && b != Bucket(vKey) :: Entry(b) == old(Entry(b)) || Entry(b) == None
      ensures nCurrentSize <= MAX_CACHE_SIZE || |list.l| == 1
    {
      hide KeyLRU.Valid, LinkedNodes.Valid, KeyLRU.Recent, Off, Kept;
      InRange();
      Vacate(Bucket(vKey));
      assert forall i | 0 <= i < |list.l| :: list.l[i] in old(list.l);
      InsertCell(vKey, now);
      Evict();
    }

    /** What the list holds for a bucket is its entry. */
    lemma Listed(i: nat)
      requires Valid() && i < |Recent()|
      ensures var c := Recent()[i]; c.slot < MAX_CACHE_BUCKETS && Entry(c.slot) == Some(c.item)
    {
      assert list.l[i] in list.l;
    }

    lemma NoneListed()
      requires list.l == []
      ensures Recent() == []
    {
    }

    lemma InRange()
      requires Valid()
      ensures Sized()
    {
    }

    /** Free the node of a bucket if there is one. */
    method Vacate(nBucket: nat)
      requires Valid() && nBucket < MAX_CACHE_BUCKETS
      modifies this`nCurrentSize, list, hashmap, list.l`pprev, list.l`pnext
      ensures Valid() && hashmap[nBucket] == null && forall n | n in list.l :: n in old(list.l)
      ensures forall b | 0 <= b < MAX_CACHE_BUCKETS && b != nBucket :: hashmap[b] == old(hashmap[b])
      ensures Recent() == Off(old(Recent()), nBucket)
    {
      if hashmap[nBucket] != null {
        Free(nBucket);
      } else {
        NoCell(nBucket);
      }
    }

    method InsertCell(vKey: Key, now: nat)
      requires Valid() && hashmap[Bucket(vKey)] == null
      modifies this`nCurrentSize, list, hashmap, list.l`pprev, list.l`pnext
      ensures Valid() && list.l == [hashmap[Bucket(vKey)]] + old(list.l)
      ensures fresh(list.l[0]) && list.l[0].item == Stamped(vKey, now)
      ensures forall b | 0 <= b < MAX_CACHE_BUCKETS && b != Bucket(vKey) :: hashmap[b] == old(hashmap[b])
      ensures Recent() == [Cell(Bucket(vKey), Stamped(vKey, now))] + old(Recent())
    {
      hide KeyLRU.TableValid, KeyLRU.SizeValid, LinkedNodes.Valid, Cells;
      ghost var l0, c0 := list.l, Recent();
      Insert(vKey, now);
      CellsSame(list.l, [CellOf(list.l[0])] + c0);
    }
  }

  /** A new cache with one key. */
  method PutOne(nCacheSize: nat, hash: Key -> nat, k: Key, p: nat) returns (cache: KeyLRU)
    requires nCacheSize >= 32
    ensures fresh(cache) && fresh(cache.list) && fresh(cache.hashmap) && forall i | 0 <= i < |cache.list.l| :: fresh(cache.list.l[i])
    ensures cache.Valid() && cache.MAX_CACHE_SIZE == nCacheSize && cache.hash == hash
    ensures cache.Recent() == [Cell(cache.Bucket(k), Stamped(k, p))]
  {
    hide KeyLRU.TableValid, KeyLRU.SizeValid, LinkedNodes.Valid, KeyLRU.Recent, KeyLRU.Entry, KeyLRU.Bucket, Off, Kept, Sum;
    cache := new KeyLRU(nCacheSize, hash);
    cache.NoneListed();
    cache.Put(k, p);
    assert forall i | 0 <= i < |cache.list.l| :: cache.list.l[i] in cache.list.l;
    NothingKept(cache.Bucket(k), KeySize, cache.MAX_CACHE_SIZE - 8 * cache.MAX_CACHE_BUCKETS - |k|);
  }

  /** A second key beside the only one of a cache. */
  method PutBeside(cache: KeyLRU, j: Key, q: nat, ghost x: Cell<Stamped>)
    requires cache.Valid() && cache.Recent() == [x] && x.slot != cache.Bucket(j)
    requires |x.item.vKey| <= cache.MAX_CACHE_SIZE - 8 * cache.MAX_CACHE_BUCKETS - |j|
    modifies cache`nCurrentSize, cache.list, cache.hashmap, cache.list.l
    ensures cache.Valid() && forall i | 0 <= i < |cache.list.l| :: cache.list.l[i] in old(cache.list.l) || fresh(cache.list.l[i])
    ensures x.slot < cache.MAX_CACHE_BUCKETS && cache.Entry(x.slot) == Some(x.item)
    ensures cache.Entry(cache.Bucket(j)) == Some(Stamped(j, q))
  {
    hide KeyLRU.TableValid, KeyLRU.SizeValid, LinkedNodes.Valid, KeyLRU.Recent, KeyLRU.Entry, KeyLRU.Bucket, Off, Kept, Sum;
    cache.Put(j, q);
    OffFirst([x], cache.Bucket(j));
    KeptFirst(Off([x], cache.Bucket(j)), KeySize, cache.MAX_CACHE_SIZE - 8 * cache.MAX_CACHE_BUCKETS - |j|);
    assert cache.Recent()[1] == x;
    cache.Listed(1);
  }

  /** Two keys of different buckets that fit a new cache together are both found within their ten seconds. */
  method PutTwo(nCacheSize: nat, hash: Key -> nat, k: Key, p: nat, j: Key, q: nat, now: nat) returns (r: bool, t: bool)
    requires nCacheSize >= 32 && hash(k) % (nCacheSize / 32) != hash(j) % (nCacheSize / 32)
    requires |k| + |j| <= nCacheSize - 8 * (nCacheSize / 32)
    ensures r <==> p + 10 >= now
    ensures t <==> q + 10 >= now
  {
    hide KeyLRU.TableValid, KeyLRU.SizeValid, LinkedNodes.Valid, KeyLRU.Recent, KeyLRU.Entry;
    var cache := PutOne(nCacheSize, hash, k, p);
    PutBeside(cache, j, q, Cell(cache.Bucket(k), Stamped(k, p)));
    ghost var l := cache.list.l;
    assert forall i | 0 <= i < |l| :: fresh(l[i]);
    r := cache.Get(k, now);
    assert forall i | 0 <= i < |cache.list.l| :: cache.list.l[i] in l;
    t := cache.Get(j, now);
  }

  ghost function Keys(l: seq<BinaryKey>): (s: seq<Key>)
    reads l`item
    ensures |s| == |l| && forall i | 0 <= i < |l| :: s[i] == l[i].item.vKey
  {
    if l == [] then [] else [l[0].item.vKey] + Keys(l[1..])
  }

  function Lengths(s: seq<Key>): (n: nat)
  {
    if s == [] then 0 else |s[0]| + Lengths(s[1..])
  }

  /** The size of a list depends on its keys only. */
  lemma {:induction false} SameTotal(l: seq<BinaryKey>)
    ensures Total(l, KeySize) == Lengths(Keys(l))
  {
    if l != [] {
      SameTotal(l[1..]);
      assert Keys(l)[1..] == Keys(l[1..]);
    }
  }
}
