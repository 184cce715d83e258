/**
  `BinaryLRU`: nodes are placed by sector position, found through the bucket of their
  key, and threaded on a doubly linked list from the most to the least recently used.
 */
module BinaryLru {
  import opened Wrappers
  import opened Store
  import opened NodeList

  const NODE_SIZE: int := 48

  /** The key's hash, 0 for a node in the null state, and the record. */
  datatype Cached = Cached(hashKey: nat, vData: Bytes)

  type BinaryNode = Node<Cached>

  function DataSize(c: Cached): (n: nat)
  {
    |c.vData|
  }

  /** Data bytes of the nodes in a list. */
  ghost function DataBytes(l: seq<BinaryNode>): (n: nat)
    reads l`item
  {
    Total(l, DataSize)
  }

  lemma {:induction false} RangeBound(s: set<nat>, n: nat)
    requires forall x | x in s :: x < n
    ensures |s| <= n
  {
    if n == 0 {
      assert s == {};
    } else {
      RangeBound(s - {n - 1}, n - 1);
      if n - 1 in s {
        assert |s| == |s - {n - 1}| + 1;
      }
    }
  }

  datatype CacheEntry = CacheEntry(hash: nat, data: Bytes)

  class BinaryLRU {
    const MAX_CACHE_SIZE: nat
    const MAX_CACHE_BUCKETS: nat
    /** XXH64 over the key bytes. */
    const hash: Key -> nat
    const hashmap: array<Node?<Cached>>
    const indexes: array<nat>
    var nCurrentSize: int
    const list: LinkedNodes<Cached>

    ghost var nodes: set<BinaryNode>
    ghost var used: set<nat>

    /** A hash and an index alike are cut to the number of slots. */
    function Slot(i: nat): (s: nat)
      requires MAX_CACHE_BUCKETS > 0
      ensures s < MAX_CACHE_BUCKETS
    {
      i % MAX_CACHE_BUCKETS
    }

    function Bucket(h: nat): (b: nat)
      requires MAX_CACHE_BUCKETS > 0
      ensures b < MAX_CACHE_BUCKETS
    {
      Slot(h)
    }

    ghost predicate Sized()
    {
      && hashmap.Length == indexes.Length == MAX_CACHE_BUCKETS > 0
      && MAX_CACHE_BUCKETS == MAX_CACHE_SIZE / 128
    }

    /** Every node belongs to its slot. */
    ghost predicate SlotsValid()
      requires Sized()
      reads this`nodes, this`used, hashmap
    {
      && (forall s | 0 <= s < hashmap.Length :: hashmap[s] != null <==> s in used)
      && (forall s | s in used :: s < hashmap.Length)
      && (forall s | 0 <= s < hashmap.Length && hashmap[s] != null :: hashmap[s] in nodes && hashmap[s].slot == s)
      && (forall n | n in nodes :: n.slot < hashmap.Length && hashmap[n.slot] == n)
    }

    /** The nodes in the list are those not in the null state. */
    ghost predicate LiveValid()
      reads list`l, this`nodes, nodes`item
    {
      && (forall n | n in list.l :: n in nodes)
      && (forall n | n in nodes :: n in list.l <==> n.item.hashKey != 0)
    }

    ghost predicate DetachedValid()
      reads list`l, this`nodes, nodes`pprev, nodes`pnext
    {
      forall n | n in nodes && n !in list.l :: n.pprev == null && n.pnext == null
    }

    /** The index of a live node's bucket leads to the node's slot. */
    ghost predicate IndexValid()
      requires Sized()
      reads list`l, indexes, list.l`item
    {
      forall n | n in list.l :: indexes[Bucket(n.item.hashKey)] != 0 && Slot(indexes[Bucket(n.item.hashKey)]) == n.slot
    }

    ghost function Recent(): (c: seq<Cell<Cached>>)
      reads list`l, list.l`item
    {
      Cells(list.l)
    }

    ghost function BaseSize(): (n: int)
      reads this`used
    {
      16 * MAX_CACHE_BUCKETS + NODE_SIZE * |used|
    }

    ghost predicate Valid()
      reads this, hashmap, indexes, nodes, list, list.l
    {
      Sized() && SlotsValid() && LiveValid() && DetachedValid() && list.Valid() && IndexValid() && nCurrentSize == BaseSize() + DataBytes(list.l)
    }

    ghost function Entry(s: nat): (e: Option<CacheEntry>)
      requires hashmap.Length == MAX_CACHE_BUCKETS
      reads hashmap, (if s < hashmap.Length && hashmap[s] != null then {hashmap[s]} else {})`item
    {
      if s < hashmap.Length && hashmap[s] != null && hashmap[s].item.hashKey != 0
      then Some(CacheEntry(hashmap[s].item.hashKey, hashmap[s].item.vData)) else None
    }

    constructor (nCacheSize: nat, hash: Key -> nat)
      requires nCacheSize >= 128
      ensures Valid() && list.l == [] && MAX_CACHE_SIZE == nCacheSize && this.hash == hash
      ensures fresh(hashmap) && fresh(indexes) && fresh(list) && nodes == {}
      ensures forall i | 0 <= i < indexes.Length :: indexes[i] == 0
    {
      MAX_CACHE_SIZE := nCacheSize;
      MAX_CACHE_BUCKETS := nCacheSize / 128;
      this.hash := hash;
      hashmap := new Node?<Cached>[nCacheSize / 128](_ => null);
      indexes := new nat[nCacheSize / 128](_ => 0);
      nCurrentSize := nCacheSize / 128 * 16;
      list := new LinkedNodes();
      nodes, used := {}, {};
    }

    // ----- lookup

    /** A hit is exactly a live node with the key's hash; the entries do not change and the node becomes the first. */
    method Get(vKey: Key) returns (r: Option<Bytes>)
      requires Valid() && hash(vKey) != 0
      modifies list`pfirst, list`plast, list`l, indexes, list.l`pprev, list.l`pnext
      ensures Valid()
      ensures forall s | 0 <= s < MAX_CACHE_BUCKETS :: Entry(s) == old(Entry(s))
      ensures r.Some? <==> exists s :: 0 <= s < MAX_CACHE_BUCKETS && Entry(s).Some? && Entry(s).value.hash == hash(vKey)
      ensures r.Some? ==> exists s :: 0 <= s < MAX_CACHE_BUCKETS && Entry(s) == Some(CacheEntry(hash(vKey), r.value))
      ensures Recent() == if r.None? then old(Recent()) else
                var s := Slot(old(indexes[Bucket(hash(vKey))])); [Cell(s, Cached(hash(vKey), r.value))] + Off(old(Recent()), s)
    {
      hide BinaryLRU.Valid, BinaryLRU.SlotsValid, BinaryLRU.Bucket, BinaryLRU.Slot, BinaryLRU.Recent, Off;
      Members();
      var b := Bucket(hash(vKey));
      var nIndex := indexes[b];
      if nIndex == 0 {
        NoEntry(hash(vKey));
        return None;
      }
      var pthis := hashmap[Slot(nIndex)];
      if pthis == null || pthis.item.hashKey == 0 {
        NoEntry(hash(vKey));
        BucketEmpty(b);
        SetIndex(b, 0);
        return None;
      }
      if pthis.item.hashKey != hash(vKey) {
        NoEntry(hash(vKey));
        return None;
      }
      r := Some(pthis.item.vData);
      assert Entry(Slot(nIndex)) == Some(CacheEntry(hash(vKey), pthis.item.vData));
      LiveAt(Slot(nIndex));
      TouchCell(pthis);
    }

    /** A live node is in the list and belongs to its slot. */
    lemma LiveAt(s: nat)
      requires Valid() && s < MAX_CACHE_BUCKETS && hashmap[s] != null && hashmap[s].item.hashKey != 0
      ensures hashmap[s] in list.l && hashmap[s].slot == s
    {
    }

    /** A bucket whose index leads to no live node has none. */
    lemma BucketEmpty(b: nat)
      requires Valid() && b < MAX_CACHE_BUCKETS
      requires hashmap[Slot(indexes[b])] == null || hashmap[Slot(indexes[b])].item.hashKey == 0
      ensures forall n | n in list.l :: Bucket(n.item.hashKey) != b
    {
    }

    method TouchCell(pthis: BinaryNode)
      requires Valid() && pthis in list.l
      modifies list`pfirst, list`plast, list`l, list.l`pprev, list.l`pnext
      ensures Valid() && Recent() == [CellOf(pthis)] + Off(old(Recent()), pthis.slot)
    {
      hide BinaryLRU.SlotsValid, BinaryLRU.LiveValid, BinaryLRU.DetachedValid, BinaryLRU.IndexValid, LinkedNodes.Valid, Off, Cells, Removed;
      ListSlots();
      ghost var l0, c0 := list.l, Recent();
      ghost var k := Touch(pthis);
      CellsDropped(l0, c0, k);
    }

    /** Make a live node the first of the list. */
    method Touch(pthis: BinaryNode) returns (ghost k: nat)
      requires Valid() && pthis in list.l
      modifies list`pfirst, list`plast, list`l, list.l`pprev, list.l`pnext
      ensures Valid() && k < |old(list.l)| && old(list.l)[k] == pthis && list.l == [pthis] + Removed(old(list.l), k)
    {
      hide Total, Without, LinkedNodes.Valid, BinaryLRU.SlotsValid;
      k :| 0 <= k < |list.l| && list.l[k] == pthis;
      ghost var l0 := list.l;
      list.MoveToFront(pthis, k);
      FrontMultiset(l0, k);
      SameMembers(l0, list.l);
      FrontTotal(l0, k, DataSize);
      assert DataBytes(l0) == old(DataBytes(l0));
    }

    /** A live node with a given hash can only be where its bucket's index leads. */
    lemma NoEntry(h: nat)
      requires Valid() && h != 0
      requires var i := indexes[Bucket(h)]; i == 0 || Entry(Slot(i)).None? || Entry(Slot(i)).value.hash != h
      ensures forall s | 0 <= s < MAX_CACHE_BUCKETS :: !(Entry(s).Some? && Entry(s).value.hash == h)
    {
      forall s | 0 <= s < MAX_CACHE_BUCKETS
        ensures !(Entry(s).Some? && Entry(s).value.hash == h)
      {
      }
    }

    /** No two slots have live nodes of one hash. */
    lemma OneEntry(h: nat)
      requires Valid()
      ensures forall s, s' | 0 <= s < MAX_CACHE_BUCKETS && 0 <= s' < MAX_CACHE_BUCKETS && Entry(s).Some? && Entry(s').Some?
                             && Entry(s).value.hash == h == Entry(s').value.hash :: s == s'
    {
    }

    // ----- insertion

    /** Everything but the size, which does not yet count the first node's data. */
    ghost predicate ValidNewest()
      reads this, hashmap, indexes, nodes, list, list.l
    {
      && Sized() && SlotsValid() && LiveValid() && DetachedValid() && list.Valid() && IndexValid()
      && list.l != [] && nCurrentSize == BaseSize() + DataBytes(list.l[1..])
    }

    /** Null the node the bucket's index leads to, whatever its key; afterwards no live node has that bucket. */
    method DropBucket(b: nat)
      requires Valid() && b < MAX_CACHE_BUCKETS
      modifies list`pfirst, list`plast, list`l, this`nCurrentSize, list.l
      ensures Valid()
      ensures forall n | n in list.l :: Bucket(n.item.hashKey) != b
      ensures forall s | 0 <= s < MAX_CACHE_BUCKETS :: Entry(s) == None || (Entry(s) == old(Entry(s)) && Bucket(Entry(s).value.hash) != b)
      ensures Recent() == if indexes[b] == 0 then old(Recent()) else Off(old(Recent()), Slot(indexes[b]))
    {
      hide LinkedNodes.Valid, Total, Off, BinaryLRU.DetachedValid, BinaryLRU.Recent, BinaryLRU.Slot, BinaryLRU.BaseSize;
      var nIndex := indexes[b];
      if nIndex != 0 {
        var pthis := hashmap[Slot(nIndex)];
        if pthis != null && pthis.item.hashKey != 0 {
          Drop(pthis);
          return;
        }
        NoCell(Slot(nIndex));
      }
    }

    method Drop(pthis: BinaryNode)
      requires Valid() && pthis in list.l
      modifies list`pfirst, list`plast, list`l, this`nCurrentSize, list.l
      ensures Valid() && pthis !in list.l && pthis.item.hashKey == 0
      ensures forall n | n in nodes && n != pthis :: n.item == old(n.item)
      ensures Recent() == Off(old(Recent()), pthis.slot)
    {
      hide BinaryLRU.SlotsValid, BinaryLRU.LiveValid, BinaryLRU.DetachedValid, BinaryLRU.IndexValid, LinkedNodes.Valid, Off, Cells, Removed;
      ghost var l0, c0 := list.l, Recent();
      ListSlots();
      SetNull(pthis);
      ghost var k :| 0 <= k < |l0| && l0[k] == pthis && list.l == Removed(l0, k);
      CellsDropped(l0, c0, k);
    }

    /** Nodes of the list lie in different slots. */
    lemma ListSlots()
      requires Sized() && SlotsValid() && LiveValid() && list.Valid()
      ensures forall i, j | 0 <= i < |list.l| && 0 <= j < |list.l| && i != j :: list.l[i].slot != list.l[j].slot
      ensures forall i | 0 <= i < |list.l| :: list.l[i] in nodes && hashmap[list.l[i].slot] == list.l[i]
      ensures forall i, j | 0 <= i < |list.l| && 0 <= j < |list.l| && i != j :: list.l[i] != list.l[j]
    {
      forall i, j | 0 <= i < |list.l| && 0 <= j < |list.l| && i != j
        ensures list.l[i] != list.l[j] && list.l[i].slot != list.l[j].slot
      {
        assert Distinct(list.l);
        assert list.l[i] in nodes && list.l[j] in nodes;
        assert hashmap[list.l[i].slot] == list.l[i] && hashmap[list.l[j].slot] == list.l[j];
      }
    }

    /** A slot without a live node has no cell. */
    lemma NoCell(s: nat)
      requires Sized() && SlotsValid() && LiveValid() && list.Valid() && s < MAX_CACHE_BUCKETS
      requires hashmap[s] == null || hashmap[s] !in list.l
      ensures Off(Recent(), s) == Recent()
    {
      ListSlots();
      OffNone(Recent(), s);
    }

    /** Take a live node out of the list and into the null state. */
    method SetNull(pthis: BinaryNode)
      requires Valid() && pthis in list.l
      modifies list`pfirst, list`plast, list`l, this`nCurrentSize, list.l
      ensures Valid() && pthis !in list.l && pthis.item.hashKey == 0
      ensures exists k :: 0 <= k < |old(list.l)| && old(list.l)[k] == pthis && list.l == Removed(old(list.l), k)
      ensures forall n | n in nodes && n != pthis :: n.item == old(n.item)
    {
      hide Total, LinkedNodes.Valid, BinaryLRU.SlotsValid, BinaryLRU.Bucket, BinaryLRU.Slot, Removed;
      nCurrentSize := nCurrentSize - |pthis.item.vData|;
      ghost var k := Detach(pthis);
      pthis.item := Cached(0, []);
      assert list.Valid() && SlotsValid() && DetachedValid();
      assert LiveValid();
      assert IndexValid();
      assert DataBytes(list.l) == old(DataBytes(list.l) - |pthis.item.vData|);
    }

    method Detach(pthis: BinaryNode) returns (ghost k: nat)
      requires DetachedValid() && list.Valid() && pthis in list.l
      modifies list`pfirst, list`plast, list`l, list.l`pprev, list.l`pnext
      ensures list.Valid() && DetachedValid()
      ensures forall n :: n in list.l <==> n in old(list.l) && n != pthis
      ensures DataBytes(list.l) == old(DataBytes(list.l)) - |pthis.item.vData|
      ensures k < |old(list.l)| && old(list.l)[k] == pthis && list.l == Removed(old(list.l), k)
    {
      k :| 0 <= k < |list.l| && list.l[k] == pthis;
      ghost var l0 := list.l;
      assert Distinct(l0);
      hide Total, LinkedNodes.Valid, Without, Distinct, Linked, Ends;
      list.RemoveNode(pthis, k);
      assert list.l == Without(l0, k);
      TotalWithout(l0, k, DataSize);
      assert DataBytes(l0) == old(DataBytes(l0));
      WithoutMembers(l0, k);
    }

    method Reuse(nSlot: nat, h: nat, vData: Bytes)
      requires Valid() && h != 0 && nSlot < MAX_CACHE_BUCKETS && hashmap[nSlot] != null
      requires indexes[Bucket(h)] != 0 && Slot(indexes[Bucket(h)]) == nSlot
      modifies list`pfirst, list`plast, list`l, this`nCurrentSize, list.l`pprev, list.l`pnext, hashmap[nSlot]
      ensures ValidNewest() && list.l[0] == hashmap[nSlot]
      ensures list.l[0].item.hashKey == h && list.l[0].item.vData == vData
      ensures forall n | n in nodes && n != list.l[0] :: n.item == old(n.item)
      ensures exists k :: -1 <= k < |old(list.l)| && list.l[1..] == Removed(old(list.l), k)
                          && (if list.l[0] in old(list.l) then k >= 0 && old(list.l)[k] == list.l[0] else k == -1)
    {
      hide Total, LinkedNodes.Valid, BinaryLRU.SlotsValid, BinaryLRU.Bucket, BinaryLRU.Slot, Removed;
      var pthis := hashmap[nSlot];
      assert pthis in nodes && pthis.slot == nSlot by { SlotNode(nSlot); }
      if pthis.item.hashKey != 0 {
        nCurrentSize := nCurrentSize - |pthis.item.vData|;
      }
      ghost var k := ToFront(pthis);
      Fill(pthis, h, vData);
    }

    /** Give the first node of the list the key and data. */
    method Fill(pthis: BinaryNode, h: nat, vData: Bytes)
      requires Sized() && SlotsValid() && DetachedValid() && list.Valid() && h != 0
      requires pthis in nodes && list.l != [] && list.l[0] == pthis && pthis !in list.l[1..]
      requires forall n | n in list.l :: n in nodes
      requires forall n | n in nodes && n != pthis :: n in list.l <==> n.item.hashKey != 0
      requires forall n | n in list.l[1..] :: indexes[Bucket(n.item.hashKey)] != 0 && Slot(indexes[Bucket(n.item.hashKey)]) == n.slot
      requires indexes[Bucket(h)] != 0 && Slot(indexes[Bucket(h)]) == pthis.slot
      requires nCurrentSize == BaseSize() + DataBytes(list.l[1..])
      modifies pthis`item
      ensures ValidNewest() && pthis.item == Cached(h, vData)
    {
      hide Total, LinkedNodes.Valid, BinaryLRU.SlotsValid, BinaryLRU.DetachedValid, BinaryLRU.Bucket, BinaryLRU.Slot, BinaryLRU.BaseSize;
      pthis.item := Cached(h, vData);
      assert list.l == [pthis] + list.l[1..];
      assert LiveValid();
      assert IndexValid();
      assert DataBytes(list.l[1..]) == old(DataBytes(list.l[1..]));
    }

    lemma SlotNode(s: nat)
      requires Sized() && SlotsValid() && s < MAX_CACHE_BUCKETS && hashmap[s] != null
      ensures hashmap[s] in nodes && hashmap[s].slot == s
    {
    }

    /** Make a node the first of the list, wherever it was. */
    method ToFront(pthis: BinaryNode) returns (ghost k: int)
      requires Sized() && DetachedValid() && list.Valid() && pthis in nodes
      modifies list`pfirst, list`plast, list`l, list.l`pprev, list.l`pnext, pthis`pprev, pthis`pnext
      ensures list.Valid() && DetachedValid()
      ensures list.l != [] && list.l[0] == pthis
      ensures -1 <= k < |old(list.l)| && list.l[1..] == Removed(old(list.l), k)
      ensures if pthis in old(list.l) then k >= 0 && old(list.l)[k] == pthis else k == -1 && list.l[1..] == old(list.l)
      ensures forall n :: n in list.l[1..] <==> n in old(list.l) && n != pthis
      ensures forall n :: n in list.l <==> n in old(list.l) || n == pthis
      ensures DataBytes(list.l[1..]) == old(DataBytes(list.l)) - (if pthis in old(list.l) then |pthis.item.vData| else 0)
    {
      hide Total, LinkedNodes.Valid, Without, Distinct, Position, Removed;
      ghost var l0 := list.l;
      list.AllDistinct();
      k := -1;
      if pthis in list.l {
        k :| 0 <= k < |list.l| && list.l[k] == pthis;
      }
      PlaceOf(pthis, k);
      list.MoveToFront(pthis, k);
      assert list.l[1..] == Removed(l0, k);
      assert DataBytes(l0) == old(DataBytes(l0));
      RemovedTotal(l0, k, DataSize);
      RemovedMembers(l0, pthis, k);
      if k < 0 {
        RemovedNone(l0);
      }
      assert list.l == [pthis] + list.l[1..];
    }

    lemma PlaceOf(pthis: BinaryNode, k: int)
      requires DetachedValid() && pthis in nodes && -1 <= k < |list.l|
      requires if k < 0 then pthis !in list.l else list.l[k] == pthis
      ensures Position(list.l, pthis, k)
    {
    }

    method Allocate(nSlot: nat, h: nat, vData: Bytes)
      requires Valid() && h != 0 && nSlot < MAX_CACHE_BUCKETS && hashmap[nSlot] == null
      requires indexes[Bucket(h)] != 0 && Slot(indexes[Bucket(h)]) == nSlot
      modifies this, list, hashmap, list.l`pprev, list.l`pnext
      ensures ValidNewest() && list.l[0] == hashmap[nSlot]
      ensures list.l[0].item.hashKey == h && list.l[0].item.vData == vData && fresh(list.l[0]) && nodes == old(nodes) + {list.l[0]}
      ensures forall s | 0 <= s < MAX_CACHE_BUCKETS && s != nSlot :: hashmap[s] == old(hashmap[s])
      ensures list.l[1..] == old(list.l)
    {
      hide Total, LinkedNodes.Valid, BinaryLRU.SlotsValid, BinaryLRU.DetachedValid, BinaryLRU.LiveValid, BinaryLRU.IndexValid, BinaryLRU.ValidNewest, BinaryLRU.Bucket, BinaryLRU.Slot, BinaryLRU.BaseSize;
      LiveNodes();
      var pthis := new Node(Cached(h, vData), nSlot);
      Register(pthis, nSlot);
      nCurrentSize := nCurrentSize + NODE_SIZE;
      Adopt(pthis);
    }

    lemma LiveNodes()
      requires LiveValid()
      ensures forall n | n in nodes :: n in list.l <==> n.item.hashKey != 0
      ensures forall n | n in list.l :: n in nodes
    {
    }

    /** Put a new node in front of the list. */
    method Adopt(pthis: BinaryNode)
      requires Sized() && SlotsValid() && DetachedValid() && list.Valid() && IndexValid()
      requires pthis in nodes && pthis !in list.l && pthis.item.hashKey != 0
      requires forall n | n in list.l :: n in nodes
      requires forall n | n in nodes && n != pthis :: n in list.l <==> n.item.hashKey != 0
      requires indexes[Bucket(pthis.item.hashKey)] != 0 && Slot(indexes[Bucket(pthis.item.hashKey)]) == pthis.slot
      requires nCurrentSize == BaseSize() + DataBytes(list.l)
      modifies list`pfirst, list`plast, list`l, list.l`pprev, list.l`pnext, pthis`pprev, pthis`pnext
      ensures ValidNewest() && list.l == [pthis] + old(list.l)
    {
      hide Total, LinkedNodes.Valid, BinaryLRU.SlotsValid, BinaryLRU.DetachedValid, BinaryLRU.Bucket, BinaryLRU.Slot, Removed;
      ghost var k := ToFront(pthis);
      assert list.l == [pthis] + old(list.l);
    }

    method Register(pthis: BinaryNode, nSlot: nat)
      requires Sized() && SlotsValid() && DetachedValid() && nSlot < MAX_CACHE_BUCKETS && hashmap[nSlot] == null
      requires pthis.slot == nSlot && pthis.pprev == null && pthis.pnext == null
      modifies hashmap, this`nodes, this`used
      ensures SlotsValid() && DetachedValid() && nodes == old(nodes) + {pthis} && BaseSize() == old(BaseSize()) + NODE_SIZE
      ensures hashmap[nSlot] == pthis
      ensures forall s | 0 <= s < MAX_CACHE_BUCKETS && s != nSlot :: hashmap[s] == old(hashmap[s])
    {
      hashmap[nSlot] := pthis;
      nodes := nodes + {pthis};
      used := used + {nSlot};
    }

    /** Give the slot's node the key and data and make it the first; nothing else with that bucket is live. */
    method Place(nIndex: nat, h: nat, vData: Bytes)
      requires Valid() && h != 0 && nIndex != 0
      requires forall n | n in list.l :: Bucket(n.item.hashKey) != Bucket(h)
      modifies this, list, hashmap, indexes, nodes
      ensures ValidNewest() && fresh(nodes - old(nodes))
      ensures Entry(Slot(nIndex)) == Some(CacheEntry(h, vData)) && list.l[0] == hashmap[Slot(nIndex)]
      ensures forall s | 0 <= s < MAX_CACHE_BUCKETS && s != Slot(nIndex) :: Entry(s) == old(Entry(s))
      ensures Recent() == [Cell(Slot(nIndex), Cached(h, vData))] + Off(old(Recent()), Slot(nIndex))
      ensures forall i | 0 <= i < indexes.Length && i != Bucket(h) :: indexes[i] == old(indexes[i])
    {
      hide BinaryLRU.Valid, BinaryLRU.ValidNewest, BinaryLRU.SlotsValid, BinaryLRU.Bucket, BinaryLRU.Slot, BinaryLRU.Recent, Off;
      Members();
      SlotNodes();
      SetIndex(Bucket(h), nIndex);
      ClaimCell(Slot(nIndex), h, vData);
      NewestFirst();
    }

    lemma SlotNodes()
      requires Sized() && SlotsValid()
      ensures forall s | 0 <= s < MAX_CACHE_BUCKETS && hashmap[s] != null :: hashmap[s] in nodes && hashmap[s].slot == s
    {
    }

    method ClaimCell(nSlot: nat, h: nat, vData: Bytes)
      requires Valid() && h != 0 && nSlot < MAX_CACHE_BUCKETS
      requires indexes[Bucket(h)] != 0 && Slot(indexes[Bucket(h)]) == nSlot
      modifies this, list, hashmap, nodes
      ensures ValidNewest() && fresh(nodes - old(nodes))
      ensures list.l[0] == hashmap[nSlot] && list.l[0].item == Cached(h, vData)
      ensures forall n | n in old(nodes) && n != list.l[0] :: n.item == old(n.item)
      ensures forall s | 0 <= s < MAX_CACHE_BUCKETS && s != nSlot :: hashmap[s] == old(hashmap[s])
      ensures forall s | 0 <= s < MAX_CACHE_BUCKETS && s != nSlot && hashmap[s] != null :: hashmap[s] in old(nodes) && hashmap[s] != list.l[0]
      ensures Recent() == [Cell(nSlot, Cached(h, vData))] + Off(old(Recent()), nSlot)
    {
      hide BinaryLRU.Valid, BinaryLRU.ValidNewest, BinaryLRU.SlotsValid, BinaryLRU.Bucket, BinaryLRU.Slot, Off, Cells, Removed;
      Members();
      ghost var l0, c0 := list.l, Recent();
      ghost var k := Claim(nSlot, h, vData);
      NewestFirst();
      PlacedCells(l0, c0, k, nSlot);
    }

    method SetIndex(b: nat, nIndex: nat)
      requires Valid() && b < MAX_CACHE_BUCKETS && forall n | n in list.l :: Bucket(n.item.hashKey) != b
      modifies indexes
      ensures Valid() && Recent() == old(Recent()) && indexes[b] == nIndex && forall i | 0 <= i < indexes.Length && i != b :: indexes[i] == old(indexes[i])
    {
      hide Total, LinkedNodes.Valid;
      indexes[b] := nIndex;
    }

    /** The slot's node, or a new one, takes the key and data. */
    method Claim(nSlot: nat, h: nat, vData: Bytes) returns (ghost k: int)
      requires Valid() && h != 0 && nSlot < MAX_CACHE_BUCKETS
      requires indexes[Bucket(h)] != 0 && Slot(indexes[Bucket(h)]) == nSlot
      modifies this, list, hashmap, nodes
      ensures ValidNewest() && fresh(nodes - old(nodes))
      ensures list.l[0] == hashmap[nSlot] && list.l[0].item == Cached(h, vData) && list.l[0].slot == nSlot
      ensures forall i | 0 <= i < |old(list.l)| && i != k :: old(list.l)[i].slot != nSlot && old(list.l)[i] in old(nodes)
      ensures -1 <= k < |old(list.l)| && list.l[1..] == Removed(old(list.l), k)
      ensures if list.l[0] in old(list.l) then k >= 0 && old(list.l)[k] == list.l[0] else k == -1
      ensures forall n | n in old(nodes) && n != list.l[0] :: n.item == old(n.item)
      ensures forall s | 0 <= s < MAX_CACHE_BUCKETS && s != nSlot :: hashmap[s] == old(hashmap[s])
      ensures forall s | 0 <= s < MAX_CACHE_BUCKETS && s != nSlot && hashmap[s] != null :: hashmap[s] in old(nodes) && hashmap[s] != list.l[0]
    {
      hide Total, LinkedNodes.Valid, BinaryLRU.SlotsValid, BinaryLRU.LiveValid, BinaryLRU.DetachedValid, BinaryLRU.IndexValid, BinaryLRU.Bucket, BinaryLRU.Slot, Removed;
      ghost var l0 := list.l;
      ListSlots();
      SlotNodes();
      if hashmap[nSlot] != null {
        Reuse(nSlot, h, vData);
        k :| -1 <= k < |l0| && list.l[1..] == Removed(l0, k)
             && (if list.l[0] in l0 then k >= 0 && l0[k] == list.l[0] else k == -1);
      } else {
        Allocate(nSlot, h, vData);
        RemovedNone(l0);
        k := -1;
      }
      assert list.l[0].slot == nSlot by { SlotNode(nSlot); }
    }

    /** The list after a node of the slot was put in front of the others. */
    lemma PlacedCells(l0: seq<BinaryNode>, c0: seq<Cell<Cached>>, k: int, s: nat)
      requires list.l != [] && -1 <= k < |l0| == |c0| && list.l[1..] == Removed(l0, k) && list.l[0].slot == s
      requires forall i | 0 <= i < |l0| && i != k :: c0[i] == CellOf(l0[i]) && c0[i].slot != s
      requires k >= 0 ==> c0[k].slot == s
      ensures Recent() == [CellOf(list.l[0])] + Off(c0, s)
    {
      if k < 0 {
        RemovedNone(l0);
        CellsSame(l0, c0);
        OffNone(c0, s);
      } else {
        CellsDropped(l0, c0, k);
      }
    }

    // ----- eviction

    /** Null the last node through its bucket's index, which always leads back to it. */
    method EvictLast() returns (pnode: BinaryNode)
      requires ValidNewest() && |list.l| >= 2
      modifies list`plast, list`l, this`nCurrentSize, indexes, list.l
      ensures ValidNewest() && old(list.l) == list.l + [pnode] && pnode !in list.l && pnode.item.hashKey == 0
      ensures nCurrentSize + |old(pnode.item.vData)| == old(nCurrentSize)
      ensures forall i | 0 <= i < indexes.Length :: indexes[i] == old(indexes[i]) || indexes[i] == 0
      ensures forall n | n in nodes && n != pnode :: n.item == old(n.item)
    {
      hide Total, LinkedNodes.Valid, BinaryLRU.SlotsValid, BinaryLRU.Bucket, BinaryLRU.Slot, BinaryLRU.IndexValid, BinaryLRU.LiveValid, BinaryLRU.DetachedValid, BinaryLRU.BaseSize;
      pnode := TakeLast();
      assert pnode in old(list.l);
      ghost var d := DataBytes(list.l[1..]);
      assert pnode !in list.l[1..];
      ClearBucket(pnode, Bucket(pnode.item.hashKey));
      assert DataBytes(list.l[1..]) == d;
    }

    /** Unlink the last node; its bucket's index still leads to it. */
    method TakeLast() returns (pnode: BinaryNode)
      requires ValidNewest() && |list.l| >= 2
      modifies list`plast, list`l, this`nCurrentSize, list.l`pprev, list.l`pnext
      ensures old(list.l) == list.l + [pnode] && pnode in nodes && pnode !in list.l
      ensures hashmap[Slot(indexes[Bucket(pnode.item.hashKey)])] == pnode
      ensures forall n | n in list.l :: n in nodes && Bucket(n.item.hashKey) != Bucket(pnode.item.hashKey)
      ensures forall n | n in nodes && n != pnode :: n in list.l <==> n.item.hashKey != 0
      ensures list.Valid() && DetachedValid() && SlotsValid() && IndexValid()
      ensures nCurrentSize == BaseSize() + DataBytes(list.l[1..]) && nCurrentSize + |pnode.item.vData| == old(nCurrentSize)
    {
      hide Total, LinkedNodes.Valid, BinaryLRU.SlotsValid, BinaryLRU.DetachedValid, BinaryLRU.Bucket, BinaryLRU.Slot, BinaryLRU.BaseSize;
      LastInList();
      pnode := list.plast;
      BucketLeads(pnode);
      Unlink(pnode);
      assert SlotsValid();
      nCurrentSize := nCurrentSize - |pnode.item.vData|;
    }

    method Unlink(pnode: BinaryNode)
      requires list.Valid() && DetachedValid() && |list.l| >= 2 && pnode == list.plast
      modifies list`plast, list`l, list.l`pprev, list.l`pnext
      ensures list.Valid() && DetachedValid() && old(list.l) == list.l + [pnode]
      ensures forall n :: n in list.l <==> n in old(list.l) && n != pnode
      ensures DataBytes(list.l[1..]) == old(DataBytes(list.l[1..])) - |pnode.item.vData|
    {
      ghost var l0 := list.l;
      hide Total, LinkedNodes.Valid;
      list.CutLast(pnode);
      LastTotal(l0, DataSize);
      assert l0[1..|l0| - 1] == list.l[1..];
      assert DataBytes(l0[1..]) == old(DataBytes(list.l[1..]));
    }

    /** Null the node at the slot of the bucket's index, then the index. */
    method ClearBucket(ghost pnode: BinaryNode, nBucket: nat)
      requires Sized() && nBucket < MAX_CACHE_BUCKETS && pnode in nodes && pnode !in list.l
      requires hashmap[Slot(indexes[nBucket])] == pnode
      requires forall n | n in list.l :: n in nodes && Bucket(n.item.hashKey) != nBucket
      requires forall n | n in nodes && n != pnode :: n in list.l <==> n.item.hashKey != 0
      requires IndexValid()
      modifies indexes, pnode`item
      ensures LiveValid() && IndexValid() && pnode.item.hashKey == 0
      ensures forall i | 0 <= i < indexes.Length :: indexes[i] == old(indexes[i]) || indexes[i] == 0
    {
      hide BinaryLRU.Bucket, BinaryLRU.Slot;
      var pdrop := hashmap[Slot(indexes[nBucket])];
      pdrop.item := Cached(0, []);
      indexes[nBucket] := 0;
    }

    lemma LastInList()
      requires list.Valid() && |list.l| >= 2
      ensures list.plast != null && list.plast == list.l[|list.l| - 1] && list.plast in list.l
    {
    }

    /** The index of a live node's bucket leads to that node, and no other live node has its bucket. */
    lemma BucketLeads(x: BinaryNode)
      requires Sized() && SlotsValid() && LiveValid() && IndexValid() && x in list.l
      ensures hashmap[Slot(indexes[Bucket(x.item.hashKey)])] == x
      ensures forall n | n in list.l && n != x :: Bucket(n.item.hashKey) != Bucket(x.item.hashKey)
    {
    }

    /** The nodes alone never take more than half of the cache. */
    lemma BaseFits()
      requires Sized() && SlotsValid()
      ensures BaseSize() <= MAX_CACHE_SIZE
    {
      RangeBound(used, MAX_CACHE_BUCKETS);
    }

    lemma Members()
      requires Valid()
      ensures Sized() && SlotsValid() && forall n | n in list.l :: n in nodes
    {
    }

    lemma NewestFirst()
      requires ValidNewest()
      ensures list.l != [] && forall n | n in list.l :: n in nodes
      ensures forall s | 0 <= s < MAX_CACHE_BUCKETS && hashmap[s] != null :: hashmap[s] in nodes
    {
    }

    /** While the size is over the limit there is a last node that is not the first. */
    lemma TwoLeft()
      requires ValidNewest() && nCurrentSize > MAX_CACHE_SIZE
      ensures |list.l| >= 2 && list.plast == list.l[|list.l| - 1] && list.plast.item.hashKey != 0
    {
      BaseFits();
      LastInList();
    }

    /** Drop nodes from the end of the list, no more than needed and never the first, until the rest fits. */
    method Evict()
      requires ValidNewest()
      modifies list`plast, list`l, this`nCurrentSize, indexes, list.l
      ensures ValidNewest() && nCurrentSize <= MAX_CACHE_SIZE && list.l[0] == old(list.l)[0]
      ensures forall i | 0 <= i < indexes.Length :: indexes[i] == old(indexes[i]) || indexes[i] == 0
      ensures Recent() == [old(Recent())[0]] + Kept(old(Recent())[1..], DataSize, MAX_CACHE_SIZE - BaseSize())
      ensures forall s | 0 <= s < MAX_CACHE_BUCKETS :: Entry(s) == old(Entry(s)) || (Entry(s) == None && hashmap[s] != list.l[0])
    {
      hide BinaryLRU.ValidNewest, BinaryLRU.Recent;
      NewestFirst();
      EvictNodes();
      NewestFirst();
    }

    method EvictNodes()
      requires ValidNewest()
      modifies list`plast, list`l, this`nCurrentSize, indexes, list.l
      ensures ValidNewest() && nCurrentSize <= MAX_CACHE_SIZE && list.l[0] == old(list.l)[0]
      ensures forall i | 0 <= i < indexes.Length :: indexes[i] == old(indexes[i]) || indexes[i] == 0
      ensures Recent() == [old(Recent())[0]] + Kept(old(Recent())[1..], DataSize, MAX_CACHE_SIZE - BaseSize())
      ensures forall n | n in nodes :: (n.item.hashKey == 0 && n != list.l[0]) || n.item == old(n.item)
    {
      hide BinaryLRU.ValidNewest, Kept, Sum, Cells, BinaryLRU.BaseSize, CellOf;
      NewestFirst();
      ghost var l0, c0 := list.l, Recent();
      ghost var budget := MAX_CACHE_SIZE - BaseSize();
      while nCurrentSize > MAX_CACHE_SIZE
        invariant ValidNewest() && 1 <= |list.l| <= |l0| && list.l == l0[..|list.l|]
        invariant forall n | n in nodes :: (n.item.hashKey == 0 && n != list.l[0]) || n.item == old(n.item)
        invariant forall i | 0 <= i < indexes.Length :: indexes[i] == old(indexes[i]) || indexes[i] == 0
        invariant Recent() == c0[..|list.l|] && Kept(c0[1..], DataSize, budget) == Kept(c0[1..|list.l|], DataSize, budget)
        decreases |list.l|
      {
        TwoLeft();
        if list.plast == null || list.plast.item.hashKey == 0 {
          assert false;
          break;
        }
        SizeOfRest(c0[..|list.l|]);
        KeptShorter(c0, DataSize, |list.l|, budget);
        EvictCell(c0);
      }
      SizeOfRest(c0[..|list.l|]);
      KeptWhole(c0, DataSize, |list.l|, budget);
    }

    method EvictCell(ghost c0: seq<Cell<Cached>>)
      requires ValidNewest() && 2 <= |list.l| <= |c0| && Recent() == c0[..|list.l|]
      modifies list`plast, list`l, this`nCurrentSize, indexes, list.l
      ensures ValidNewest() && list.l == old(list.l)[..|old(list.l)| - 1] && Recent() == c0[..|list.l|]
      ensures forall i | 0 <= i < indexes.Length :: indexes[i] == old(indexes[i]) || indexes[i] == 0
      ensures forall n | n in nodes :: (n.item.hashKey == 0 && n != list.l[0]) || n.item == old(n.item)
    {
      hide BinaryLRU.ValidNewest, Cells, BinaryLRU.BaseSize;
      NewestFirst();
      ghost var l0 := list.l;
      var pnode := EvictLast();
      NewestFirst();
      assert list.l == l0[..|l0| - 1];
      CellsSame(list.l, c0[..|list.l|]);
    }

    /** The size counts the data behind the first node. */
    lemma SizeOfRest(c: seq<Cell<Cached>>)
      requires ValidNewest() && Recent() == c
      ensures nCurrentSize == BaseSize() + Sum(c[1..], DataSize)
    {
      hide BinaryLRU.SlotsValid, BinaryLRU.LiveValid, BinaryLRU.DetachedValid, BinaryLRU.IndexValid, LinkedNodes.Valid, BinaryLRU.BaseSize;
      CellsSum(list.l[1..], DataSize);
      CellsSame(list.l[1..], c[1..]);
    }

    method CountNewest(vData: Bytes)
      requires ValidNewest() && list.l[0].item.vData == vData
      modifies this`nCurrentSize
      ensures Valid() && nCurrentSize == old(nCurrentSize) + |vData|
      ensures Recent() == old(Recent())
    {
      hide LinkedNodes.Valid, BinaryLRU.SlotsValid, BinaryLRU.LiveValid, BinaryLRU.DetachedValid, BinaryLRU.IndexValid, BinaryLRU.BaseSize, Cells;
      nCurrentSize := nCurrentSize + |vData|;
    }

    /** The position of a record, counted from one so that it is never the empty index. */
    function Index(nFile: nat, nStart: nat): (i: nat)
    {
      ((nFile + 1) * (nStart + 1)) % 0x1_0000_0000
    }

    /**
      The node the key's bucket leads to and the node of the record's slot make way, the record becomes the
      most recent one, and the least recent ones go as long as all data but the newest do not fit.
    */
    method Put(nFile: nat, nStart: nat, vKey: Key, vData: Bytes)
      requires Valid() && hash(vKey) != 0 && Index(nFile, nStart) != 0
      modifies this, list, hashmap, indexes, nodes
      ensures Valid() && fresh(nodes - old(nodes))
      ensures
        var b, s := Bucket(hash(vKey)), Slot(Index(nFile, nStart));
        var c := if old(indexes[b]) == 0 then old(Recent()) else Off(old(Recent()), Slot(old(indexes[b])));
        Recent() == [Cell(s, Cached(hash(vKey), vData))] + Kept(Off(c, s), DataSize, MAX_CACHE_SIZE - BaseSize())
      ensures Entry(Slot(Index(nFile, nStart))) == Some(CacheEntry(hash(vKey), vData))
      ensures forall s | 0 <= s < MAX_CACHE_BUCKETS && s != Slot(Index(nFile, nStart)) ::
        Entry(s).None? || (Entry(s) == old(Entry(s)) && Bucket(Entry(s).value.hash) != Bucket(hash(vKey)))
      ensures nCurrentSize == BaseSize() + Sum(Recent(), DataSize) <= MAX_CACHE_SIZE + |vData|
      ensures forall i | 0 <= i < indexes.Length && i != Bucket(hash(vKey)) :: indexes[i] == old(indexes[i]) || indexes[i] == 0
    {
      hide BinaryLRU.Valid, BinaryLRU.SlotsValid, BinaryLRU.Bucket, BinaryLRU.Slot, BinaryLRU.Index, BinaryLRU.Recent, BinaryLRU.Entry, BinaryLRU.BaseSize, Off, Kept, Sum;
      Members();
      DropBucket(Bucket(hash(vKey)));
      Members();
      var nIndex := Index(nFile, nStart);
      Admit(nIndex, hash(vKey), vData);
      SizeExact();
    }

    /** Give a record of a bucket without live nodes its slot and make room for its data. */
    method Admit(nIndex: nat, h: nat, vData: Bytes)
      requires Valid() && h != 0 && nIndex != 0 && forall n | n in list.l :: Bucket(n.item.hashKey) != Bucket(h)
      modifies this, list, hashmap, indexes, nodes
      ensures Valid() && fresh(nodes - old(nodes))
      ensures Recent() == [Cell(Slot(nIndex), Cached(h, vData))] + Kept(Off(old(Recent()), Slot(nIndex)), DataSize, MAX_CACHE_SIZE - BaseSize())
      ensures Entry(Slot(nIndex)) == Some(CacheEntry(h, vData))
      ensures forall s | 0 <= s < MAX_CACHE_BUCKETS && s != Slot(nIndex) :: Entry(s).None? || Entry(s) == old(Entry(s))
      ensures nCurrentSize <= MAX_CACHE_SIZE + |vData|
      ensures forall i | 0 <= i < indexes.Length && i != Bucket(h) :: indexes[i] == old(indexes[i]) || indexes[i] == 0
    {
      hide BinaryLRU.Valid, BinaryLRU.ValidNewest, BinaryLRU.SlotsValid, BinaryLRU.Bucket, BinaryLRU.Slot, BinaryLRU.Recent, BinaryLRU.BaseSize, Off, Kept, Sum;
      Members();
      Place(nIndex, h, vData);
      NewestFirst();
      Evict();
      NewestFirst();
      CountNewest(vData);
    }

    /** What the list holds for a slot is its entry. */
    lemma Listed(i: nat)
      requires Valid() && i < |Recent()|
      ensures var c := Recent()[i]; c.slot < MAX_CACHE_BUCKETS && Entry(c.slot) == Some(CacheEntry(c.item.hashKey, c.item.vData))
    {
      var n := list.l[i];
      assert n in list.l && n in nodes;
    }

    lemma NoneListed()
      requires list.l == []
      ensures Recent() == []
    {
    }

    lemma HalfFree()
      requires Valid()
      ensures BaseSize() <= MAX_CACHE_SIZE / 2
    {
      RangeBound(used, MAX_CACHE_BUCKETS);
    }

    lemma SizeExact()
      requires Valid()
      ensures nCurrentSize == BaseSize() + Sum(Recent(), DataSize)
    {
      CellsSum(list.l, DataSize);
    }
  }

  /** The second of two records: the first one stays, if its bucket and slot are others and its data fit. */
  method PutBeside(cache: BinaryLRU, g: nat, q: nat, j: Key, e: Bytes, ghost x: Cell<Cached>)
    requires cache.Valid() && cache.hash(j) != 0 && cache.Index(g, q) != 0
    requires cache.Recent() == [x] && |x.item.vData| <= cache.MAX_CACHE_SIZE / 2
    requires x.slot != cache.Slot(cache.Index(g, q)) && cache.indexes[cache.Bucket(cache.hash(j))] == 0
    modifies cache, cache.list, cache.hashmap, cache.indexes, cache.nodes
    ensures cache.Valid() && fresh(cache.nodes - old(cache.nodes))
    ensures x.slot < cache.MAX_CACHE_BUCKETS && cache.Entry(x.slot) == Some(CacheEntry(x.item.hashKey, x.item.vData))
    ensures cache.Entry(cache.Slot(cache.Index(g, q))) == Some(CacheEntry(cache.hash(j), e))
  {
    hide BinaryLRU.SlotsValid, BinaryLRU.LiveValid, BinaryLRU.DetachedValid, BinaryLRU.IndexValid, LinkedNodes.Valid, BinaryLRU.Slot, BinaryLRU.Index, BinaryLRU.Recent, BinaryLRU.Entry, BinaryLRU.BaseSize, Off, Kept, Sum;
    cache.Put(g, q, j, e);
    ghost var c := Off([x], cache.Slot(cache.Index(g, q)));
    OffFirst([x], cache.Slot(cache.Index(g, q)));
    cache.HalfFree();
    KeptFirst(c, DataSize, cache.MAX_CACHE_SIZE - cache.BaseSize());
    assert cache.Recent()[1] == x;
    cache.Listed(1);
  }

  /** A new cache with one record. */
  method PutOne(nCacheSize: nat, hash: Key -> nat, f: nat, p: nat, k: Key, d: Bytes) returns (cache: BinaryLRU)
    requires nCacheSize >= 128 && hash(k) != 0 && (f + 1) * (p + 1) % 4294967296 != 0
    ensures fresh(cache) && fresh(cache.list) && fresh(cache.hashmap) && fresh(cache.indexes) && fresh(cache.nodes)
    ensures cache.Valid() && cache.MAX_CACHE_SIZE == nCacheSize && cache.hash == hash
    ensures cache.Recent() == [Cell(cache.Slot(cache.Index(f, p)), Cached(hash(k), d))]
    ensures forall i | 0 <= i < cache.indexes.Length && i != cache.Bucket(hash(k)) :: cache.indexes[i] == 0
  {
    hide BinaryLRU.SlotsValid, BinaryLRU.LiveValid, BinaryLRU.DetachedValid, BinaryLRU.IndexValid, LinkedNodes.Valid, BinaryLRU.Recent, BinaryLRU.Entry, BinaryLRU.BaseSize, BinaryLRU.Slot, Kept, Sum, Off;
    cache := new BinaryLRU(nCacheSize, hash);
    cache.NoneListed();
    cache.Put(f, p, k, d);
    NothingKept(cache.Slot(cache.Index(f, p)), DataSize, cache.MAX_CACHE_SIZE - cache.BaseSize());
  }

  /** Two records of a cache are found. */
  method GetTwo(cache: BinaryLRU, k: Key, j: Key, ghost x: nat, ghost d: Bytes, ghost y: nat, ghost e: Bytes)
    returns (r: Option<Bytes>, t: Option<Bytes>)
    requires cache.Valid() && cache.hash(k) != 0 && cache.hash(j) != 0
    requires x < cache.MAX_CACHE_BUCKETS && cache.Entry(x) == Some(CacheEntry(cache.hash(k), d))
    requires y < cache.MAX_CACHE_BUCKETS && cache.Entry(y) == Some(CacheEntry(cache.hash(j), e))
    modifies cache.list, cache.indexes, cache.nodes
    ensures r == Some(d) && t == Some(e)
  {
    hide BinaryLRU.SlotsValid, BinaryLRU.LiveValid, BinaryLRU.DetachedValid, BinaryLRU.IndexValid, LinkedNodes.Valid, BinaryLRU.Recent, BinaryLRU.Entry, BinaryLRU.BaseSize, BinaryLRU.Slot, BinaryLRU.Valid;
    cache.Members();
    cache.OneEntry(cache.hash(k));
    r := cache.Get(k);
    cache.Members();
    cache.OneEntry(cache.hash(j));
    t := cache.Get(j);
  }

  /**
    Two records whose sector positions lie in different slots and whose keys in different buckets, the first
    no larger than half of a new cache, are both found.
   */
  method PutTwo(nCacheSize: nat, hash: Key -> nat, f: nat, p: nat, k: Key, d: Bytes, g: nat, q: nat, j: Key, e: Bytes)
    returns (r: Option<Bytes>, t: Option<Bytes>)
    requires nCacheSize >= 128 && hash(k) != 0 && hash(j) != 0 && |d| <= nCacheSize / 2
    requires var n := nCacheSize / 128;
             && hash(k) % n != hash(j) % n
             && (f + 1) * (p + 1) % 4294967296 % n != (g + 1) * (q + 1) % 4294967296 % n
             && (f + 1) * (p + 1) % 4294967296 != 0 && (g + 1) * (q + 1) % 4294967296 != 0
    ensures r == Some(d) && t == Some(e)
  {
    hide BinaryLRU.SlotsValid, BinaryLRU.LiveValid, BinaryLRU.DetachedValid, BinaryLRU.IndexValid, LinkedNodes.Valid, BinaryLRU.Recent, BinaryLRU.Entry, BinaryLRU.BaseSize;
    var cache := PutOne(nCacheSize, hash, f, p, k, d);
    ghost var x, y := cache.Slot(cache.Index(f, p)), cache.Slot(cache.Index(g, q));
    PutBeside(cache, g, q, j, e, Cell(x, Cached(hash(k), d)));
    r, t := GetTwo(cache, k, j, x, d, y, e);
  }
}
