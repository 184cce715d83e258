/**
  One bucket of a `BinaryHashMap`: its chain of fixed-size slots, one per hashmap file,
  searched from the newest to the oldest.
 */
module Keychain {
  import opened Wrappers
  import opened Store
  import Chain

  const HEADER: nat := 13
  const HASHMAP_MAX_KEY_SIZE: nat := 32
  const HASHMAP_KEY_ALLOCATION: nat := 45

  const EMPTY: Byte := 0
  const READY: Byte := 1

  function Zeros(n: nat): (s: Bytes)
    ensures |s| == n
  {
    seq(n, _ => 0)
  }

  type Slot = s: Bytes | |s| == HASHMAP_KEY_ALLOCATION witness seq(HASHMAP_KEY_ALLOCATION, _ => 0)

  /** The serialized header of a sector key: state, length, sector file, size and start. */
  type Header = s: Bytes | |s| == HEADER witness seq(HEADER, _ => 0)

  /** A key after compression. */
  type ShortKey = s: Bytes | |s| <= HASHMAP_MAX_KEY_SIZE

  predicate Matches(r: Slot, k: ShortKey)
  {
    r[HEADER..HEADER + |k|] == k
  }

  predicate Ready(r: Slot)
  {
    r[0] == READY
  }

  predicate Empty(r: Slot)
  {
    r[0] == EMPTY
  }

  function HeaderOf(r: Slot): (h: Header)
  {
    r[..HEADER]
  }

  /** Header and key written over a slot; the bytes behind a short key stay. */
  function Written(r: Slot, k: ShortKey, h: Header): (r': Slot)
    ensures HeaderOf(r') == h && Matches(r', k)
    ensures forall j: ShortKey | |j| == |k| && j != k :: !Matches(r', j)
  {
    h + k + r[HEADER + |k|..]
  }

  function Usable(k: ShortKey): (p: Slot -> bool)
  {
    (r: Slot) => Empty(r) || Matches(r, k)
  }

  function Holding(k: ShortKey): (p: Slot -> bool)
  {
    (r: Slot) => Matches(r, k)
  }

  function Live(k: ShortKey): (p: Slot -> bool)
  {
    (r: Slot) => Matches(r, k) && Ready(r)
  }

  function Get(c: seq<Slot>, k: ShortKey): (h: Option<Header>)
  {
    var i := Chain.Newest(c, Live(k));
    if i < 0 then None else Some(HeaderOf(c[i]))
  }

  function Put(c: seq<Slot>, k: ShortKey, h: Header): (c': seq<Slot>)
  {
    var i := Chain.Newest(c, Usable(k));
    if i < 0 then c + [Written(Zeros(HASHMAP_KEY_ALLOCATION), k, h)] else c[i := Written(c[i], k, h)]
  }

  function Erase(c: seq<Slot>, k: ShortKey): (c': seq<Slot>)
  {
    var i := Chain.Newest(c, Holding(k));
    if i < 0 then c else c[i := Zeros(HASHMAP_KEY_ALLOCATION)]
  }

  /** A slot's bytes: state 1 and the key behind the header. */
  predicate ReadyFor(r: Slot, k: ShortKey)
  {
    r[0] == 1 && r[13..13 + |k|] == k
  }

  /** A lookup finds exactly the header of the newest ready slot with the key. */
  lemma GetIs(c: seq<Slot>, k: ShortKey, h: Header)
    ensures Get(c, k) == Some(h) <==>
              exists i :: 0 <= i < |c| && ReadyFor(c[i], k) && c[i][..13] == h && forall j | i < j < |c| :: !ReadyFor(c[j], k)
  {
    forall r: Slot
      ensures Live(k)(r) <==> ReadyFor(r, k)
    {
    }
    hide Live, ReadyFor;
    var i := Chain.Newest(c, Live(k));
    if n :| 0 <= n < |c| && ReadyFor(c[n], k) && c[n][..13] == h && forall j | n < j < |c| :: !ReadyFor(c[j], k) {
      Chain.NewestIs(c, Live(k), n);
    }
  }

  // ----- one operation

  /** A lookup returns the last header put. */
  lemma GetPut(c: seq<Slot>, k: ShortKey, h: Header)
    requires h[0] == READY
    ensures Get(Put(c, k, h), k) == Some(h)
  {
    var i := Chain.Newest(c, Usable(k));
    var c' := Put(c, k, h);
    Chain.NewestIs(c', Live(k), if i < 0 then |c| else i);
  }

  /** Changing one slot that is live for `j` neither before nor after leaves the lookup of `j` alone. */
  lemma OtherSlot(c: seq<Slot>, c': seq<Slot>, i: nat, j: ShortKey)
    requires i < |c| && |c'| == |c| && (forall n | 0 <= n < |c| && n != i :: c'[n] == c[n])
    requires !Live(j)(c[i]) && !Live(j)(c'[i])
    ensures Get(c', j) == Get(c, j)
  {
    Chain.NewestIs(c', Live(j), Chain.Newest(c, Live(j)));
  }

  lemma PutOthers(c: seq<Slot>, k: ShortKey, h: Header, j: ShortKey)
    requires |j| == |k| && j != k
    ensures Get(Put(c, k, h), j) == Get(c, j)
  {
    var i := Chain.Newest(c, Usable(k));
    var c' := Put(c, k, h);
    if i < 0 {
      assert !Live(j)(c'[|c|]);
      assert c'[..|c|] == c;
    } else {
      OtherSlot(c, c', i, j);
    }
  }

  lemma EraseOthers(c: seq<Slot>, k: ShortKey, j: ShortKey)
    requires |j| == |k| && j != k
    ensures Get(Erase(c, k), j) == Get(c, j)
  {
    var i := Chain.Newest(c, Holding(k));
    if i >= 0 {
      OtherSlot(c, Erase(c, k), i, j);
    }
  }

  // ----- how often a key is stored

  function Copies(c: seq<Slot>, k: ShortKey): (n: nat)
  {
    Chain.Count(c, Live(k))
  }

  lemma FoundExactly(c: seq<Slot>, k: ShortKey)
    ensures Get(c, k).None? <==> Copies(c, k) == 0
  {
    Chain.NoneCounted(c, Live(k));
  }

  /** An erase makes its key absent exactly when at most one copy was live and the newest slot with the key is that copy. */
  lemma AbsentAfterErase(c: seq<Slot>, k: ShortKey)
    ensures var i := Chain.Newest(c, Holding(k));
            Get(Erase(c, k), k).None? <==> Copies(c, k) == 0 || (Copies(c, k) == 1 && i >= 0 && Ready(c[i]))
  {
    var i := Chain.Newest(c, Holding(k));
    FoundExactly(Erase(c, k), k);
    if i >= 0 {
      var z: Slot := Zeros(HASHMAP_KEY_ALLOCATION);
      Chain.CountUpdate(c, i, z, Live(k));
    } else {
      FoundExactly(c, k);
    }
  }

  /** A write stores a second copy exactly when it takes an emptied slot newer than the copy there is. */
  lemma PutCopies(c: seq<Slot>, k: ShortKey, h: Header)
    requires h[0] == READY
    ensures var i := Chain.Newest(c, Usable(k));
            Copies(Put(c, k, h), k) == Copies(c, k) + (if i >= 0 && Live(k)(c[i]) then 0 else 1)
  {
    var i := Chain.Newest(c, Usable(k));
    var w := Written(if i < 0 then Zeros(HASHMAP_KEY_ALLOCATION) else c[i], k, h);
    assert Live(k)(w);
    hide Chain.Newest, Written, Matches, Zeros;
    if i < 0 {
      Chain.CountSnoc(c, w, Live(k));
    } else {
      Chain.CountUpdate(c, i, Written(c[i], k, h), Live(k));
    }
  }

  // ----- runs

  datatype Op = PutOp(key: ShortKey, header: Header) | EraseOp(key: ShortKey)

  function Apply(c: seq<Slot>, o: Op): (c': seq<Slot>)
  {
    match o
    case PutOp(k, h) => Put(c, k, h)
    case EraseOp(k) => Erase(c, k)
  }

  function Run(ops: seq<Op>): (c: seq<Slot>)
  {
    if ops == [] then [] else Apply(Run(ops[..|ops| - 1]), ops[|ops| - 1])
  }

  /** The last operation on a key. */
  function Last(ops: seq<Op>, k: ShortKey): (o: Option<Op>)
    ensures o.Some? ==> o.value in ops && o.value.key == k
    ensures o.None? ==> forall x | x in ops :: x.key != k
  {
    if ops == [] then None
    else if ops[|ops| - 1].key == k then Some(ops[|ops| - 1])
    else Last(ops[..|ops| - 1], k)
  }

  /** Keys of one length, written as ready. */
  predicate Uniform(ops: seq<Op>, n: nat)
  {
    forall o | o in ops :: |o.key| == n && (o.PutOp? ==> o.header[0] == READY)
  }

  /** After any run a key whose last operation is a write is found with what was written, and a key never used is absent. */
  lemma {:induction false} RunGet(ops: seq<Op>, n: nat, k: ShortKey)
    requires Uniform(ops, n) && |k| == n
    ensures var o := Last(ops, k);
            && (o.None? ==> Get(Run(ops), k) == None)
            && (o.Some? && o.value.PutOp? ==> Get(Run(ops), k) == Some(o.value.header))
  {
    if ops != [] {
      var rest, o := ops[..|ops| - 1], ops[|ops| - 1];
      assert o in ops && forall x | x in rest :: x in ops;
      RunGet(rest, n, k);
      match o
      case PutOp(j, h) =>
        if j == k { GetPut(Run(rest), k, h); } else { PutOthers(Run(rest), j, h, k); }
      case EraseOp(j) =>
        if j != k { EraseOthers(Run(rest), j, k); }
    }
  }

  ghost predicate OneSlotEach(c: seq<Slot>, n: nat)
    requires n <= HASHMAP_MAX_KEY_SIZE
  {
    && (forall i | 0 <= i < |c| :: Ready(c[i]))
    && (forall i, j | 0 <= i < j < |c| :: c[i][HEADER..HEADER + n] != c[j][HEADER..HEADER + n])
  }

  lemma PutOneSlot(c: seq<Slot>, k: ShortKey, h: Header)
    requires OneSlotEach(c, |k|) && h[0] == READY
    ensures OneSlotEach(Put(c, k, h), |k|)
  {
    var i := Chain.Newest(c, Usable(k));
    var c' := Put(c, k, h);
    forall a, b | 0 <= a < b < |c'|
      ensures c'[a][HEADER..HEADER + |k|] != c'[b][HEADER..HEADER + |k|]
    {
      if i < 0 {
        assert b == |c| ==> !Usable(k)(c[a]);
      } else {
        assert Matches(c[i], k);
        assert c[a][HEADER..HEADER + |k|] != c[b][HEADER..HEADER + |k|];
      }
    }
  }

  /** Without erases every key has exactly one slot, so the chain is a map. */
  lemma {:induction false} RunOneSlot(ops: seq<Op>, n: nat)
    requires n <= HASHMAP_MAX_KEY_SIZE && Uniform(ops, n) && forall o | o in ops :: o.PutOp?
    ensures OneSlotEach(Run(ops), n)
  {
    if ops != [] {
      var rest, o := ops[..|ops| - 1], ops[|ops| - 1];
      assert o in ops && forall x | x in rest :: x in ops;
      RunOneSlot(rest, n);
      PutOneSlot(Run(rest), o.key, o.header);
    }
  }

  lemma {:induction false} OneSlotCopies(c: seq<Slot>, k: ShortKey)
    requires OneSlotEach(c, |k|)
    ensures Copies(c, k) <= 1
  {
    if c != [] {
      var rest := c[..|c| - 1];
      OneSlotCopies(rest, k);
      if Live(k)(c[|c| - 1]) {
        assert Chain.Newest(rest, Live(k)) < 0;
        FoundExactly(rest, k);
      }
    }
  }

  /** Hence the first erase after an erase-free run makes its key absent. */
  lemma FirstEraseAbsent(ops: seq<Op>, n: nat, k: ShortKey)
    requires Uniform(ops, n) && |k| == n && forall o | o in ops :: o.PutOp?
    ensures Get(Erase(Run(ops), k), k) == None
  {
    RunOneSlot(ops, n);
    OneSlotCopies(Run(ops), k);
    AbsentAfterErase(Run(ops), k);
    var i := Chain.Newest(Run(ops), Holding(k));
    if i < 0 {
      FoundExactly(Run(ops), k);
      assert Chain.Newest(Run(ops), Live(k)) < 0;
    }
  }

  /**
    When another key's slot is newer than every slot usable for `k`, erasing that key, writing `k` and
    erasing `k` leaves `k` with what it had before the write.
  */
  lemma ErasedComesBack(c: seq<Slot>, k: ShortKey, b: ShortKey, h: Header)
    requires Chain.Newest(c, Holding(b)) > Chain.Newest(c, Usable(k))
    ensures Get(Erase(Put(Erase(c, b), k, h), k), k) == Get(c, k)
  {
    var i := Chain.Newest(c, Holding(b));
    var c1 := Erase(c, b);
    assert !Live(k)(c1[i]) && forall j | i < j < |c1| :: c1[j] == c[j];
    OtherSlot(c, c1, i, k);
    PutErase(c1, k, h, i);
  }

  lemma PutErase(c: seq<Slot>, k: ShortKey, h: Header, i: nat)
    requires i < |c| && c[i] == Zeros(HASHMAP_KEY_ALLOCATION)
    requires forall j | i < j < |c| :: !Usable(k)(c[j])
    ensures Erase(Put(c, k, h), k) == c
  {
    hide Chain.Newest, Written;
    Chain.NewestIs(c, Usable(k), i);
    var c' := c[i := Written(c[i], k, h)];
    assert Put(c, k, h) == c';
    Chain.NewestIs(c', Holding(k), i);
  }

  lemma RunNext(ops: seq<Op>, o: Op)
    ensures Run(ops + [o]) == Apply(Run(ops), o)
  {
    assert (ops + [o])[..|ops|] == ops;
  }

  lemma RunFive(a: Op, b: Op, c: Op, d: Op, e: Op)
    ensures Run([a, b, c, d, e]) == Apply(Apply(Apply(Apply(Apply([], a), b), c), d), e)
  {
    hide Apply;
    assert Run([]) == [];
    hide Run;
    RunNext([], a);
    RunNext([a], b);
    RunNext([a, b], c);
    RunNext([a, b, c], d);
    RunNext([a, b, c, d], e);
    assert [] + [a] == [a] && [a] + [b] == [a, b] && [a, b] + [c] == [a, b, c];
    assert [a, b, c] + [d] == [a, b, c, d] && [a, b, c, d] + [e] == [a, b, c, d, e];
  }

  /** A written slot holds its key and is usable for no other key of that length. */
  lemma WrittenFor(r: Slot, k: ShortKey, h: Header, j: ShortKey)
    requires |j| == |k| && j != k && h[0] == READY
    ensures Holding(k)(Written(r, k, h)) && !Usable(j)(Written(r, k, h))
  {
  }

  lemma PutNew(c: seq<Slot>, k: ShortKey, h: Header)
    requires forall i | 0 <= i < |c| :: !Usable(k)(c[i])
    ensures Put(c, k, h) == c + [Written(Zeros(HASHMAP_KEY_ALLOCATION), k, h)]
  {
    hide Written, Zeros, Usable;
    Chain.NewestIs(c, Usable(k), -1);
  }

  /** Two keys written to an empty bucket have a slot each. */
  lemma TwoSlots(k: ShortKey, b: ShortKey, h: Header, x: Header)
    requires |k| == |b| && k != b && h[0] == x[0] == READY
    ensures var c := Put(Put([], k, h), b, x); Chain.Newest(c, Holding(b)) > Chain.Newest(c, Usable(k))
  {
    var z := Zeros(HASHMAP_KEY_ALLOCATION);
    var r, w := Written(z, k, h), Written(z, b, x);
    WrittenFor(z, k, h, b);
    WrittenFor(z, b, x, k);
    PutNew([], k, h);
    assert [] + [r] == [r];
    PutNew([r], b, x);
    hide Written, Zeros, Usable, Holding, Put, Chain.Newest;
    Chain.NewestSnoc([r], w, Holding(b));
    Chain.NewestSnoc([r], w, Usable(k));
  }

  /** As a run: after writing `k`, writing and erasing `b`, writing `k` again and erasing it, `k` is found as first written. */
  lemma ErasedRunComesBack(k: ShortKey, b: ShortKey, h: Header, h': Header, x: Header)
    requires |k| == |b| && k != b && h[0] == h'[0] == x[0] == READY
    ensures Get(Run([PutOp(k, h), PutOp(b, x), EraseOp(b), PutOp(k, h'), EraseOp(k)]), k) == Some(h)
  {
    TwoSlots(k, b, h, x);
    RunFive(PutOp(k, h), PutOp(b, x), EraseOp(b), PutOp(k, h'), EraseOp(k));
    GetPut([], k, h);
    hide Put, Get, Erase, Run;
    PutOthers(Put([], k, h), b, x, k);
    ErasedComesBack(Put(Put([], k, h), b, x), k, b, h');
  }

  // ----- the bytes are a chain of cells

  /** A slot of a run: never written and erased since, or ready. */
  predicate Proper(r: Slot)
  {
    Ready(r) || r == Zeros(HASHMAP_KEY_ALLOCATION)
  }

  ghost predicate AllProper(c: seq<Slot>)
  {
    forall i | 0 <= i < |c| :: Proper(c[i])
  }

  /** A slot as a cell, its key being of length `n`. */
  function CellOf(r: Slot, n: nat): (x: Chain.Cell<ShortKey, Header>)
    requires n <= HASHMAP_MAX_KEY_SIZE
  {
    var k: ShortKey := r[HEADER..HEADER + n];
    if Ready(r) then Chain.Held(k, HeaderOf(r)) else Chain.Free
  }

  function CellsOf(c: seq<Slot>, n: nat): (d: seq<Chain.Cell<ShortKey, Header>>)
    requires n <= HASHMAP_MAX_KEY_SIZE
  {
    seq(|c|, i requires 0 <= i < |c| => CellOf(c[i], n))
  }

  /** The all-zero key matches an erased slot. */
  predicate Nonzero(k: ShortKey)
  {
    k != Zeros(|k|)
  }

  lemma CellHolds(r: Slot, k: ShortKey)
    requires Proper(r)
    ensures Live(k)(r) <==> Chain.Holds(CellOf(r, |k|), k)
    ensures Usable(k)(r) <==> Chain.Usable(k)(CellOf(r, |k|))
    ensures Nonzero(k) ==> (Holding(k)(r) <==> Chain.Holds(CellOf(r, |k|), k))
  {
    if Matches(r, k) && !Ready(r) {
      assert r[HEADER..HEADER + |k|] == Zeros(|k|);
    }
  }

  lemma CellsHold(c: seq<Slot>, k: ShortKey)
    requires AllProper(c)
    ensures Chain.Newest(c, Live(k)) == Chain.Newest(CellsOf(c, |k|), Chain.Holding(k))
    ensures Chain.Newest(c, Usable(k)) == Chain.Newest(CellsOf(c, |k|), Chain.Usable(k))
    ensures Nonzero(k) ==> Chain.Newest(c, Holding(k)) == Chain.Newest(CellsOf(c, |k|), Chain.Holding(k))
  {
    var d := CellsOf(c, |k|);
    forall i | 0 <= i < |c|
      ensures Live(k)(c[i]) <==> Chain.Holding(k)(d[i])
      ensures Usable(k)(c[i]) <==> Chain.Usable(k)(d[i])
      ensures Nonzero(k) ==> (Holding(k)(c[i]) <==> Chain.Holding(k)(d[i]))
    {
      assert Proper(c[i]);
      CellHolds(c[i], k);
    }
    hide Live, Usable, Holding, Matches, Ready, Empty, CellOf, Chain.Holds, Chain.Holding, Chain.Usable, AllProper;
    Chain.NewestIs(d, Chain.Holding(k), Chain.Newest(c, Live(k)));
    Chain.NewestIs(d, Chain.Usable(k), Chain.Newest(c, Usable(k)));
    if Nonzero(k) {
      Chain.NewestIs(d, Chain.Holding(k), Chain.Newest(c, Holding(k)));
    }
  }

  lemma CellsSnoc(c: seq<Slot>, r: Slot, n: nat)
    requires n <= HASHMAP_MAX_KEY_SIZE
    ensures CellsOf(c + [r], n) == CellsOf(c, n) + [CellOf(r, n)]
  {
  }

  lemma CellsUpdate(c: seq<Slot>, i: nat, r: Slot, n: nat)
    requires i < |c| && n <= HASHMAP_MAX_KEY_SIZE
    ensures CellsOf(c[i := r], n) == CellsOf(c, n)[i := CellOf(r, n)]
  {
  }

  /** A written slot is ready, and its cell holds the key. */
  lemma WrittenCell(r: Slot, k: ShortKey, h: Header)
    requires h[0] == READY
    ensures Proper(Written(r, k, h)) && CellOf(Written(r, k, h), |k|) == Chain.Held(k, h)
  {
    hide Zeros;
  }

  /** An emptied slot is a free cell. */
  lemma ZeroCell(n: nat)
    requires n <= HASHMAP_MAX_KEY_SIZE
    ensures Proper(Zeros(HASHMAP_KEY_ALLOCATION)) && CellOf(Zeros(HASHMAP_KEY_ALLOCATION), n) == Chain.Free
  {
  }

  /** A lookup in the bytes is a lookup in the cells. */
  lemma GetRefines(c: seq<Slot>, k: ShortKey)
    requires AllProper(c)
    ensures Get(c, k) == Chain.Find(CellsOf(c, |k|), k)
  {
    CellsHold(c, k);
    var i := Chain.Newest(c, Live(k));
    assert i >= 0 ==> Live(k)(c[i]);
  }

  lemma PutRefines(c: seq<Slot>, k: ShortKey, h: Header)
    requires AllProper(c) && h[0] == READY
    ensures AllProper(Put(c, k, h)) && CellsOf(Put(c, k, h), |k|) == Chain.Put(CellsOf(c, |k|), k, h)
  {
    CellsHold(c, k);
    var i := Chain.Newest(c, Usable(k));
    var z := Zeros(HASHMAP_KEY_ALLOCATION);
    hide CellOf, CellsOf, Written, Zeros, Proper, Usable, Chain.Usable, Chain.Newest;
    if i < 0 {
      WrittenCell(z, k, h);
      CellsSnoc(c, Written(z, k, h), |k|);
    } else {
      WrittenCell(c[i], k, h);
      CellsUpdate(c, i, Written(c[i], k, h), |k|);
    }
  }

  /** The newest slot a write would take is an emptied one, and the key is live in an older one. */
  predicate Covered(c: seq<Slot>, k: ShortKey)
  {
    Get(c, k).Some? && Chain.Newest(c, Usable(k)) >= 0 && Empty(c[Chain.Newest(c, Usable(k))])
  }

  lemma EraseNonzero(c: seq<Slot>, k: ShortKey)
    requires AllProper(c) && Nonzero(k)
    ensures AllProper(Erase(c, k)) && CellsOf(Erase(c, k), |k|) == Chain.Erase(CellsOf(c, |k|), k)
    ensures Chain.Newest(c, Holding(k)) >= 0 <==> Get(c, k).Some?
  {
    CellsHold(c, k);
    ZeroCell(|k|);
    GetRefines(c, k);
    var i := Chain.Newest(c, Holding(k));
    hide CellOf, CellsOf, Zeros, Proper, Holding, Live, Get, Chain.Newest, Chain.Holding;
    if i >= 0 {
      CellsUpdate(c, i, Zeros(HASHMAP_KEY_ALLOCATION), |k|);
    }
  }

  lemma ZeroMatches(r: Slot, k: ShortKey)
    requires Proper(r) && !Nonzero(k)
    ensures Holding(k)(r) <==> Usable(k)(r)
    ensures Empty(r) ==> r == Zeros(HASHMAP_KEY_ALLOCATION)
  {
    if Empty(r) {
      assert r[HEADER..HEADER + |k|] == Zeros(|k|);
    }
  }

  /** The key of zero bytes matches every emptied slot, so its erase takes the slot its write would take. */
  lemma EraseZero(c: seq<Slot>, k: ShortKey)
    requires AllProper(c) && !Nonzero(k)
    ensures var i := Chain.Newest(c, Usable(k));
            Erase(c, k) == if i < 0 || Empty(c[i]) then c else c[i := Zeros(HASHMAP_KEY_ALLOCATION)]
  {
    var i := Chain.Newest(c, Usable(k));
    forall j | 0 <= j < |c|
      ensures Holding(k)(c[j]) <==> Usable(k)(c[j])
    {
      assert Proper(c[j]);
      ZeroMatches(c[j], k);
    }
    if i >= 0 {
      assert Proper(c[i]);
      ZeroMatches(c[i], k);
    }
    hide Holding, Usable, Empty, Zeros, Proper, Chain.Newest;
    Chain.NewestIs(c, Holding(k), i);
  }

  lemma EraseZeroRefines(c: seq<Slot>, k: ShortKey)
    requires AllProper(c) && !Nonzero(k)
    ensures AllProper(Erase(c, k))
    ensures CellsOf(Erase(c, k), |k|) == Chain.Erase(CellsOf(c, |k|), k) <==> !Covered(c, k)
  {
    var i := Chain.Newest(c, Usable(k));
    var d := CellsOf(c, |k|);
    EraseZero(c, k);
    CellsHold(c, k);
    GetRefines(c, k);
    ZeroCell(|k|);
    if i >= 0 {
      assert Proper(c[i]);
      CellHolds(c[i], k);
      CellsUpdate(c, i, Zeros(HASHMAP_KEY_ALLOCATION), |k|);
    }
    hide Erase, CellOf, CellsOf, Zeros, Holding, Live, Usable, Get, Chain.Newest;
    if i >= 0 && !Empty(c[i]) {
      Chain.EraseAt(d, k, i);
    }
  }

  /** An erase in the bytes is an erase in the cells, unless the key is all zeros and covered by an emptied slot. */
  lemma EraseRefines(c: seq<Slot>, k: ShortKey)
    requires AllProper(c)
    ensures AllProper(Erase(c, k))
    ensures CellsOf(Erase(c, k), |k|) == Chain.Erase(CellsOf(c, |k|), k) <==> Nonzero(k) || !Covered(c, k)
    ensures Nonzero(k) ==> (Chain.Newest(c, Holding(k)) >= 0 <==> Get(c, k).Some?)
  {
    hide *;
    if Nonzero(k) {
      EraseNonzero(c, k);
    } else {
      EraseZeroRefines(c, k);
    }
  }

  // ----- runs whose last operation on a key is an erase

  /** At most one cell is free or holds the key. */
  ghost predicate Lean(d: seq<Chain.Cell<ShortKey, Header>>, k: ShortKey)
  {
    forall i, j | 0 <= i < j < |d| :: !(Chain.Usable(k)(d[i]) && Chain.Usable(k)(d[j]))
  }

  lemma LeanStep(d: seq<Chain.Cell<ShortKey, Header>>, k: ShortKey, j: ShortKey, h: Header)
    requires Lean(d, k)
    ensures Lean(Chain.Put(d, j, h), k)
    ensures Lean(Chain.Erase(d, k), k) && Chain.Find(Chain.Erase(d, k), k) == None
  {
  }

  lemma {:induction false} RunProper(ops: seq<Op>, n: nat)
    requires Uniform(ops, n)
    ensures AllProper(Run(ops))
  {
    if ops != [] {
      var rest, o := ops[..|ops| - 1], ops[|ops| - 1];
      assert o in ops && forall x | x in rest :: x in ops;
      RunProper(rest, n);
      match o
      case PutOp(j, h) => PutRefines(Run(rest), j, h);
      case EraseOp(j) => EraseRefines(Run(rest), j);
    }
  }

  lemma {:induction false} RunLean(ops: seq<Op>, n: nat, k: ShortKey)
    requires Uniform(ops, n) && |k| == n && Nonzero(k)
    requires forall o | o in ops && o.EraseOp? :: o.key == k
    ensures Lean(CellsOf(Run(ops), n), k)
    ensures Last(ops, k) == Some(EraseOp(k)) ==> Get(Run(ops), k) == None
  {
    if ops != [] {
      var rest, o := ops[..|ops| - 1], ops[|ops| - 1];
      assert o in ops && forall x | x in rest :: x in ops;
      RunLean(rest, n, k);
      RunProper(rest, n);
      RunProper(ops, n);
      GetRefines(Run(ops), k);
      GetRefines(Run(rest), k);
      hide Lean, CellsOf, AllProper;
      match o
      case PutOp(j, h) =>
        LeanStep(CellsOf(Run(rest), n), k, j, h);
        PutRefines(Run(rest), j, h);
        if j != k { PutOthers(Run(rest), j, h, k); }
      case EraseOp(j) =>
        LeanStep(CellsOf(Run(rest), n), k, k, Zeros(HEADER));
        EraseRefines(Run(rest), k);
    }
  }

  /** A key that alone is ever erased is absent whenever its last operation is an erase. */
  lemma RunErased(ops: seq<Op>, n: nat, k: ShortKey)
    requires Uniform(ops, n) && |k| == n && Nonzero(k) && Last(ops, k) == Some(EraseOp(k))
    requires forall o | o in ops && o.EraseOp? :: o.key == k
    ensures Get(Run(ops), k) == None
  {
    RunLean(ops, n, k);
  }

  /** The operations before the last one on a key. */
  function BeforeLast(ops: seq<Op>, k: ShortKey): (p: seq<Op>)
    requires Last(ops, k).Some?
  {
    if ops[|ops| - 1].key == k then ops[..|ops| - 1] else BeforeLast(ops[..|ops| - 1], k)
  }

  /** After any run a key whose last operation is an erase is absent if and only if it had at most one copy before that. */
  lemma {:induction false} RunErasedExact(ops: seq<Op>, n: nat, k: ShortKey)
    requires Uniform(ops, n) && |k| == n && Nonzero(k) && Last(ops, k) == Some(EraseOp(k))
    ensures Get(Run(ops), k) == None <==> Copies(Run(BeforeLast(ops, k)), k) <= 1
  {
    var rest, o := ops[..|ops| - 1], ops[|ops| - 1];
    assert o in ops && forall x | x in rest :: x in ops;
    if o.key == k {
      RunProper(rest, n);
      EraseRefines(Run(rest), k);
      AbsentAfterErase(Run(rest), k);
      FoundExactly(Run(rest), k);
      CellsHold(Run(rest), k);
      var i := Chain.Newest(Run(rest), Holding(k));
      assert i >= 0 ==> Proper(Run(rest)[i]);
    } else {
      RunErasedExact(rest, n, k);
      match o
      case PutOp(j, h) => PutOthers(Run(rest), j, h, k);
      case EraseOp(j) => EraseOthers(Run(rest), j, k);
    }
  }
}
