/**
  The sector database as records: a keychain that maps keys to sectors, several keys to
  one sector, and the append-only sequence of sectors. A transaction commit is a program
  of single record steps on it.
 */
module Store {
  import opened Wrappers
  import Chain

  type Byte = x: int | 0 <= x < 0x100
  type Bytes = seq<Byte>
  type Key = Bytes

  /** What the keychain holds: a bare key, or the sector a key points to. */
  datatype Ref = KeyOnly | Sector(id: nat)

  type Chains = map<nat, seq<Chain.Cell<Key, Ref>>>

  /**
    `keys` is what a lookup in the keychain finds; `chains` are its buckets, in which a key may
    have older copies that only an erase brings to light.
   */
  datatype Store = Store(keys: map<Key, Ref>, sectors: seq<Bytes>, chains: Chains, bucket: Key -> nat) {
    ghost predicate Valid()
    {
      forall k | k in keys && keys[k].Sector? :: keys[k].id < |sectors|
    }

    /** A lookup finds the newest copy in the key's bucket; older copies point to sectors, too. */
    ghost predicate Keyed()
    {
      && (forall k :: Found(k))
      && forall b | b in chains :: CellsValid(chains[b])
    }

    predicate Found(k: Key)
    {
      Chain.Find(ChainOf(k), k) == if k in keys then Some(keys[k]) else None
    }

    predicate CellsValid(c: seq<Chain.Cell<Key, Ref>>)
    {
      forall i | 0 <= i < |c| :: CellValid(c[i])
    }

    predicate CellValid(x: Chain.Cell<Key, Ref>)
    {
      x.Held? && x.value.Sector? ==> x.value.id < |sectors|
    }

    function ChainOf(k: Key): (c: seq<Chain.Cell<Key, Ref>>)
    {
      if bucket(k) in chains then chains[bucket(k)] else []
    }

    function Copies(k: Key): (n: nat)
    {
      Chain.Copies(ChainOf(k), k)
    }

    predicate HasSector(k: Key)
    {
      k in keys && keys[k].Sector? && keys[k].id < |sectors|
    }

    /** A record is updated in place exactly when its sector has the new record's size. */
    predicate Fits(k: Key, d: Bytes)
    {
      HasSector(k) && |sectors[keys[k].id]| == |d|
    }

    function Content(k: Key): (d: Bytes)
      requires HasSector(k)
    {
      sectors[keys[k].id]
    }

    function PutKey(k: Key, r: Ref): (s: Store)
      ensures s.keys == keys[k := r] && s.sectors == sectors && s.bucket == bucket
    {
      Store(keys[k := r], sectors, chains[bucket(k) := Chain.Put(ChainOf(k), k, r)], bucket)
    }

    /** The newest copy goes; the next older one, if there is one, is found again. */
    function DropKey(k: Key): (s: Store)
      ensures s.sectors == sectors && s.bucket == bucket && s.keys - {k} == keys - {k}
    {
      var c := Chain.Erase(ChainOf(k), k);
      var r := Chain.Find(c, k);
      Store(if r.Some? then keys[k := r.value] else keys - {k}, sectors, chains[bucket(k) := c], bucket)
    }

    function Force(k: Key, d: Bytes): (s: Store)
      ensures s.bucket == bucket
      ensures s.keys == if Fits(k, d) then keys else keys[k := Sector(|sectors|)]
      ensures s.sectors == if Fits(k, d) then sectors[keys[k].id := d] else sectors + [d]
    {
      if Fits(k, d) then this.(sectors := sectors[keys[k].id := d])
      else this.(sectors := sectors + [d]).PutKey(k, Sector(|sectors|))
    }
  }

  function EmptyStore(bucket: Key -> nat): (s: Store)
    ensures s.Valid()
  {
    Store(map[], [], map[], bucket)
  }

  // ----- the keychain stays what its buckets say

  lemma EmptyKeyed(bucket: Key -> nat)
    ensures EmptyStore(bucket).Keyed()
  {
  }

  lemma PutFound(s: Store, k: Key, r: Ref, j: Key)
    requires s.Found(j)
    ensures s.PutKey(k, r).Found(j)
  {
    if j == k {
      Chain.FindPut(s.ChainOf(k), k, r);
    } else {
      Chain.FindPutOther(s.ChainOf(k), k, r, j);
    }
    hide Chain.Put, Chain.Find;
  }

  lemma PutCells(s: Store, k: Key, r: Ref)
    requires s.CellsValid(s.ChainOf(k)) && (r.Sector? ==> r.id < |s.sectors|)
    ensures s.PutKey(k, r).CellsValid(Chain.Put(s.ChainOf(k), k, r))
  {
  }

  lemma PutKeyed(s: Store, k: Key, r: Ref)
    requires s.Keyed() && (r.Sector? ==> r.id < |s.sectors|)
    ensures s.PutKey(k, r).Keyed()
  {
    var s' := s.PutKey(k, r);
    assert s.ChainOf(k) != [] ==> s.CellsValid(s.chains[s.bucket(k)]);
    PutCells(s, k, r);
    hide Chain.Put, Chain.Find, Store.Found, Store.CellsValid;
    forall j
      ensures s'.Found(j)
    {
      PutFound(s, k, r, j);
    }
    OtherCells(s, s', s.bucket(k));
  }

  lemma OtherCells(s: Store, s': Store, b: nat)
    requires s.Keyed() && s'.sectors == s.sectors && b in s'.chains
    requires forall x | x in s'.chains && x != b :: x in s.chains && s'.chains[x] == s.chains[x]
    requires s'.CellsValid(s'.chains[b])
    ensures forall x | x in s'.chains :: s'.CellsValid(s'.chains[x])
  {
    forall x | x in s'.chains
      ensures s'.CellsValid(s'.chains[x])
    {
      if x != b {
        assert s.CellsValid(s.chains[x]);
      }
    }
  }

  lemma EraseKeyed(s: Store, k: Key)
    requires s.Keyed()
    ensures s.DropKey(k).Keyed()
  {
    var s' := s.DropKey(k);
    assert s.ChainOf(k) != [] ==> s.CellsValid(s.chains[s.bucket(k)]);
    assert s'.CellsValid(s'.chains[s.bucket(k)]);
    forall j
      ensures s'.Found(j)
    {
      assert s.Found(j);
      if j != k {
        Chain.FindEraseOther(s.ChainOf(k), k, j);
        hide Chain.Erase, Chain.Find;
        assert s'.ChainOf(j) == if s.bucket(j) == s.bucket(k) then Chain.Erase(s.ChainOf(k), k) else s.ChainOf(j);
      }
    }
    OtherCells(s, s', s.bucket(k));
  }

  lemma SectorsKeyed(s: Store, sectors: seq<Bytes>)
    requires s.Keyed() && |sectors| >= |s.sectors|
    ensures s.(sectors := sectors).Keyed()
  {
    var s' := s.(sectors := sectors);
    forall b | b in s'.chains
      ensures s'.CellsValid(s'.chains[b])
    {
      assert s.CellsValid(s.chains[b]);
      assert forall i | 0 <= i < |s.chains[b]| :: s.CellValid(s.chains[b][i]);
    }
    forall j
      ensures s'.Found(j)
    {
      assert s.Found(j);
    }
  }

  lemma ForceKeyed(s: Store, k: Key, d: Bytes)
    requires s.Keyed()
    ensures s.Force(k, d).Keyed()
  {
    if s.Fits(k, d) {
      SectorsKeyed(s, s.sectors[s.keys[k].id := d]);
    } else {
      SectorsKeyed(s, s.sectors + [d]);
      PutKeyed(s.(sectors := s.sectors + [d]), k, Sector(|s.sectors|));
    }
  }

  // ----- copies of a key

  /** An erased key is gone exactly when it had one copy at most. */
  lemma ErasedGone(s: Store, k: Key)
    ensures k !in s.DropKey(k).keys <==> s.Copies(k) <= 1
  {
    Chain.AbsentAfterErase(s.ChainOf(k), k);
  }

  lemma EraseCopies(s: Store, k: Key, j: Key)
    ensures s.DropKey(k).Copies(j) == if j == k && s.Copies(k) > 0 then s.Copies(k) - 1 else s.Copies(j)
  {
    Chain.CopiesErase(s.ChainOf(k), k, j);
  }

  lemma PutCopies(s: Store, k: Key, r: Ref, j: Key)
    requires j != k
    ensures s.PutKey(k, r).Copies(j) == s.Copies(j)
  {
    Chain.CopiesPut(s.ChainOf(k), k, r, j);
  }

  lemma CopiesFound(s: Store, k: Key)
    requires s.Keyed()
    ensures s.Copies(k) > 0 <==> k in s.keys
  {
    assert s.Found(k);
    Chain.FoundExactly(s.ChainOf(k), k);
  }

  /**
    Two stores no read, write, mark or link can tell apart: same keys, same contents, same sharing of
    sectors. Only an erase may tell them apart, by older copies of its key.
   */
  ghost predicate Equiv(a: Store, b: Store)
  {
    Sim(a, b, {})
  }

  /** Equivalence on every key outside `dirty`. */
  ghost predicate Sim(a: Store, b: Store, dirty: set<Key>)
  {
    && a.Valid() && b.Valid()
    && (forall k | k !in dirty :: k in a.keys <==> k in b.keys)
    && (forall k | k !in dirty && k in a.keys :: SameRecord(a, b, k))
    && (forall j, k | j !in dirty && k !in dirty && j in a.keys && k in a.keys :: SameSharing(a, b, j, k))
  }

  ghost predicate SameRecord(a: Store, b: Store, k: Key)
    requires k in a.keys
  {
    && k in b.keys
    && (a.keys[k].Sector? <==> b.keys[k].Sector?)
    && (a.HasSector(k) && b.HasSector(k) ==> a.Content(k) == b.Content(k))
  }

  ghost predicate SameSharing(a: Store, b: Store, j: Key, k: Key)
    requires j in a.keys && k in a.keys
  {
    j in b.keys && k in b.keys && (a.keys[j] == a.keys[k] <==> b.keys[j] == b.keys[k])
  }

  lemma EquivRefl(a: Store)
    requires a.Valid()
    ensures Equiv(a, a)
  {
  }

  lemma EquivSym(a: Store, b: Store)
    requires Equiv(a, b)
    ensures Equiv(b, a)
  {
    forall k | k in b.keys
      ensures SameRecord(b, a, k)
    {
      assert SameRecord(a, b, k);
    }
    forall j, k | j in b.keys && k in b.keys
      ensures SameSharing(b, a, j, k)
    {
      assert SameSharing(a, b, j, k);
    }
  }

  lemma EquivTrans(a: Store, b: Store, c: Store)
    requires Equiv(a, b) && Equiv(b, c)
    ensures Equiv(a, c)
  {
    forall k | k in a.keys
      ensures SameRecord(a, c, k)
    {
      assert SameRecord(a, b, k) && SameRecord(b, c, k);
    }
    forall j, k | j in a.keys && k in a.keys
      ensures SameSharing(a, c, j, k)
    {
      assert SameSharing(a, b, j, k) && SameSharing(b, c, j, k);
    }
  }

  // ----- the record steps of a commit

  datatype Record =
    | EraseKey(key: Key)
    | Write(key: Key, data: Bytes)
    | Mark(key: Key)
    | Link(key: Key, target: Key)

  /** One step; None is the error return of the keychain. `cache` holds the link targets resolved so far. */
  function Step(s: Store, cache: map<Key, Ref>, r: Record): (o: Option<(Store, map<Key, Ref>)>)
  {
    match r
    case EraseKey(k) =>
      if k in s.keys then Some((s.DropKey(k), cache)) else None
    case Write(k, d) => Some((s.Force(k, d), cache))
    case Mark(k) => Some((s.PutKey(k, KeyOnly), cache))
    case Link(k, t) =>
      if t in cache then Some((s.PutKey(k, cache[t]), cache))
      else if t in s.keys then Some((s.PutKey(k, s.keys[t]), cache[t := s.keys[t]]))
      else None
  }

  lemma StepWrite(s: Store, cache: map<Key, Ref>, r: Record)
    requires r.Write?
    ensures Step(s, cache, r) == Some((s.Force(r.key, r.data), cache))
  {
  }

  /** A link sets the entry of its target, from the cache when it is there. */
  lemma StepLink(s: Store, cache: map<Key, Ref>, k: Key, t: Key)
    requires t in cache || t in s.keys
    ensures var r := if t in cache then cache[t] else s.keys[t];
            Step(s, cache, Link(k, t)) == Some((s.PutKey(k, r), cache[t := r]))
  {
    hide Store.PutKey;
    assert t in cache ==> cache[t := cache[t]] == cache;
  }

  lemma StepMissing(s: Store, cache: map<Key, Ref>, k: Key, t: Key)
    requires t !in cache && t !in s.keys
    ensures Step(s, cache, Link(k, t)) == None
  {
  }

  /** The rest of a commit: it stops at the first failing step and keeps what was done. */
  function Exec(s: Store, cache: map<Key, Ref>, prog: seq<Record>): (r: (Store, bool))
    decreases |prog|
  {
    if prog == [] then (s, true)
    else match Step(s, cache, prog[0])
      case None => (s, false)
      case Some(next) => Exec(next.0, next.1, prog[1..])
  }

  /** The state after the first `n` steps, if none of them fails. */
  function After(s: Store, cache: map<Key, Ref>, prog: seq<Record>, n: nat): (o: Option<(Store, map<Key, Ref>)>)
    requires n <= |prog|
  {
    if n == 0 then Some((s, cache))
    else
      var x := After(s, cache, prog, n - 1);
      if x.None? then None else Step(x.value.0, x.value.1, prog[n - 1])
  }

  lemma AfterNone(s: Store, cache: map<Key, Ref>, prog: seq<Record>)
    ensures After(s, cache, prog, 0) == Some((s, cache))
  {
  }

  lemma AfterNext(s: Store, cache: map<Key, Ref>, prog: seq<Record>, n: nat)
    requires n < |prog|
    ensures var x := After(s, cache, prog, n);
            After(s, cache, prog, n + 1) == if x.None? then None else Step(x.value.0, x.value.1, prog[n])
  {
    hide Step;
  }

  /** A commit goes on from its own intermediate states. */
  lemma {:induction false} ExecAfter(s: Store, cache: map<Key, Ref>, prog: seq<Record>, n: nat)
    requires n <= |prog| && After(s, cache, prog, n).Some?
    ensures var x := After(s, cache, prog, n).value; Exec(s, cache, prog) == Exec(x.0, x.1, prog[n..])
  {
    if n == 0 {
      assert prog[0..] == prog;
    } else {
      ExecAfter(s, cache, prog, n - 1);
      assert prog[n - 1..][0] == prog[n - 1] && prog[n - 1..][1..] == prog[n..];
    }
  }

  lemma {:induction false} AfterPrefix(s: Store, cache: map<Key, Ref>, p: seq<Record>, q: seq<Record>, n: nat)
    requires n <= |p|
    ensures After(s, cache, p + q, n) == After(s, cache, p, n)
  {
    hide Step;
    if n > 0 {
      AfterPrefix(s, cache, p, q, n - 1);
      assert (p + q)[n - 1] == p[n - 1];
    }
  }

  /** The states of a program in two parts. */
  lemma {:induction false} AfterConcat(s: Store, cache: map<Key, Ref>, p: seq<Record>, q: seq<Record>, n: nat)
    requires n <= |q|
    ensures After(s, cache, p + q, |p| + n)
         == var x := After(s, cache, p, |p|); if x.None? then None else After(x.value.0, x.value.1, q, n)
  {
    hide Step;
    if n == 0 {
      AfterPrefix(s, cache, p, q, |p|);
    } else {
      AfterConcat(s, cache, p, q, n - 1);
      assert (p + q)[|p| + n - 1] == q[n - 1];
    }
  }

  lemma {:induction false} ExecValid(s: Store, cache: map<Key, Ref>, prog: seq<Record>)
    requires s.Valid() && s.Keyed() && CacheValid(s, cache)
    ensures Exec(s, cache, prog).0.Valid() && Exec(s, cache, prog).0.Keyed()
    decreases |prog|
  {
    if prog != [] && Step(s, cache, prog[0]).Some? {
      StepValid(s, cache, prog[0]);
      var next := Step(s, cache, prog[0]).value;
      ExecValid(next.0, next.1, prog[1..]);
    }
  }

  lemma {:induction false} AfterValid(s: Store, cache: map<Key, Ref>, prog: seq<Record>, n: nat)
    requires s.Valid() && s.Keyed() && CacheValid(s, cache) && n <= |prog| && After(s, cache, prog, n).Some?
    ensures var x := After(s, cache, prog, n).value; x.0.Valid() && x.0.Keyed() && CacheValid(x.0, x.1)
  {
    if n > 0 {
      AfterValid(s, cache, prog, n - 1);
      var x := After(s, cache, prog, n - 1).value;
      StepValid(x.0, x.1, prog[n - 1]);
    }
  }

  ghost predicate CacheValid(s: Store, cache: map<Key, Ref>)
  {
    forall t | t in cache && cache[t].Sector? :: cache[t].id < |s.sectors|
  }

  lemma StepValid(s: Store, cache: map<Key, Ref>, r: Record)
    requires s.Valid() && s.Keyed() && CacheValid(s, cache) && Step(s, cache, r).Some?
    ensures var x := Step(s, cache, r).value; x.0.Valid() && x.0.Keyed() && CacheValid(x.0, x.1)
  {
    match r
    case EraseKey(k) =>
      EraseKeyed(s, k);
      KeyedValid(s.DropKey(k));
    case Write(k, d) => ForceKeyed(s, k, d);
    case Mark(k) => PutKeyed(s, k, KeyOnly);
    case Link(k, t) =>
      if t in cache {
        PutKeyed(s, k, cache[t]);
      } else {
        PutKeyed(s, k, s.keys[t]);
      }
  }

  lemma KeyedValid(s: Store)
    requires s.Keyed()
    ensures s.Valid()
  {
    forall k | k in s.keys && s.keys[k].Sector?
      ensures s.keys[k].id < |s.sectors|
    {
      assert s.Found(k);
      var c := s.ChainOf(k);
      assert s.CellsValid(s.chains[s.bucket(k)]);
      assert s.CellValid(c[Chain.Newest(c, Chain.Holding(k))]);
    }
  }

  // ----- steps respect equivalence

  lemma EquivForce(a: Store, b: Store, k: Key, d: Bytes)
    requires Equiv(a, b)
    ensures Equiv(a.Force(k, d), b.Force(k, d))
  {
    SimForce(a, b, {}, k, d);
  }

  lemma SimForce(a: Store, b: Store, dirty: set<Key>, k: Key, d: Bytes)
    requires Sim(a, b, dirty) && k !in dirty
    ensures Sim(a.Force(k, d), b.Force(k, d), dirty)
  {
    var a', b' := a.Force(k, d), b.Force(k, d);
    assert k in a.keys ==> SameRecord(a, b, k);
    assert a.Fits(k, d) <==> b.Fits(k, d);
    forall x | x !in dirty && x in a'.keys
      ensures SameRecord(a', b', x)
    {
      if x != k {
        assert SameRecord(a, b, x);
      }
      if a.Fits(k, d) {
        assert SameSharing(a, b, x, k);
      }
    }
    forall x, y | x !in dirty && y !in dirty && x in a'.keys && y in a'.keys
      ensures SameSharing(a', b', x, y)
    {
      if x in a.keys && y in a.keys {
        assert SameSharing(a, b, x, y);
      }
    }
  }
}
