/**
  Redo of a transaction that erases nothing adds no copies: afterwards every bucket has its
  slots held by the same keys as after one uninterrupted commit, so a later erase finds alike.
 */
module RedoCopies {
  import opened Wrappers
  import opened Store
  import Chain
  import opened KeyOrder
  import opened Transaction
  import opened Phases
  import opened Redo
  import opened RedoSoundness

  type Cells = seq<Chain.Cell<Key, Ref>>

  // ----- one bucket

  predicate SameHolder(x: Chain.Cell<Key, Ref>, y: Chain.Cell<Key, Ref>)
  {
    (x.Free? <==> y.Free?) && (x.Held? ==> x.key == y.key)
  }

  ghost predicate SameHolders(c: Cells, d: Cells)
  {
    |c| == |d| && forall i | 0 <= i < |c| :: SameHolder(c[i], d[i])
  }

  /** The slot a write of the key would take holds the key already. */
  predicate Homed(c: Cells, k: Key)
  {
    var i := Chain.Newest(c, Chain.Usable(k));
    i >= 0 && Chain.Holds(c[i], k)
  }

  lemma PutHomed(c: Cells, k: Key, r: Ref)
    ensures Homed(Chain.Put(c, k, r), k)
    ensures Homed(c, k) ==> SameHolders(Chain.Put(c, k, r), c)
  {
    var i := Chain.Newest(c, Chain.Usable(k));
    Chain.NewestIs(Chain.Put(c, k, r), Chain.Usable(k), if i < 0 then |c| else i);
  }

  lemma PutKeepsHome(c: Cells, k: Key, r: Ref, j: Key)
    requires Homed(c, j)
    ensures Homed(Chain.Put(c, k, r), j)
  {
    if j == k {
      PutHomed(c, k, r);
    } else {
      Chain.NewestIs(Chain.Put(c, k, r), Chain.Usable(j), Chain.Newest(c, Chain.Usable(j)));
    }
  }

  lemma HoldersPut(c: Cells, d: Cells, k: Key, r: Ref, r': Ref)
    requires SameHolders(c, d)
    ensures SameHolders(Chain.Put(c, k, r), Chain.Put(d, k, r'))
  {
    HoldersNewest(c, d, k);
  }

  lemma HoldersNewest(c: Cells, d: Cells, k: Key)
    requires SameHolders(c, d)
    ensures Chain.Newest(c, Chain.Usable(k)) == Chain.Newest(d, Chain.Usable(k))
    ensures Homed(c, k) <==> Homed(d, k)
  {
    var i := Chain.Newest(c, Chain.Usable(k));
    forall j | 0 <= j < |c|
      ensures Chain.Usable(k)(c[j]) <==> Chain.Usable(k)(d[j])
      ensures Chain.Holds(c[j], k) <==> Chain.Holds(d[j], k)
    {
      assert SameHolder(c[j], d[j]);
    }
    Chain.NewestIs(d, Chain.Usable(k), i);
  }

  lemma {:induction false} HoldersCopies(c: Cells, d: Cells, k: Key)
    requires SameHolders(c, d)
    ensures Chain.Copies(c, k) == Chain.Copies(d, k)
  {
    if c != [] {
      var n := |c| - 1;
      HoldersCopies(c[..n], d[..n], k);
      assert SameHolder(c[n], d[n]);
    }
  }

  // ----- stores

  /** Every slot of every bucket is free in both stores or held by one key. */
  ghost predicate SameSlots(a: Store, b: Store)
  {
    a.bucket == b.bucket && forall k :: SameHolders(a.ChainOf(k), b.ChainOf(k))
  }

  lemma SlotsCopies(a: Store, b: Store, k: Key)
    requires SameSlots(a, b)
    ensures a.Copies(k) == b.Copies(k)
  {
    HoldersCopies(a.ChainOf(k), b.ChainOf(k), k);
  }

  lemma SlotsTrans(a: Store, b: Store, c: Store)
    requires SameSlots(a, b) && SameSlots(b, c)
    ensures SameSlots(a, c)
  {
    forall k
      ensures SameHolders(a.ChainOf(k), c.ChainOf(k))
    {
      assert SameHolders(a.ChainOf(k), b.ChainOf(k)) && SameHolders(b.ChainOf(k), c.ChainOf(k));
      HoldersTrans(a.ChainOf(k), b.ChainOf(k), c.ChainOf(k));
    }
  }

  lemma HoldersTrans(a: Cells, b: Cells, c: Cells)
    requires SameHolders(a, b) && SameHolders(b, c)
    ensures SameHolders(a, c)
  {
    forall i | 0 <= i < |a|
      ensures SameHolder(a[i], c[i])
    {
      assert SameHolder(a[i], b[i]) && SameHolder(b[i], c[i]);
    }
  }

  ghost predicate AtHome(s: Store, k: Key)
  {
    Homed(s.ChainOf(k), k)
  }

  /** The record writes a keychain entry; all do but a write in place. */
  predicate Puts(s: Store, r: Record)
  {
    !(r.Write? && s.Fits(r.key, r.data))
  }

  /** What a record that does not erase does to the buckets. */
  ghost predicate Stepped(s: Store, r: Record, s': Store)
  {
    && s'.bucket == s.bucket
    && if Puts(s, r) then exists x :: s'.chains == s.PutKey(r.key, x).chains else s'.chains == s.chains
  }

  lemma StepPuts(s: Store, cache: map<Key, Ref>, r: Record)
    requires !r.EraseKey? && Step(s, cache, r).Some?
    ensures Stepped(s, r, Step(s, cache, r).value.0)
  {
    var s' := Step(s, cache, r).value.0;
    match r
    case Write(k, d) =>
      if !s.Fits(k, d) {
        assert s'.chains == s.PutKey(k, Sector(|s.sectors|)).chains;
      }
    case Mark(k) => assert s'.chains == s.PutKey(k, KeyOnly).chains;
    case Link(k, t) =>
      if t in cache {
        assert s'.chains == s.PutKey(k, cache[t]).chains;
      } else {
        assert s'.chains == s.PutKey(k, s.keys[t]).chains;
      }
  }

  lemma ChainPut(s: Store, s': Store, k: Key, x: Ref, j: Key)
    requires s'.bucket == s.bucket && s'.chains == s.PutKey(k, x).chains
    ensures s'.ChainOf(j) == if s.bucket(j) == s.bucket(k) then Chain.Put(s.ChainOf(j), k, x) else s.ChainOf(j)
  {
  }

  /** A record whose key is at home leaves all slots as they are held. */
  lemma SteppedHome(s: Store, r: Record, s': Store)
    requires Stepped(s, r, s') && (Puts(s, r) ==> AtHome(s, r.key))
    ensures SameSlots(s', s)
  {
    if Puts(s, r) {
      var x :| s'.chains == s.PutKey(r.key, x).chains;
      forall j
        ensures SameHolders(s'.ChainOf(j), s.ChainOf(j))
      {
        ChainPut(s, s', r.key, x, j);
        assert s.bucket(j) == s.bucket(r.key) ==> s.ChainOf(j) == s.ChainOf(r.key);
        PutHomed(s.ChainOf(r.key), r.key, x);
      }
    }
  }

  /** The same record on like slots, writing an entry in both stores or in none. */
  lemma SteppedBoth(a: Store, b: Store, r: Record, a': Store, b': Store)
    requires SameSlots(a, b) && Stepped(a, r, a') && Stepped(b, r, b') && (Puts(a, r) <==> Puts(b, r))
    ensures SameSlots(a', b')
  {
    if Puts(a, r) {
      var x :| a'.chains == a.PutKey(r.key, x).chains;
      var y :| b'.chains == b.PutKey(r.key, y).chains;
      forall j
        ensures SameHolders(a'.ChainOf(j), b'.ChainOf(j))
      {
        ChainPut(a, a', r.key, x, j);
        ChainPut(b, b', r.key, y, j);
        assert SameHolders(a.ChainOf(j), b.ChainOf(j));
        HoldersPut(a.ChainOf(j), b.ChainOf(j), r.key, x, y);
      }
    } else {
      forall j
        ensures SameHolders(a'.ChainOf(j), b'.ChainOf(j))
      {
        assert SameHolders(a.ChainOf(j), b.ChainOf(j));
      }
    }
  }

  lemma SteppedKeeps(s: Store, r: Record, s': Store, k: Key)
    requires Stepped(s, r, s')
    ensures AtHome(s, k) ==> AtHome(s', k)
    ensures Puts(s, r) ==> AtHome(s', r.key)
  {
    if Puts(s, r) {
      var x :| s'.chains == s.PutKey(r.key, x).chains;
      ChainPut(s, s', r.key, x, k);
      ChainPut(s, s', r.key, x, r.key);
      PutHomed(s.ChainOf(r.key), r.key, x);
      if AtHome(s, k) {
        PutKeepsHome(s.ChainOf(k), r.key, x, k);
      }
    }
  }

  // ----- a commit

  ghost predicate EraseFree(p: seq<Record>)
  {
    forall i | 0 <= i < |p| :: !p[i].EraseKey?
  }

  /** A key is at home, or its entry is as it was at the start; sectors keep their sizes. */
  ghost predicate Touched(s: Store, v: Store, k: Key)
  {
    AtHome(v, k) || ((k in v.keys <==> k in s.keys) && (k in s.keys ==> v.keys[k] == s.keys[k]))
  }

  ghost predicate Sizes(s: Store, v: Store)
  {
    |v.sectors| >= |s.sectors| && forall id | 0 <= id < |s.sectors| :: |v.sectors[id]| == |s.sectors[id]|
  }

  lemma TouchedStep(s: Store, v: Store, cache: map<Key, Ref>, r: Record, k: Key)
    requires Touched(s, v, k) && !r.EraseKey? && Step(v, cache, r).Some?
    ensures Touched(s, Step(v, cache, r).value.0, k)
  {
    StepPuts(v, cache, r);
    SteppedKeeps(v, r, Step(v, cache, r).value.0, k);
  }

  lemma {:induction false} TouchedRun(s: Store, p: seq<Record>, n: nat, k: Key)
    requires EraseFree(p) && n <= |p| && After(s, map[], p, n).Some?
    ensures Touched(s, After(s, map[], p, n).value.0, k)
  {
    if n > 0 {
      TouchedRun(s, p, n - 1, k);
      var x := After(s, map[], p, n - 1).value;
      TouchedStep(s, x.0, x.1, p[n - 1], k);
    }
  }

  lemma {:induction false} SizesRun(s: Store, p: seq<Record>, n: nat)
    requires EraseFree(p) && n <= |p| && After(s, map[], p, n).Some?
    ensures Sizes(s, After(s, map[], p, n).value.0)
  {
    if n > 0 {
      SizesRun(s, p, n - 1);
      var x := After(s, map[], p, n - 1).value;
      SizesStep(s, x.0, x.1, p[n - 1]);
    }
  }

  lemma SizesStep(s: Store, v: Store, cache: map<Key, Ref>, r: Record)
    requires Sizes(s, v) && !r.EraseKey? && Step(v, cache, r).Some?
    ensures Sizes(s, Step(v, cache, r).value.0)
  {
  }

  /** The key of a record done is at home, if the record wrote an entry. */
  lemma {:induction false} DoneHome(s: Store, p: seq<Record>, m: nat, n: nat)
    requires EraseFree(p) && m < n <= |p| && After(s, map[], p, n).Some?
    ensures After(s, map[], p, m).Some?
    ensures Puts(After(s, map[], p, m).value.0, p[m]) ==> AtHome(After(s, map[], p, n).value.0, p[m].key)
  {
    hide After, Step, AtHome, Puts, Stepped;
    AfterNext(s, map[], p, n - 1);
    var x := After(s, map[], p, n - 1).value;
    StepPuts(x.0, x.1, p[n - 1]);
    SteppedKeeps(x.0, p[n - 1], After(s, map[], p, n).value.0, p[m].key);
    if m < n - 1 {
      DoneHome(s, p, m, n - 1);
    }
  }

  /** No other record writes before a write is reached: its key has the entry it had. */
  ghost predicate WritesFirst(p: seq<Record>)
  {
    forall i, j | 0 <= i < j < |p| && p[j].Write? :: p[i].key != p[j].key
  }

  /** A step of another key leaves the entry of `k` alone. */
  lemma OtherKey(s: Store, cache: map<Key, Ref>, p: seq<Record>, i: nat, k: Key)
    requires EraseFree(p) && i < |p| && p[i].key != k && Step(s, cache, p[i]).Some?
    ensures var v := Step(s, cache, p[i]).value.0; (k in v.keys <==> k in s.keys) && (k in s.keys ==> v.keys[k] == s.keys[k])
  {
    hide Store.PutKey, Store.Fits;
  }

  lemma {:induction false} NotYetWritten(s: Store, p: seq<Record>, n: nat, k: Key)
    requires EraseFree(p) && n <= |p| && After(s, map[], p, n).Some? && forall i | 0 <= i < n :: p[i].key != k
    ensures var v := After(s, map[], p, n).value.0; (k in v.keys <==> k in s.keys) && (k in s.keys ==> v.keys[k] == s.keys[k])
  {
    hide *;
    if n == 0 {
      AfterNone(s, map[], p);
    } else {
      AfterNext(s, map[], p, n - 1);
      NotYetWritten(s, p, n - 1, k);
      var x := After(s, map[], p, n - 1).value;
      OtherKey(x.0, x.1, p, n - 1, k);
    }
  }

  lemma FitsAlike(s: Store, v: Store, k: Key, d: Bytes)
    requires s.Valid() && Sizes(s, v) && (k in v.keys <==> k in s.keys) && (k in s.keys ==> v.keys[k] == s.keys[k])
    ensures v.Fits(k, d) <==> s.Fits(k, d)
  {
  }

  /** Whether a write not reached yet will be in place is known from the start. */
  lemma FitsLater(s: Store, p: seq<Record>, m: nat)
    requires s.Valid() && EraseFree(p) && WritesFirst(p) && m < |p| && p[m].Write? && After(s, map[], p, m).Some?
    ensures After(s, map[], p, m).value.0.Fits(p[m].key, p[m].data) <==> s.Fits(p[m].key, p[m].data)
  {
    NotYetWritten(s, p, m, p[m].key);
    SizesRun(s, p, m);
    FitsAlike(s, After(s, map[], p, m).value.0, p[m].key, p[m].data);
  }

  // ----- the redo against the commit

  /** `u` is what the first `n` records left, perhaps with a torn sector. */
  ghost predicate CutAt(s: Store, p: seq<Record>, n: nat, u: Store)
  {
    && n <= |p| && After(s, map[], p, n).Some?
    && var v := After(s, map[], p, n).value.0;
       u.keys == v.keys && u.chains == v.chains && u.bucket == v.bucket && u.Valid() && Sizes(v, u)
  }

  lemma CutHome(s: Store, p: seq<Record>, n: nat, u: Store, k: Key)
    requires CutAt(s, p, n, u)
    ensures AtHome(u, k) <==> AtHome(After(s, map[], p, n).value.0, k)
  {
  }

  /** A record done before the cut changes no slot when it is done again. */
  lemma AgainHome(s: Store, p: seq<Record>, n: nat, u: Store, m: nat)
    requires s.Valid() && EraseFree(p) && WritesFirst(p) && CutAt(s, p, n, u) && m < n
    requires After(u, map[], p, m).Some?
    ensures Puts(After(u, map[], p, m).value.0, p[m]) ==> AtHome(u, p[m].key)
  {
    var r := p[m];
    DoneHome(s, p, m, n);
    CutHome(s, p, n, u, r.key);
    if r.Write? {
      FitsLater(u, p, m);
      FitsLater(s, p, m);
      TouchedRun(s, p, n, r.key);
      SizesRun(s, p, n);
      var v := After(s, map[], p, n).value.0;
      if !AtHome(v, r.key) {
        hide Homed;
        FitsAlike(s, u, r.key, r.data);
      }
    }
  }

  /** A record behind the cut writes an entry in the redo exactly when it does so in the commit. */
  lemma AgainPuts(s: Store, p: seq<Record>, n: nat, u: Store, m: nat)
    requires s.Valid() && EraseFree(p) && WritesFirst(p) && CutAt(s, p, n, u) && n <= m < |p|
    requires After(u, map[], p, m).Some? && After(s, map[], p, m).Some?
    ensures Puts(After(u, map[], p, m).value.0, p[m]) <==> Puts(After(s, map[], p, m).value.0, p[m])
  {
    if p[m].Write? {
      FitsLater(u, p, m);
      FitsLater(s, p, m);
      NotYetWritten(s, p, n, p[m].key);
      SizesRun(s, p, n);
      FitsAlike(s, u, p[m].key, p[m].data);
    }
  }

  /** Up to the cut redo changes no slot. */
  lemma {:induction false} BeforeCut(s: Store, p: seq<Record>, n: nat, u: Store, m: nat)
    requires s.Valid() && EraseFree(p) && WritesFirst(p) && CutAt(s, p, n, u)
    requires m <= n <= |p| && After(u, map[], p, m).Some?
    ensures SameSlots(After(u, map[], p, m).value.0, u)
  {
    hide *;
    if m == 0 {
      AfterNone(u, map[], p);
      SameAsCut(s, p, n, u);
    } else {
      AfterNext(u, map[], p, m - 1);
      BeforeCut(s, p, n, u, m - 1);
      AgainHome(s, p, n, u, m - 1);
      var x := After(u, map[], p, m - 1).value;
      SlotsHome(x.0, u, p[m - 1].key);
      NoErase(p, m - 1);
      StepPuts(x.0, x.1, p[m - 1]);
      var y := After(u, map[], p, m).value.0;
      SteppedHome(x.0, p[m - 1], y);
      SlotsTrans(y, x.0, u);
    }
  }

  /** Behind the cut it goes as the commit would have gone. */
  lemma {:induction false} BehindCut(s: Store, p: seq<Record>, n: nat, u: Store, m: nat)
    requires s.Valid() && EraseFree(p) && WritesFirst(p) && CutAt(s, p, n, u)
    requires n <= m <= |p| && After(u, map[], p, m).Some? && After(s, map[], p, m).Some?
    ensures SameSlots(After(u, map[], p, m).value.0, After(s, map[], p, m).value.0)
  {
    hide SameSlots, Puts, Stepped, AtHome, Step, CutAt, EraseFree, WritesFirst;
    if m == n {
      AtCut(s, p, n, u);
    } else {
      BehindCut(s, p, n, u, m - 1);
      AgainPuts(s, p, n, u, m - 1);
      NoErase(p, m - 1);
      StepBoth(After(u, map[], p, m - 1).value, After(s, map[], p, m - 1).value, p[m - 1]);
    }
  }

  lemma AtCut(s: Store, p: seq<Record>, n: nat, u: Store)
    requires s.Valid() && EraseFree(p) && WritesFirst(p) && CutAt(s, p, n, u) && After(u, map[], p, n).Some?
    ensures SameSlots(After(u, map[], p, n).value.0, After(s, map[], p, n).value.0)
  {
    BeforeCut(s, p, n, u, n);
    SameAsCut(s, p, n, u);
    hide SameSlots, After, EraseFree, WritesFirst;
    SlotsTrans(After(u, map[], p, n).value.0, u, After(s, map[], p, n).value.0);
  }

  lemma StepBoth(x: (Store, map<Key, Ref>), v: (Store, map<Key, Ref>), r: Record)
    requires SameSlots(x.0, v.0) && !r.EraseKey? && (Puts(x.0, r) <==> Puts(v.0, r))
    requires Step(x.0, x.1, r).Some? && Step(v.0, v.1, r).Some?
    ensures SameSlots(Step(x.0, x.1, r).value.0, Step(v.0, v.1, r).value.0)
  {
    StepPuts(x.0, x.1, r);
    StepPuts(v.0, v.1, r);
    hide SameSlots, Puts, Stepped, Step;
    SteppedBoth(x.0, v.0, r, Step(x.0, x.1, r).value.0, Step(v.0, v.1, r).value.0);
  }

  lemma NoErase(p: seq<Record>, m: nat)
    requires EraseFree(p) && m < |p|
    ensures !p[m].EraseKey?
  {
  }

  lemma SlotsHome(a: Store, b: Store, k: Key)
    requires SameSlots(a, b)
    ensures AtHome(a, k) <==> AtHome(b, k)
  {
    assert SameHolders(a.ChainOf(k), b.ChainOf(k));
    HoldersNewest(a.ChainOf(k), b.ChainOf(k), k);
  }

  lemma SameAsCut(s: Store, p: seq<Record>, n: nat, u: Store)
    requires CutAt(s, p, n, u)
    ensures SameSlots(u, u) && SameSlots(u, After(s, map[], p, n).value.0)
  {
  }

  // ----- the theorem

  lemma ProgramOrder(t: Txn)
    requires t.erased == {}
    ensures EraseFree(Program(t)) && WritesFirst(Program(t))
  {
    var p := Program(t);
    ProgramIs(t);
    forall i | 0 <= i < |p|
      ensures !p[i].EraseKey?
    {
      assert p[i] in p;
    }
    forall i, j | 0 <= i < j < |p| && p[j].Write?
      ensures p[i].key != p[j].key
    {
      assert p[i] in p && Before(p[i], p[j]);
    }
  }

  lemma InterruptedCut(t: Txn, s: Store, n: nat, u: Store)
    requires s.Valid() && s.Keyed() && n <= |Program(t)| && InterruptedAt(s, Program(t), n, u)
    ensures CutAt(s, Program(t), n, u)
  {
    InterruptedKeeps(t, s, n, u);
  }

  lemma WholeSlots(s: Store, p: seq<Record>, n: nat, u: Store)
    requires s.Valid() && EraseFree(p) && WritesFirst(p) && CutAt(s, p, n, u)
    requires Exec(s, map[], p).1 && Exec(u, map[], p).1
    ensures SameSlots(Exec(u, map[], p).0, Exec(s, map[], p).0)
  {
    WholeAfter(s, p, 0);
    WholeAfter(u, p, 0);
    BehindCut(s, p, n, u, |p|);
  }

  /** A commit that succeeds does every record. */
  lemma {:induction false} WholeAfter(s: Store, p: seq<Record>, n: nat)
    requires n <= |p| && After(s, map[], p, n).Some? && Exec(s, map[], p).1
    ensures After(s, map[], p, |p|).Some? && After(s, map[], p, |p|).value.0 == Exec(s, map[], p).0
    decreases |p| - n
  {
    ExecAfter(s, map[], p, n);
    if n < |p| {
      assert p[n..][0] == p[n];
      WholeAfter(s, p, n + 1);
    }
  }

  /** However a commit was interrupted, redo leaves every key as many copies as one commit would have. */
  lemma RedoKeepsCopies(t: Txn, s: Store, s': Store)
    requires Redoable(t) && s.Valid() && s.Keyed() && Resolved(s, t) && Interrupted(s, Program(t), s')
    ensures SameSlots(Final(s', t), Final(s, t))
    ensures forall k :: Final(s', t).Copies(k) == Final(s, t).Copies(k)
  {
    hide InterruptedAt, Program, Resolved, Store.Keyed, SameSlots, CutAt, Equiv;
    RedoStep(t, s, s');
    FinalIs(s, t);
    FinalIs(s', t);
    ProgramOrder(t);
    var n :| 0 <= n <= |Program(t)| && InterruptedAt(s, Program(t), n, s');
    InterruptedCut(t, s, n, s');
    WholeSlots(s, Program(t), n, s');
    forall k
      ensures Final(s', t).Copies(k) == Final(s, t).Copies(k)
    {
      SlotsCopies(Final(s', t), Final(s, t), k);
    }
  }
}
