/**
  Redo is sound for no other transaction that erases nothing: each condition of `Redoable` is
  necessary.
 */
module RedoLimits {
  import opened Wrappers
  import opened Store
  import Chain
  import opened KeyOrder
  import opened Transaction
  import opened Phases
  import opened Redo
  import opened RedoSoundness

  // ----- stores to fail on

  /** A store with the given keys, one copy each. */
  ghost function Build(keys: map<Key, Ref>, sectors: seq<Bytes>): (s: Store)
    decreases |keys|
  {
    if keys == map[] then EmptyStore(_ => 0).(sectors := sectors)
    else
      var k := Least(keys.Keys);
      Build(keys - {k}, sectors).PutKey(k, keys[k])
  }

  ghost predicate Single(s: Store)
  {
    s.Valid() && s.Keyed() && forall k | k in s.keys :: s.Copies(k) == 1
  }

  lemma {:induction false} BuildIs(keys: map<Key, Ref>, sectors: seq<Bytes>)
    requires forall k | k in keys && keys[k].Sector? :: keys[k].id < |sectors|
    ensures var s := Build(keys, sectors); s.keys == keys && s.sectors == sectors && Single(s)
    decreases |keys|
  {
    hide Single, Store.Keyed, Store.Valid;
    if keys == map[] {
      BuildNone(sectors);
    } else {
      var k := Least(keys.Keys);
      BuildIs(keys - {k}, sectors);
      BuildNext(Build(keys - {k}, sectors), k, keys[k]);
      assert (keys - {k})[k := keys[k]] == keys;
    }
  }

  lemma BuildNone(sectors: seq<Bytes>)
    ensures Single(EmptyStore(_ => 0).(sectors := sectors))
  {
    EmptyKeyed(_ => 0);
    SectorsKeyed(EmptyStore(_ => 0), sectors);
  }

  lemma OwnCopies(b: Store, k: Key, r: Ref)
    requires b.Copies(k) == 0
    ensures b.PutKey(k, r).Copies(k) == 1
  {
    NoCopyHeld(b, k);
    Chain.CopiesPut(b.ChainOf(k), k, r, k);
  }

  lemma BuildNext(b: Store, k: Key, r: Ref)
    requires Single(b) && k !in b.keys && (r.Sector? ==> r.id < |b.sectors|)
    ensures Single(b.PutKey(k, r))
  {
    PutKeyed(b, k, r);
    CopiesFound(b, k);
    OwnCopies(b, k, r);
    hide Store.Keyed, Chain.Put, Chain.Copies, Store.Copies, Store.Valid;
    assert b.PutKey(k, r).Valid() by { KeyedValid(b.PutKey(k, r)); }
    assert b.PutKey(k, r).Copies(k) == 1;
    forall j | j in b.PutKey(k, r).keys
      ensures b.PutKey(k, r).Copies(j) == 1
    {
      if j != k {
        PutCopies(b, k, r, j);
      }
    }
  }

  lemma NoCopyHeld(s: Store, k: Key)
    requires s.Copies(k) == 0
    ensures var i := Chain.Newest(s.ChainOf(k), Chain.Usable(k)); !(i >= 0 && Chain.Holds(s.ChainOf(k)[i], k))
  {
    Chain.FoundExactly(s.ChainOf(k), k);
    assert Chain.Newest(s.ChainOf(k), Chain.Holding(k)) < 0;
    var i := Chain.Newest(s.ChainOf(k), Chain.Usable(k));
    assert i >= 0 ==> !Chain.Holding(k)(s.ChainOf(k)[i]);
  }

  /** A key outside a set. */
  lemma {:induction false} FreshKey(s: set<Key>) returns (y: Key)
    ensures forall k | k in s :: |k| < |y|
  {
    if s == {} {
      y := [];
    } else {
      var k :| k in s;
      var z := FreshKey(s - {k});
      y := z + k + [0];
    }
  }

  /** The given keys share one sector, every other link target is a bare key. */
  ghost function Sharing(t: Txn, shared: set<Key>, c: Bytes): (s: Store)
  {
    Build(map x | x in shared + t.links.Values :: if x in shared then Sector(0) else KeyOnly, [c])
  }

  lemma SharingIs(t: Txn, shared: set<Key>, c: Bytes)
    requires t.erased == {}
    ensures var s := Sharing(t, shared, c);
            && Ready(s, t) && Resolved(s, t) && s.sectors == [c]
            && (forall x :: RefOf(s, x) == if x in shared then Sector(0) else KeyOnly)
            && (forall x | x in shared :: x in s.keys)
  {
    BuildIs(map x | x in shared + t.links.Values :: if x in shared then Sector(0) else KeyOnly, [c]);
  }

  // ----- the writes on any store

  /** One of the first `n` records is written in place to sector `id`. */
  ghost predicate Hit(s: Store, ws: seq<Record>, n: nat, id: nat)
    requires AllWrites(ws) && n <= |ws|
  {
    exists i :: 0 <= i < n && s.Fits(ws[i].key, ws[i].data) && s.keys[ws[i].key] == Sector(id)
  }

  ghost predicate PlacedAt(s: Store, ws: seq<Record>, n: nat, v: Store)
    requires AllWrites(ws) && n <= |ws|
  {
    && v.Valid() && |v.sectors| >= |s.sectors| && KeysStay(s, v, ws, n)
    && (forall id | 0 <= id < |s.sectors| :: |v.sectors[id]| == |s.sectors[id]|)
    && (forall id | 0 <= id < |s.sectors| :: v.sectors[id] == s.sectors[id] || Hit(s, ws, n, id))
    && (forall i | 0 <= i < n :: NewSector(s, v, ws[i]))
  }

  /** A record that did not fit has a sector of its own behind the old ones. */
  ghost predicate NewSector(s: Store, v: Store, r: Record)
    requires r.Write?
  {
    !s.Fits(r.key, r.data) ==> RefOf(v, r.key).Sector? && RefOf(v, r.key).id >= |s.sectors|
  }

  lemma PlacedNext(s: Store, ws: seq<Record>, n: nat, v: Store)
    requires AllWrites(ws) && Sorted(ws) && n < |ws| && s.Valid() && PlacedAt(s, ws, n, v)
    ensures PlacedAt(s, ws, n + 1, v.Force(ws[n].key, ws[n].data))
  {
    hide Hit, KeysStay, NewSector, AllWrites, Sorted;
    WriteAt(ws, n);
    var k, d := ws[n].key, ws[n].data;
    var v' := v.Force(k, d);
    KeyNotYet(s, v, ws, n);
    assert v.Fits(k, d) <==> s.Fits(k, d);
    StayNext(s, v, v', ws, n);
    forall id | 0 <= id < |s.sectors|
      ensures v'.sectors[id] == s.sectors[id] || Hit(s, ws, n + 1, id)
    {
      if v'.sectors[id] != s.sectors[id] {
        HitNext(s, ws, n, id);
      }
    }
    NewSectorsNext(s, ws, n, v);
  }

  lemma NewSectorsNext(s: Store, ws: seq<Record>, n: nat, v: Store)
    requires AllWrites(ws) && Sorted(ws) && n < |ws| && |v.sectors| >= |s.sectors|
    requires v.Fits(ws[n].key, ws[n].data) <==> s.Fits(ws[n].key, ws[n].data)
    requires forall i | 0 <= i < n :: NewSector(s, v, ws[i])
    ensures forall i | 0 <= i < n + 1 :: NewSector(s, v.Force(ws[n].key, ws[n].data), ws[i])
  {
    forall i | 0 <= i < n + 1
      ensures NewSector(s, v.Force(ws[n].key, ws[n].data), ws[i])
    {
      SortedApart(ws, i, n);
      assert i < n ==> NewSector(s, v, ws[i]);
    }
  }

  lemma HitNext(s: Store, ws: seq<Record>, n: nat, id: nat)
    requires AllWrites(ws) && n < |ws|
    requires Hit(s, ws, n, id) || (s.Fits(ws[n].key, ws[n].data) && s.keys[ws[n].key] == Sector(id))
    ensures Hit(s, ws, n + 1, id)
  {
  }

  lemma {:induction false} PlacedRun(s: Store, ws: seq<Record>, n: nat)
    requires AllWrites(ws) && Sorted(ws) && n <= |ws| && s.Valid()
    ensures PlacedAt(s, ws, n, Wrote(s, ws, n))
  {
    if n == 0 {
      WroteAll(s, ws);
    } else {
      PlacedRun(s, ws, n - 1);
      WroteNext(s, ws, n - 1);
      PlacedNext(s, ws, n - 1, Wrote(s, ws, n - 1));
    }
  }

  /** A written key whose record does not fit its sector. */
  ghost predicate Misfit(s: Store, t: Txn, k: Key)
  {
    k in t.writes && !s.Fits(k, t.writes[k])
  }

  /** What the writes do to the keys and to the old sectors. */
  ghost predicate Placed(s: Store, t: Txn, w: Store)
  {
    && w.Valid() && |w.sectors| >= |s.sectors|
    && (forall k | Misfit(s, t, k) :: RefOf(w, k).Sector? && RefOf(w, k).id >= |s.sectors|)
    && (forall k | !Misfit(s, t, k) :: RefOf(w, k) == RefOf(s, k))
    && (forall id | 0 <= id < |s.sectors| && (forall a | a in t.writes && s.Fits(a, t.writes[a]) :: s.keys[a] != Sector(id)) ::
          w.sectors[id] == s.sectors[id])
  }

  lemma WritesPlaced(s: Store, t: Txn)
    requires s.Valid()
    ensures Placed(s, t, WriteAll(s, Ws(t)))
  {
    var ws := Ws(t);
    var w := WriteAll(s, ws);
    PassesAre(t);
    PlacedRun(s, ws, |ws|);
    WroteAll(s, ws);
    forall k | Misfit(s, t, k)
      ensures RefOf(w, k).Sector? && RefOf(w, k).id >= |s.sectors|
    {
      var i := WriteIndex(t, k);
      assert NewSector(s, w, ws[i]);
    }
    forall k | !Misfit(s, t, k)
      ensures RefOf(w, k) == RefOf(s, k)
    {
      forall i | 0 <= i < |ws| && ws[i].key == k
        ensures s.Fits(k, ws[i].data)
      {
        assert ws[i] in ws;
      }
    }
    forall id | 0 <= id < |s.sectors| && (forall a | a in t.writes && s.Fits(a, t.writes[a]) :: s.keys[a] != Sector(id))
      ensures w.sectors[id] == s.sectors[id]
    {
      forall i | 0 <= i < |ws| && s.Fits(ws[i].key, ws[i].data)
        ensures s.keys[ws[i].key] != Sector(id)
      {
        assert ws[i] in ws;
      }
    }
  }

  // ----- refuting soundness

  lemma Refute(t: Txn, s: Store, u: Store)
    requires Ready(s, t) && Interrupted(s, Program(t), u) && !Equiv(Final(u, t), Final(s, t))
    ensures !RedoSound(t)
  {
    assert Attempts([s, u], t);
  }

  /** A state of an uninterrupted commit is one an interruption leaves. */
  lemma Reached(s: Store, t: Txn, n: nat)
    requires s.Valid() && s.Keyed() && n <= |Program(t)| && After(s, map[], Program(t), n).Some?
    ensures var u := After(s, map[], Program(t), n).value.0; Interrupted(s, Program(t), u) && u.Valid() && u.Keyed()
  {
    hide After, Program, Store.Keyed;
    var u := After(s, map[], Program(t), n).value.0;
    assert InterruptedAt(s, Program(t), n, u);
    InterruptedKeeps(t, s, n, u);
  }

  /** Where a link is in its pass. */
  lemma LinkPlace(t: Txn, k: Key) returns (j: nat)
    requires k in t.links
    ensures j < |Ls(t)| && Ls(t)[j] == Link(k, t.links[k]) && Sorted(Ls(t))
    ensures forall r | r in Ls(t) :: r.key in t.links
  {
    var ls := Ls(t);
    PassesAre(t);
    hide Sorted;
    assert Link(k, t.links[k]) in ls;
    j :| 0 <= j < |ls| && ls[j] == Link(k, t.links[k]);
  }

  lemma LinkIndex(t: Txn, k: Key) returns (j: nat)
    requires k in t.links
    ensures j < |Ls(t)|
    ensures var src := TraceLinks(Ls(t), j + 1).src;
            k in src && (forall b | b in src :: !Less(k, b)) && Progress(t, t.marks, src)
  {
    hide Progress, TraceLinks, KeysOf, Sorted, Ls;
    j := LinkPlace(t, k);
    LinksProgress(t, j + 1);
    TraceKeySet(Ls(t), j + 1);
    LastKey(Ls(t), j);
    assert KeysOf(Ls(t)[..j + 1]) == TraceLinks(Ls(t), j + 1).src.Keys;
  }

  /** The keys of a beginning are none later than its last. */
  lemma LastKey(p: seq<Record>, j: nat)
    requires Sorted(p) && j < |p|
    ensures p[j].key in KeysOf(p[..j + 1]) && forall b | b in KeysOf(p[..j + 1]) :: !Less(p[j].key, b)
  {
    KeysOfNext(p, j);
    forall b | b in KeysOf(p[..j + 1])
      ensures !Less(p[j].key, b)
    {
      KeysBefore(p, j + 1, b);
      var i :| 0 <= i < j + 1 && p[i].key == b;
      SortedApart(p, j, i);
    }
  }

  /** The state right after a link. */
  lemma StateAfterLink(s: Store, t: Txn, k: Key) returns (u: Store, src: map<Key, Key>)
    requires t.erased == {} && s.Valid() && s.Keyed() && Resolved(s, t) && k in t.links
    ensures Interrupted(s, Program(t), u) && u.Valid() && u.Keyed() && Resolved(u, t)
    ensures Midway(t, WriteAll(s, Ws(t)), t.marks, src, u)
    ensures k in src && forall b | b in src :: !Less(k, b)
  {
    hide After, Program, WriteAll, Ws, Ms, Ls, TraceLinks, Progress, Resolved, Interrupted, Store.Keyed, Finished;
    var j := LinkIndex(t, k);
    LinkState(s, t, j + 1);
    var n := |Ws(t)| + |Ms(t)| + (j + 1);
    Reached(s, t, n);
    u, src := After(s, map[], Program(t), n).value.0, TraceLinks(Ls(t), j + 1).src;
    LateState(s, t, u, src);
  }

  lemma LateState(s: Store, t: Txn, u: Store, src: map<Key, Key>)
    requires t.erased == {} && s.Valid() && Resolved(s, t) && MidwayAt(WriteAll(s, Ws(t)), t.marks, src, u)
    ensures Resolved(u, t)
  {
    WrittenKeys(s, t);
    FinishedDomain(WriteAll(s, Ws(t)).keys, t.marks, src);
  }

  lemma StateAfterMarks(s: Store, t: Txn) returns (u: Store)
    requires t.erased == {} && s.Valid() && s.Keyed() && Resolved(s, t)
    ensures Interrupted(s, Program(t), u) && u.Valid() && u.Keyed() && Resolved(u, t)
    ensures MidwayAt(WriteAll(s, Ws(t)), t.marks, map[], u)
  {
    hide After, Program, WriteAll, Ws, Ms, Resolved, Interrupted, Store.Keyed, Finished, KeysOf;
    MarkState(s, t, |Ms(t)|);
    assert Ms(t)[..|Ms(t)|] == Ms(t);
    MarkKeys(t);
    var n := |Ws(t)| + |Ms(t)|;
    Reached(s, t, n);
    u := After(s, map[], Program(t), n).value.0;
    LateState(s, t, u, map[]);
  }

  lemma SourceTargets(t: Txn)
    ensures Source(t).Values <= t.links.Values
  {
    var ls := Ls(t);
    PassesAre(t);
    forall i | 0 <= i < |ls|
      ensures ls[i].target in t.links.Values
    {
      assert ls[i] in ls;
    }
    TraceKeys(ls, |ls|, t.links.Values);
  }

  /** A key the transaction does not name. */
  lemma Outsider(t: Txn) returns (y: Key)
    ensures y !in t.writes && y !in t.marks && y !in t.links && y !in t.links.Values && y !in Source(t)
  {
    y := FreshKey(t.writes.Keys + t.marks + t.links.Keys + t.links.Values);
    SourceKeys(t);
    assert y !in t.writes.Keys + t.marks + t.links.Keys + t.links.Values;
  }

  /** Keys the commit does not set keep the entry the writes left them. */
  lemma FinalRef(s: Store, t: Txn, k: Key)
    requires t.erased == {} && s.Valid() && Resolved(s, t)
    ensures RefOf(Final(s, t), k) == MarkedRef(WriteAll(s, Ws(t)).keys, t.marks, Origin(Source(t), k))
    ensures Final(s, t).sectors == WriteAll(s, Ws(t)).sectors
    ensures k in WriteAll(s, Ws(t)).keys ==> k in Final(s, t).keys
    ensures k in Source(t) ==> k in Final(s, t).keys
  {
    FinalIs(s, t);
    SourceThere(s, t);
  }

  // ----- a link that takes its entry from a key moved elsewhere

  /** On a store where `r` shares with an outsider, `k` does so after one commit and not after a redo. */
  lemma UnstableLink(t: Txn, k: Key)
    requires t.erased == {} && k in Source(t)
    requires var r := Source(t)[k]; r !in t.marks && Moved(t, r)
    ensures !RedoSound(t)
  {
    var r := Source(t)[k];
    var y := Outsider(t);
    SourceTargets(t);
    SourceKeys(t);
    assert r in Source(t).Values && Source(t)[r] in Source(t).Values;
    var c := if r in t.writes then t.writes[r] else [];
    var s := Sharing(t, {r, y}, c);
    SharingIs(t, {r, y}, c);
    assert RefOf(s, r) == Sector(0) == RefOf(s, y) && RefOf(s, Source(t)[r]) == KeyOnly;
    hide Sharing, Ready, Resolved, Source;
    UnstableOn(t, s, k, y);
  }

  lemma UnstableOn(t: Txn, s: Store, k: Key, y: Key)
    requires t.erased == {} && k in Source(t) && Source(t)[k] !in t.marks && Moved(t, Source(t)[k])
    requires y !in t.writes && y !in t.marks && y !in Source(t) && Ready(s, t) && Resolved(s, t) && |s.sectors| == 1
    requires var r := Source(t)[k];
             && s.Fits(r, if r in t.writes then t.writes[r] else []) && s.keys[r] == Sector(0)
             && RefOf(s, y) == Sector(0) && RefOf(s, Source(t)[r]) == KeyOnly
    ensures !RedoSound(t)
  {
    hide Program, WriteAll, Ws, Interrupted, Store.Keyed, Finished, Resolved, Final, RedoSound, MarkedRef;
    WholeIs(s, t);
    OnceShared(t, s, k, Source(t)[k], y);
    ThenApart(t, s, Final(s, t), k, Source(t)[k], y);
    assert !SameSharing(Final(Final(s, t), t), Final(s, t), k, y);
    Refute(t, s, Final(s, t));
  }

  lemma OnceShared(t: Txn, s: Store, k: Key, r: Key, y: Key)
    requires t.erased == {} && s.Valid() && Resolved(s, t) && k in Source(t) && r == Source(t)[k] && r !in t.marks
    requires y !in t.writes && y !in t.marks && y !in Source(t)
    requires s.Fits(r, if r in t.writes then t.writes[r] else []) && s.keys[r] == Sector(0)
    requires RefOf(s, y) == Sector(0)
    ensures var f := Final(s, t); k in f.keys && y in f.keys && f.keys[k] == f.keys[y] == Sector(0)
  {
    hide Program, WriteAll, Ws, Finished, Resolved, Final;
    WritesPlaced(s, t);
    assert !Misfit(s, t, r) && !Misfit(s, t, y);
    FinalRef(s, t, k);
    FinalRef(s, t, y);
  }

  lemma ThenApart(t: Txn, s: Store, u: Store, k: Key, r: Key, y: Key)
    requires t.erased == {} && s.Valid() && Resolved(s, t) && u == Final(s, t) && u.Valid() && Resolved(u, t)
    requires k in Source(t) && r == Source(t)[k] && r !in t.marks && Moved(t, r)
    requires y !in t.writes && y !in t.marks && y !in Source(t) && |s.sectors| == 1
    requires RefOf(s, y) == Sector(0) && RefOf(s, Source(t)[r]) == KeyOnly
    ensures var f := Final(u, t); k in f.keys && y in f.keys && f.keys[k] != f.keys[y]
  {
    hide Program, WriteAll, Ws, Finished, Resolved, Final;
    WritesPlaced(s, t);
    FinalRef(s, t, r);
    FinalRef(s, t, y);
    assert RefOf(u, r) != Sector(0) && RefOf(u, y) == Sector(0);
    WritesPlaced(u, t);
    FinalRef(u, t, k);
    FinalRef(u, t, y);
  }

  /** A whole commit is an interruption, too: after its last record. */
  lemma WholeIs(s: Store, t: Txn)
    requires t.erased == {} && s.Valid() && s.Keyed() && Resolved(s, t)
    ensures var u := Final(s, t); Interrupted(s, Program(t), u) && u.Valid() && u.Keyed() && Resolved(u, t)
  {
    hide After, WriteAll, Ws, Ms, Ls, TraceLinks, Resolved, Interrupted, Store.Keyed, Finished, PartProgram;
    var p := Program(t);
    ProgramPasses(t);
    LinkState(s, t, |Ls(t)|);
    ExecAfter(s, map[], p, |p|);
    assert p[|p|..] == [];
    Reached(s, t, |p|);
    FinalIs(s, t);
    LateState(s, t, Final(s, t), Source(t));
  }

  /** A key found with different data refutes. */
  lemma RefuteBy(t: Txn, s: Store, u: Store, x: Key)
    requires Ready(s, t) && Interrupted(s, Program(t), u)
    requires RefOf(Final(s, t), x) == Sector(0) == RefOf(Final(u, t), x)
    requires |Final(s, t).sectors| > 0 && |Final(u, t).sectors| > 0 && Final(u, t).sectors[0] != Final(s, t).sectors[0]
    ensures !RedoSound(t)
  {
    assert !SameRecord(Final(u, t), Final(s, t), x);
    Refute(t, s, u);
  }

  // ----- who writes a sector last

  /** After the writes a sector holds the data of the last written key that was in it. */
  lemma LastContent(t: Txn, u: Store, a: Key) returns (m: Key)
    requires u.Valid() && a in t.writes && u.Fits(a, t.writes[a])
    ensures m in t.writes && u.Fits(m, t.writes[m]) && u.keys[m] == u.keys[a] && (m == a || Less(a, m))
    ensures forall b | b in t.writes && u.Fits(b, t.writes[b]) && u.keys[b] == u.keys[a] :: !Less(m, b)
    ensures u.keys[a].id < |WriteAll(u, Ws(t)).sectors| && WriteAll(u, Ws(t)).sectors[u.keys[a].id] == t.writes[m]
  {
    var w := WriteAll(u, Ws(t));
    SettledWrites(u, t);
    WritesPlaced(u, t);
    assert !Misfit(u, t, a);
    m := LastExists(t, w, a);
    assert !Misfit(u, t, m);
    assert w.Content(m) == t.writes[m];
    forall b | b in t.writes && u.Fits(b, t.writes[b]) && u.keys[b] == u.keys[a]
      ensures !Less(m, b)
    {
      assert !Misfit(u, t, b);
      assert !Later(t, w, m, b);
    }
  }

  // ----- a moved key that writes over its new sector

  function OtherData(d: Bytes): (c: Bytes)
    requires d != []
    ensures |c| == |d| && c != d
  {
    var x: int := d[0];
    var c := d[0 := (x + 1) % 0x100];
    assert c[0] != d[0];
    c
  }

  /** What the sector of `r` holds at first. */
  function FirstData(t: Txn, r: Key, k: Key): (c: Bytes)
    requires k in t.writes && (r !in t.writes ==> t.writes[k] != [])
  {
    if r in t.writes then t.writes[r] else OtherData(t.writes[k])
  }

  ghost predicate BadMove(t: Txn, k: Key)
  {
    && t.erased == {} && LinksStable(t) && k in t.writes && Moved(t, k) && Source(t)[k] !in t.marks
    && if Source(t)[k] in t.writes then Overwrites(t, Source(t)[k], k) else t.writes[k] != []
  }

  /** Only the new sector's key has a sector, with its first data. */
  lemma MoveStore(t: Txn, k: Key) returns (s: Store)
    requires BadMove(t, k)
    ensures k in t.links && Ready(s, t) && s.Valid() && s.Keyed() && Resolved(s, t) && s.sectors == [FirstData(t, Source(t)[k], k)]
    ensures forall x :: RefOf(s, x) == if x == Source(t)[k] then Sector(0) else KeyOnly
  {
    var r := Source(t)[k];
    s := Sharing(t, {r}, FirstData(t, r, k));
    SharingIs(t, {r}, FirstData(t, r, k));
    SourceKeys(t);
  }

  lemma UnstableMove(t: Txn, k: Key)
    requires BadMove(t, k)
    ensures !RedoSound(t)
  {
    var r := Source(t)[k];
    var c := FirstData(t, r, k);
    hide Program, WriteAll, Ws, Interrupted, Store.Keyed, Finished, Resolved, RefOf, Midway;
    hide Final, Ready, Progress, LinksStable, Equiv, RedoSound, MarkedRef, Source;
    var s := MoveStore(t, k);
    var u, src := StateAfterLink(s, t, k);
    MoveFirst(t, s, k, c);
    MoveAgain(t, s, k, c, u, src);
    RefuteBy(t, s, u, r);
  }

  /** The first commit leaves the data of `r` in its sector. */
  lemma MoveFirst(t: Txn, s: Store, k: Key, c: Bytes)
    requires BadMove(t, k) && s.Valid() && Resolved(s, t) && s.sectors == [c] && c == FirstData(t, Source(t)[k], k)
    requires forall x :: RefOf(s, x) == if x == Source(t)[k] then Sector(0) else KeyOnly
    ensures var r, f := Source(t)[k], Final(s, t); RefOf(f, r) == Sector(0) && |f.sectors| > 0 && f.sectors[0] == c
    ensures WriteAll(s, Ws(t)).sectors == Final(s, t).sectors
    ensures forall x :: RefOf(WriteAll(s, Ws(t)), x) == Sector(0) <==> x == Source(t)[k]
  {
    var r := Source(t)[k];
    hide Program, WriteAll, Ws, Finished, Resolved, Final;
    WritesPlaced(s, t);
    assert RefOf(s, r) == Sector(0);
    assert !Misfit(s, t, r);
    forall x
      ensures RefOf(WriteAll(s, Ws(t)), x) == Sector(0) <==> x == r
    {
      assert Misfit(s, t, x) || !Misfit(s, t, x);
    }
    if r in t.writes {
      var m := LastContent(t, s, r);
      assert RefOf(s, m) == Sector(0);
    } else {
      forall a | a in t.writes
        ensures !s.HasSector(a)
      {
        assert RefOf(s, a) == KeyOnly;
      }
    }
    FinalRef(s, t, r);
  }

  /** Redo from right after the link writes the data of `k` there. */
  lemma MoveAgain(t: Txn, s: Store, k: Key, c: Bytes, u: Store, src: map<Key, Key>)
    requires BadMove(t, k) && u.Valid() && Resolved(u, t) && |c| == |t.writes[k]|
    requires var w := WriteAll(s, Ws(t));
             && (forall x :: RefOf(w, x) == Sector(0) <==> x == Source(t)[k])
             && |w.sectors| > 0 && w.sectors[0] == c && Midway(t, w, t.marks, src, u)
    requires k in src && forall b | b in src :: !Less(k, b)
    ensures var r, f := Source(t)[k], Final(u, t); RefOf(f, r) == Sector(0) && |f.sectors| > 0 && f.sectors[0] == t.writes[k]
  {
    var r, w := Source(t)[k], WriteAll(s, Ws(t));
    hide Program, WriteAll, Ws, Resolved, Final;
    assert RefOf(w, r) == Sector(0);
    assert RefOf(u, k) == Sector(0) && RefOf(u, r) == Sector(0);
    var m := LastContent(t, u, k);
    if m != k {
      assert m !in src;
      assert RefOf(u, m) == MarkedRef(w.keys, t.marks, m);
      assert RefOf(w, m) == Sector(0);
      LessTotal(m, k);
      assert false;
    }
    WritesPlaced(u, t);
    assert !Misfit(u, t, r);
    FinalRef(u, t, r);
  }

  // ----- a key that leaves the sector it wrote last

  ghost predicate BadWrite(t: Txn, a: Key, k: Key)
  {
    && t.erased == {} && LinksStable(t) && MovesStable(t)
    && Overwrites(t, a, k) && a !in t.marks && (k in t.marks || (Moved(t, k) && !Moved(t, a)))
  }

  lemma UnstableWrite(t: Txn, a: Key, k: Key)
    requires BadWrite(t, a, k)
    ensures !RedoSound(t)
  {
    var y := Outsider(t);
    var c := t.writes[a];
    var s := Sharing(t, {a, k, y}, c);
    SharingIs(t, {a, k, y}, c);
    SourceKeys(t);
    SourceTargets(t);
    hide Program, WriteAll, Ws, Interrupted, Store.Keyed, Finished, Sharing, Resolved;
    hide Final, Ready, Progress, LinksStable, MovesStable, RedoSound, MarkedRef, Source;
    LeaveFirst(t, s, a, k, y);
    if k in t.marks {
      var u := StateAfterMarks(s, t);
      LeaveMarked(t, s, a, k, y, u);
      RefuteBy(t, s, u, y);
    } else {
      var u, src := StateAfterLink(s, t, k);
      LeaveMoved(t, s, a, k, y, u, src);
      RefuteBy(t, s, u, y);
    }
  }

  /** The outsider's data after a commit is what the later key wrote. */
  lemma LeaveFirst(t: Txn, s: Store, a: Key, k: Key, y: Key)
    requires BadWrite(t, a, k) && s.Valid() && Resolved(s, t) && s.sectors == [t.writes[a]]
    requires y !in t.writes && y !in t.marks && y !in Source(t)
    requires forall x :: RefOf(s, x) == if x in {a, k, y} then Sector(0) else KeyOnly
    ensures var f, w := Final(s, t), WriteAll(s, Ws(t));
            && RefOf(f, y) == Sector(0) && f.sectors == w.sectors && |w.sectors| > 0 && w.sectors[0] == t.writes[k]
    ensures forall x :: RefOf(WriteAll(s, Ws(t)), x) == Sector(0) <==> x in {a, k, y}
  {
    hide Program, WriteAll, Ws, Finished, Resolved, Final;
    WritesPlaced(s, t);
    assert RefOf(s, a) == Sector(0) && RefOf(s, k) == Sector(0) && RefOf(s, y) == Sector(0);
    forall x
      ensures RefOf(WriteAll(s, Ws(t)), x) == Sector(0) <==> x in {a, k, y}
    {
      assert RefOf(s, x) == if x in {a, k, y} then Sector(0) else KeyOnly;
      assert Misfit(s, t, x) || !Misfit(s, t, x);
    }
    var m := LastContent(t, s, a);
    assert RefOf(s, m) == Sector(0);
    assert s.Fits(k, t.writes[k]) && s.keys[k] == s.keys[a];
    FinalRef(s, t, y);
  }

  /** Once `k` is marked, redo leaves the outsider with what `a` writes. */
  lemma LeaveMarked(t: Txn, s: Store, a: Key, k: Key, y: Key, u: Store)
    requires BadWrite(t, a, k) && k in t.marks && u.Valid() && Resolved(u, t)
    requires y !in t.writes && y !in t.marks && y !in Source(t)
    requires var w := WriteAll(s, Ws(t));
             && (forall x :: RefOf(w, x) == Sector(0) <==> x in {a, k, y})
             && |w.sectors| > 0 && |w.sectors[0]| == |t.writes[a]| && MidwayAt(w, t.marks, map[], u)
    ensures var f := Final(u, t); RefOf(f, y) == Sector(0) && |f.sectors| > 0 && f.sectors[0] == t.writes[a]
  {
    var w := WriteAll(s, Ws(t));
    hide Program, WriteAll, Ws, Resolved, Final;
    assert RefOf(w, a) == Sector(0) && RefOf(w, y) == Sector(0);
    assert RefOf(u, a) == Sector(0) && RefOf(u, y) == Sector(0);
    var m := LastContent(t, u, a);
    assert RefOf(u, m) == MarkedRef(w.keys, t.marks, m);
    assert RefOf(w, m) == Sector(0);
    WritesPlaced(u, t);
    assert !Misfit(u, t, y);
    FinalRef(u, t, y);
  }

  /** So it does once `k` is moved away. */
  lemma LeaveMoved(t: Txn, s: Store, a: Key, k: Key, y: Key, u: Store, src: map<Key, Key>)
    requires BadWrite(t, a, k) && k !in t.marks && u.Valid() && Resolved(u, t)
    requires y !in t.writes && y !in t.marks && y !in Source(t) && y !in Source(t).Values && k in src
    requires var w := WriteAll(s, Ws(t));
             && (forall x :: RefOf(w, x) == Sector(0) <==> x in {a, k, y})
             && |w.sectors| > 0 && |w.sectors[0]| == |t.writes[a]| && Midway(t, w, t.marks, src, u)
    ensures var f := Final(u, t); RefOf(f, y) == Sector(0) && |f.sectors| > 0 && f.sectors[0] == t.writes[a]
  {
    var w := WriteAll(s, Ws(t));
    hide Program, WriteAll, Ws, Resolved, Final;
    assert RefOf(w, a) == Sector(0) && RefOf(w, y) == Sector(0);
    assert RefOf(u, a) == Sector(0) && RefOf(u, y) == Sector(0);
    var m := LastContent(t, u, a);
    if m != a {
      MovedWriter(t, w, a, k, y, u, src, m);
    }
    WritesPlaced(u, t);
    assert !Misfit(u, t, y);
    FinalRef(u, t, y);
  }

  lemma MovedWriter(t: Txn, w: Store, a: Key, k: Key, y: Key, u: Store, src: map<Key, Key>, m: Key)
    requires BadWrite(t, a, k) && k !in t.marks && k in src && y !in Source(t).Values && y !in t.writes
    requires (forall x :: RefOf(w, x) == Sector(0) <==> x in {a, k, y}) && Midway(t, w, t.marks, src, u)
    requires m in t.writes && Less(a, m) && |t.writes[m]| == |t.writes[a]| && RefOf(u, m) == Sector(0)
    ensures t.writes[m] == t.writes[a]
  {
    var o := Origin(src, m);
    assert RefOf(u, m) == MarkedRef(w.keys, t.marks, o);
    assert RefOf(w, o) == Sector(0) && o !in t.marks;
    assert src[k] == Source(t)[k] != k;
    if m in src && src[m] != m {
      assert Moved(t, m) && o == Source(t)[m] && o in Source(t).Values;
    }
  }

  // ----- the exact condition

  /** For a transaction that erases nothing, redo is sound if and only if the transaction is redoable. */
  lemma EraseFreeExact(t: Txn)
    requires t.erased == {}
    ensures RedoSound(t) <==> Redoable(t)
  {
    if Redoable(t) {
      forall trace | Attempts(trace, t)
        ensures Equiv(Final(trace[|trace| - 1], t), Final(trace[0], t))
      {
        RedoConverges(t, trace);
      }
    } else if !LinksStable(t) {
      var k :| k in Source(t) && !(Source(t)[k] in t.marks || !Moved(t, Source(t)[k]));
      UnstableLink(t, k);
    } else if !MovesStable(t) {
      var k :| k in t.writes && Moved(t, k) && Source(t)[k] !in t.marks
               && !(if Source(t)[k] in t.writes then !Overwrites(t, Source(t)[k], k) else t.writes[k] == []);
      UnstableMove(t, k);
    } else {
      var a, k :| Overwrites(t, a, k) && a !in t.marks && !(k !in t.marks && (Moved(t, k) ==> Moved(t, a)));
      UnstableWrite(t, a, k);
    }
  }

  // ----- the condition in plain cases

  /** Without links only one thing can go wrong: a marked key wrote last over an unmarked one. */
  lemma WrittenAndMarked(t: Txn)
    requires t.erased == {} && t.links == map[]
    ensures RedoSound(t) <==> forall a, k | Overwrites(t, a, k) && a !in t.marks :: k !in t.marks
  {
    SourceKeys(t);
    EraseFreeExact(t);
  }

  /** A target not linked yet when it is read is its own origin. */
  ghost predicate SelfRead(x: Trace)
  {
    forall t | t in x.cache :: t in x.src || x.cache[t] == t
  }

  lemma {:induction false} FreshTargets(ls: seq<Record>, n: nat)
    requires n <= |ls| && AllLinks(ls)
    ensures SelfRead(TraceLinks(ls, n))
  {
    if n > 0 {
      FreshTargets(ls, n - 1);
      var x, t := TraceLinks(ls, n - 1), ls[n - 1].target;
      var y := TraceLinks(ls, n);
      forall z | z in y.cache
        ensures z in y.src || y.cache[z] == z
      {
        if z in x.cache {
          assert z in x.src || x.cache[z] == z;
        }
      }
    }
  }

  /** A link to a key that is not linked itself, or only later, takes that key's own entry. */
  lemma DirectSource(t: Txn, k: Key)
    requires k in t.links && (t.links[k] !in t.links || Less(k, t.links[k]) || t.links[k] == k)
    ensures k in Source(t) && Source(t)[k] == t.links[k]
  {
    hide Sorted, KeysOf, SelfRead, NextOrigin, TraceLinks, Ls;
    var ls := Ls(t);
    var j := LinkPlace(t, k);
    FreshTargets(ls, j);
    TraceKeySet(ls, j);
    TargetNotYet(t, ls, j, t.links[k]);
    OwnOrigin(TraceLinks(ls, j), t.links[k]);
    TraceNext(ls, j);
    TraceFinal(ls, j + 1, |ls|);
  }

  lemma OwnOrigin(x: Trace, t: Key)
    requires SelfRead(x) && t !in x.src
    ensures NextOrigin(x, t) == t
  {
  }

  lemma TargetNotYet(t: Txn, ls: seq<Record>, j: nat, x: Key)
    requires Sorted(ls) && j < |ls| && (forall r | r in ls :: r.key in t.links)
    requires x !in t.links || Less(ls[j].key, x) || x == ls[j].key
    ensures x !in KeysOf(ls[..j])
  {
    KeysBefore(ls, j, x);
    forall i | 0 <= i < j
      ensures ls[i].key != x
    {
      SortedApart(ls, i, j);
      assert ls[i] in ls;
    }
  }

  /** A written key linked to a key that the transaction does not touch: redo writes over that key's record. */
  lemma WrittenAndLinked(t: Txn, k: Key)
    requires t.erased == {} && k in t.writes && k in t.links && t.writes[k] != []
    requires var x := t.links[k]; x !in t.writes && x !in t.marks && x !in t.links
    ensures !RedoSound(t)
  {
    DirectSource(t, k);
    SourceKeys(t);
    EraseFreeExact(t);
  }

  /** A link target that is itself linked elsewhere later, and not marked: redo follows the new link. */
  lemma LinkedTarget(t: Txn, k: Key)
    requires t.erased == {} && k in t.links
    requires var x := t.links[k]; x in t.links && Less(k, x) && x !in t.marks && t.links[x] !in t.links
    ensures !RedoSound(t)
  {
    DirectSource(t, k);
    DirectSource(t, t.links[k]);
    EraseFreeExact(t);
  }

  /** Written keys apart from marked and linked ones, and no linked target: always redoable. */
  lemma SeparateRedoable(t: Txn)
    requires t.erased == {} && t.writes.Keys !! t.marks && t.writes.Keys !! t.links.Keys && t.links.Values !! t.links.Keys
    ensures Redoable(t) && RedoSound(t)
  {
    SourceKeys(t);
    SourceTargets(t);
    forall k | k in Source(t)
      ensures !Moved(t, Source(t)[k])
    {
      assert Source(t)[k] in Source(t).Values;
    }
    EraseFreeExact(t);
  }
}
