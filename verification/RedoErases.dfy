/**
  Redo with erases: when a transaction that erases keys may be run again, and why an erased
  key must have had a single copy.
 */
module RedoErases {
  import opened Wrappers
  import opened Store
  import Chain
  import opened KeyOrder
  import opened Transaction
  import opened Phases
  import opened Redo
  import opened RedoSoundness
  import opened RedoLimits

  /** No key that the transaction links to is erased by it. */
  predicate Linkable(t: Txn)
  {
    t.erased !! t.links.Values
  }

  ghost function Es(t: Txn): (p: seq<Record>)
    ensures AllErases(p)
  {
    ErasesAre(t);
    PartProgram(t, 0)
  }

  ghost predicate AllErases(es: seq<Record>)
  {
    forall i | 0 <= i < |es| :: es[i].EraseKey?
  }

  lemma ErasesAre(t: Txn)
    ensures AllErases(PartProgram(t, 0)) && IsPart(t, 0, t.erased, PartProgram(t, 0))
  {
    PartIs(t, 0);
    forall i | 0 <= i < |PartProgram(t, 0)|
      ensures PartProgram(t, 0)[i].EraseKey?
    {
      assert PartProgram(t, 0)[i] in PartProgram(t, 0);
    }
  }

  /** What the transaction does besides erasing. */
  function Rest(t: Txn): (t': Txn)
  {
    t.(erased := {})
  }

  lemma {:induction false} SameRecords(t: Txn, part: nat, s: set<Key>)
    requires 1 <= part < 4 && s <= PartKeys(t, part)
    ensures s <= PartKeys(Rest(t), part) && Records(t, part, s) == Records(Rest(t), part, s)
    decreases |s|
  {
    if s != {} {
      SameRecords(t, part, s - {Least(s)});
    }
  }

  lemma RestPasses(t: Txn)
    ensures forall part | 1 <= part < 4 :: PartProgram(Rest(t), part) == PartProgram(t, part)
  {
    SameRecords(t, 1, t.writes.Keys);
    SameRecords(t, 2, t.marks);
    SameRecords(t, 3, t.links.Keys);
  }

  lemma RestProgram(t: Txn)
    ensures Program(t) == Es(t) + Program(Rest(t)) && Source(Rest(t)) == Source(t)
  {
    RestPasses(t);
    assert PartProgram(Rest(t), 0) == [];
    hide PartProgram, TraceLinks;
    var a, b, c := PartProgram(t, 1), PartProgram(t, 2), PartProgram(t, 3);
    assert Program(Rest(t)) == a + b + c;
    assert Es(t) + a + b + c == Es(t) + (a + b + c);
  }

  // ----- erasing keys of a single copy

  /** Erased keys not reached yet are there, in one copy. */
  ghost predicate Erasing(s: Store, es: seq<Record>, n: nat, v: Store)
    requires n <= |es|
  {
    && v.Valid() && v.Keyed() && v.sectors == s.sectors
    && v.keys == s.keys - KeysOf(es[..n])
    && forall i | n <= i < |es| :: es[i].key in v.keys && v.Copies(es[i].key) == 1
  }

  lemma {:induction false} AfterErases(s: Store, es: seq<Record>, n: nat)
    requires AllErases(es) && Sorted(es) && n <= |es| && s.Valid() && s.Keyed()
    requires forall i | 0 <= i < |es| :: es[i].key in s.keys && s.Copies(es[i].key) == 1
    ensures var x := After(s, map[], es, n); x.Some? && x.value.1 == map[] && Erasing(s, es, n, x.value.0)
  {
    hide Erasing, KeysOf, Store.Keyed, Store.Valid, Store.DropKey, Store.Copies, Sorted, Step;
    if n == 0 {
      ErasingNone(s, es);
    } else {
      AfterErases(s, es, n - 1);
      KeysOfNext(es, n - 1);
      var v := After(s, map[], es, n - 1).value.0;
      EraseNext(s, es, n - 1, v);
      StepErase(v, es[n - 1]);
    }
  }

  lemma ErasingNone(s: Store, es: seq<Record>)
    requires s.Valid() && s.Keyed() && forall i | 0 <= i < |es| :: es[i].key in s.keys && s.Copies(es[i].key) == 1
    ensures Erasing(s, es, 0, s)
  {
    KeysOfEmpty(es);
    hide KeysOf, Store.Keyed, Store.Copies;
    assert s.keys - {} == s.keys;
  }

  lemma StepErase(v: Store, r: Record)
    requires r.EraseKey? && r.key in v.keys
    ensures Step(v, map[], r) == Some((v.DropKey(r.key), map[]))
  {
  }

  lemma EraseNext(s: Store, es: seq<Record>, n: nat, v: Store)
    requires AllErases(es) && Sorted(es) && n < |es| && Erasing(s, es, n, v)
    requires KeysOf(es[..n + 1]) == KeysOf(es[..n]) + {es[n].key}
    ensures es[n].key in v.keys && Erasing(s, es, n + 1, v.DropKey(es[n].key))
  {
    var k := es[n].key;
    var v' := v.DropKey(k);
    ErasedGone(v, k);
    EraseKeyed(v, k);
    KeyedValid(v');
    assert v'.keys == v.keys - {k};
    hide KeysOf, Store.Keyed, Store.Valid;
    assert v'.keys == s.keys - KeysOf(es[..n + 1]);
    forall i | n + 1 <= i < |es|
      ensures es[i].key in v'.keys && v'.Copies(es[i].key) == 1
    {
      SortedApart(es, i, n);
      EraseCopies(v, k, es[i].key);
    }
  }

  /** A commit erases, and then does the rest on what is left. */
  lemma ErasesFirst(s: Store, t: Txn) returns (v: Store)
    requires Ready(s, t)
    ensures v.Valid() && v.Keyed() && v.sectors == s.sectors && v.keys == s.keys - t.erased
    ensures Final(s, t) == Final(v, Rest(t))
    ensures |Es(t)| <= |Program(t)| && After(s, map[], Program(t), |Es(t)|) == Some((v, map[]))
  {
    v := ErasesDone(s, t);
    hide After, Store.Keyed, Store.Copies;
    RestProgram(t);
    ExecAfter(s, map[], Program(t), |Es(t)|);
    assert Program(t)[|Es(t)|..] == Program(Rest(t));
  }

  /** The erases of keys that are there in one copy each. */
  lemma ErasesDone(s: Store, t: Txn) returns (v: Store)
    requires s.Valid() && s.Keyed() && forall k | k in t.erased :: k in s.keys && s.Copies(k) == 1
    ensures v.Valid() && v.Keyed() && v.sectors == s.sectors && v.keys == s.keys - t.erased
    ensures |Es(t)| <= |Program(t)| && After(s, map[], Program(t), |Es(t)|) == Some((v, map[]))
  {
    hide After, Store.Keyed, Store.Copies;
    var es := Es(t);
    ErasesAre(t);
    RestProgram(t);
    forall i | 0 <= i < |es|
      ensures es[i].key in s.keys && s.Copies(es[i].key) == 1
    {
      assert es[i] in es;
    }
    AfterErases(s, es, |es|);
    assert es[..|es|] == es;
    EraseKeys(t);
    AfterPrefix(s, map[], es, Program(Rest(t)), |es|);
    v := After(s, map[], es, |es|).value.0;
  }

  lemma EraseKeys(t: Txn)
    ensures KeysOf(Es(t)) == t.erased
  {
    ErasesAre(t);
    forall k | k in t.erased
      ensures k in KeysOf(Es(t))
    {
      assert EraseKey(k) in Es(t);
    }
  }

  // ----- the exact condition for all transactions

  /** Nothing but one erase, and links that move nothing. */
  ghost predicate OnlyErase(t: Txn)
  {
    |t.erased| == 1 && t.writes == map[] && t.marks == {} && forall k | k in t.links :: !Moved(t, k)
  }

  /** Once one key is gone, redo stops at its erase. */
  lemma RedoStops(u: Store, t: Txn)
    requires t.erased != {} && Least(t.erased) !in u.keys
    ensures Final(u, t) == u
  {
    FirstErase(t);
  }

  lemma FirstErase(t: Txn)
    requires t.erased != {}
    ensures Program(t) != [] && Program(t)[0] == EraseKey(Least(t.erased))
    ensures Es(t) != [] && Es(t)[0] == EraseKey(Least(t.erased))
  {
    assert PartProgram(t, 0)[0] == EraseKey(Least(t.erased));
  }

  /** An interruption right after the first erase. */
  lemma AfterFirst(s: Store, t: Txn)
    requires t.erased != {} && Ready(s, t)
    ensures var e := Least(t.erased); var u := s.DropKey(e);
            Interrupted(s, Program(t), u) && u.keys == s.keys - {e} && u.sectors == s.sectors && Final(u, t) == u
  {
    var e := Least(t.erased);
    FirstErase(t);
    assert After(s, map[], Program(t), 1) == Some((s.DropKey(e), map[])) by {
      assert After(s, map[], Program(t), 0) == Some((s, map[]));
    }
    assert InterruptedAt(s, Program(t), 1, s.DropKey(e));
    ErasedGone(s, e);
    RedoStops(s.DropKey(e), t);
  }

  // ----- one erase alone

  /** A store at the start of a lone erase or behind it. */
  ghost predicate AloneState(s: Store, e: Key, v: Store)
  {
    v == s || (v.keys == s.keys - {e} && v.sectors == s.sectors)
  }

  lemma OnlyEraseFinal(s: Store, t: Txn)
    requires Apart(t) && Linkable(t) && OnlyErase(t) && Ready(s, t)
    ensures Final(s, t).keys == s.keys - t.erased && Final(s, t).sectors == s.sectors
  {
    var v := ErasesFirst(s, t);
    RestProgram(t);
    hide Program, Source, Finished, WriteAll, Ws, Ready, Store.Keyed, KeysOf, Final;
    RestResolved(s, t, v);
    NoWrites(v, Rest(t));
    FinalIs(v, Rest(t));
    SourceThere(v, Rest(t));
    SourceKeys(t);
    NoMoves(v.keys, Source(t));
  }

  lemma RestResolved(s: Store, t: Txn, v: Store)
    requires Ready(s, t) && Linkable(t) && v.keys == s.keys - t.erased
    ensures Resolved(v, Rest(t))
  {
  }

  lemma NoWrites(v: Store, t: Txn)
    requires t.writes == map[]
    ensures WriteAll(v, Ws(t)) == v
  {
    assert PartProgram(t, 1) == [];
  }

  lemma NoMoves(keys: map<Key, Ref>, src: map<Key, Key>)
    requires forall k | k in src :: src[k] == k && k in keys
    ensures Finished(keys, {}, src) == keys
  {
  }

  /** No state of a lone erase is anything but the start and the end. */
  lemma AloneStep(s: Store, t: Txn, e: Key, v: Store, v': Store)
    requires Apart(t) && Linkable(t) && OnlyErase(t) && Ready(s, t) && t.erased == {e}
    requires AloneState(s, e, v) && Interrupted(v, Program(t), v')
    ensures AloneState(s, e, v')
  {
    var n :| 0 <= n <= |Program(t)| && InterruptedAt(v, Program(t), n, v');
    hide Program, Ready, After, PartProgram;
    FirstErase(t);
    NoTorn(t, n);
    assert v' == After(v, map[], Program(t), n).value.0;
    if n == 0 {
      AfterNone(v, map[], Program(t));
    } else if v == s {
      AloneAfter(s, t, n);
    } else {
      assert e !in v.keys;
      StuckAfter(v, Program(t), n);
    }
  }

  /** A program whose first record fails does not get anywhere. */
  lemma {:induction false} StuckAfter(s: Store, p: seq<Record>, n: nat)
    requires 0 < n <= |p| && p[0].EraseKey? && p[0].key !in s.keys
    ensures After(s, map[], p, n).None?
  {
    if n == 1 {
      AfterNone(s, map[], p);
    } else {
      StuckAfter(s, p, n - 1);
    }
  }

  lemma NoTorn(t: Txn, n: nat)
    requires t.writes == map[]
    ensures n < |Program(t)| ==> !Program(t)[n].Write?
  {
    ProgramIs(t);
    if n < |Program(t)| {
      assert Program(t)[n] in Program(t);
    }
  }

  /** Behind the erase the links change nothing. */
  lemma AloneAfter(s: Store, t: Txn, n: nat)
    requires Apart(t) && Linkable(t) && OnlyErase(t) && Ready(s, t) && 0 < n <= |Program(t)|
    requires After(s, map[], Program(t), n).Some?
    ensures var u := After(s, map[], Program(t), n).value.0; u.keys == s.keys - t.erased && u.sectors == s.sectors
  {
    hide Program, After, Source, Finished, WriteAll, Ws, Ms, Ls, Ready, Store.Keyed, KeysOf, Final, TraceLinks;
    var v := ErasesFirst(s, t);
    RestProgram(t);
    OneErase(t);
    AfterConcat(s, map[], Es(t), Program(Rest(t)), n - 1);
    AfterPrefix(s, map[], Es(t), Program(Rest(t)), 1);
    RestResolved(s, t, v);
    NoWrites(v, Rest(t));
    OnlyLinks(Rest(t));
    LinkState(v, Rest(t), n - 1);
    SourceThere(v, Rest(t));
    SourceKeys(t);
    LinksSorted(Rest(t));
    TraceFinal(Ls(Rest(t)), n - 1, |Ls(Rest(t))|);
    WholeTrace(Rest(t));
    NoMoves(v.keys, TraceLinks(Ls(Rest(t)), n - 1).src);
  }

  lemma WholeTrace(t: Txn)
    ensures TraceLinks(Ls(t), |Ls(t)|).src == Source(t)
  {
  }

  lemma OneErase(t: Txn)
    requires |t.erased| == 1
    ensures |Es(t)| == 1
  {
    var e := Least(t.erased);
    assert t.erased - {e} == {} by {
      assert |t.erased - {e}| == 0;
    }
    assert Es(t) == [RecordOf(t, 0, e)] + Records(t, 0, t.erased - {e});
  }

  lemma LinksSorted(t: Txn)
    ensures Sorted(Ls(t))
  {
    PassesAre(t);
  }

  lemma OnlyLinks(t: Txn)
    requires t.erased == {} && t.writes == map[] && t.marks == {}
    ensures Ws(t) == [] && Ms(t) == [] && Program(t) == Ls(t)
  {
    ProgramPasses(t);
    assert PartProgram(t, 1) == [] && PartProgram(t, 2) == [];
  }

  lemma {:induction false} AloneTrace(t: Txn, e: Key, trace: seq<Store>)
    requires Apart(t) && Linkable(t) && OnlyErase(t) && t.erased == {e} && Attempts(trace, t)
    ensures AloneState(trace[0], e, trace[|trace| - 1])
    decreases |trace|
  {
    hide Interrupted, Ready, OnlyErase, Program;
    if |trace| > 1 {
      var n := |trace| - 1;
      AloneTrace(t, e, trace[..n]);
      assert Interrupted(trace[n - 1], Program(t), trace[n - 1 + 1]);
      AloneStep(trace[0], t, e, trace[n - 1], trace[n]);
    }
  }

  /** Redo from either state ends in the same store. */
  lemma AloneFinal(s: Store, t: Txn, u: Store)
    requires Apart(t) && Linkable(t) && OnlyErase(t) && Ready(s, t)
    requires AloneState(s, Least(t.erased), u)
    ensures Equiv(Final(u, t), Final(s, t))
  {
    var e := Least(t.erased);
    AloneErased(t);
    hide Interrupted, OnlyErase, Program, Final, Equiv;
    FinalSelf(s, t);
    if u != s {
      RedoStops(u, t);
      OnlyEraseFinal(s, t);
      SameView(Final(s, t), u, Final(s, t), Final(s, t));
    }
  }

  lemma AloneSound(t: Txn, trace: seq<Store>)
    requires Apart(t) && Linkable(t) && OnlyErase(t) && Attempts(trace, t)
    ensures Equiv(Final(trace[|trace| - 1], t), Final(trace[0], t))
  {
    hide Interrupted, OnlyErase, Program, Final, Equiv;
    AloneErased(t);
    AloneTrace(t, Least(t.erased), trace);
    AloneFinal(trace[0], t, trace[|trace| - 1]);
  }

  lemma AloneErased(t: Txn)
    requires OnlyErase(t)
    ensures t.erased == {Least(t.erased)}
  {
    assert |t.erased - {Least(t.erased)}| == 0;
  }

  // ----- every other transaction that erases

  /** The erased keys and the link targets the transaction does not set, bare but for one. */
  ghost function Erasable(t: Txn, o: Key): (s: Store)
  {
    Build(map x | x in t.erased + (t.links.Values - t.writes.Keys - t.marks) :: if x == o then Sector(0) else KeyOnly, [[]])
  }

  lemma ErasableIs(t: Txn, o: Key)
    requires Linkable(t)
    ensures var s := Erasable(t, o);
            && Ready(s, t) && s.sectors == [[]]
            && s.keys.Keys == t.erased + (t.links.Values - t.writes.Keys - t.marks)
            && forall x | x in s.keys :: s.keys[x] == if x == o then Sector(0) else KeyOnly
  {
    var keys := map x | x in t.erased + (t.links.Values - t.writes.Keys - t.marks) :: if x == o then Sector(0) else KeyOnly;
    BuildIs(keys, [[]]);
    SingleReady(Build(keys, [[]]), t);
  }

  lemma SingleReady(s: Store, t: Txn)
    requires Single(s) && Linkable(t)
    requires t.erased <= s.keys.Keys && t.links.Values <= s.keys.Keys + t.writes.Keys + t.marks
    ensures Ready(s, t)
  {
  }

  /** What a whole commit leaves, behind its erases. */
  lemma BehindErases(s: Store, t: Txn) returns (v: Store)
    requires Apart(t) && Linkable(t) && Ready(s, t)
    ensures v.Valid() && Resolved(v, Rest(t)) && v.keys == s.keys - t.erased
    ensures Final(s, t).keys == Finished(WriteAll(v, Ws(Rest(t))).keys, t.marks, Source(t))
  {
    hide Program, Source, Finished, WriteAll, Ws, Ready, Store.Keyed, KeysOf, Final;
    v := ErasesFirst(s, t);
    RestProgram(t);
    RestResolved(s, t, v);
    FinalIs(v, Rest(t));
  }

  /** The keys after a whole commit. */
  lemma FinalKeys(s: Store, t: Txn)
    requires Apart(t) && Linkable(t) && Ready(s, t)
    ensures Final(s, t).keys.Keys == s.keys.Keys - t.erased + t.writes.Keys + t.marks + t.links.Keys
  {
    hide Program, Source, Finished, WriteAll, Ws, Ready, Store.Keyed, KeysOf, Final, Resolved;
    var v := BehindErases(s, t);
    var w := WriteAll(v, Ws(Rest(t)));
    FinishedDomain(w.keys, t.marks, Source(t));
    SourceKeys(t);
    WrittenKeys(v, Rest(t));
    WrittenOnly(v, Rest(t));
  }

  /** Without writes and marks a linked key ends with the entry of its origin. */
  lemma FinalOrigin(s: Store, t: Txn, k: Key)
    requires Apart(t) && Linkable(t) && Ready(s, t)
    requires t.writes == map[] && t.marks == {} && k in Source(t)
    ensures k in Final(s, t).keys && Final(s, t).keys[k] == RefOf(s, Source(t)[k])
  {
    SourceTargets(t);
    assert Source(t)[k] in Source(t).Values;
    hide Program, Source, Finished, WriteAll, Ws, Ready, Store.Keyed, KeysOf, Final, Resolved;
    var v := BehindErases(s, t);
    NoWrites(v, Rest(t));
    FinishedOrigin(v.keys, Source(t), k);
  }

  lemma FinishedOrigin(keys: map<Key, Ref>, src: map<Key, Key>, k: Key)
    requires k in src
    ensures k in Finished(keys, {}, src) && Finished(keys, {}, src)[k] == MarkedRef(keys, {}, src[k])
  {
  }

  lemma WrittenOnly(s: Store, t: Txn)
    requires s.Valid()
    ensures WriteAll(s, Ws(t)).keys.Keys <= s.keys.Keys + t.writes.Keys
  {
    var ws := Ws(t);
    WroteFrame(s, ws, |ws|);
    WroteAll(s, ws);
    PassesAre(t);
    forall k | k in WriteAll(s, ws).keys && k !in t.writes
      ensures k in s.keys
    {
      forall i | 0 <= i < |ws|
        ensures ws[i].key != k
      {
        assert ws[i] in ws;
      }
    }
  }

  /** Cut short after its first erase, such a transaction never does the rest. */
  lemma EraseUnsound(t: Txn)
    requires Apart(t) && Linkable(t) && t.erased != {} && !OnlyErase(t)
    ensures !RedoSound(t)
  {
    hide Program, Source, RedoSound;
    if t.writes.Keys + t.marks != {} {
      var k :| k in t.writes.Keys + t.marks;
      OtherKey(t, k);
    } else if k :| k in t.erased && k != Least(t.erased) {
      OtherKey(t, k);
    } else {
      LoneErased(t, Least(t.erased));
      var k :| k in t.links && Moved(t, k);
      MovedKey(t, k);
    }
  }

  /** A key that the rest of the commit adds or erases. */
  lemma OtherKey(t: Txn, k: Key)
    requires Apart(t) && Linkable(t) && t.erased != {}
    requires k in t.writes || k in t.marks || (k in t.erased && k != Least(t.erased))
    ensures !RedoSound(t)
  {
    var s := Erasable(t, []);
    ErasableIs(t, []);
    hide Program, Source, Ready, Final, Erasable, Interrupted, Store.Keyed, RedoSound;
    FinalKeys(s, t);
    AfterFirst(s, t);
    var u := s.DropKey(Least(t.erased));
    assert k in Final(s, t).keys <==> k !in Final(u, t).keys;
    Refute(t, s, u);
  }

  lemma MovedKey(t: Txn, k: Key)
    requires Apart(t) && Linkable(t) && t.erased != {} && t.erased == {Least(t.erased)}
    requires t.writes == map[] && t.marks == {} && k in t.links && Moved(t, k)
    ensures !RedoSound(t)
  {
    SourceKeys(t);
    var s := Erasable(t, Source(t)[k]);
    ErasableIs(t, Source(t)[k]);
    hide Program, Source, Ready, Final, Erasable, Interrupted, Store.Keyed, RedoSound;
    AfterFirst(s, t);
    var u := s.DropKey(Least(t.erased));
    MovedShows(s, t, k, u);
    Refute(t, s, u);
  }

  /** Only after a whole commit a moved key has the sector of its origin. */
  lemma MovedShows(s: Store, t: Txn, k: Key, u: Store)
    requires Apart(t) && Linkable(t) && Ready(s, t)
    requires t.writes == map[] && t.marks == {} && k in t.links && Moved(t, k)
    requires s.keys.Keys == t.erased + t.links.Values && u.keys.Keys == s.keys.Keys - t.erased && u.keys.Keys <= s.keys.Keys
    requires forall x | x in s.keys :: s.keys[x] == if x == Source(t)[k] then Sector(0) else KeyOnly
    requires forall x | x in u.keys :: u.keys[x] == s.keys[x]
    ensures !Equiv(u, Final(s, t))
  {
    hide Program, Ready, Final, Store.Keyed, Source;
    SourceKeys(t);
    SourceTargets(t);
    assert Source(t)[k] in Source(t).Values;
    FinalOrigin(s, t, k);
    assert Final(s, t).keys[k] == Sector(0);
    assert k in u.keys ==> !SameRecord(u, Final(s, t), k);
  }

  lemma LoneErased(t: Txn, e: Key)
    requires e in t.erased && forall k | k in t.erased :: k == e
    ensures |t.erased| == 1
  {
    assert t.erased == {e};
  }

  // ----- a transaction that erases a key it links to

  lemma {:induction false} ExecSteps(s: Store, p: seq<Record>, n: nat)
    requires n <= |p| && Exec(s, map[], p).1
    ensures After(s, map[], p, n).Some?
  {
    hide Step;
    if n > 0 {
      ExecSteps(s, p, n - 1);
      ExecAfter(s, map[], p, n - 1);
      assert p[n - 1..] != [] && p[n - 1..][0] == p[n - 1];
    }
  }

  /** The records before the erase of a key erase other keys; those behind it are about other keys, too. */
  lemma AroundErase(t: Txn, e: Key, i: nat, m: nat)
    requires Apart(t) && e in t.erased && i < |Program(t)| && Program(t)[i] == EraseKey(e) && m < |Program(t)| && m != i
    ensures Program(t)[m].key != e && (m < i ==> Program(t)[m].EraseKey?)
  {
    ProgramIs(t);
    hide Program, LexLe;
    assert Program(t)[m] in Program(t);
    if m < i {
      assert Before(Program(t)[m], Program(t)[i]);
    } else {
      assert Before(Program(t)[i], Program(t)[m]);
    }
  }

  /** A step on another key neither sets a missing key nor resolves it as a target. */
  lemma StepLeaves(s: Store, cache: map<Key, Ref>, r: Record, e: Key)
    requires r.key != e && e !in s.keys && e !in cache && Step(s, cache, r).Some?
    ensures var x := Step(s, cache, r).value; e !in x.0.keys && e !in x.1
  {
    if r.EraseKey? {
      assert e !in s.keys - {r.key};
    }
    hide Store.PutKey, Store.DropKey, Store.Fits;
  }

  /** A key of one copy is gone from its erase on. */
  lemma {:induction false} ErasedStays(s: Store, t: Txn, e: Key, i: nat, n: nat)
    requires Apart(t) && e in t.erased && s.Copies(e) <= 1
    requires i < |Program(t)| && Program(t)[i] == EraseKey(e) && n <= |Program(t)| && After(s, map[], Program(t), n).Some?
    ensures var x := After(s, map[], Program(t), n).value;
            if n <= i then x.0.Copies(e) <= 1 && x.1 == map[] else e !in x.0.keys && e !in x.1
  {
    hide After, Program, Apart, Step, Store.Copies, Store.DropKey;
    if n == 0 {
      AfterNone(s, map[], Program(t));
    } else {
      AfterNext(s, map[], Program(t), n - 1);
      ErasedStays(s, t, e, i, n - 1);
      var x, r := After(s, map[], Program(t), n - 1).value, Program(t)[n - 1];
      if n - 1 > i {
        AroundErase(t, e, i, n - 1);
        StepLeaves(x.0, x.1, r, e);
      } else {
        if n - 1 < i {
          AroundErase(t, e, i, n - 1);
        }
        ErasedAway(x.0, r);
        EraseCopies(x.0, r.key, e);
        ErasedGone(x.0, e);
      }
    }
  }

  lemma ErasedAway(s: Store, r: Record)
    requires r.EraseKey? && Step(s, map[], r).Some?
    ensures Step(s, map[], r) == Some((s.DropKey(r.key), map[]))
  {
  }

  /** It cannot be committed: the target is gone, if it had one copy, when the link looks for it. */
  lemma ErasedTarget(s: Store, t: Txn, e: Key)
    requires Apart(t) && e in t.erased && e in t.links.Values && s.Copies(e) <= 1
    ensures !Commit(s, t).1
  {
    hide After, Exec, Program, Apart, Store.Copies;
    if Commit(s, t).1 {
      var k :| k in t.links && t.links[k] == e;
      var i, j := ErasedAndLinked(t, e, k);
      var p := Program(t);
      ExecSteps(s, p, j);
      ExecSteps(s, p, j + 1);
      ErasedStays(s, t, e, i, j);
      AfterNext(s, map[], p, j);
      assert false;
    }
  }

  lemma StagedOrder(p: seq<Record>, i: nat, j: nat)
    requires Staged(p) && i < |p| && j < |p| && Part(p[i]) < Part(p[j])
    ensures i < j
  {
  }

  lemma ErasedAndLinked(t: Txn, e: Key, k: Key) returns (i: nat, j: nat)
    requires e in t.erased && k in t.links && t.links[k] == e
    ensures i < j < |Program(t)| && Program(t)[i] == EraseKey(e) && Program(t)[j] == Link(k, e)
  {
    ProgramIs(t);
    hide Program;
    assert EraseKey(e) in Program(t) && Link(k, e) in Program(t);
    i :| 0 <= i < |Program(t)| && Program(t)[i] == EraseKey(e);
    j :| 0 <= j < |Program(t)| && Program(t)[j] == Link(k, e);
    StagedOrder(Program(t), i, j);
  }

  /** What redo asks of a transaction: redoable if it erases nothing, and nothing else if it erases. */
  ghost predicate Safe(t: Txn)
  {
    if t.erased == {} then Redoable(t) else OnlyErase(t)
  }

  /**
    For every transaction that a run of calls can leave behind, redo is sound if and only if it erases nothing
    and is redoable, or erases one key and does nothing else, or links to a key it erases, so that it cannot
    be committed at all.
   */
  lemma RedoExact(t: Txn)
    requires Apart(t)
    ensures RedoSound(t) <==> Safe(t) || !Linkable(t)
  {
    if !Linkable(t) {
      NeverReady(t);
    } else if t.erased == {} {
      EraseFreeExact(t);
    } else if OnlyErase(t) {
      forall trace | Attempts(trace, t)
        ensures Equiv(Final(trace[|trace| - 1], t), Final(trace[0], t))
      {
        AloneSound(t, trace);
      }
    } else {
      EraseUnsound(t);
    }
  }

  lemma NeverReady(t: Txn)
    requires Apart(t) && !Linkable(t)
    ensures RedoSound(t) && forall s :: !Ready(s, t)
  {
    var e :| e in t.erased && e in t.links.Values;
    forall s
      ensures !Ready(s, t)
    {
    }
  }

  // ----- an erased key with older copies

  ghost predicate AttemptsFrom(trace: seq<Store>, s: Store, t: Txn)
  {
    && trace != [] && trace[0] == s
    && forall i | 0 <= i < |trace| - 1 :: Interrupted(trace[i], Program(t), trace[i + 1])
  }

  /** Redo is sound when the first attempt is on the store `s`. */
  ghost predicate RedoSoundFrom(s: Store, t: Txn)
  {
    forall trace | AttemptsFrom(trace, s, t) :: Equiv(Final(trace[|trace| - 1], t), Final(s, t))
  }

  /** Each attempt erases one copy more, until none is left. */
  lemma {:induction false} EraseAll(s: Store, t: Txn) returns (trace: seq<Store>)
    requires t.erased != {} && s.Keyed()
    ensures AttemptsFrom(trace, s, t) && Least(t.erased) !in trace[|trace| - 1].keys
    decreases s.Copies(Least(t.erased))
  {
    var e := Least(t.erased);
    CopiesFound(s, e);
    trace := [s];
    if e in s.keys {
      FirstErase(t);
      EraseKeyed(s, e);
      EraseCopies(s, e, e);
      hide PartProgram, Program;
      AfterNone(s, map[], Program(t));
      assert After(s, map[], Program(t), 1) == Some((s.DropKey(e), map[]));
      assert InterruptedAt(s, Program(t), 1, s.DropKey(e));
      var rest := EraseAll(s.DropKey(e), t);
      trace := trace + rest;
      Extends(trace, s, rest, t);
    }
  }

  lemma Extends(trace: seq<Store>, s: Store, rest: seq<Store>, t: Txn)
    requires rest != [] && AttemptsFrom(rest, rest[0], t) && Interrupted(s, Program(t), rest[0]) && trace == [s] + rest
    ensures AttemptsFrom(trace, s, t) && trace[|trace| - 1] == rest[|rest| - 1]
  {
    hide Interrupted, Program;
    forall i | 0 <= i < |trace| - 1
      ensures Interrupted(trace[i], Program(t), trace[i + 1])
    {
      if i > 0 {
        assert Interrupted(rest[i - 1], Program(t), rest[i - 1 + 1]);
      }
    }
  }

  /** One commit of a lone erase leaves the older copies of its key. */
  lemma AloneKeeps(s: Store, t: Txn, e: Key)
    requires Apart(t) && Linkable(t) && OnlyErase(t) && t.erased == {e}
    requires s.Valid() && s.Keyed() && e in s.keys && s.Copies(e) > 1 && t.links.Values <= s.keys.Keys
    ensures e in Final(s, t).keys
  {
    hide Program, Source, Finished, WriteAll, Ws, Store.Keyed, KeysOf, PartProgram;
    FirstErase(t);
    var v := s.DropKey(e);
    ErasedGone(s, e);
    EraseKeyed(s, e);
    KeyedValid(v);
    RestProgram(t);
    OneErase(t);
    AfterNone(s, map[], Program(t));
    assert After(s, map[], Program(t), 1) == Some((v, map[]));
    ExecAfter(s, map[], Program(t), 1);
    assert Program(t)[1..] == Program(Rest(t));
    assert Resolved(v, Rest(t)) by {
      forall k | k in t.links.Values
        ensures k in v.keys
      {
        assert k != e && k in s.keys - {e};
      }
    }
    FinalIs(v, Rest(t));
    NoWrites(v, Rest(t));
    FinishedDomain(v.keys, {}, Source(t));
  }

  /** From any store, a lone erase may be redone if and only if its key has one copy. */
  lemma SingleCopyExact(s: Store, t: Txn, e: Key)
    requires Apart(t) && Linkable(t) && OnlyErase(t) && t.erased == {e}
    requires s.Valid() && s.Keyed() && e in s.keys && t.links.Values <= s.keys.Keys
    ensures RedoSoundFrom(s, t) <==> s.Copies(e) == 1
  {
    CopiesFound(s, e);
    hide Program, OnlyErase, Interrupted, Final;
    if s.Copies(e) == 1 {
      assert Ready(s, t);
      forall trace | AttemptsFrom(trace, s, t)
        ensures Equiv(Final(trace[|trace| - 1], t), Final(s, t))
      {
        assert Attempts(trace, t);
        AloneSound(t, trace);
      }
    } else {
      var trace := EraseAll(s, t);
      var u := trace[|trace| - 1];
      RedoStops(u, t);
      AloneKeeps(s, t, e);
      assert !Equiv(Final(u, t), Final(s, t));
    }
  }

  /** Two keys of one bucket: after setting `k`, setting and erasing `b`, and setting `k` again, `k` has two copies. */
  lemma TwoCopies(bucket: Key -> nat, k: Key, b: Key) returns (s: Store)
    requires k != b && bucket(k) == bucket(b)
    ensures s == EmptyStore(bucket).PutKey(k, KeyOnly).PutKey(b, KeyOnly).DropKey(b).PutKey(k, KeyOnly)
    ensures s.Valid() && s.Keyed() && k in s.keys && s.Copies(k) == 2
  {
    s := EmptyStore(bucket);
    EmptyKeyed(bucket);
    hide Store.Keyed;
    PutKeyed(s, k, KeyOnly);
    s := s.PutKey(k, KeyOnly);
    PutKeyed(s, b, KeyOnly);
    s := s.PutKey(b, KeyOnly);
    EraseKeyed(s, b);
    s := s.DropKey(b);
    PutKeyed(s, k, KeyOnly);
    s := s.PutKey(k, KeyOnly);
    KeyedValid(s);
    TwoCells(bucket, k, b);
  }

  lemma TwoCells(bucket: Key -> nat, k: Key, b: Key)
    requires k != b && bucket(k) == bucket(b)
    ensures EmptyStore(bucket).PutKey(k, KeyOnly).PutKey(b, KeyOnly).DropKey(b).PutKey(k, KeyOnly).Copies(k) == 2
  {
    var x: Chain.Cell<Key, Ref> := Chain.Held(k, KeyOnly);
    BucketCells(k, b);
    Chain.CountSnoc([x], x, Chain.Holding(k));
    assert [x] + [x] == [x, x] && Chain.Count([x], Chain.Holding(k)) == 1;
    hide Chain.Put, Chain.Erase, Chain.Count, Chain.Find;
  }

  lemma BucketCells(k: Key, b: Key)
    requires k != b
    ensures var x, y := Chain.Held(k, KeyOnly), Chain.Held(b, KeyOnly);
            && Chain.Put([], k, KeyOnly) == [x]
            && Chain.Put([x], b, KeyOnly) == [x, y]
            && Chain.Erase([x, y], b) == [x, Chain.Free]
            && Chain.Put([x, Chain.Free], k, KeyOnly) == [x, x]
  {
    var x, y := Chain.Held(k, KeyOnly), Chain.Held(b, KeyOnly);
    hide Chain.Newest, Chain.Put, Chain.Erase;
    Chain.PutAt([], k, KeyOnly, -1);
    Chain.PutAt([x], b, KeyOnly, -1);
    Chain.EraseAt([x, y], b, 1);
    Chain.PutAt([x, Chain.Free], k, KeyOnly, 1);
    assert [x, y][1 := Chain.Free] == [x, Chain.Free] && [x, Chain.Free][1 := x] == [x, x];
  }

  /** A transaction that erases one key and does nothing else. */
  lemma LoneErase(k: Key)
    ensures var t := Txn(map[], {}, map[], {k}); Apart(t) && Linkable(t) && OnlyErase(t)
  {
    hide Source;
  }

  /** On that store the erase of `k` alone cannot be redone. */
  lemma TwoCopiesUnsound(bucket: Key -> nat, k: Key, b: Key) returns (s: Store)
    requires k != b && bucket(k) == bucket(b)
    ensures s == EmptyStore(bucket).PutKey(k, KeyOnly).PutKey(b, KeyOnly).DropKey(b).PutKey(k, KeyOnly)
    ensures !RedoSoundFrom(s, Txn(map[], {}, map[], {k}))
  {
    hide RedoSoundFrom, OnlyErase, Store.Keyed, Store.Copies, Store.DropKey, Store.PutKey;
    s := TwoCopies(bucket, k, b);
    LoneErase(k);
    SingleCopyExact(s, Txn(map[], {}, map[], {k}), k);
  }
}
