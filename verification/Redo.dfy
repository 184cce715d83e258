/**
  Redo from the journal: the erase-free transactions whose commit may be cut short after any
  record, or in the middle of a sector write, and run again from the start.
 */
module Redo {
  import opened Wrappers
  import opened Store
  import opened KeyOrder
  import opened Transaction
  import opened Phases

  // ----- what an interrupted commit leaves behind

  /** A write torn inside its sector: the sector may hold anything of its size, or an unreferenced one was appended. */
  ghost predicate Torn(s: Store, r: Record, s': Store)
  {
    && r.Write?
    && if s.Fits(r.key, r.data)
       then exists g: Bytes :: |g| == |r.data| && s' == s.(sectors := s.sectors[s.keys[r.key].id := g])
       else exists g: Bytes :: s' == s.(sectors := s.sectors + [g])
  }

  /** A beginning of the program was done, and maybe the next write is torn. */
  ghost predicate Interrupted(s: Store, p: seq<Record>, s': Store)
  {
    exists n :: 0 <= n <= |p| && InterruptedAt(s, p, n, s')
  }

  ghost predicate InterruptedAt(s: Store, p: seq<Record>, n: nat, s': Store)
    requires n <= |p|
  {
    var x := After(s, map[], p, n);
    x.Some? && (s' == x.value.0 || (n < |p| && Torn(x.value.0, p[n], s')))
  }

  /** The outcome of a whole commit. */
  ghost function Final(s: Store, t: Txn): (s': Store)
  {
    Commit(s, t).0
  }

  // ----- which transactions survive redo

  ghost function Ws(t: Txn): (p: seq<Record>)
    ensures AllWrites(p)
  {
    PassesAre(t);
    PartProgram(t, 1)
  }

  ghost function Ms(t: Txn): (p: seq<Record>)
    ensures AllMarks(p)
  {
    PassesAre(t);
    PartProgram(t, 2)
  }

  ghost function Ls(t: Txn): (p: seq<Record>)
    ensures AllLinks(p)
  {
    PassesAre(t);
    PartProgram(t, 3)
  }

  lemma PassesAre(t: Txn)
    ensures AllWrites(PartProgram(t, 1)) && IsPart(t, 1, t.writes.Keys, PartProgram(t, 1))
    ensures AllMarks(PartProgram(t, 2)) && IsPart(t, 2, t.marks, PartProgram(t, 2))
    ensures AllLinks(PartProgram(t, 3)) && IsPart(t, 3, t.links.Keys, PartProgram(t, 3))
  {
    PartIs(t, 1);
    PartIs(t, 2);
    PartIs(t, 3);
    forall part, i | 1 <= part <= 3 && 0 <= i < |PartProgram(t, part)|
      ensures Part(PartProgram(t, part)[i]) == part
    {
      assert PartProgram(t, part)[i] in PartProgram(t, part);
    }
  }

  /** The key whose entry a linked key ends up with, chains and the target cache included. */
  ghost function Source(t: Txn): (src: map<Key, Key>)
  {
    TraceLinks(Ls(t), |Ls(t)|).src
  }

  ghost predicate Moved(t: Txn, k: Key)
  {
    k in Source(t) && Source(t)[k] != k
  }

  /** Different data of one length, the first written before the second. */
  predicate Overwrites(t: Txn, a: Key, k: Key)
  {
    && a in t.writes && k in t.writes && Less(a, k)
    && |t.writes[a]| == |t.writes[k]| && t.writes[a] != t.writes[k]
  }

  /** No link takes its entry from a key that a link moves elsewhere. */
  ghost predicate LinksStable(t: Txn)
  {
    forall k | k in Source(t) :: Source(t)[k] in t.marks || !Moved(t, Source(t)[k])
  }

  /** A key that leaves its sector does not take the last write to it away from an earlier key that stays. */
  ghost predicate WritesStable(t: Txn)
  {
    forall a, k | Overwrites(t, a, k) && a !in t.marks :: k !in t.marks && (Moved(t, k) ==> Moved(t, a))
  }

  /** A written key that is moved onto a sector does not write other data there on redo. */
  ghost predicate MovesStable(t: Txn)
  {
    forall k | k in t.writes && Moved(t, k) && Source(t)[k] !in t.marks ::
      if Source(t)[k] in t.writes then !Overwrites(t, Source(t)[k], k) else t.writes[k] == []
  }

  ghost predicate Redoable(t: Txn)
  {
    t.erased == {} && LinksStable(t) && WritesStable(t) && MovesStable(t)
  }

  // ----- the program in its passes

  lemma ProgramPasses(t: Txn)
    requires t.erased == {}
    ensures Program(t) == Ws(t) + Ms(t) + Ls(t)
  {
    assert PartProgram(t, 0) == [];
  }

  /** Targets are there when the links begin. */
  lemma TargetsThere(s: Store, t: Txn, keys: map<Key, Ref>)
    requires Resolved(s, t) && s.keys.Keys + t.writes.Keys + t.marks <= keys.Keys
    ensures TargetsIn(Ls(t), keys.Keys)
  {
    PassesAre(t);
    forall i | 0 <= i < |Ls(t)|
      ensures Ls(t)[i].target in keys
    {
      assert Ls(t)[i] in Ls(t);
      assert Ls(t)[i].target in t.links.Values;
    }
  }

  lemma WrittenKeys(s: Store, t: Txn)
    requires s.Valid()
    ensures var w := WriteAll(s, Ws(t)); w.Valid() && s.keys.Keys + t.writes.Keys <= w.keys.Keys
  {
    var ws := Ws(t);
    hide Framed, WriteAll, Wrote;
    WroteFrame(s, ws, |ws|);
    WroteAll(s, ws);
    FramedKeys(s, ws, WriteAll(s, ws));
    PassesAre(t);
    forall a | a in t.writes
      ensures a in WriteAll(s, ws).keys
    {
      assert Write(a, t.writes[a]) in ws;
    }
  }

  lemma FramedKeys(s: Store, ws: seq<Record>, v: Store)
    requires Framed(s, ws, |ws|, v)
    ensures v.Valid() && s.keys.Keys <= v.keys.Keys && forall r | r in ws :: r.key in v.keys
  {
  }

  lemma FinishedTwice(keys: map<Key, Ref>, marks: set<Key>, src: map<Key, Key>)
    ensures Finished(Finished(keys, marks, map[]), {}, src) == Finished(keys, marks, src)
  {
  }

  lemma FinishedDomain(keys: map<Key, Ref>, marks: set<Key>, src: map<Key, Key>)
    ensures Finished(keys, marks, src).Keys == keys.Keys + marks + src.Keys
  {
  }

  lemma MarkKeys(t: Txn)
    ensures KeysOf(Ms(t)) == t.marks && KeysOf(Ls(t)) == t.links.Keys
  {
    PassesAre(t);
    forall k | k in t.marks
      ensures k in KeysOf(Ms(t))
    {
      assert Mark(k) in Ms(t);
    }
    forall k | k in t.links
      ensures k in KeysOf(Ls(t))
    {
      assert Link(k, t.links[k]) in Ls(t);
    }
  }

  /** The keychain in the middle of the marks or the links. */
  ghost predicate Midway(t: Txn, w: Store, marks: set<Key>, src: map<Key, Key>, u: Store)
  {
    MidwayAt(w, marks, src, u) && Progress(t, marks, src)
  }

  ghost predicate MidwayAt(w: Store, marks: set<Key>, src: map<Key, Key>, u: Store)
  {
    u.keys == Finished(w.keys, marks, src) && u.sectors == w.sectors
  }

  /** Marks done in key order, and links in key order only after all marks. */
  ghost predicate Progress(t: Txn, marks: set<Key>, src: map<Key, Key>)
  {
    && marks <= t.marks && (src != map[] ==> marks == t.marks)
    && (forall k | k in src :: k in Source(t) && src[k] == Source(t)[k])
    && (forall a, k | k in marks && a in t.marks && Less(a, k) :: a in marks)
    && (forall a, k | k in src && a in t.links && Less(a, k) :: a in src)
  }

  lemma KeysBefore(p: seq<Record>, n: nat, k: Key)
    requires Sorted(p) && n <= |p|
    ensures k in KeysOf(p[..n]) ==> exists i :: 0 <= i < n && p[i].key == k
    ensures k in KeysOf(p[..n]) ==> forall a | a in KeysOf(p) && Less(a, k) :: a in KeysOf(p[..n])
  {
    if k in KeysOf(p[..n]) {
      var r :| r in p[..n] && r.key == k;
      var i :| 0 <= i < n && p[i] == r;
      forall a | a in KeysOf(p) && Less(a, k)
        ensures a in KeysOf(p[..n])
      {
        var x :| x in p && x.key == a;
        var j :| 0 <= j < |p| && p[j] == x;
        SortedApart(p, j, i);
        assert p[..n][j] == x;
      }
    }
  }

  lemma NotYet(ls: seq<Record>, n: nat, m: nat)
    requires Sorted(ls) && n <= m < |ls|
    ensures ls[m].key !in KeysOf(ls[..n])
  {
    KeysBefore(ls, n, ls[m].key);
    forall i | 0 <= i < n
      ensures ls[i].key != ls[m].key
    {
      SortedApart(ls, i, m);
    }
  }

  /** A traced origin is final: no key is linked twice. */
  lemma {:induction false} TraceFinal(ls: seq<Record>, n: nat, m: nat)
    requires Sorted(ls) && n <= m <= |ls| && AllLinks(ls)
    ensures forall k | k in TraceLinks(ls, n).src :: k in TraceLinks(ls, m).src && TraceLinks(ls, m).src[k] == TraceLinks(ls, n).src[k]
    decreases m - n, n
  {
    if n < m {
      TraceFinal(ls, n, m - 1);
      TraceKeySet(ls, n);
      NotYet(ls, n, m - 1);
      hide KeysOf, Sorted;
    }
  }

  lemma {:induction false} TraceKeySet(ls: seq<Record>, n: nat)
    requires n <= |ls| && AllLinks(ls)
    ensures TraceLinks(ls, n).src.Keys == KeysOf(ls[..n])
  {
    if n == 0 {
      KeysOfEmpty(ls);
    } else {
      TraceKeySet(ls, n - 1);
      KeysOfNext(ls, n - 1);
    }
  }

  lemma SourceKeys(t: Txn)
    ensures Source(t).Keys == t.links.Keys
  {
    TraceKeySet(Ls(t), |Ls(t)|);
    assert Ls(t)[..|Ls(t)|] == Ls(t);
    MarkKeys(t);
  }

  /** The states of a commit among the marks. */
  lemma MarkState(s: Store, t: Txn, n: nat)
    requires t.erased == {} && n <= |Ms(t)|
    ensures |Ws(t)| + n <= |Program(t)|
    ensures var x := After(s, map[], Program(t), |Ws(t)| + n);
            x.Some? && MidwayAt(WriteAll(s, Ws(t)), KeysOf(Ms(t)[..n]), map[], x.value.0)
  {
    hide After, Finished, KeysOf, WriteAll, Wrote, TraceLinks, PartProgram, Ws, Ms, Ls;
    var ws, ms, ls := Ws(t), Ms(t), Ls(t);
    ProgramPasses(t);
    assert ws + ms + ls == ws + (ms + ls);
    AfterWrites(s, map[], ws, |ws|);
    WroteAll(s, ws);
    var w := WriteAll(s, ws);
    AfterConcat(s, map[], ws, ms + ls, n);
    AfterPrefix(w, map[], ms, ls, n);
    AfterMarks(w, map[], ms, n);
  }

  /** The states of a commit among the links. */
  lemma LinkState(s: Store, t: Txn, n: nat)
    requires t.erased == {} && s.Valid() && Resolved(s, t) && n <= |Ls(t)|
    ensures |Ws(t)| + |Ms(t)| + n <= |Program(t)|
    ensures var x := After(s, map[], Program(t), |Ws(t)| + |Ms(t)| + n);
            x.Some? && MidwayAt(WriteAll(s, Ws(t)), t.marks, TraceLinks(Ls(t), n).src, x.value.0)
  {
    hide After, Finished, KeysOf, WriteAll, Wrote, TraceLinks, PartProgram, Ws, Ms, Ls, TargetsIn;
    var ws, ms, ls := Ws(t), Ms(t), Ls(t);
    ProgramPasses(t);
    assert ws + ms + ls == (ws + ms) + ls;
    MarkState(s, t, |ms|);
    assert ms[..|ms|] == ms;
    MarkKeys(t);
    AfterPrefix(s, map[], ws + ms, ls, |ws + ms|);
    var um := After(s, map[], ws + ms, |ws + ms|).value.0;
    WrittenKeys(s, t);
    FinishedDomain(WriteAll(s, ws).keys, t.marks, map[]);
    TargetsThere(s, t, um.keys);
    AfterConcat(s, map[], ws + ms, ls, n);
    CacheEmpty(s, t);
    AfterLinks(um, ls, n);
    FinishedTwice(WriteAll(s, ws).keys, t.marks, TraceLinks(ls, n).src);
  }

  lemma CacheEmpty(s: Store, t: Txn)
    ensures After(s, map[], Ws(t) + Ms(t), |Ws(t) + Ms(t)|).Some?
    ensures After(s, map[], Ws(t) + Ms(t), |Ws(t) + Ms(t)|).value.1 == map[]
  {
    hide After, Finished, KeysOf, WriteAll, Wrote, TraceLinks, PartProgram, Ws, Ms, Ls;
    var ws, ms := Ws(t), Ms(t);
    AfterWrites(s, map[], ws, |ws|);
    AfterConcat(s, map[], ws, ms, |ms|);
    AfterMarks(Wrote(s, ws, |ws|), map[], ms, |ms|);
  }

  /** Every state behind the writes of a commit. */
  lemma AfterWritesState(s: Store, t: Txn, n: nat)
    requires t.erased == {} && s.Valid() && Resolved(s, t) && |Ws(t)| <= n <= |Program(t)|
    ensures After(s, map[], Program(t), n).Some?
    ensures exists marks, src :: Midway(t, WriteAll(s, Ws(t)), marks, src, After(s, map[], Program(t), n).value.0)
  {
    hide After, Finished, KeysOf, WriteAll, PartProgram, Ws, Ms, Ls;
    ProgramPasses(t);
    var w := WriteAll(s, Ws(t));
    if n <= |Ws(t)| + |Ms(t)| {
      var m := n - |Ws(t)|;
      MarkState(s, t, m);
      MarksProgress(t, m);
      assert Midway(t, w, KeysOf(Ms(t)[..m]), map[], After(s, map[], Program(t), n).value.0);
    } else {
      var m := n - |Ws(t)| - |Ms(t)|;
      LinkState(s, t, m);
      LinksProgress(t, m);
      assert Midway(t, w, t.marks, TraceLinks(Ls(t), m).src, After(s, map[], Program(t), n).value.0);
    }
  }

  lemma MarksProgress(t: Txn, n: nat)
    requires n <= |Ms(t)|
    ensures Progress(t, KeysOf(Ms(t)[..n]), map[])
  {
    MarkKeys(t);
    PassesAre(t);
    forall k | k in KeysOf(Ms(t)[..n])
      ensures k in t.marks && forall a | a in t.marks && Less(a, k) :: a in KeysOf(Ms(t)[..n])
    {
      KeysBefore(Ms(t), n, k);
    }
  }

  lemma LinksProgress(t: Txn, n: nat)
    requires n <= |Ls(t)|
    ensures Progress(t, t.marks, TraceLinks(Ls(t), n).src)
  {
    MarkKeys(t);
    PassesAre(t);
    TraceKeySet(Ls(t), n);
    TraceFinal(Ls(t), n, |Ls(t)|);
    forall k | k in TraceLinks(Ls(t), n).src
      ensures forall a | a in t.links && Less(a, k) :: a in TraceLinks(Ls(t), n).src
    {
      KeysBefore(Ls(t), n, k);
    }
  }

  /** The whole commit in closed form. */
  lemma FinalIs(s: Store, t: Txn)
    requires t.erased == {} && s.Valid() && Resolved(s, t)
    ensures Commit(s, t).1
    ensures var w := WriteAll(s, Ws(t));
            Final(s, t).keys == Finished(w.keys, t.marks, Source(t)) && Final(s, t).sectors == w.sectors
  {
    hide After, Finished, KeysOf, WriteAll, PartProgram, Ws, Ms, Ls;
    var p := Program(t);
    ProgramPasses(t);
    LinkState(s, t, |Ls(t)|);
    ExecAfter(s, map[], p, |p|);
    assert p[|p|..] == [];
  }

  // ----- soundness of redo

  /** Interrupted attempts at committing `t`, the first one on a store it is made for. */
  ghost predicate Attempts(trace: seq<Store>, t: Txn)
  {
    && trace != [] && Ready(trace[0], t)
    && forall i | 0 <= i < |trace| - 1 :: Interrupted(trace[i], Program(t), trace[i + 1])
  }

  /** After any interrupted attempts, the full program ends where it would have ended at once. */
  ghost predicate RedoSound(t: Txn)
  {
    forall trace | Attempts(trace, t) :: Equiv(Final(trace[|trace| - 1], t), Final(trace[0], t))
  }
}
