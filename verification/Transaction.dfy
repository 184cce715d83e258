/**
  The transaction object and its journal: what a run of Write, Index and Erase calls
  leaves in memory, what recovery rebuilds from the journal, and the commit program
  both stand for.
 */
module Transaction {
  import opened Wrappers
  import opened Store
  import opened KeyOrder

  datatype Txn = Txn(writes: map<Key, Bytes>, marks: set<Key>, links: map<Key, Key>, erased: set<Key>)

  const EmptyTxn := Txn(map[], {}, map[], {})

  datatype Entry =
    | WriteEntry(key: Key, data: Bytes)
    | KeyEntry(key: Key)
    | IndexEntry(key: Key, target: Key)
    | EraseEntry(key: Key)

  /** A call inside a transaction: writing takes the key out of the erase set. */
  function Call(t: Txn, e: Entry): (t': Txn)
  {
    match e
    case WriteEntry(k, d) => t.(writes := t.writes[k := d], erased := t.erased - {k})
    case KeyEntry(k) => t.(marks := t.marks + {k}, erased := t.erased - {k})
    case IndexEntry(k, i) => t.(links := t.links[k := i], erased := t.erased - {k})
    case EraseEntry(k) => Erase(t, k)
  }

  /** `EraseTransaction`. */
  function Erase(t: Txn, k: Key): (t': Txn)
  {
    Txn(t.writes - {k}, t.marks - {k}, t.links - {k}, t.erased + {k})
  }

  /** Recovery replays a journal entry, and leaves the erase set alone when it writes. */
  function Replay(t: Txn, e: Entry): (t': Txn)
  {
    match e
    case WriteEntry(k, d) => t.(writes := t.writes[k := d])
    case KeyEntry(k) => t.(marks := t.marks + {k})
    case IndexEntry(k, i) => t.(links := t.links[k := i])
    case EraseEntry(k) => Erase(t, k)
  }

  function Called(es: seq<Entry>): (t: Txn)
  {
    if es == [] then EmptyTxn else Call(Called(es[..|es| - 1]), es[|es| - 1])
  }

  function Replayed(es: seq<Entry>): (t: Txn)
  {
    if es == [] then EmptyTxn else Replay(Replayed(es[..|es| - 1]), es[|es| - 1])
  }

  // ----- the journal rebuilds the transaction unless a key is rewritten after its erase

  predicate EverErased(es: seq<Entry>, k: Key)
  {
    EraseEntry(k) in es
  }

  /** The last entry about `k` erases it. */
  ghost predicate EndsErased(es: seq<Entry>, k: Key)
  {
    exists i :: 0 <= i < |es| && es[i] == EraseEntry(k) && forall j | i < j < |es| :: es[j].key != k
  }

  ghost predicate NoRewrite(es: seq<Entry>)
  {
    forall k | EverErased(es, k) :: EndsErased(es, k)
  }

  lemma EndsErasedNext(es: seq<Entry>, e: Entry, k: Key)
    ensures EndsErased(es + [e], k) <==> if e.key == k then e.EraseEntry? else EndsErased(es, k)
  {
    var fs := es + [e];
    if EndsErased(fs, k) {
      var i :| 0 <= i < |fs| && fs[i] == EraseEntry(k) && forall j | i < j < |fs| :: fs[j].key != k;
      if i < |es| {
        assert fs[|es|] == e;
        assert es[i] == EraseEntry(k) && forall j | i < j < |es| :: es[j] == fs[j];
      }
    }
    if e == EraseEntry(k) {
      assert fs[|es|] == EraseEntry(k);
    } else if e.key != k && EndsErased(es, k) {
      var i :| 0 <= i < |es| && es[i] == EraseEntry(k) && forall j | i < j < |es| :: es[j].key != k;
      assert fs[i] == EraseEntry(k) && forall j | i < j < |fs| :: fs[j].key != k;
    }
  }

  lemma {:induction false} ErasedKeys(es: seq<Entry>, k: Key)
    ensures k in Called(es).erased <==> EndsErased(es, k)
    ensures k in Replayed(es).erased <==> EverErased(es, k)
  {
    if es != [] {
      var n := |es| - 1;
      ErasedKeys(es[..n], k);
      EndsErasedNext(es[..n], es[n], k);
      assert es[..n] + [es[n]] == es;
      assert EverErased(es, k) <==> es[n] == EraseEntry(k) || EverErased(es[..n], k);
    }
  }

  lemma {:induction false} ReplayedRest(es: seq<Entry>)
    ensures var t, c := Replayed(es), Called(es); t.writes == c.writes && t.marks == c.marks && t.links == c.links
  {
    if es != [] {
      ReplayedRest(es[..|es| - 1]);
    }
  }

  /** Recovery rebuilds the transaction exactly when no erased key was written again. */
  lemma ReplayExact(es: seq<Entry>)
    ensures Replayed(es) == Called(es) <==> NoRewrite(es)
  {
    ReplayedRest(es);
    forall k
      ensures k in Called(es).erased <==> EndsErased(es, k)
      ensures k in Replayed(es).erased <==> EverErased(es, k)
    {
      ErasedKeys(es, k);
    }
    if NoRewrite(es) {
      assert forall k | EndsErased(es, k) :: EverErased(es, k);
      assert Replayed(es).erased == Called(es).erased;
    }
  }

  /** A key pending erase is pending nothing else. */
  lemma {:induction false} ErasedApart(es: seq<Entry>)
    ensures Apart(Called(es))
  {
    if es != [] {
      ErasedApart(es[..|es| - 1]);
    }
  }

  // ----- what the transaction holds, by the entries themselves

  /** No entry behind position `i` erases `k`. */
  ghost predicate Unerased(es: seq<Entry>, i: nat, k: Key)
  {
    forall j | i < j < |es| :: es[j] != EraseEntry(k)
  }

  /** Entry `i` writes `k`, and no later one writes or erases it. */
  ghost predicate LastData(es: seq<Entry>, i: nat, k: Key)
  {
    && i < |es| && es[i].WriteEntry? && es[i].key == k && Unerased(es, i, k)
    && forall j | i < j < |es| && es[j].WriteEntry? :: es[j].key != k
  }

  /** Entry `i` links `k`, and no later one links or erases it. */
  ghost predicate LastTarget(es: seq<Entry>, i: nat, k: Key)
  {
    && i < |es| && es[i].IndexEntry? && es[i].key == k && Unerased(es, i, k)
    && forall j | i < j < |es| && es[j].IndexEntry? :: es[j].key != k
  }

  lemma LastDataNext(es: seq<Entry>, n: nat, k: Key)
    requires |es| == n + 1
    ensures forall i: nat | i < n :: LastData(es, i, k) <==> LastData(es[..n], i, k) && es[n] != EraseEntry(k) && !(es[n].WriteEntry? && es[n].key == k)
    ensures LastData(es, n, k) <==> es[n].WriteEntry? && es[n].key == k
  {
  }

  lemma LastTargetNext(es: seq<Entry>, n: nat, k: Key)
    requires |es| == n + 1
    ensures forall i: nat | i < n :: LastTarget(es, i, k) <==> LastTarget(es[..n], i, k) && es[n] != EraseEntry(k) && !(es[n].IndexEntry? && es[n].key == k)
    ensures LastTarget(es, n, k) <==> es[n].IndexEntry? && es[n].key == k
  {
  }

  /** A key is pending a write exactly when one was logged and no erase since; its data are those of the last write. */
  lemma {:induction false} PendingData(es: seq<Entry>, k: Key)
    ensures k in Called(es).writes <==> exists i: nat :: LastData(es, i, k)
    ensures forall i: nat | LastData(es, i, k) :: k in Called(es).writes && Called(es).writes[k] == es[i].data
  {
    if es != [] {
      var n: nat := |es| - 1;
      PendingData(es[..n], k);
      LastDataNext(es, n, k);
      if exists i: nat :: LastData(es[..n], i, k) {
        var i: nat :| LastData(es[..n], i, k);
        assert i < n;
        assert LastData(es, i, k) || es[n] == EraseEntry(k) || (es[n].WriteEntry? && es[n].key == k);
      }
    }
  }

  /** So are a link and its target. */
  lemma {:induction false} PendingLink(es: seq<Entry>, k: Key)
    ensures k in Called(es).links <==> exists i: nat :: LastTarget(es, i, k)
    ensures forall i: nat | LastTarget(es, i, k) :: k in Called(es).links && Called(es).links[k] == es[i].target
  {
    if es != [] {
      var n: nat := |es| - 1;
      PendingLink(es[..n], k);
      LastTargetNext(es, n, k);
      if exists i: nat :: LastTarget(es[..n], i, k) {
        var i: nat :| LastTarget(es[..n], i, k);
        assert i < n;
        assert LastTarget(es, i, k) || es[n] == EraseEntry(k) || (es[n].IndexEntry? && es[n].key == k);
      }
    }
  }

  /** A key is pending a mark exactly when one was logged and no erase since. */
  lemma {:induction false} PendingMark(es: seq<Entry>, k: Key)
    ensures k in Called(es).marks <==> exists i: nat :: i < |es| && es[i] == KeyEntry(k) && Unerased(es, i, k)
  {
    if es != [] {
      var n: nat := |es| - 1;
      var fs := es[..n];
      PendingMark(fs, k);
      assert forall i: nat | i < n :: Unerased(es, i, k) <==> Unerased(fs, i, k) && es[n] != EraseEntry(k);
      assert Unerased(es, n, k);
      if exists i: nat :: i < n && fs[i] == KeyEntry(k) && Unerased(fs, i, k) {
        var i: nat :| i < n && fs[i] == KeyEntry(k) && Unerased(fs, i, k);
        assert es[i] == fs[i];
      }
    }
  }

  /** What the calls leave for a key, and what a replay of their journal leaves: the erase set aside, the same. */
  lemma ReplayedPending(es: seq<Entry>, k: Key)
    ensures k in Replayed(es).writes <==> exists i: nat :: LastData(es, i, k)
    ensures forall i: nat | LastData(es, i, k) :: k in Replayed(es).writes && Replayed(es).writes[k] == es[i].data
    ensures k in Replayed(es).links <==> exists i: nat :: LastTarget(es, i, k)
    ensures forall i: nat | LastTarget(es, i, k) :: k in Replayed(es).links && Replayed(es).links[k] == es[i].target
    ensures k in Replayed(es).marks <==> exists i: nat :: i < |es| && es[i] == KeyEntry(k) && Unerased(es, i, k)
    ensures k in Replayed(es).erased <==> exists i: nat :: i < |es| && es[i] == EraseEntry(k)
  {
    hide Called, Replayed, LastData, LastTarget, Unerased;
    ReplayedRest(es);
    PendingData(es, k);
    PendingLink(es, k);
    PendingMark(es, k);
    ErasedKeys(es, k);
  }

  // ----- the commit program

  /** The part of `TxnCommit` a record belongs to. */
  function Part(r: Record): (n: nat)
  {
    match r
    case EraseKey(_) => 0
    case Write(_, _) => 1
    case Mark(_) => 2
    case Link(_, _) => 3
  }

  ghost predicate InTxn(t: Txn, r: Record)
  {
    match r
    case EraseKey(k) => k in t.erased
    case Write(k, d) => k in t.writes && t.writes[k] == d
    case Mark(k) => k in t.marks
    case Link(k, i) => k in t.links && t.links[k] == i
  }

  ghost function RecordOf(t: Txn, part: nat, k: Key): (r: Record)
    requires part < 4 && k in PartKeys(t, part)
    ensures r.key == k && Part(r) == part && InTxn(t, r)
  {
    if part == 0 then EraseKey(k)
    else if part == 1 then Write(k, t.writes[k])
    else if part == 2 then Mark(k)
    else Link(k, t.links[k])
  }

  /** The records of the keys `s` of one part, in key order. */
  ghost function Records(t: Txn, part: nat, s: set<Key>): (p: seq<Record>)
    requires part < 4 && s <= PartKeys(t, part)
    decreases |s|
  {
    if s == {} then [] else [RecordOf(t, part, Least(s))] + Records(t, part, s - {Least(s)})
  }

  ghost function PartKeys(t: Txn, part: nat): (s: set<Key>)
    requires part < 4
  {
    if part == 0 then t.erased else if part == 1 then t.writes.Keys else if part == 2 then t.marks else t.links.Keys
  }

  ghost function PartProgram(t: Txn, part: nat): (p: seq<Record>)
    requires part < 4
  {
    Records(t, part, PartKeys(t, part))
  }

  lemma RecordsStep(t: Txn, part: nat, s: set<Key>, m: Key)
    requires part < 4 && s <= PartKeys(t, part) && IsLeast(m, s)
    ensures Records(t, part, s) == [RecordOf(t, part, m)] + Records(t, part, s - {m})
  {
    LeastUnique(m, Least(s), s);
  }

  /** The records of some keys of one part, each once and in key order. */
  ghost predicate IsPart(t: Txn, part: nat, s: set<Key>, p: seq<Record>)
  {
    && Sorted(p)
    && (forall r | r in p :: Part(r) == part && InTxn(t, r) && r.key in s)
    && (forall r :: Part(r) == part && InTxn(t, r) && r.key in s ==> r in p)
  }

  lemma {:induction false} RecordsAre(t: Txn, part: nat, s: set<Key>)
    requires part < 4 && s <= PartKeys(t, part)
    ensures IsPart(t, part, s, Records(t, part, s))
    decreases |s|
  {
    if s != {} {
      var m := Least(s);
      RecordsAre(t, part, s - {m});
      PartCons(t, part, s, m, Records(t, part, s - {m}));
    }
  }

  lemma PartCons(t: Txn, part: nat, s: set<Key>, m: Key, q: seq<Record>)
    requires part < 4 && IsLeast(m, s) && m in PartKeys(t, part) && IsPart(t, part, s - {m}, q)
    ensures IsPart(t, part, s, [RecordOf(t, part, m)] + q)
  {
    var r0 := RecordOf(t, part, m);
    var p := [r0] + q;
    forall r | Part(r) == part && InTxn(t, r) && r.key in s
      ensures r in p
    {
      if r.key == m {
        assert r == r0 && p[0] == r0;
      } else {
        assert r in q;
      }
    }
    forall i, j | 0 <= i < j < |p|
      ensures Less(p[i].key, p[j].key)
    {
      assert p[j] == q[j - 1] && q[j - 1] in q;
      if i > 0 {
        assert p[i] == q[i - 1];
      }
    }
  }

  ghost function Program(t: Txn): (p: seq<Record>)
  {
    PartProgram(t, 0) + PartProgram(t, 1) + PartProgram(t, 2) + PartProgram(t, 3)
  }

  lemma PartIs(t: Txn, part: nat)
    requires part < 4
    ensures IsPart(t, part, PartKeys(t, part), PartProgram(t, part))
  {
    RecordsAre(t, part, PartKeys(t, part));
  }

  ghost predicate IsProgram(t: Txn, p: seq<Record>)
  {
    Staged(p) && forall r :: r in p <==> InTxn(t, r)
  }

  /** Parts in order, each in key order. */
  ghost predicate Staged(p: seq<Record>)
  {
    forall i, j | 0 <= i < j < |p| :: Before(p[i], p[j])
  }

  ghost predicate Before(a: Record, b: Record)
  {
    Part(a) < Part(b) || (Part(a) == Part(b) && Less(a.key, b.key))
  }

  lemma StagedAppend(p: seq<Record>, q: seq<Record>, part: nat)
    requires Staged(p) && forall r | r in p :: Part(r) < part
    requires forall r | r in q :: Part(r) == part
    requires Sorted(q)
    ensures Staged(p + q) && forall r | r in p + q :: Part(r) <= part
  {
    forall i, j | 0 <= i < j < |p + q|
      ensures Before((p + q)[i], (p + q)[j])
    {
      if j < |p| {
        assert Before(p[i], p[j]);
      } else if i < |p| {
        assert p[i] in p && q[j - |p|] in q;
      } else {
        assert q[i - |p|] in q && q[j - |p|] in q;
        assert Less(q[i - |p|].key, q[j - |p|].key);
      }
    }
  }

  /** The program has each pending erase, write, mark and link once, by part and in key order. */
  lemma ProgramIs(t: Txn)
    ensures IsProgram(t, Program(t))
  {
    PartIs(t, 0);
    PartIs(t, 1);
    PartIs(t, 2);
    PartIs(t, 3);
    PartsAssembled(t, PartProgram(t, 0), PartProgram(t, 1), PartProgram(t, 2), PartProgram(t, 3));
  }

  lemma PartsAssembled(t: Txn, p0: seq<Record>, p1: seq<Record>, p2: seq<Record>, p3: seq<Record>)
    requires IsPart(t, 0, t.erased, p0) && IsPart(t, 1, t.writes.Keys, p1)
    requires IsPart(t, 2, t.marks, p2) && IsPart(t, 3, t.links.Keys, p3)
    ensures IsProgram(t, p0 + p1 + p2 + p3)
  {
    StagedAppend([], p0, 0);
    assert [] + p0 == p0;
    StagedAppend(p0, p1, 1);
    StagedAppend(p0 + p1, p2, 2);
    StagedAppend(p0 + p1 + p2, p3, 3);
  }

  /** Erased keys are nothing else in the transaction. */
  predicate Apart(t: Txn)
  {
    t.erased !! t.writes.Keys && t.erased !! t.marks && t.erased !! t.links.Keys
  }

  /** Link targets that the transaction does not set itself are keys of the store. */
  ghost predicate Resolved(s: Store, t: Txn)
  {
    forall k | k in t.links.Values :: k in s.keys || k in t.writes || k in t.marks
  }

  /**
    Before a commit: every erased key is there, in one copy, and every link target is there or about to be.
   */
  ghost predicate Ready(s: Store, t: Txn)
  {
    && s.Valid() && s.Keyed()
    && (forall k | k in t.erased :: k in s.keys && s.Copies(k) == 1)
    && (forall k | k in t.links.Values :: (k in s.keys && k !in t.erased) || k in t.writes || k in t.marks)
  }

  ghost function Commit(s: Store, t: Txn): (r: (Store, bool))
  {
    Exec(s, map[], Program(t))
  }
}
