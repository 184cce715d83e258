/**
  What a committed transaction means for a single key, by the calls that were made in it: the last data
  written, the entry a link takes in the order of the keys' bytes, marks, and keys it does not name.
 */
module CommitMeaning {
  import opened Wrappers
  import opened Store
  import opened KeyOrder
  import opened Transaction
  import opened Phases
  import opened Redo

  // ----- the writes

  /** No record of `ws` about another key than `k` is about a key of sector `id`. */
  ghost predicate Spared(v: Store, ws: seq<Record>, id: nat, k: Key)
  {
    forall i | 0 <= i < |ws| && ws[i].key != k && ws[i].key in v.keys :: v.keys[ws[i].key] != Sector(id)
  }

  lemma SparedForce(v: Store, ws: seq<Record>, id: nat, k: Key, r: Record)
    requires v.Valid() && id < |v.sectors| && Spared(v, ws, id, k) && r.Write? && r in ws && r.key != k
    ensures var v' := v.Force(r.key, r.data);
            && v'.Valid() && id < |v'.sectors| && v'.sectors[id] == v.sectors[id] && Spared(v', ws, id, k)
            && (k in v.keys <==> k in v'.keys) && (k in v.keys ==> v'.keys[k] == v.keys[k])
  {
    var i :| 0 <= i < |ws| && ws[i] == r;
    assert ws[i].key != k;
  }

  /** A sector that no other written key has keeps its record while other keys are written. */
  lemma {:induction false} SparedAll(s: Store, ws: seq<Record>, id: nat, k: Key, m: nat, n: nat)
    requires AllWrites(ws) && m <= n <= |ws| && (forall i | m <= i < n :: ws[i].key != k)
    requires var v := Wrote(s, ws, m); v.Valid() && id < |v.sectors| && Spared(v, ws, id, k)
    ensures var u, v := Wrote(s, ws, m), Wrote(s, ws, n);
            && v.Valid() && id < |v.sectors| && v.sectors[id] == u.sectors[id] && Spared(v, ws, id, k)
            && (k in u.keys <==> k in v.keys) && (k in u.keys ==> v.keys[k] == u.keys[k])
    decreases n - m
  {
    hide Spared, Wrote, Store.Force, Store.Valid;
    if m < n {
      SparedAll(s, ws, id, k, m, n - 1);
      WroteNext(s, ws, n - 1);
      SparedForce(Wrote(s, ws, n - 1), ws, id, k, ws[n - 1]);
    }
  }

  /** The same for a key that is not there, or bare: it has no sector to share. */
  ghost predicate Alone(s: Store, ws: seq<Record>, k: Key)
  {
    s.HasSector(k) ==> Spared(s, ws, s.keys[k].id, k)
  }

  lemma AloneForce(v: Store, ws: seq<Record>, k: Key, r: Record)
    requires v.Valid() && Alone(v, ws, k) && r.Write? && r in ws
    ensures v.Force(r.key, r.data).Valid() && Alone(v.Force(r.key, r.data), ws, k)
  {
    var v' := v.Force(r.key, r.data);
    if r.key != k && v.HasSector(k) {
      SparedForce(v, ws, v.keys[k].id, k, r);
    } else if v'.HasSector(k) {
      forall i | 0 <= i < |ws| && ws[i].key != k && ws[i].key in v'.keys
        ensures v'.keys[ws[i].key] != Sector(v'.keys[k].id)
      {
      }
    }
  }

  lemma {:induction false} AloneAll(s: Store, ws: seq<Record>, k: Key, n: nat)
    requires AllWrites(ws) && s.Valid() && Alone(s, ws, k) && n <= |ws|
    ensures Wrote(s, ws, n).Valid() && Alone(Wrote(s, ws, n), ws, k)
  {
    hide Alone, Wrote, Store.Force, Store.Valid;
    if n == 0 {
      WroteAll(s, ws);
    } else {
      AloneAll(s, ws, k, n - 1);
      WroteNext(s, ws, n - 1);
      AloneForce(Wrote(s, ws, n - 1), ws, k, ws[n - 1]);
    }
  }

  lemma Forced(v: Store, k: Key, d: Bytes)
    requires v.Valid()
    ensures v.Force(k, d).HasSector(k) && v.Force(k, d).Content(k) == d
  {
  }

  /** A key written once, with a sector of its own, has its data after all writes. */
  lemma WrittenData(s: Store, ws: seq<Record>, i: nat)
    requires AllWrites(ws) && Sorted(ws) && s.Valid() && i < |ws| && Alone(s, ws, ws[i].key)
    ensures var v := WriteAll(s, ws); v.Valid() && v.HasSector(ws[i].key) && v.Content(ws[i].key) == ws[i].data
  {
    hide Spared, Wrote, WriteAll, Store.Force, Store.Valid;
    var k := ws[i].key;
    AloneAll(s, ws, k, i + 1);
    AloneAll(s, ws, k, i);
    WroteNext(s, ws, i);
    Forced(Wrote(s, ws, i), k, ws[i].data);
    forall j | i + 1 <= j < |ws|
      ensures ws[j].key != k
    {
      SortedApart(ws, i, j);
    }
    SparedAll(s, ws, Wrote(s, ws, i + 1).keys[k].id, k, i + 1, |ws|);
    WroteAll(s, ws);
  }

  // ----- the links

  /** While `m` is not linked itself it is its own origin, and so it is for the keys linked to it. */
  lemma {:induction false} OriginKept(ls: seq<Record>, n: nat, m: Key)
    requires n <= |ls| && AllLinks(ls) && forall i | 0 <= i < n :: ls[i].key != m
    ensures var x := TraceLinks(ls, n); m !in x.src && (m in x.cache ==> x.cache[m] == m)
  {
    if n > 0 {
      OriginKept(ls, n - 1, m);
    }
  }

  /** A key linked to `m` before `m` is linked takes the entry `m` has when the links begin. */
  lemma SourceEarly(t: Txn, k: Key, m: Key)
    requires k in t.links && t.links[k] == m && (m in t.links ==> m == k || Less(k, m))
    ensures k in Source(t) && Source(t)[k] == m
  {
    hide TraceLinks, Ls, Sorted, NextOrigin, LexLe;
    var ls := Ls(t);
    var i := LinkAt(t, k);
    forall j | 0 <= j < i
      ensures ls[j].key != m
    {
      SortedApart(ls, j, i);
      LessTotal(k, m);
    }
    OriginKept(ls, i, m);
    TraceNext(ls, i);
    TraceFinal(ls, i + 1, |ls|);
    EarlyOrigin(TraceLinks(ls, i), m);
  }

  lemma EarlyOrigin(x: Trace, m: Key)
    requires m !in x.src && (m in x.cache ==> x.cache[m] == m)
    ensures NextOrigin(x, m) == m
  {
  }

  lemma LinkAt(t: Txn, k: Key) returns (i: nat)
    requires k in t.links
    ensures AllLinks(Ls(t)) && Sorted(Ls(t)) && i < |Ls(t)| && Ls(t)[i] == Link(k, t.links[k])
    ensures forall j | 0 <= j < |Ls(t)| :: Ls(t)[j].key in t.links && Ls(t)[j].target == t.links[Ls(t)[j].key]
  {
    PassesAre(t);
    assert Link(k, t.links[k]) in Ls(t);
    i :| 0 <= i < |Ls(t)| && Ls(t)[i] == Link(k, t.links[k]);
    forall j | 0 <= j < |Ls(t)|
      ensures Ls(t)[j].key in t.links && Ls(t)[j].target == t.links[Ls(t)[j].key]
    {
      assert Ls(t)[j] in Ls(t);
    }
  }

  /** A key linked to `m` after `m` is linked, with no earlier key linked to `m`, takes the entry `m` ends with. */
  lemma SourceLate(t: Txn, k: Key, m: Key)
    requires k in t.links && t.links[k] == m && m in t.links && Less(m, k)
    requires forall j | j in t.links && t.links[j] == m :: Less(m, j)
    ensures k in Source(t) && m in Source(t) && Source(t)[k] == Source(t)[m]
  {
    hide TraceLinks, Ls, Sorted, Less, NextOrigin;
    var ls := Ls(t);
    var i := LinkAt(t, k);
    var n := LinkAt(t, m);
    SortedApart(ls, n, i);
    forall j | 0 <= j <= n
      ensures ls[j].target != m
    {
      SortedApart(ls, n, j);
    }
    forall j | n < j < i
      ensures ls[j].key != m
    {
      SortedApart(ls, n, j);
    }
    NotCached(ls, n + 1, m);
    TraceNext(ls, n);
    LateOrigin(ls, n + 1, i, m);
    TraceNext(ls, i);
    TraceFinal(ls, n + 1, |ls|);
    TraceFinal(ls, i + 1, |ls|);
  }

  lemma {:induction false} NotCached(ls: seq<Record>, n: nat, m: Key)
    requires n <= |ls| && AllLinks(ls) && forall i | 0 <= i < n :: ls[i].target != m
    ensures m !in TraceLinks(ls, n).cache
  {
    if n > 0 {
      NotCached(ls, n - 1, m);
    }
  }

  /** Once `m` is linked and not yet cached, it is looked up as linked. */
  lemma {:induction false} LateOrigin(ls: seq<Record>, n: nat, i: nat, m: Key)
    requires n <= i <= |ls| && AllLinks(ls) && m in TraceLinks(ls, n).src && m !in TraceLinks(ls, n).cache
    requires forall j | n <= j < i :: ls[j].key != m
    ensures var o, x := TraceLinks(ls, n).src[m], TraceLinks(ls, i);
            m in x.src && x.src[m] == o && NextOrigin(x, m) == o
    decreases i
  {
    if n < i {
      LateOrigin(ls, n, i - 1, m);
    }
  }

  /** A target once looked up stays what it was for all later links to it. */
  lemma {:induction false} CachedOrigin(ls: seq<Record>, n: nat, i: nat, m: Key)
    requires n <= i <= |ls| && AllLinks(ls) && m in TraceLinks(ls, n).cache
    ensures m in TraceLinks(ls, i).cache && TraceLinks(ls, i).cache[m] == TraceLinks(ls, n).cache[m]
    decreases i
  {
    if n < i {
      CachedOrigin(ls, n, i - 1, m);
    }
  }

  /** Keys linked to one target take the same entry, wherever the target itself is linked. */
  lemma SourceAlike(t: Txn, j: Key, k: Key)
    requires j in t.links && k in t.links && t.links[j] == t.links[k] && Less(j, k)
    ensures j in Source(t) && k in Source(t) && Source(t)[j] == Source(t)[k]
  {
    hide TraceLinks, Ls, Sorted, Less, NextOrigin;
    var ls, m := Ls(t), t.links[k];
    var i := LinkAt(t, k);
    var n := LinkAt(t, j);
    SortedApart(ls, n, i);
    TraceNext(ls, n);
    CachedOrigin(ls, n + 1, i, m);
    TraceNext(ls, i);
    FromCache(TraceLinks(ls, i), m);
    TraceFinal(ls, n + 1, |ls|);
    TraceFinal(ls, i + 1, |ls|);
  }

  lemma FromCache(x: Trace, m: Key)
    requires m in x.cache
    ensures NextOrigin(x, m) == x.cache[m]
  {
  }

  // ----- committed keys, by the calls of the transaction

  ghost predicate Untouched(es: seq<Entry>, k: Key)
  {
    forall e | e in es :: e.key != k
  }

  /** No other key that is written has the sector of `k`. */
  ghost predicate OwnSector(s: Store, es: seq<Entry>, k: Key)
  {
    s.HasSector(k) ==> forall e | e in es && e.WriteEntry? && e.key != k && e.key in s.keys :: s.keys[e.key] != s.keys[k]
  }

  /** A transaction that ends with no key pending erase and finds its link targets. */
  ghost predicate Plain(s: Store, es: seq<Entry>)
  {
    s.Valid() && Called(es).erased == {} && Resolved(s, Called(es))
  }

  lemma OwnAlone(s: Store, es: seq<Entry>, k: Key)
    requires s.Valid() && OwnSector(s, es, k)
    ensures Alone(s, Ws(Called(es)), k)
  {
    var t := Called(es);
    PassesAre(t);
    forall i | 0 <= i < |Ws(t)| && Ws(t)[i].key != k && Ws(t)[i].key in s.keys
      ensures s.HasSector(k) ==> s.keys[Ws(t)[i].key] != Sector(s.keys[k].id)
    {
      assert Ws(t)[i] in Ws(t);
      PendingData(es, Ws(t)[i].key);
      var j: nat :| LastData(es, j, Ws(t)[i].key);
      assert es[j] in es;
    }
  }

  /** The outcome for one key: links over marks over writes. */
  lemma FinalKey(s: Store, t: Txn, k: Key)
    requires t.erased == {} && s.Valid() && Resolved(s, t)
    ensures var f, w, o := Final(s, t), WriteAll(s, Ws(t)), Origin(Source(t), k);
            && Source(t).Keys == t.links.Keys && f.sectors == w.sectors
            && (k in f.keys <==> k in w.keys || k in t.marks || k in t.links)
            && (k in f.keys ==> f.keys[k] == if o in t.marks || o !in w.keys then KeyOnly else w.keys[o])
  {
    FinalIs(s, t);
    SourceKeys(t);
    FinishedDomain(WriteAll(s, Ws(t)).keys, t.marks, Source(t));
    hide Source, WriteAll, Ws, Final, Resolved;
  }

  /** Where the record of a key is before the marks and links. */
  lemma WrittenKey(s: Store, es: seq<Entry>, i: nat, k: Key)
    requires Plain(s, es) && LastData(es, i, k) && OwnSector(s, es, k)
    ensures var w := WriteAll(s, Ws(Called(es))); w.HasSector(k) && w.Content(k) == es[i].data
  {
    var t := Called(es);
    PendingData(es, k);
    OwnAlone(s, es, k);
    PassesAre(t);
    assert Write(k, es[i].data) in Ws(t);
    var n :| 0 <= n < |Ws(t)| && Ws(t)[n] == Write(k, es[i].data);
    hide WriteAll, Ws, Alone, LastData, Called;
    WrittenData(s, Ws(t), n);
  }

  /** A key that is only written has the last data written to it. */
  lemma CommittedData(s: Store, es: seq<Entry>, i: nat, k: Key)
    requires Plain(s, es) && LastData(es, i, k) && OwnSector(s, es, k)
    requires forall e | e in es && e.key == k :: !e.KeyEntry? && !e.IndexEntry?
    ensures var f := Final(s, Called(es)); f.HasSector(k) && f.Content(k) == es[i].data
  {
    WrittenKey(s, es, i, k);
    FinalKey(s, Called(es), k);
    NotPending(es, k);
    hide WriteAll, Ws, Final, LastData, Called, Source;
  }

  lemma NotPending(es: seq<Entry>, k: Key)
    ensures (forall e | e in es && e.key == k :: !e.KeyEntry?) ==> k !in Called(es).marks
    ensures (forall e | e in es && e.key == k :: !e.IndexEntry?) ==> k !in Called(es).links
    ensures (forall e | e in es && e.key == k :: !e.WriteEntry?) ==> k !in Called(es).writes
  {
    PendingData(es, k);
    PendingLink(es, k);
    PendingMark(es, k);
    if i: nat :| LastData(es, i, k) {
      assert es[i] in es;
    }
    if i: nat :| LastTarget(es, i, k) {
      assert es[i] in es;
    }
    if i: nat :| i < |es| && es[i] == KeyEntry(k) && Unerased(es, i, k) {
      assert es[i] in es;
    }
  }

  /** A key that is marked and not linked is a bare key, written or not. */
  lemma CommittedMark(s: Store, es: seq<Entry>, i: nat, k: Key)
    requires Plain(s, es) && i < |es| && es[i] == KeyEntry(k) && Unerased(es, i, k)
    requires forall e | e in es && e.key == k :: !e.IndexEntry?
    ensures var f := Final(s, Called(es)); k in f.keys && f.keys[k] == KeyOnly
  {
    PendingMark(es, k);
    NotPending(es, k);
    FinalKey(s, Called(es), k);
    hide WriteAll, Ws, Final, Called, Source;
  }

  /** `k` comes before `m` in the order of the bytes, or is `m`. */
  ghost predicate First(k: Key, m: Key)
  {
    k <= m || exists i: nat :: SmallerAt(k, m, i)
  }

  /**
    A key linked to a key that is not linked, or linked only later in the order of the bytes: it takes the
    target's entry as the writes and marks leave it.
   */
  lemma CommittedLink(s: Store, es: seq<Entry>, i: nat, k: Key)
    requires Plain(s, es) && LastTarget(es, i, k)
    requires First(k, es[i].target) || forall e | e in es && e.key == es[i].target :: !e.IndexEntry?
    ensures var f, m := Final(s, Called(es)), es[i].target;
            && k in f.keys
            && ((forall e | e in es && e.key == m :: e.IndexEntry?) ==> m in s.keys && f.keys[k] == s.keys[m])
            && ((forall e | e in es && e.key == m :: e.IndexEntry?) && s.HasSector(m) && OwnSector(s, es, m) ==>
                  f.HasSector(k) && f.Content(k) == s.Content(m))
            && ((exists j: nat :: j < |es| && es[j] == KeyEntry(m) && Unerased(es, j, m)) ==> f.keys[k] == KeyOnly)
            && ((forall e | e in es && e.key == m :: !e.KeyEntry?) && OwnSector(s, es, m) ==>
                  forall j: nat | LastData(es, j, m) :: f.HasSector(k) && f.Content(k) == es[j].data)
  {
    var t, m := Called(es), es[i].target;
    PendingLink(es, k);
    PendingLink(es, m);
    NotPending(es, m);
    LexIs(k, m);
    SourceEarly(t, k, m);
    FinalKey(s, t, k);
    PendingMark(es, m);
    hide WriteAll, Ws, Final, Called, Source, LastTarget, LastData;
    forall j: nat | LastData(es, j, m) && OwnSector(s, es, m)
      ensures WriteAll(s, Ws(t)).HasSector(m) && WriteAll(s, Ws(t)).Content(m) == es[j].data
    {
      WrittenKey(s, es, j, m);
    }
    if forall e | e in es && e.key == m :: e.IndexEntry? {
      Unwritten(s, es, m);
      assert t.links[k] in t.links.Values;
      if s.HasSector(m) && OwnSector(s, es, m) {
        KeptRecord(s, es, m);
      }
    }
  }

  /** A key without writes has the entry it had, after all writes. */
  lemma Unwritten(s: Store, es: seq<Entry>, k: Key)
    requires Plain(s, es) && forall e | e in es && e.key == k :: !e.WriteEntry?
    ensures var w := WriteAll(s, Ws(Called(es)));
            w.Valid() && (k in w.keys <==> k in s.keys) && (k in s.keys ==> w.keys[k] == s.keys[k])
  {
    var ws := Ws(Called(es));
    NotPending(es, k);
    PassesAre(Called(es));
    forall i | 0 <= i < |ws|
      ensures ws[i].key != k
    {
      assert ws[i] in ws;
    }
    WroteFrame(s, ws, |ws|);
    WroteAll(s, ws);
  }

  /**
    A key linked to a key that is linked before it, and to which no key is linked earlier, ends with that
    key's entry.
   */
  lemma CommittedLater(s: Store, es: seq<Entry>, i: nat, k: Key)
    requires Plain(s, es) && LastTarget(es, i, k)
    requires var m := es[i].target;
             && m != k && First(m, k) && (exists j: nat :: LastTarget(es, j, m))
             && forall j: nat | j < |es| && es[j].IndexEntry? && es[j].target == m :: es[j].key != m && First(m, es[j].key)
    ensures var f, m := Final(s, Called(es)), es[i].target; k in f.keys && m in f.keys && f.keys[k] == f.keys[m]
  {
    var t, m := Called(es), es[i].target;
    PendingLink(es, k);
    PendingLink(es, m);
    LexIs(m, k);
    forall j | j in t.links && t.links[j] == m
      ensures Less(m, j)
    {
      PendingLink(es, j);
      var n: nat :| LastTarget(es, n, j);
      LexIs(m, j);
    }
    SourceLate(t, k, m);
    FinalKey(s, t, k);
    FinalKey(s, t, m);
    hide WriteAll, Ws, Final, Called, Source, LastTarget;
  }

  /** All keys linked to one target end with one entry, since the first lookup of a target is kept. */
  lemma CommittedAlike(s: Store, es: seq<Entry>, i: nat, j: nat)
    requires Plain(s, es) && i < |es| && j < |es| && LastTarget(es, i, es[i].key) && LastTarget(es, j, es[j].key)
    requires es[i].target == es[j].target
    ensures var f := Final(s, Called(es)); es[i].key in f.keys && es[j].key in f.keys && f.keys[es[i].key] == f.keys[es[j].key]
  {
    var t, x, y := Called(es), es[i].key, es[j].key;
    PendingLink(es, x);
    PendingLink(es, y);
    hide Called, Final, Source, WriteAll, Ws, LastTarget;
    LessTotal(x, y);
    if Less(x, y) {
      SourceAlike(t, x, y);
    } else if Less(y, x) {
      SourceAlike(t, y, x);
    }
    FinalKey(s, t, x);
    FinalKey(s, t, y);
  }

  /** A key the transaction does not name keeps its entry, and its record if no written key has its sector. */
  lemma CommittedOthers(s: Store, es: seq<Entry>, k: Key)
    requires Plain(s, es) && Untouched(es, k)
    ensures var f := Final(s, Called(es));
            && (k in f.keys <==> k in s.keys) && (k in s.keys ==> f.keys[k] == s.keys[k])
            && (OwnSector(s, es, k) && s.HasSector(k) ==> f.HasSector(k) && f.Content(k) == s.Content(k))
  {
    var t := Called(es);
    NotPending(es, k);
    Unwritten(s, es, k);
    FinalKey(s, t, k);
    if OwnSector(s, es, k) && s.HasSector(k) {
      KeptRecord(s, es, k);
    }
    hide WriteAll, Ws, Final, Called, Source;
  }

  lemma KeptRecord(s: Store, es: seq<Entry>, k: Key)
    requires Plain(s, es) && s.HasSector(k) && OwnSector(s, es, k) && forall e | e in es && e.key == k :: !e.WriteEntry?
    ensures var w := WriteAll(s, Ws(Called(es))); w.HasSector(k) && w.Content(k) == s.Content(k)
  {
    var ws := Ws(Called(es));
    OwnAlone(s, es, k);
    NotPending(es, k);
    PassesAre(Called(es));
    forall i | 0 <= i < |ws|
      ensures ws[i].key != k
    {
      assert ws[i] in ws;
    }
    WroteAll(s, ws);
    hide Wrote, WriteAll, Spared, Ws;
    SparedAll(s, ws, s.keys[k].id, k, 0, |ws|);
  }
}
