/**
  Redo is sound for every transaction that is `Redoable`: a commit that was cut short at any
  point, any number of times, ends as one uninterrupted commit would have.
 */
module RedoSoundness {
  import opened Wrappers
  import opened Store
  import opened KeyOrder
  import opened Transaction
  import opened Phases
  import opened Redo

  // ----- redo after a write in place: only the sector that will be rewritten differs

  ghost predicate SameBut(a: Store, b: Store, id: nat)
  {
    && a.keys == b.keys && a.chains == b.chains && a.bucket == b.bucket && |a.sectors| == |b.sectors|
    && (id < |a.sectors| ==> |a.sectors[id]| == |b.sectors[id]|)
    && forall i | 0 <= i < |a.sectors| && i != id :: a.sectors[i] == b.sectors[i]
  }

  lemma SameButForce(a: Store, b: Store, id: nat, k: Key, d: Bytes)
    requires SameBut(a, b, id)
    ensures SameBut(a.Force(k, d), b.Force(k, d), id)
    ensures a.Fits(k, d) && a.keys[k] == Sector(id) ==> a.Force(k, d) == b.Force(k, d)
  {
    var a', b' := a.Force(k, d), b.Force(k, d);
    assert a.Fits(k, d) <==> b.Fits(k, d);
    if a.Fits(k, d) && a.keys[k] == Sector(id) {
      assert a'.sectors == b'.sectors;
    }
  }

  /** Before key `k` is rewritten in its sector `id`. */
  ghost predicate Ahead(a: Store, b: Store, k: Key, d: Bytes, id: nat)
  {
    SameBut(a, b, id) && a.Fits(k, d) && a.keys[k] == Sector(id)
  }

  lemma AheadNext(a: Store, b: Store, k: Key, d: Bytes, id: nat, j: Key, e: Bytes)
    requires Ahead(a, b, k, d, id) && j != k
    ensures Ahead(a.Force(j, e), b.Force(j, e), k, d, id)
  {
    SameButForce(a, b, id, j, e);
    hide SameBut, Store.PutKey;
  }

  lemma {:induction false} InPlace(a: Store, b: Store, ws: seq<Record>, i: nat, id: nat, n: nat)
    requires AllWrites(ws) && Sorted(ws) && i < |ws| && n <= |ws|
    requires Ahead(a, b, ws[i].key, ws[i].data, id)
    ensures n <= i ==> Ahead(Wrote(a, ws, n), Wrote(b, ws, n), ws[i].key, ws[i].data, id)
    ensures n > i ==> Agree(Wrote(a, ws, n), Wrote(b, ws, n))
  {
    hide *;
    WriteAt(ws, i);
    if n == 0 {
      WroteAll(a, ws);
      WroteAll(b, ws);
    } else {
      WriteAt(ws, n - 1);
      InPlace(a, b, ws, i, id, n - 1);
      WroteNext(a, ws, n - 1);
      WroteNext(b, ws, n - 1);
      SortedApart(ws, i, n - 1);
      var v, v' := Wrote(a, ws, n - 1), Wrote(b, ws, n - 1);
      if n - 1 < i {
        AheadNext(v, v', ws[i].key, ws[i].data, id, ws[n - 1].key, ws[n - 1].data);
      } else if n - 1 == i {
        AheadNow(v, v', ws[i].key, ws[i].data, id);
      } else {
        AgreeForce(v, v', ws[n - 1].key, ws[n - 1].data);
      }
    }
  }

  /** Equality of stores, named so that a proof can keep it closed. */
  ghost predicate Agree(a: Store, b: Store)
  {
    a == b
  }

  lemma AgreeForce(a: Store, b: Store, k: Key, d: Bytes)
    requires Agree(a, b)
    ensures Agree(a.Force(k, d), b.Force(k, d))
  {
  }

  lemma AheadNow(a: Store, b: Store, k: Key, d: Bytes, id: nat)
    requires Ahead(a, b, k, d, id)
    ensures Agree(a.Force(k, d), b.Force(k, d))
  {
    SameButForce(a, b, id, k, d);
  }

  // ----- redo after an append: the key already has a private sector of the right size

  ghost predicate Appended(a: Store, b: Store, k: Key, d: Bytes)
  {
    && Sim(a, b, {k})
    && !a.Fits(k, d)
    && b.Fits(k, d)
    && forall x | x in b.keys && x != k :: b.keys[x] != b.keys[k]
  }

  lemma AppendedOther(a: Store, b: Store, k: Key, d: Bytes, j: Key, e: Bytes)
    requires Appended(a, b, k, d) && j != k
    ensures Appended(a.Force(j, e), b.Force(j, e), k, d)
  {
    SimForce(a, b, {k}, j, e);
    assert j in a.keys ==> SameRecord(a, b, j);
    assert b.Fits(j, e) ==> b.keys[j] != b.keys[k];
    AppendedPrivate(b, k, d, j, e);
    AppendedPoor(a, k, d, j, e);
    hide Sim, Store.Force;
  }

  lemma AppendedPrivate(b: Store, k: Key, d: Bytes, j: Key, e: Bytes)
    requires b.Valid() && b.Fits(k, d) && (forall x | x in b.keys && x != k :: b.keys[x] != b.keys[k]) && j != k
    ensures var b' := b.Force(j, e);
            b'.Fits(k, d) && forall x | x in b'.keys && x != k :: b'.keys[x] != b'.keys[k]
  {
  }

  lemma AppendedPoor(a: Store, k: Key, d: Bytes, j: Key, e: Bytes)
    requires a.Valid() && !a.Fits(k, d) && j != k
    ensures !a.Force(j, e).Fits(k, d)
  {
  }

  lemma AppendedSame(a: Store, b: Store, k: Key, d: Bytes)
    requires Appended(a, b, k, d)
    ensures Equiv(a.Force(k, d), b.Force(k, d))
  {
    var a', b' := a.Force(k, d), b.Force(k, d);
    forall x | x in a'.keys
      ensures SameRecord(a', b', x)
    {
      assert x != k ==> SameRecord(a, b, x);
    }
    forall x, y | x in a'.keys && y in a'.keys
      ensures SameSharing(a', b', x, y)
    {
      assert x != k ==> SameRecord(a, b, x);
      assert y != k ==> SameRecord(a, b, y);
      if x != k && y != k {
        assert SameSharing(a, b, x, y);
      }
    }
  }

  lemma {:induction false} AppendedUntil(a: Store, b: Store, ws: seq<Record>, i: nat, n: nat)
    requires AllWrites(ws) && Sorted(ws) && n <= i < |ws|
    requires Appended(a, b, ws[i].key, ws[i].data)
    ensures Appended(Wrote(a, ws, n), Wrote(b, ws, n), ws[i].key, ws[i].data)
  {
    hide *;
    WriteAt(ws, i);
    if n == 0 {
      WroteAll(a, ws);
      WroteAll(b, ws);
    } else {
      WriteAt(ws, n - 1);
      AppendedUntil(a, b, ws, i, n - 1);
      WroteNext(a, ws, n - 1);
      WroteNext(b, ws, n - 1);
      SortedApart(ws, i, n - 1);
      AppendedOther(Wrote(a, ws, n - 1), Wrote(b, ws, n - 1), ws[i].key, ws[i].data, ws[n - 1].key, ws[n - 1].data);
    }
  }

  lemma {:induction false} AppendedRun(a: Store, b: Store, ws: seq<Record>, i: nat, n: nat)
    requires AllWrites(ws) && Sorted(ws) && i < n <= |ws|
    requires Appended(a, b, ws[i].key, ws[i].data)
    ensures Equiv(Wrote(a, ws, n), Wrote(b, ws, n))
  {
    hide *;
    WriteAt(ws, n - 1);
    WroteNext(a, ws, n - 1);
    WroteNext(b, ws, n - 1);
    if n - 1 == i {
      AppendedUntil(a, b, ws, i, i);
      AppendedSame(Wrote(a, ws, i), Wrote(b, ws, i), ws[i].key, ws[i].data);
    } else {
      AppendedRun(a, b, ws, i, n - 1);
      EquivForce(Wrote(a, ws, n - 1), Wrote(b, ws, n - 1), ws[n - 1].key, ws[n - 1].data);
    }
  }

  lemma {:induction false} SimWrites(a: Store, b: Store, ws: seq<Record>, n: nat)
    requires AllWrites(ws) && n <= |ws| && Equiv(a, b)
    ensures Equiv(Wrote(a, ws, n), Wrote(b, ws, n))
  {
    hide *;
    if n == 0 {
      WroteAll(a, ws);
      WroteAll(b, ws);
    } else {
      SimWrites(a, b, ws, n - 1);
      WriteAt(ws, n - 1);
      WroteNext(a, ws, n - 1);
      WroteNext(b, ws, n - 1);
      EquivForce(Wrote(a, ws, n - 1), Wrote(b, ws, n - 1), ws[n - 1].key, ws[n - 1].data);
    }
  }

  // ----- redo of the writes after one of them, at any time

  lemma WriteRedo(u: Store, u': Store, ws: seq<Record>, i: nat)
    requires AllWrites(ws) && Sorted(ws) && i < |ws| && u.Valid()
    requires u' == u.Force(ws[i].key, ws[i].data) || Torn(u, ws[i], u')
    ensures u'.Valid() && Equiv(WriteAll(u', ws), WriteAll(u, ws))
  {
    var k, d := ws[i].key, ws[i].data;
    WroteAll(u, ws);
    WroteAll(u', ws);
    if u.Fits(k, d) {
      InPlaceNow(u, u', ws[i]);
      InPlace(u, u', ws, i, u.keys[k].id, |ws|);
      WroteFrame(u, ws, |ws|);
      EquivRefl(WriteAll(u, ws));
    } else {
      hide Wrote, WriteAll, Sorted;
      if u' == u.Force(k, d) {
        AppendedNow(u, k, d);
        AppendedRun(u, u', ws, i, |ws|);
      } else {
        GarbageSector(u, u');
        SimWrites(u, u', ws, |ws|);
      }
      EquivSym(WriteAll(u, ws), WriteAll(u', ws));
    }
  }

  lemma InPlaceNow(u: Store, u': Store, r: Record)
    requires r.Write? && u.Valid() && u.Fits(r.key, r.data) && (u' == u.Force(r.key, r.data) || Torn(u, r, u'))
    ensures u'.Valid() && Ahead(u, u', r.key, r.data, u.keys[r.key].id)
  {
  }

  lemma AppendedNow(s: Store, k: Key, d: Bytes)
    requires s.Valid() && !s.Fits(k, d)
    ensures Appended(s, s.Force(k, d), k, d)
  {
  }

  lemma GarbageSector(s: Store, s': Store)
    requires s.Valid() && s'.keys == s.keys && s.sectors <= s'.sectors
    ensures Equiv(s, s')
  {
  }



  /** Redo of the writes after the first `n` of them. */
  lemma {:induction false} WritesRedo(s: Store, ws: seq<Record>, n: nat)
    requires AllWrites(ws) && Sorted(ws) && n <= |ws| && s.Valid()
    ensures Wrote(s, ws, n).Valid() && Equiv(WriteAll(Wrote(s, ws, n), ws), WriteAll(s, ws))
  {
    hide *;
    if n == 0 {
      WroteAll(s, ws);
      WrittenValid(s, ws, |ws|);
      EquivRefl(WriteAll(s, ws));
    } else {
      WriteAt(ws, n - 1);
      WritesRedo(s, ws, n - 1);
      WroteNext(s, ws, n - 1);
      WriteRedo(Wrote(s, ws, n - 1), Wrote(s, ws, n), ws, n - 1);
      EquivTrans(WriteAll(Wrote(s, ws, n), ws), WriteAll(Wrote(s, ws, n - 1), ws), WriteAll(s, ws));
    }
  }

  // ----- who wrote a sector last

  /** A later written key in the same sector. */
  ghost predicate Later(t: Txn, v: Store, a: Key, b: Key)
  {
    b in t.writes && Less(a, b) && RefOf(v, b) == RefOf(v, a) && v.Fits(b, t.writes[b])
  }

  ghost predicate LastWriter(t: Txn, v: Store, a: Key)
  {
    a in t.writes && v.Fits(a, t.writes[a]) && forall b :: !Later(t, v, a, b)
  }

  /** The last written key of each sector has its data there. */
  ghost predicate Honest(t: Txn, v: Store)
  {
    forall a | LastWriter(t, v, a) :: v.Content(a) == t.writes[a]
  }

  ghost predicate Settled(t: Txn, v: Store)
  {
    forall a | a in t.writes :: v.Fits(a, t.writes[a])
  }

  lemma SettledWrites(s: Store, t: Txn)
    requires s.Valid()
    ensures var w := WriteAll(s, Ws(t)); w.Valid() && Settled(t, w) && Honest(t, w)
  {
    var ws := Ws(t);
    var w := WriteAll(s, ws);
    PassesAre(t);
    Written(s, ws, |ws|);
    WroteAll(s, ws);
    forall a | a in t.writes
      ensures w.Fits(a, t.writes[a])
    {
      var i := WriteIndex(t, a);
      assert WrittenAt(w, ws, i, |ws|);
    }
    forall a | LastWriter(t, w, a)
      ensures w.Content(a) == t.writes[a]
    {
      var i := WriteIndex(t, a);
      assert WrittenAt(w, ws, i, |ws|);
      forall j | i < j < |ws|
        ensures RefOf(w, ws[j].key) != RefOf(w, ws[i].key)
      {
        SortedApart(ws, i, j);
        assert ws[j] in ws;
        assert !Later(t, w, a, ws[j].key);
      }
    }
  }

  lemma WriteIndex(t: Txn, a: Key) returns (i: nat)
    requires a in t.writes
    ensures i < |Ws(t)| && Ws(t)[i] == Write(a, t.writes[a])
  {
    PassesAre(t);
    assert Write(a, t.writes[a]) in Ws(t);
    i :| 0 <= i < |Ws(t)| && Ws(t)[i] == Write(a, t.writes[a]);
  }

  ghost function Laters(t: Txn, v: Store, a: Key): (s: set<Key>)
  {
    set b | b in t.writes && Later(t, v, a, b)
  }

  lemma {:induction false} LastExists(t: Txn, v: Store, a: Key) returns (m: Key)
    requires a in t.writes && v.Fits(a, t.writes[a])
    ensures LastWriter(t, v, m) && (m == a || Later(t, v, a, m))
    decreases |Laters(t, v, a)|
  {
    if b :| Later(t, v, a, b) {
      forall c | c in Laters(t, v, b)
        ensures c in Laters(t, v, a) - {b}
      {
        LessTrans(a, b, c);
      }
      Smaller(Laters(t, v, b), Laters(t, v, a), b);
      m := LastExists(t, v, b);
      if m != b {
        LessTrans(a, b, m);
      }
    } else {
      m := a;
    }
  }

  lemma Smaller(x: set<Key>, y: set<Key>, b: Key)
    requires x <= y - {b} && b in y
    ensures |x| < |y|
  {
    SubsetSize(x, y - {b});
  }

  lemma {:induction false} SubsetSize(x: set<Key>, y: set<Key>)
    requires x <= y
    ensures |x| <= |y|
  {
    if x != {} {
      var k :| k in x;
      SubsetSize(x - {k}, y - {k});
    }
  }

  // ----- in the middle of the marks and links

  /** A key neither marked nor moved so far. */
  ghost predicate Plain(marks: set<Key>, src: map<Key, Key>, a: Key)
  {
    a !in marks && (a in src ==> src[a] == a)
  }

  lemma PlainRef(w: Store, marks: set<Key>, src: map<Key, Key>, u: Store, a: Key)
    requires MidwayAt(w, marks, src, u) && Plain(marks, src, a) && a in w.keys
    ensures RefOf(u, a) == RefOf(w, a) && a in u.keys
  {
  }

  lemma PlainFits(t: Txn, w: Store, marks: set<Key>, src: map<Key, Key>, u: Store, a: Key)
    requires MidwayAt(w, marks, src, u) && Plain(marks, src, a) && Settled(t, w) && a in t.writes
    ensures RefOf(u, a) == RefOf(w, a) && u.Fits(a, t.writes[a])
  {
    PlainRef(w, marks, src, u, a);
  }

  /** A later key that left the sector had the same data. */
  lemma PlainHonest(t: Txn, w: Store, marks: set<Key>, src: map<Key, Key>, u: Store, a: Key)
    requires Redoable(t) && Settled(t, w) && Honest(t, w) && Midway(t, w, marks, src, u)
    requires LastWriter(t, u, a) && Plain(marks, src, a)
    ensures u.Content(a) == t.writes[a]
  {
    PlainFits(t, w, marks, src, u, a);
    var m := LastExists(t, w, a);
    assert w.Content(m) == t.writes[m];
    if m != a && t.writes[m] != t.writes[a] {
      assert Overwrites(t, a, m);
      SourceKeys(t);
      assert Plain(marks, src, m);
      PlainFits(t, w, marks, src, u, m);
      assert Later(t, u, a, m);
      assert false;
    }
  }

  /** A moved key that writes to its new sector finds its own data there, or is overwritten again. */
  lemma MovedHonest(t: Txn, w: Store, marks: set<Key>, src: map<Key, Key>, u: Store, a: Key)
    requires Redoable(t) && w.Valid() && Settled(t, w) && Honest(t, w) && Midway(t, w, marks, src, u)
    requires LastWriter(t, u, a) && a in src && src[a] != a
    ensures u.Content(a) == t.writes[a]
  {
    var r := src[a];
    assert Moved(t, a) && r == Source(t)[a] && marks == t.marks;
    assert u.keys[a] == MarkedRef(w.keys, marks, r);
    assert r !in t.marks && r in w.keys;
    assert !Moved(t, r);
    assert Plain(marks, src, r);
    PlainRef(w, marks, src, u, r);
    if r in t.writes {
      PlainFits(t, w, marks, src, u, r);
      MovedOnto(t, w, src, u, a, r);
    }
  }

  lemma MovedOnto(t: Txn, w: Store, src: map<Key, Key>, u: Store, a: Key, r: Key)
    requires Redoable(t) && Settled(t, w) && Honest(t, w) && Midway(t, w, t.marks, src, u)
    requires LastWriter(t, u, a) && Moved(t, a) && r == Source(t)[a] && r !in t.marks && !Moved(t, r)
    requires r in t.writes && RefOf(u, r) == RefOf(u, a) == RefOf(w, r) && u.Fits(r, t.writes[r])
    ensures u.Content(a) == t.writes[a]
  {
    LessTotal(a, r);
    assert !Later(t, u, a, r);
    assert Less(r, a) && !Overwrites(t, r, a);
    var m := LastExists(t, w, r);
    assert w.Content(m) == t.writes[m];
    if t.writes[m] != t.writes[a] {
      assert Overwrites(t, r, m);
      assert m !in t.marks && !Moved(t, m);
      assert Plain(t.marks, src, m);
      PlainFits(t, w, t.marks, src, u, m);
      LessTotal(a, m);
      assert !Later(t, u, a, m);
      assert Overwrites(t, m, a);
      assert false;
    }
  }

  lemma MidHonest(t: Txn, w: Store, marks: set<Key>, src: map<Key, Key>, u: Store)
    requires Redoable(t) && w.Valid() && Settled(t, w) && Honest(t, w) && Midway(t, w, marks, src, u)
    ensures Honest(t, u)
    ensures forall a | a in t.writes && !u.Fits(a, t.writes[a]) :: a in t.marks || Moved(t, a)
  {
    forall a | LastWriter(t, u, a)
      ensures u.Content(a) == t.writes[a]
    {
      if Plain(marks, src, a) {
        PlainHonest(t, w, marks, src, u, a);
      } else {
        NotMarked(t, w, marks, src, u, a);
        MovedHonest(t, w, marks, src, u, a);
      }
    }
    forall a | a in t.writes && !u.Fits(a, t.writes[a])
      ensures a in t.marks || Moved(t, a)
    {
      if Plain(marks, src, a) {
        PlainFits(t, w, marks, src, u, a);
      }
    }
  }

  lemma NotMarked(t: Txn, w: Store, marks: set<Key>, src: map<Key, Key>, u: Store, a: Key)
    requires Midway(t, w, marks, src, u) && u.HasSector(a) && !Plain(marks, src, a)
    ensures a in src && src[a] != a
  {
  }

  // ----- the writes again, from the middle of the marks and links

  /** Some record from `n` on is still to be written to sector `id`. */
  ghost predicate Pending(u: Store, ws: seq<Record>, n: nat, id: nat)
    requires AllWrites(ws)
  {
    exists j :: n <= j < |ws| && u.Fits(ws[j].key, ws[j].data) && u.keys[ws[j].key] == Sector(id)
  }

  /** Every sector is as it was, or will be written again; keys that fit stay where they are. */
  ghost predicate Restoring(u: Store, v: Store, ws: seq<Record>, n: nat)
    requires AllWrites(ws)
  {
    && v.Valid() && |v.sectors| >= |u.sectors|
    && (forall id | 0 <= id < |u.sectors| :: |v.sectors[id]| == |u.sectors[id]|)
    && (forall id | 0 <= id < |u.sectors| :: v.sectors[id] == u.sectors[id] || Pending(u, ws, n, id))
    && KeysStay(u, v, ws, n)
  }

  /** Only records that did not fit have moved. */
  ghost predicate KeysStay(u: Store, v: Store, ws: seq<Record>, n: nat)
    requires AllWrites(ws)
  {
    forall k | k in u.keys || k in v.keys ::
      || (k in u.keys && k in v.keys && u.keys[k] == v.keys[k])
      || (exists i :: 0 <= i < n && i < |ws| && ws[i].key == k && !u.Fits(k, ws[i].data))
  }

  /** A record that fits either holds its data already or is followed by another in its sector. */
  ghost predicate Idle(u: Store, ws: seq<Record>, i: nat)
    requires AllWrites(ws) && i < |ws|
  {
    u.Fits(ws[i].key, ws[i].data) ==>
      u.Content(ws[i].key) == ws[i].data || Pending(u, ws, i + 1, u.keys[ws[i].key].id)
  }

  lemma RestoreStep(u: Store, v: Store, ws: seq<Record>, n: nat)
    requires AllWrites(ws) && Sorted(ws) && n < |ws| && u.Valid() && Idle(u, ws, n) && Restoring(u, v, ws, n)
    ensures Restoring(u, v.Force(ws[n].key, ws[n].data), ws, n + 1)
  {
    hide Pending, KeysStay, Sorted, AllWrites;
    WriteAt(ws, n);
    var k, d := ws[n].key, ws[n].data;
    var v' := v.Force(k, d);
    KeyNotYet(u, v, ws, n);
    assert v.Fits(k, d) <==> u.Fits(k, d);
    StayNext(u, v, v', ws, n);
    forall x | 0 <= x < |u.sectors|
      ensures v'.sectors[x] == u.sectors[x] || Pending(u, ws, n + 1, x)
    {
      if !(u.Fits(k, d) && u.keys[k] == Sector(x)) && Pending(u, ws, n, x) {
        PendingNext(u, ws, n, x);
      }
    }
  }

  lemma KeyNotYet(u: Store, v: Store, ws: seq<Record>, n: nat)
    requires AllWrites(ws) && Sorted(ws) && n < |ws| && KeysStay(u, v, ws, n)
    ensures var k := ws[n].key; RefOf(u, k) == RefOf(v, k) && (k in u.keys <==> k in v.keys)
  {
    forall i | 0 <= i < n
      ensures ws[i].key != ws[n].key
    {
      SortedApart(ws, i, n);
    }
  }

  lemma PendingNext(u: Store, ws: seq<Record>, n: nat, id: nat)
    requires AllWrites(ws) && n < |ws| && Pending(u, ws, n, id)
    requires !(u.Fits(ws[n].key, ws[n].data) && u.keys[ws[n].key] == Sector(id))
    ensures Pending(u, ws, n + 1, id)
  {
  }

  lemma StayNext(u: Store, v: Store, v': Store, ws: seq<Record>, n: nat)
    requires AllWrites(ws) && n < |ws| && KeysStay(u, v, ws, n)
    requires v'.keys == if u.Fits(ws[n].key, ws[n].data) then v.keys else v.keys[ws[n].key := RefOf(v', ws[n].key)]
    ensures KeysStay(u, v', ws, n + 1)
  {
    forall k | k in u.keys || k in v'.keys
      ensures (k in u.keys && k in v'.keys && u.keys[k] == v'.keys[k])
           || (exists i :: 0 <= i < n + 1 && i < |ws| && ws[i].key == k && !u.Fits(k, ws[i].data))
    {
      if k == ws[n].key && !u.Fits(k, ws[n].data) {
      } else {
        assert k in v.keys <==> k in v'.keys;
      }
    }
  }

  lemma {:induction false} Restore(u: Store, ws: seq<Record>, n: nat)
    requires AllWrites(ws) && Sorted(ws) && n <= |ws| && u.Valid()
    requires forall i | 0 <= i < |ws| :: Idle(u, ws, i)
    ensures Restoring(u, Wrote(u, ws, n), ws, n)
  {
    if n == 0 {
      WroteAll(u, ws);
    } else {
      Restore(u, ws, n - 1);
      WroteNext(u, ws, n - 1);
      RestoreStep(u, Wrote(u, ws, n - 1), ws, n - 1);
    }
  }

  lemma HonestIdle(t: Txn, u: Store, i: nat)
    requires u.Valid() && Honest(t, u) && i < |Ws(t)|
    ensures Idle(u, Ws(t), i)
  {
    var ws := Ws(t);
    PassesAre(t);
    var a := ws[i].key;
    assert ws[i] in ws;
    if u.Fits(a, ws[i].data) && u.Content(a) != ws[i].data {
      assert !LastWriter(t, u, a);
      var b :| Later(t, u, a, b);
      var j := WriteIndex(t, b);
      SortedApart(ws, i, j);
      assert Pending(u, ws, i + 1, u.keys[a].id);
    }
  }

  /** The keys a commit sets after the writes. */
  ghost predicate Reset(t: Txn, k: Key)
  {
    k in t.marks || Moved(t, k)
  }

  ghost function Resets(t: Txn): (s: set<Key>)
    ensures forall k :: k in s <==> Reset(t, k)
  {
    t.marks + set k | k in Source(t) && Moved(t, k)
  }

  /** Writing everything again shows in no key but those that are set again afterwards. */
  lemma Rewritten(t: Txn, u: Store)
    requires u.Valid() && Honest(t, u)
    requires forall a | a in t.writes && !u.Fits(a, t.writes[a]) :: Reset(t, a)
    ensures Sim(u, WriteAll(u, Ws(t)), Resets(t))
  {
    var ws := Ws(t);
    PassesAre(t);
    forall i | 0 <= i < |ws|
      ensures Idle(u, ws, i)
    {
      HonestIdle(t, u, i);
    }
    Restore(u, ws, |ws|);
    WroteAll(u, ws);
    var v := WriteAll(u, ws);
    forall k | k !in Resets(t) && (k in u.keys || k in v.keys)
      ensures k in u.keys && k in v.keys && u.keys[k] == v.keys[k]
    {
      forall i | 0 <= i < |ws| && ws[i].key == k
        ensures u.Fits(k, ws[i].data)
      {
        assert ws[i] in ws;
      }
    }
    RestoredSim(u, v, ws, Resets(t));
  }

  lemma RestoredSim(u: Store, v: Store, ws: seq<Record>, dirty: set<Key>)
    requires AllWrites(ws) && u.Valid() && Restoring(u, v, ws, |ws|)
    requires forall k | k !in dirty && (k in u.keys || k in v.keys) :: k in u.keys && k in v.keys && u.keys[k] == v.keys[k]
    ensures Sim(u, v, dirty)
  {
    forall id | 0 <= id < |u.sectors|
      ensures v.sectors[id] == u.sectors[id]
    {
      assert !Pending(u, ws, |ws|, id);
    }
  }

  // ----- marks and links do not see what they set

  ghost function Finish(u: Store, t: Txn): (f: Store)
    ensures u.Valid() ==> f.Valid()
  {
    Store(Finished(u.keys, t.marks, Source(t)), u.sectors, map[], u.bucket)
  }

  /** The key an entry is taken from is marked, or not set again. */
  lemma OriginClean(t: Txn, k: Key)
    requires LinksStable(t) && (k in Source(t) || k !in Resets(t) || k in t.marks)
    ensures var o := Origin(Source(t), k); o in t.marks || o !in Resets(t)
  {
  }

  lemma FinishSim(t: Txn, a: Store, b: Store)
    requires LinksStable(t) && Sim(a, b, Resets(t))
    ensures Equiv(Finish(a, t), Finish(b, t))
  {
    var fa, fb, src := Finish(a, t), Finish(b, t), Source(t);
    FinishDomain(t, a, b);
    hide Sim, Resets, LinksStable, Origin, MarkedRef;
    forall k | k in fa.keys
      ensures SameRecord(fa, fb, k)
    {
      OriginClean(t, k);
      OriginRecord(t, a, b, Origin(src, k));
    }
    forall j, k | j in fa.keys && k in fa.keys
      ensures SameSharing(fa, fb, j, k)
    {
      OriginClean(t, j);
      OriginClean(t, k);
      OriginSharing(t, a, b, Origin(src, j), Origin(src, k));
    }
    EquivFrom(fa, fb);
  }

  lemma FinishDomain(t: Txn, a: Store, b: Store)
    requires Sim(a, b, Resets(t))
    ensures Finish(a, t).keys.Keys == Finish(b, t).keys.Keys && Finish(a, t).Valid() && Finish(b, t).Valid()
    ensures forall k | k in Resets(t) :: k in t.marks || k in Source(t)
  {
  }

  lemma OriginRecord(t: Txn, a: Store, b: Store, o: Key)
    requires Sim(a, b, Resets(t)) && (o in t.marks || o !in Resets(t))
    ensures var ra, rb := MarkedRef(a.keys, t.marks, o), MarkedRef(b.keys, t.marks, o);
            && (ra.Sector? <==> rb.Sector?)
            && (ra.Sector? ==> ra.id < |a.sectors| && rb.id < |b.sectors| && a.sectors[ra.id] == b.sectors[rb.id])
  {
    if o !in t.marks && o in a.keys {
      assert SameRecord(a, b, o);
    }
  }

  lemma OriginSharing(t: Txn, a: Store, b: Store, o: Key, o': Key)
    requires Sim(a, b, Resets(t)) && (o in t.marks || o !in Resets(t)) && (o' in t.marks || o' !in Resets(t))
    ensures MarkedRef(a.keys, t.marks, o) == MarkedRef(a.keys, t.marks, o')
       <==> MarkedRef(b.keys, t.marks, o) == MarkedRef(b.keys, t.marks, o')
  {
    OriginRecord(t, a, b, o);
    OriginRecord(t, a, b, o');
    if o !in t.marks && o in a.keys && o' !in t.marks && o' in a.keys {
      assert SameSharing(a, b, o, o');
    }
  }

  lemma EquivFrom(a: Store, b: Store)
    requires a.Valid() && b.Valid() && a.keys.Keys == b.keys.Keys
    requires forall k | k in a.keys :: SameRecord(a, b, k)
    requires forall j, k | j in a.keys && k in a.keys :: SameSharing(a, b, j, k)
    ensures Equiv(a, b)
  {
  }

  // ----- the redo theorem

  /** Equivalence looks at keys and sectors only. */
  lemma SameView(a: Store, a': Store, b: Store, b': Store)
    requires a.keys == a'.keys && a.sectors == a'.sectors && b.keys == b'.keys && b.sectors == b'.sectors
    requires Equiv(a, b)
    ensures Equiv(a', b')
  {
    forall k | k in a'.keys
      ensures SameRecord(a', b', k)
    {
      assert SameRecord(a, b, k);
    }
    forall j, k | j in a'.keys && k in a'.keys
      ensures SameSharing(a', b', j, k)
    {
      assert SameSharing(a, b, j, k);
    }
  }

  lemma FinalFinish(s: Store, t: Txn)
    requires t.erased == {} && s.Valid() && Resolved(s, t)
    ensures var f, g := Final(s, t), Finish(WriteAll(s, Ws(t)), t); f.keys == g.keys && f.sectors == g.sectors
  {
    FinalIs(s, t);
  }

  /** Two stores whose rewritten forms agree outside the keys set afterwards have the same outcome. */
  lemma SameFinal(a: Store, b: Store, t: Txn)
    requires Redoable(t) && a.Valid() && b.Valid() && Resolved(a, t) && Resolved(b, t)
    requires Sim(WriteAll(a, Ws(t)), WriteAll(b, Ws(t)), Resets(t))
    ensures Equiv(Final(a, t), Final(b, t))
  {
    var wa, wb := WriteAll(a, Ws(t)), WriteAll(b, Ws(t));
    FinishSim(t, wa, wb);
    FinalFinish(a, t);
    FinalFinish(b, t);
    SameView(Finish(wa, t), Final(a, t), Finish(wb, t), Final(b, t));
  }

  lemma SimTrans(a: Store, b: Store, c: Store, dirty: set<Key>)
    requires Sim(a, b, dirty) && Sim(b, c, dirty)
    ensures Sim(a, c, dirty)
  {
    forall k | k !in dirty && k in a.keys
      ensures SameRecord(a, c, k)
    {
      assert SameRecord(a, b, k) && SameRecord(b, c, k);
    }
    forall j, k | j !in dirty && k !in dirty && j in a.keys && k in a.keys
      ensures SameSharing(a, c, j, k)
    {
      assert SameSharing(a, b, j, k) && SameSharing(b, c, j, k);
    }
  }

  lemma SimSym(a: Store, b: Store, dirty: set<Key>)
    requires Sim(a, b, dirty)
    ensures Sim(b, a, dirty)
  {
    forall k | k !in dirty && k in b.keys
      ensures SameRecord(b, a, k)
    {
      assert SameRecord(a, b, k);
    }
    forall j, k | j !in dirty && k !in dirty && j in b.keys && k in b.keys
      ensures SameSharing(b, a, j, k)
    {
      assert SameSharing(a, b, j, k);
    }
  }

  lemma EquivSim(a: Store, b: Store, dirty: set<Key>)
    requires Equiv(a, b)
    ensures Sim(a, b, dirty)
  {
    assert forall k | k in a.keys :: SameRecord(a, b, k);
    assert forall j, k | j in a.keys && k in a.keys :: SameSharing(a, b, j, k);
  }

  /** Marks and links show in no key but those they set. */
  lemma MidSim(t: Txn, w: Store, marks: set<Key>, src: map<Key, Key>, u: Store)
    requires w.Valid() && Midway(t, w, marks, src, u) && u.Valid() && Settled(t, w)
    requires forall k | k in src :: src[k] in w.keys || src[k] in t.marks
    ensures Sim(w, u, Resets(t))
  {
    forall k | k !in Resets(t)
      ensures k in w.keys <==> k in u.keys
      ensures k in w.keys ==> w.keys[k] == u.keys[k]
    {
      assert !Moved(t, k) && k !in t.marks;
      assert k in src ==> src[k] == k;
    }
  }

  lemma SourceThere(s: Store, t: Txn)
    requires t.erased == {} && s.Valid() && Resolved(s, t)
    ensures forall k | k in Source(t) :: Source(t)[k] in WriteAll(s, Ws(t)).keys || Source(t)[k] in t.marks
  {
    var w := WriteAll(s, Ws(t));
    WrittenKeys(s, t);
    var m := Finished(w.keys, t.marks, map[]);
    FinishedDomain(w.keys, t.marks, map[]);
    TargetsThere(s, t, m);
    TraceKeys(Ls(t), |Ls(t)|, m.Keys);
    forall k | k in Source(t)
      ensures Source(t)[k] in w.keys || Source(t)[k] in t.marks
    {
      assert Source(t)[k] in Source(t).Values;
    }
  }

  /** An interruption among the writes. */
  lemma RedoWrites(t: Txn, s: Store, n: nat, s': Store)
    requires t.erased == {} && s.Valid() && n <= |Ws(t)|
    requires s' == Wrote(s, Ws(t), n) || (n < |Ws(t)| && Torn(Wrote(s, Ws(t), n), Ws(t)[n], s'))
    ensures s'.Valid() && Equiv(WriteAll(s', Ws(t)), WriteAll(s, Ws(t)))
  {
    var ws := Ws(t);
    PassesAre(t);
    WritesRedo(s, ws, n);
    if s' != Wrote(s, ws, n) {
      WriteRedo(Wrote(s, ws, n), s', ws, n);
      EquivTrans(WriteAll(s', ws), WriteAll(Wrote(s, ws, n), ws), WriteAll(s, ws));
    }
  }

  /** An interruption among the marks and links. */
  lemma RedoMidway(t: Txn, s: Store, marks: set<Key>, src: map<Key, Key>, u: Store)
    requires Redoable(t) && s.Valid() && Resolved(s, t) && u.Valid()
    requires Midway(t, WriteAll(s, Ws(t)), marks, src, u)
    ensures Sim(WriteAll(u, Ws(t)), WriteAll(s, Ws(t)), Resets(t))
  {
    var w := WriteAll(s, Ws(t));
    SettledWrites(s, t);
    SourceThere(s, t);
    MidHonest(t, w, marks, src, u);
    Rewritten(t, u);
    MidSim(t, w, marks, src, u);
    SimTrans(w, u, WriteAll(u, Ws(t)), Resets(t));
    SimSym(w, WriteAll(u, Ws(t)), Resets(t));
  }

  lemma PassOf(t: Txn, n: nat)
    requires t.erased == {} && n < |Program(t)|
    ensures Program(t)[n].Write? <==> n < |Ws(t)|
    ensures n < |Ws(t)| ==> Program(t)[n] == Ws(t)[n]
  {
    ProgramPasses(t);
    if n >= |Ws(t)| + |Ms(t)| {
      assert Program(t)[n] == Ls(t)[n - |Ws(t)| - |Ms(t)|];
    } else if n >= |Ws(t)| {
      assert Program(t)[n] == Ms(t)[n - |Ws(t)|];
    }
  }

  lemma InterruptedKeeps(t: Txn, s: Store, n: nat, s': Store)
    requires s.Valid() && s.Keyed() && n <= |Program(t)| && InterruptedAt(s, Program(t), n, s')
    ensures s'.Valid() && s'.Keyed()
  {
    AfterValid(s, map[], Program(t), n);
    var u := After(s, map[], Program(t), n).value.0;
    if s' != u {
      SectorsKeyed(u, s'.sectors);
    }
  }

  lemma RedoEarly(t: Txn, s: Store, n: nat, s': Store)
    requires Redoable(t) && s.Valid() && Resolved(s, t)
    requires n <= |Ws(t)| && n <= |Program(t)| && InterruptedAt(s, Program(t), n, s')
    ensures Resolved(s', t) && Sim(WriteAll(s', Ws(t)), WriteAll(s, Ws(t)), Resets(t))
  {
    EarlyState(t, s, n, s');
    hide Program, InterruptedAt, Ws, Wrote, WriteAll, Torn, Resets, Sim, Equiv, Resolved;
    EarlyResolved(t, s, n, s');
    RedoWrites(t, s, n, s');
    EquivSim(WriteAll(s', Ws(t)), WriteAll(s, Ws(t)), Resets(t));
  }

  lemma EarlyState(t: Txn, s: Store, n: nat, s': Store)
    requires t.erased == {} && n <= |Ws(t)| && n <= |Program(t)| && InterruptedAt(s, Program(t), n, s')
    ensures s' == Wrote(s, Ws(t), n) || (n < |Ws(t)| && Torn(Wrote(s, Ws(t), n), Ws(t)[n], s'))
  {
    hide Program, Ws, Wrote, After;
    ProgramStart(s, t, n);
    if n < |Program(t)| {
      PassOf(t, n);
    }
  }

  lemma EarlyResolved(t: Txn, s: Store, n: nat, s': Store)
    requires s.Valid() && Resolved(s, t) && n <= |Ws(t)|
    requires s' == Wrote(s, Ws(t), n) || (n < |Ws(t)| && Torn(Wrote(s, Ws(t), n), Ws(t)[n], s'))
    ensures Resolved(s', t)
  {
    hide Wrote, Ws;
    WroteFrame(s, Ws(t), n);
  }

  lemma RedoLate(t: Txn, s: Store, n: nat, s': Store)
    requires Redoable(t) && s.Valid() && s'.Valid() && Resolved(s, t)
    requires |Ws(t)| < n <= |Program(t)| && InterruptedAt(s, Program(t), n, s')
    ensures Resolved(s', t) && Sim(WriteAll(s', Ws(t)), WriteAll(s, Ws(t)), Resets(t))
  {
    var ws := Ws(t);
    AfterWritesState(s, t, n);
    if n < |Program(t)| {
      PassOf(t, n);
    }
    hide Redoable, Wrote, WriteAll, Resets, Sim, Finished, Progress;
    assert s' == After(s, map[], Program(t), n).value.0;
    var marks, src :| Midway(t, WriteAll(s, ws), marks, src, s');
    RedoMidway(t, s, marks, src, s');
    WrittenKeys(s, t);
    FinishedDomain(WriteAll(s, ws).keys, marks, src);
  }

  /** However a commit was interrupted, redo ends where it would have ended without it. */
  lemma RedoStep(t: Txn, s: Store, s': Store)
    requires Redoable(t) && s.Valid() && s.Keyed() && Resolved(s, t) && Interrupted(s, Program(t), s')
    ensures s'.Valid() && s'.Keyed() && Resolved(s', t)
    ensures Equiv(Final(s', t), Final(s, t))
  {
    hide InterruptedAt, Redoable, Program, Ws, Sim, Resets, WriteAll, Resolved, Final, Store.Keyed;
    var n :| 0 <= n <= |Program(t)| && InterruptedAt(s, Program(t), n, s');
    InterruptedKeeps(t, s, n, s');
    if n <= |Ws(t)| {
      RedoEarly(t, s, n, s');
    } else {
      RedoLate(t, s, n, s');
    }
    SameFinal(s', s, t);
  }

  lemma ProgramStart(s: Store, t: Txn, n: nat)
    requires t.erased == {} && n <= |Ws(t)|
    ensures n <= |Program(t)| && After(s, map[], Program(t), n) == Some((Wrote(s, Ws(t), n), map[]))
  {
    ProgramPasses(t);
    assert Ws(t) + Ms(t) + Ls(t) == Ws(t) + (Ms(t) + Ls(t));
    AfterPrefix(s, map[], Ws(t), Ms(t) + Ls(t), n);
    AfterWrites(s, map[], Ws(t), n);
  }

  lemma FinalSelf(s: Store, t: Txn)
    requires s.Valid() && s.Keyed()
    ensures Equiv(Final(s, t), Final(s, t))
  {
    ExecValid(s, map[], Program(t));
    EquivRefl(Final(s, t));
  }

  /** Any number of interrupted attempts, and then one that is not. */
  lemma {:induction false} RedoConverges(t: Txn, trace: seq<Store>)
    requires Redoable(t) && trace != [] && trace[0].Valid() && trace[0].Keyed() && Resolved(trace[0], t)
    requires forall i | 0 <= i < |trace| - 1 :: Interrupted(trace[i], Program(t), trace[i + 1])
    ensures var s := trace[|trace| - 1]; s.Valid() && s.Keyed() && Resolved(s, t) && Equiv(Final(s, t), Final(trace[0], t))
    decreases |trace|
  {
    hide Interrupted, Redoable, Program, Resolved, Store.Keyed, Store.Valid, Equiv;
    if |trace| == 1 {
      FinalSelf(trace[0], t);
    } else {
      var n := |trace| - 1;
      RedoConverges(t, trace[..n]);
      assert Interrupted(trace[n - 1], Program(t), trace[n - 1 + 1]);
      RedoStep(t, trace[n - 1], trace[n]);
      EquivTrans(Final(trace[n], t), Final(trace[n - 1], t), Final(trace[0], t));
    }
  }
}
