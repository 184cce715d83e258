/**
  What the three passes of an erase-free commit do, in closed form: the writes, the marks,
  and the links with their cache of resolved targets.
 */
module Phases {
  import opened Wrappers
  import opened Store
  import opened KeyOrder
  import opened Transaction

  // ----- the writes

  ghost predicate AllWrites(ws: seq<Record>)
  {
    forall i | 0 <= i < |ws| :: ws[i].Write?
  }

  lemma WriteAt(ws: seq<Record>, i: nat)
    requires AllWrites(ws) && i < |ws|
    ensures ws[i].Write?
  {
  }

  ghost function WriteAll(s: Store, ws: seq<Record>): (v: Store)
    requires AllWrites(ws)
  {
    if ws == [] then s
    else WriteAll(s, ws[..|ws| - 1]).Force(ws[|ws| - 1].key, ws[|ws| - 1].data)
  }

  /** The first `n` writes. */
  ghost function Wrote(s: Store, ws: seq<Record>, n: nat): (v: Store)
    requires AllWrites(ws) && n <= |ws|
  {
    WriteAll(s, ws[..n])
  }

  lemma WroteNext(s: Store, ws: seq<Record>, n: nat)
    requires AllWrites(ws) && n < |ws|
    ensures Wrote(s, ws, 0) == s
    ensures Wrote(s, ws, n + 1) == Wrote(s, ws, n).Force(ws[n].key, ws[n].data)
  {
    assert ws[..n + 1][..n] == ws[..n];
  }

  lemma WroteAll(s: Store, ws: seq<Record>)
    requires AllWrites(ws)
    ensures Wrote(s, ws, |ws|) == WriteAll(s, ws) && Wrote(s, ws, 0) == s
  {
    assert ws[..|ws|] == ws;
  }

  lemma {:induction false} AfterWrites(s: Store, cache: map<Key, Ref>, ws: seq<Record>, n: nat)
    requires AllWrites(ws) && n <= |ws|
    ensures After(s, cache, ws, n) == Some((Wrote(s, ws, n), cache))
  {
    hide *;
    if n == 0 {
      AfterNone(s, cache, ws);
      WroteAll(s, ws);
    } else {
      AfterWrites(s, cache, ws, n - 1);
      AfterNext(s, cache, ws, n - 1);
      WroteNext(s, ws, n - 1);
      WriteAt(ws, n - 1);
      StepWrite(Wrote(s, ws, n - 1), cache, ws[n - 1]);
    }
  }

  function RefOf(s: Store, k: Key): (r: Ref)
  {
    if k in s.keys then s.keys[k] else KeyOnly
  }

  /** None of the records between `i` and `n` has the sector of record `i`. */
  ghost predicate LastOf(v: Store, ws: seq<Record>, i: nat, n: nat)
    requires i < n <= |ws|
  {
    forall j | i < j < n :: RefOf(v, ws[j].key) != RefOf(v, ws[i].key)
  }

  /** Every record written so far is in a sector of its size, which holds it unless a later one is there, too. */
  ghost predicate WrittenAt(v: Store, ws: seq<Record>, i: nat, n: nat)
    requires AllWrites(ws) && i < n <= |ws|
  {
    && v.Fits(ws[i].key, ws[i].data)
    && (LastOf(v, ws, i, n) ==> v.Content(ws[i].key) == ws[i].data)
  }

  lemma {:induction false} Written(s: Store, ws: seq<Record>, n: nat)
    requires AllWrites(ws) && Sorted(ws) && n <= |ws| && s.Valid()
    ensures forall i | 0 <= i < n :: WrittenAt(Wrote(s, ws, n), ws, i, n)
    ensures Wrote(s, ws, n).Valid()
  {
    hide Wrote, WriteAll, WrittenAt, Sorted, Store.Force, Store.Valid;
    if n == 0 {
      WroteAll(s, ws);
    } else {
      Written(s, ws, n - 1);
      WroteNext(s, ws, n - 1);
      WrittenValid(s, ws, n);
      var v := Wrote(s, ws, n - 1);
      forall i | 0 <= i < n
        ensures WrittenAt(Wrote(s, ws, n), ws, i, n)
      {
        WrittenNext(v, ws, i, n - 1);
      }
    }
  }

  lemma {:induction false} WrittenValid(s: Store, ws: seq<Record>, n: nat)
    requires AllWrites(ws) && n <= |ws| && s.Valid()
    ensures Wrote(s, ws, n).Valid()
  {
    hide *;
    WroteAll(s, ws);
    if n > 0 {
      WrittenValid(s, ws, n - 1);
      WroteNext(s, ws, n - 1);
      WriteAt(ws, n - 1);
      ForceValid(Wrote(s, ws, n - 1), ws[n - 1].key, ws[n - 1].data);
    }
  }

  lemma ForceValid(s: Store, k: Key, d: Bytes)
    requires s.Valid()
    ensures s.Force(k, d).Valid()
  {
  }

  lemma WrittenNext(v: Store, ws: seq<Record>, i: nat, n: nat)
    requires AllWrites(ws) && Sorted(ws) && i <= n < |ws| && v.Valid()
    requires i < n ==> WrittenAt(v, ws, i, n)
    ensures WrittenAt(v.Force(ws[n].key, ws[n].data), ws, i, n + 1)
  {
    var v' := v.Force(ws[n].key, ws[n].data);
    SortedApart(ws, i, n);
    if i < n {
      assert RefOf(v', ws[i].key) == RefOf(v, ws[i].key);
      if LastOf(v', ws, i, n + 1) {
        forall j | i < j < n
          ensures RefOf(v, ws[j].key) != RefOf(v, ws[i].key)
        {
          SortedApart(ws, j, n);
          assert RefOf(v', ws[j].key) == RefOf(v, ws[j].key);
        }
        assert LastOf(v, ws, i, n);
        assert RefOf(v', ws[n].key) != RefOf(v', ws[i].key);
      }
    }
  }

  /** None of the first `n` records is about `k`. */
  ghost predicate Unwritten(ws: seq<Record>, n: nat, k: Key)
    requires n <= |ws|
  {
    forall i | 0 <= i < n :: ws[i].key != k
  }

  /** Writes move only their own keys and change no sector's size. */
  ghost predicate Framed(s: Store, ws: seq<Record>, n: nat, v: Store)
    requires n <= |ws|
  {
    && v.Valid() && s.keys.Keys <= v.keys.Keys
    && (forall k | k in v.keys && Unwritten(ws, n, k) :: k in s.keys && v.keys[k] == s.keys[k])
    && |v.sectors| >= |s.sectors|
    && (forall id | 0 <= id < |s.sectors| :: |v.sectors[id]| == |s.sectors[id]|)
    && (forall i | 0 <= i < n :: ws[i].key in v.keys)
  }

  lemma {:induction false} WroteFrame(s: Store, ws: seq<Record>, n: nat)
    requires AllWrites(ws) && n <= |ws| && s.Valid()
    ensures Framed(s, ws, n, Wrote(s, ws, n))
  {
    hide Framed;
    if n == 0 {
      WroteAll(s, ws);
      FramedNone(s, ws);
    } else {
      WroteFrame(s, ws, n - 1);
      WroteNext(s, ws, n - 1);
      FramedNext(s, ws, n - 1, Wrote(s, ws, n - 1));
    }
  }

  lemma FramedNone(s: Store, ws: seq<Record>)
    requires s.Valid()
    ensures Framed(s, ws, 0, s)
  {
  }

  lemma FramedNext(s: Store, ws: seq<Record>, n: nat, v: Store)
    requires AllWrites(ws) && n < |ws| && Framed(s, ws, n, v)
    ensures Framed(s, ws, n + 1, v.Force(ws[n].key, ws[n].data))
  {
    forall k
      ensures Unwritten(ws, n + 1, k) ==> Unwritten(ws, n, k) && ws[n].key != k
    {
    }
    hide Unwritten, AllWrites, Store.Force;
  }

  // ----- marks and links

  ghost predicate AllMarks(ms: seq<Record>)
  {
    forall i | 0 <= i < |ms| :: ms[i].Mark?
  }

  ghost predicate AllLinks(ls: seq<Record>)
  {
    forall i | 0 <= i < |ls| :: ls[i].Link?
  }

  /** The key a link finally takes its entry from, and the targets resolved so far. */
  datatype Trace = Trace(src: map<Key, Key>, cache: map<Key, Key>)

  function Origin(src: map<Key, Key>, k: Key): (x: Key)
  {
    if k in src then src[k] else k
  }

  ghost function TraceLinks(ls: seq<Record>, n: nat): (x: Trace)
    requires n <= |ls| && AllLinks(ls)
  {
    if n == 0 then Trace(map[], map[])
    else
      var x := TraceLinks(ls, n - 1);
      var k, t := ls[n - 1].key, ls[n - 1].target;
      var o := NextOrigin(x, t);
      Trace(x.src[k := o], x.cache[t := o])
  }

  /** A key's entry once `marks` are set. */
  function MarkedRef(keys: map<Key, Ref>, marks: set<Key>, k: Key): (r: Ref)
  {
    if k in marks || k !in keys then KeyOnly else keys[k]
  }

  /** The keychain after setting `marks` and then the links traced to `src`. */
  ghost function Finished(keys: map<Key, Ref>, marks: set<Key>, src: map<Key, Key>): (m: map<Key, Ref>)
  {
    map k | k in keys.Keys + marks + src.Keys :: MarkedRef(keys, marks, Origin(src, k))
  }

  ghost predicate TargetsIn(ls: seq<Record>, keys: set<Key>)
    requires AllLinks(ls)
  {
    forall i | 0 <= i < |ls| :: ls[i].target in keys
  }

  ghost function KeysOf(p: seq<Record>): (s: set<Key>)
  {
    set r | r in p :: r.key
  }

  lemma FinishedNone(keys: map<Key, Ref>)
    ensures Finished(keys, {}, map[]) == keys
  {
  }

  lemma FinishedMark(keys: map<Key, Ref>, marks: set<Key>, k: Key)
    ensures Finished(keys, marks + {k}, map[]) == Finished(keys, marks, map[])[k := KeyOnly]
  {
  }

  lemma FinishedLink(keys: map<Key, Ref>, marks: set<Key>, src: map<Key, Key>, k: Key, o: Key)
    ensures Finished(keys, marks, src[k := o]) == Finished(keys, marks, src)[k := MarkedRef(keys, marks, o)]
  {
  }

  lemma KeysOfEmpty(p: seq<Record>)
    ensures KeysOf(p[..0]) == {}
  {
  }

  lemma KeysOfNext(p: seq<Record>, n: nat)
    requires n < |p|
    ensures KeysOf(p[..n + 1]) == KeysOf(p[..n]) + {p[n].key}
  {
    assert p[..n + 1] == p[..n] + [p[n]];
  }

  lemma {:induction false} AfterMarks(u: Store, cache: map<Key, Ref>, ms: seq<Record>, n: nat)
    requires n <= |ms| && AllMarks(ms)
    ensures var x := After(u, cache, ms, n);
            && x.Some? && x.value.1 == cache && x.value.0.sectors == u.sectors
            && x.value.0.keys == Finished(u.keys, KeysOf(ms[..n]), map[])
  {
    hide Finished, KeysOf;
    if n == 0 {
      KeysOfEmpty(ms);
      FinishedNone(u.keys);
    } else {
      AfterMarks(u, cache, ms, n - 1);
      KeysOfNext(ms, n - 1);
      FinishedMark(u.keys, KeysOf(ms[..n - 1]), ms[n - 1].key);
    }
  }

  /** Traced origins are targets, or keys that had their entry from the start. */
  lemma {:induction false} TraceKeys(ls: seq<Record>, n: nat, keys: set<Key>)
    requires n <= |ls| && AllLinks(ls) && TargetsIn(ls, keys)
    ensures var x := TraceLinks(ls, n);
            x.src.Keys == KeysOf(ls[..n]) && x.src.Values <= keys && x.cache.Values <= keys
  {
    hide KeysOf;
    if n == 0 {
      KeysOfEmpty(ls);
    } else {
      TraceKeys(ls, n - 1, keys);
      KeysOfNext(ls, n - 1);
      var x := TraceLinks(ls, n - 1);
      var t := ls[n - 1].target;
      if t in x.cache {
        assert x.cache[t] in x.cache.Values;
      } else if t in x.src {
        assert x.src[t] in x.src.Values;
      }
    }
  }

  /** A state after some links, as the trace has it. */
  ghost predicate Traced(keys: map<Key, Ref>, y: Trace, v: Store, c: map<Key, Ref>)
  {
    && v.keys == Finished(keys, {}, y.src)
    && c.Keys == y.cache.Keys
    && (forall t | t in y.cache :: y.cache[t] in keys && c[t] == keys[y.cache[t]])
  }

  lemma {:induction false} AfterLinks(u: Store, ls: seq<Record>, n: nat)
    requires n <= |ls| && AllLinks(ls) && TargetsIn(ls, u.keys.Keys)
    ensures var x := After(u, map[], ls, n);
            && x.Some? && x.value.0.sectors == u.sectors
            && Traced(u.keys, TraceLinks(ls, n), x.value.0, x.value.1)
  {
    hide After, Traced, TraceLinks, Finished, NextOrigin, KeysOf, Step;
    if n == 0 {
      AfterNone(u, map[], ls);
      TracedNone(u, ls);
    } else {
      AfterLinks(u, ls, n - 1);
      AfterNext(u, map[], ls, n - 1);
      TraceNext(ls, n - 1);
      var x, y, k, t := After(u, map[], ls, n - 1).value, TraceLinks(ls, n - 1), ls[n - 1].key, ls[n - 1].target;
      OriginThere(ls, n - 1, u.keys.Keys, t);
      assert ls[n - 1] == Link(k, t);
      LinkStep(u.keys, y, x.0, x.1, k, t);
    }
  }

  lemma TracedNone(u: Store, ls: seq<Record>)
    requires AllLinks(ls)
    ensures Traced(u.keys, TraceLinks(ls, 0), u, map[])
  {
    FinishedNone(u.keys);
  }

  lemma OriginThere(ls: seq<Record>, n: nat, keys: set<Key>, t: Key)
    requires n <= |ls| && AllLinks(ls) && TargetsIn(ls, keys)
    ensures t in TraceLinks(ls, n).src ==> TraceLinks(ls, n).src[t] in keys
  {
    TraceKeys(ls, n, keys);
    hide TraceLinks, KeysOf;
    var src := TraceLinks(ls, n).src;
    assert t in src ==> src[t] in src.Values;
  }

  lemma TraceNext(ls: seq<Record>, n: nat)
    requires n < |ls| && AllLinks(ls)
    ensures var x, o := TraceLinks(ls, n), NextOrigin(TraceLinks(ls, n), ls[n].target);
            TraceLinks(ls, n + 1) == Trace(x.src[ls[n].key := o], x.cache[ls[n].target := o])
  {
  }

  function NextOrigin(y: Trace, t: Key): (o: Key)
  {
    if t in y.cache then y.cache[t] else Origin(y.src, t)
  }

  lemma LinkStep(keys: map<Key, Ref>, y: Trace, v: Store, c: map<Key, Ref>, k: Key, t: Key)
    requires Traced(keys, y, v, c) && t in keys && (t in y.src ==> y.src[t] in keys)
    ensures var x, o := Step(v, c, Link(k, t)), NextOrigin(y, t);
            && x.Some? && x.value.0.sectors == v.sectors
            && Traced(keys, Trace(y.src[k := o], y.cache[t := o]), x.value.0, x.value.1)
  {
    var o := NextOrigin(y, t);
    LinkStored(keys, y, v, c, t);
    StepLink(v, c, k, t);
    hide Traced, NextOrigin, Step, Store.PutKey;
    TracedNext(keys, y, v, c, k, t, o, v.PutKey(k, keys[o]));
  }

  lemma TracedNext(keys: map<Key, Ref>, y: Trace, v: Store, c: map<Key, Ref>, k: Key, t: Key, o: Key, v': Store)
    requires Traced(keys, y, v, c) && o in keys && v'.keys == v.keys[k := keys[o]]
    ensures Traced(keys, Trace(y.src[k := o], y.cache[t := o]), v', c[t := keys[o]])
  {
    FinishedLink(keys, {}, y.src, k, o);
    hide Finished;
  }

  /** What the cache or the keychain holds for a target is the entry of its origin. */
  lemma LinkStored(keys: map<Key, Ref>, y: Trace, v: Store, c: map<Key, Ref>, t: Key)
    requires Traced(keys, y, v, c) && t in keys && (t in y.src ==> y.src[t] in keys)
    ensures var o := NextOrigin(y, t); o in keys && (if t in c then c[t] == keys[o] else t in v.keys && v.keys[t] == keys[o])
  {
  }
}
