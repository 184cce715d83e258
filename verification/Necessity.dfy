/**
  The condition under which the protocol is durable is exact: a transaction that is not safe
  under redo can be lost, by crashes in the middle of its commit, after its journal was whole.
 */
module Necessity {
  import opened Wrappers
  import opened Store
  import opened Transaction
  import opened Journal
  import opened Redo
  import opened RedoLimits
  import opened RedoErases
  import opened Protocol
  import opened CrashAtomicity
  import opened Progress
  import CommitTrace

  /** A database that commits record by record, alone, with a journal that can be read. */
  ghost predicate Alone(p: Plan)
  {
    !p.atomic && |p.Full()| < 0x1_0000_0000 && AllReadable(p.entries)
  }

  /** About to commit a transaction: the live one, or the one that recovery replayed. */
  ghost function Start(p: Plan, t: Txn, s: Store): (x: State)
  {
    State([Disk(s, p.Full())], Committing([t], 0, 0, map[]))
  }

  lemma Join(w: seq<Plan>, s: State, c: seq<State>, c': seq<State>) returns (d: seq<State>)
    requires Continues(w, s, c) && Continues(w, c[|c| - 1], c')
    ensures Continues(w, s, d) && d[|d| - 1] == c'[|c'| - 1] && |d| == |c| + |c'| - 1 && c <= d
  {
    hide Next;
    d := c + c'[1..];
    forall i | 0 <= i < |d| - 1
      ensures Next(w, d[i], d[i + 1])
    {
      if i < |c| - 1 {
        assert Next(w, c[i], c[i + 1]);
      } else {
        assert d[i] == c'[i - |c| + 1] && d[i + 1] == c'[i - |c| + 1 + 1];
      }
    }
  }

  lemma One(w: seq<Plan>, s: State, s': State) returns (c: seq<State>)
    requires |s.disks| == |w| == |s'.disks| && Next(w, s, s')
    ensures c == [s, s'] && Continues(w, s, c)
  {
    c := [s, s'];
  }

  /** The first records of a commit. */
  lemma {:induction false} CommitRun(p: Plan, t: Txn, s: Store, n: nat) returns (c: seq<State>)
    requires !p.atomic && n <= |Program(t)| && After(s, map[], Program(t), n).Some?
    ensures Continues([p], Start(p, t, s), c)
    ensures var x := After(s, map[], Program(t), n).value;
            c[|c| - 1] == State([Disk(x.0, p.Full())], Committing([t], 0, n, x.1))
  {
    hide Program, JournalBytes, Step, Plan.Full;
    if n == 0 {
      c := [Start(p, t, s)];
    } else {
      var d := CommitRun(p, t, s, n - 1);
      var x := After(s, map[], Program(t), n).value;
      var y := State([Disk(x.0, p.Full())], Committing([t], 0, n, x.1));
      var e := One([p], d[|d| - 1], y);
      c := Join([p], Start(p, t, s), d, e);
    }
  }

  /** An interruption is a crash, after which recovery begins the commit of the replayed transaction. */
  lemma CrashRun(p: Plan, t: Txn, s: Store, s': Store) returns (c: seq<State>)
    requires Alone(p) && Interrupted(s, Program(t), s')
    ensures Continues([p], Start(p, t, s), c) && c[|c| - 1] == Start(p, Replayed(p.entries), s')
  {
    hide Program, JournalBytes, Torn, After, Scan, AllReadable, Plan.Full, Replayed;
    var n :| 0 <= n <= |Program(t)| && InterruptedAt(s, Program(t), n, s');
    var d := CommitRun(p, t, s, n);
    var down := State([Disk(s', p.Full())], Down);
    assert Crash([p], d[|d| - 1], down);
    var e := One([p], d[|d| - 1], down);
    var f := Join([p], Start(p, t, s), d, e);
    Redone(p, s');
    var g := One([p], down, Start(p, Replayed(p.entries), s'));
    c := Join([p], Start(p, t, s), f, g);
  }

  lemma Redone(p: Plan, s: Store)
    requires Alone(p)
    ensures Recover([p], State([Disk(s, p.Full())], Down), Start(p, Replayed(p.entries), s))
  {
    hide JournalBytes, Scan, AllReadable, Replayed;
    ScanExact(p.entries, p.Full());
    var d := [Disk(s, p.Full())];
    assert Scan(d[0].journal).Committed? && Recovered(d[0].journal) == Replayed(p.entries);
    assert !Throws(d) && AllCommitted(d);
    assert seq(1, k requires 0 <= k < 1 => Recovered(d[k].journal)) == [Replayed(p.entries)];
  }

  lemma {:induction false} TraceRun(p: Plan, trace: seq<Store>) returns (c: seq<State>)
    requires Alone(p) && NoRewrite(p.entries)
    requires trace != [] && forall i | 0 <= i < |trace| - 1 :: Interrupted(trace[i], p.Prog(), trace[i + 1])
    ensures Continues([p], Start(p, p.Live(), trace[0]), c) && c[|c| - 1] == Start(p, p.Live(), trace[|trace| - 1])
    decreases |trace|
  {
    hide Interrupted, Next, Alone, Program, NoRewrite, Called, Replayed, JournalBytes;
    if |trace| == 1 {
      c := [Start(p, p.Live(), trace[0])];
    } else {
      var n := |trace| - 1;
      var d := TraceRun(p, trace[..n]);
      assert Interrupted(trace[n - 1], p.Prog(), trace[n - 1 + 1]);
      ReplayExact(p.entries);
      var e := CrashRun(p, p.Live(), trace[n - 1], trace[n]);
      c := Join([p], Start(p, p.Live(), trace[0]), d, e);
    }
  }

  lemma CommitAll(p: Plan, t: Txn, s: Store) returns (c: seq<State>)
    requires !p.atomic
    ensures Continues([p], Start(p, t, s), c)
    ensures c[|c| - 1] == State([Disk(Final(s, t), p.Full())], Committing([t], 1, 0, map[]))
  {
    hide Program, JournalBytes, Step, Exec, Plan.Full;
    assert After(s, map[], Program(t), 0).Some?;
    var n := CommitTrace.Reached(s, Program(t), 0);
    var d := CommitRun(p, t, s, n);
    var x := State([Disk(Final(s, t), p.Full())], Committing([t], 1, 0, map[]));
    assert d[|d| - 1].disks == x.disks;
    var e := One([p], d[|d| - 1], x);
    c := Join([p], Start(p, t, s), d, e);
  }

  lemma ReleaseAll(p: Plan, t: Txn, s: Store) returns (c: seq<State>)
    requires !p.atomic
    ensures Continues([p], Start(p, t, s), c)
    ensures c[|c| - 1] == State([Disk(Final(s, t), [])], Done)
  {
    hide Program, JournalBytes, Final, Plan.Full;
    var f := Final(s, t);
    var d := CommitAll(p, t, s);
    var x1 := State([Disk(f, p.Full())], Committing([t], 1, 0, map[]));
    var x2 := State([Disk(f, p.Full())], Releasing(0));
    var x3 := State([Disk(f, [])], Releasing(1));
    var x4 := State([Disk(f, [])], Done);
    var e := [x1, x2, x3, x4];
    assert Next([p], x1, x2) && Next([p], x2, x3) && Next([p], x3, x4);
    assert Continues([p], x1, e);
    c := Join([p], Start(p, t, s), d, e);
  }

  /** The checkpoint, in the first two steps. */
  lemma Checkpointed(p: Plan) returns (b: seq<State>)
    ensures Behaviour([p], b) && Continues([p], b[0], b) && |b| == 3
    ensures AllFull([p], b[1].disks) && b[2] == Start(p, p.Live(), p.before)
  {
    hide JournalBytes, Program;
    var x0 := State(seq(1, i requires 0 <= i < 1 => Disk([p][i].before, [])), Checkpointing(0));
    var x1 := State([Disk(p.before, p.Full())], Checkpointing(1));
    b := [x0, x1, Start(p, p.Live(), p.before)];
    assert [] + p.Full() == p.Full();
    assert x0.disks == [Disk(p.before, [])];
    assert Init([p], x0);
    assert seq(1, k requires 0 <= k < 1 => [p][k].Live()) == [p.Live()];
    assert Next([p], x0, x1) && Next([p], x1, b[2]);
  }

  /** Once the journal is whole, every finish is the new state. */
  ghost predicate IsDurable(p: Plan)
  {
    forall b: seq<State>, m, n | Behaviour([p], b) && 0 <= m <= n < |b| && AllFull([p], b[m].disks) && b[n].phase.Done? ::
      AllNew([p], b[n].disks)
  }

  /** A run from the checkpoint on that ends in another state refutes. */
  lemma EndsOld(p: Plan, c: seq<State>, s: Store)
    requires Continues([p], Start(p, p.Live(), p.before), c) && c[|c| - 1] == State([Disk(s, [])], Done)
    requires !Equiv(s, p.New())
    ensures !IsDurable(p)
  {
    hide Next, JournalBytes, Program, Final, Equiv, Called, Plan.Full, Init;
    var b := Checkpointed(p);
    var d := Join([p], b[0], b, c);
    assert d[1] == b[1];
    assert Behaviour([p], d);
    var last := d[|d| - 1].disks;
    assert last[0].store == s && [p][0] == p;
    assert !AllNew([p], last);
  }

  lemma Lost(p: Plan, trace: seq<Store>)
    requires Alone(p) && NoRewrite(p.entries) && Attempts(trace, p.Live()) && p.before == trace[0]
    requires !Equiv(Final(trace[|trace| - 1], p.Live()), Final(trace[0], p.Live()))
    ensures !IsDurable(p)
  {
    hide Next, Interrupted, JournalBytes, Program, Final, Equiv, Ready, Alone, IsDurable, Called, Plan.Full;
    assert !p.atomic by { CommitsAlone(p); }
    var c := TraceRun(p, trace);
    var d := ReleaseAll(p, p.Live(), trace[|trace| - 1]);
    var e := Join([p], Start(p, p.Live(), p.before), c, d);
    EndsOld(p, e, Final(trace[|trace| - 1], p.Live()));
  }

  lemma CommitsAlone(p: Plan)
    requires Alone(p)
    ensures !p.atomic
  {
  }

  // ----- an erased key that is written again

  /** A key that the replay erases and the calls do not. */
  lemma RewrittenKey(es: seq<Entry>) returns (k: Key)
    requires !NoRewrite(es)
    ensures k in Replayed(es).erased && k !in Called(es).erased
    ensures k in Called(es).writes || k in Called(es).marks || k in Called(es).links
  {
    k :| EverErased(es, k) && !EndsErased(es, k);
    ErasedKeys(es, k);
    Rewritten(es, k);
  }

  /** What is not erased at the end has been written, marked or linked since. */
  lemma {:induction false} Rewritten(es: seq<Entry>, k: Key)
    requires EverErased(es, k) && k !in Called(es).erased
    ensures k in Called(es).writes || k in Called(es).marks || k in Called(es).links
  {
    var n := |es| - 1;
    assert es[..n] + [es[n]] == es;
    if es[n].key != k {
      assert es[n] != EraseEntry(k);
      Rewritten(es[..n], k);
    }
  }

  lemma {:induction false} ReplayedMore(es: seq<Entry>)
    ensures Called(es).erased <= Replayed(es).erased
  {
    if es != [] {
      ReplayedMore(es[..|es| - 1]);
    }
  }

  /** Bare keys, one copy each: all that the replay erases and all link targets. */
  ghost function Bare(es: seq<Entry>): (s: Store)
  {
    Build(map x | x in Replayed(es).erased + Called(es).links.Values :: KeyOnly, [])
  }

  lemma BareIs(es: seq<Entry>)
    requires Linkable(Called(es))
    ensures var s := Bare(es);
            && Ready(s, Called(es)) && Single(s) && s.keys.Keys == Replayed(es).erased + Called(es).links.Values
  {
    BuildIs(map x | x in Replayed(es).erased + Called(es).links.Values :: KeyOnly, []);
    ReplayedMore(es);
    SingleReady(Bare(es), Called(es));
  }

  /**
    On that store redo erases the key; interrupted there, it finds its first erase gone the next time and
    never gets to writing the key again.
   */
  lemma RewriteLost(p: Plan)
    requires Alone(p) && !NoRewrite(p.entries) && Linkable(p.Live()) && p.before == Bare(p.entries)
    ensures !IsDurable(p)
  {
    hide Next, JournalBytes, Program, Final, Equiv, Ready, Alone, IsDurable, Called, Replayed, Bare, Interrupted, After, Single, Plan.Full;
    assert !p.atomic by { CommitsAlone(p); }
    var r, s := Replayed(p.entries), p.before;
    var k := RewrittenKey(p.entries);
    BareIs(p.entries);
    var u := ErasesOnly(s, r);
    BegunOnly(s, p.Live());
    var c1 := CrashRun(p, p.Live(), s, s);
    var c2 := CrashRun(p, r, s, u);
    var c3 := ReleaseAll(p, r, u);
    var c12 := Join([p], Start(p, p.Live(), s), c1, c2);
    var c := Join([p], Start(p, p.Live(), s), c12, c3);
    RedoStops(u, r);
    ErasedApart(p.entries);
    FinalKeys(s, p.Live());
    NotThere(u, p.New(), k);
    EndsOld(p, c, u);
  }

  lemma NotThere(a: Store, b: Store, k: Key)
    requires k !in a.keys && k in b.keys
    ensures !Equiv(a, b)
  {
  }

  lemma BegunOnly(s: Store, t: Txn)
    ensures Interrupted(s, Program(t), s)
  {
    hide Program;
    AfterNone(s, map[], Program(t));
    assert InterruptedAt(s, Program(t), 0, s);
  }

  /** Interrupted right behind its erases. */
  lemma ErasesOnly(s: Store, t: Txn) returns (u: Store)
    requires Single(s) && t.erased <= s.keys.Keys
    ensures Interrupted(s, Program(t), u) && u.keys == s.keys - t.erased
  {
    hide Program, Store.Keyed, Store.Copies;
    u := ErasesDone(s, t);
    assert InterruptedAt(s, Program(t), |Es(t)|, u);
  }

  /**
    For every journal that recovery can read: the transaction is durable from every store it can be committed
    on, whatever crashes, if and only if no erased key is written again and redo of it is safe, or it links to
    a key it erases, so that there is no such store.
   */
  lemma DurableExact(es: seq<Entry>)
    requires |JournalBytes(es)| < 0x1_0000_0000 && AllReadable(es)
    ensures (forall s | Ready(s, Called(es)) :: IsDurable(Plan(s, es, false)))
       <==> (NoRewrite(es) && Safe(Called(es))) || !Linkable(Called(es))
  {
    var t := Called(es);
    hide Ready, Safe, IsDurable, Program, Final, Interrupted, JournalBytes, AllReadable, NoRewrite, Called, Linkable, RedoSound, Bare;
    ErasedApart(es);
    if !Linkable(t) {
      NeverReady(t);
    } else if !NoRewrite(es) {
      BareIs(es);
      RewriteLost(Plan(Bare(es), es, false));
    } else {
      DurableSafe(es);
    }
  }

  lemma DurableSafe(es: seq<Entry>)
    requires |JournalBytes(es)| < 0x1_0000_0000 && AllReadable(es) && NoRewrite(es) && Linkable(Called(es))
    ensures (forall s | Ready(s, Called(es)) :: IsDurable(Plan(s, es, false))) <==> Safe(Called(es))
  {
    var t := Called(es);
    hide Ready, Safe, IsDurable, Program, Final, Interrupted, JournalBytes, AllReadable, NoRewrite, Called, Linkable;
    ErasedApart(es);
    RedoExact(t);
    if Safe(t) {
      forall s | Ready(s, t)
        ensures IsDurable(Plan(s, es, false))
      {
        Kept(Plan(s, es, false));
      }
    } else {
      var trace :| Attempts(trace, t) && !Equiv(Final(trace[|trace| - 1], t), Final(trace[0], t));
      Lost(Plan(trace[0], es, false), trace);
    }
  }

  lemma Kept(p: Plan)
    requires p.Ok()
    ensures IsDurable(p)
  {
    hide Plan.Ok, Next, AllNew;
    assert AllOk([p]);
    forall b: seq<State>, m, n | Behaviour([p], b) && 0 <= m <= n < |b| && AllFull([p], b[m].disks) && b[n].phase.Done?
      ensures AllNew([p], b[n].disks)
    {
      Durable([p], b, m, n);
    }
  }
}
