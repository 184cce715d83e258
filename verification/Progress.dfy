/**
  When the commit protocol comes to an end: always, but for a journal that recovery cannot
  read. Then no continuation ends, with or without crashes.
 */
module Progress {
  import opened Wrappers
  import opened Store
  import opened Transaction
  import opened Journal
  import opened Protocol
  import opened CrashAtomicity

  function Rank(p: Phase): (n: nat)
  {
    match p
    case Checkpointing(_) => 4
    case Down => 3
    case Committing(_, _, _, _) => 2
    case Releasing(_) => 1
    case Done => 0
  }

  /** Databases still to do in the phase. */
  function DatabasesLeft(n: nat, p: Phase): (k: nat)
  {
    match p
    case Checkpointing(i) => if i < n then n - i else 0
    case Committing(_, i, _, _) => if i < n then n - i else 0
    case Releasing(i) => if i < n then n - i else 0
    case _ => 0
  }

  /** Records still to do in the database being committed. */
  ghost function RecordsLeft(p: Phase): (k: nat)
  {
    if p.Committing? && p.i < |p.txns| && p.j < |Program(p.txns[p.i])| then |Program(p.txns[p.i])| - p.j else 0
  }

  /** Recovery throws, and does so again after every restart. */
  ghost predicate Stuck(s: State)
  {
    s.phase.Down? && Throws(s.disks)
  }

  /** Every unfinished state that is not stuck has an uncrashed step that brings the end nearer. */
  lemma Advance(w: seq<Plan>, s: State) returns (s': State)
    requires |s.disks| == |w| && !s.phase.Done? && !Stuck(s)
    ensures Next(w, s, s') && |s'.disks| == |w| && !s'.phase.Down?
    ensures
      || Rank(s'.phase) < Rank(s.phase)
      || (Rank(s'.phase) == Rank(s.phase) && DatabasesLeft(|w|, s'.phase) < DatabasesLeft(|w|, s.phase))
      || (Rank(s'.phase) == Rank(s.phase) && DatabasesLeft(|w|, s'.phase) == DatabasesLeft(|w|, s.phase)
          && RecordsLeft(s'.phase) < RecordsLeft(s.phase))
  {
    hide Exec, Step, Program, Scan, JournalBytes;
    match s.phase
    case Checkpointing(i) =>
      if i < |w| {
        s' := State(s.disks[i := s.disks[i].(journal := s.disks[i].journal + w[i].Full())], Checkpointing(i + 1));
      } else {
        s' := s.(phase := Committing(seq(|w|, k requires 0 <= k < |w| => w[k].Live()), 0, 0, map[]));
      }
    case Committing(txns, i, j, cache) =>
      if i < |w| && i < |txns| {
        s' := AdvanceCommit(w, s, txns, i, j, cache);
      } else {
        s' := s.(phase := Releasing(0));
      }
    case Releasing(i) =>
      if i < |w| {
        s' := State(s.disks[i := s.disks[i].(journal := [])], Releasing(i + 1));
      } else {
        s' := s.(phase := Done);
      }
    case Down =>
      if AllCommitted(s.disks) {
        s' := s.(phase := Committing(seq(|w|, k requires 0 <= k < |w| => Recovered(s.disks[k].journal)), 0, 0, map[]));
      } else {
        s' := s.(phase := Releasing(0));
      }
  }

  lemma AdvanceCommit(w: seq<Plan>, s: State, txns: seq<Txn>, i: nat, j: nat, cache: map<Key, Ref>) returns (s': State)
    requires |s.disks| == |w| && i < |w| && i < |txns| && s.phase == Committing(txns, i, j, cache)
    ensures CommitStep(w, s, s', txns, i, j, cache) && |s'.disks| == |w|
    ensures s'.phase.Committing? && s'.phase.txns == txns
    ensures s'.phase.i == i + 1 || (s'.phase.i == i && s'.phase.j == j + 1 && j < |Program(txns[i])|)
  {
    var d, p := s.disks[i], Program(txns[i]);
    if w[i].atomic {
      s' := State(s.disks[i := d.(store := Exec(d.store, map[], p).0)], Committing(txns, i + 1, 0, map[]));
    } else if j >= |p| {
      s' := s.(phase := Committing(txns, i + 1, 0, map[]));
    } else {
      match Step(d.store, cache, p[j])
      case None => s' := s.(phase := Committing(txns, i + 1, 0, map[]));
      case Some(next) =>
        s' := State(s.disks[i := d.(store := next.0)], Committing(txns, i, j + 1, next.1));
    }
  }

  ghost predicate Continues(w: seq<Plan>, s: State, c: seq<State>)
  {
    && c != [] && c[0] == s
    && (forall i | 0 <= i < |c| :: |c[i].disks| == |w|)
    && forall i | 0 <= i < |c| - 1 :: Next(w, c[i], c[i + 1])
  }

  ghost predicate NoCrash(c: seq<State>)
  {
    forall i | 1 <= i < |c| :: !c[i].phase.Down?
  }

  /** An uncrashed continuation that ends. */
  lemma Finish(w: seq<Plan>, s: State) returns (c: seq<State>)
    requires |s.disks| == |w| && !Stuck(s)
    ensures Continues(w, s, c) && NoCrash(c) && c[|c| - 1].phase.Done?
    decreases Rank(s.phase), DatabasesLeft(|w|, s.phase), RecordsLeft(s.phase)
  {
    if s.phase.Done? {
      c := [s];
    } else {
      var s' := Advance(w, s);
      assert !Stuck(s');
      hide Next, Throws, Continues, NoCrash;
      var rest := Finish(w, s');
      c := [s] + rest;
      ContinuesFrom(w, s, s', rest);
    }
  }

  /** A step in front of an uncrashed continuation. */
  lemma ContinuesFrom(w: seq<Plan>, s: State, s': State, rest: seq<State>)
    requires |s.disks| == |s'.disks| == |w| && Next(w, s, s') && !s'.phase.Down? && Continues(w, s', rest) && NoCrash(rest)
    ensures Continues(w, s, [s] + rest) && NoCrash([s] + rest)
  {
    hide Next;
    var c := [s] + rest;
    forall i | 0 <= i < |c| - 1
      ensures Next(w, c[i], c[i + 1])
    {
      if i > 0 {
        assert c[i] == rest[i - 1] && c[i + 1] == rest[i - 1 + 1];
      }
    }
  }

  lemma StuckStep(w: seq<Plan>, s: State, s': State)
    requires |s.disks| == |w| && Stuck(s) && Next(w, s, s')
    ensures s' == s
  {
    hide Scan;
  }

  lemma {:induction false} StuckForever(w: seq<Plan>, s: State, c: seq<State>, n: nat)
    requires Stuck(s) && Continues(w, s, c) && n < |c|
    ensures c[n] == s
  {
    hide Next, Stuck;
    if n > 0 {
      StuckForever(w, s, c, n - 1);
      assert Next(w, c[n - 1], c[n - 1 + 1]);
      StuckStep(w, s, c[n]);
    }
  }

  ghost predicate CanFinish(w: seq<Plan>, s: State)
  {
    exists c: seq<State> :: Continues(w, s, c) && c[|c| - 1].phase.Done?
  }

  lemma FinishExact(w: seq<Plan>, s: State)
    requires |s.disks| == |w|
    ensures CanFinish(w, s) <==> !Stuck(s)
  {
    if Stuck(s) {
      forall c: seq<State> | Continues(w, s, c)
        ensures !c[|c| - 1].phase.Done?
      {
        StuckForever(w, s, c, |c| - 1);
      }
    } else {
      var c := Finish(w, s);
    }
  }

  /** A journal that recovery cannot read: cut inside a record, or with an entry too long for a stream. */
  ghost predicate Broken(p: Plan, j: Bytes)
  {
    if j == p.Full() then !AllReadable(p.entries) else !AtBoundary(p.entries, j)
  }

  /** Every run can be brought to an end if and only if it did not crash with a broken journal. */
  lemma RunFinishes(w: seq<Plan>, b: seq<State>)
    requires AllOk(w) && Behaviour(w, b)
    ensures var s := b[|b| - 1];
            CanFinish(w, s) <==> !(s.phase.Down? && exists i :: 0 <= i < |w| && Broken(w[i], s.disks[i].journal))
  {
    hide Next, Broken, Scan, Good, Equiv, Plan.Ok, JournalBytes, CanFinish;
    var s := b[|b| - 1];
    FinishExact(w, s);
    if s.phase.Down? {
      BehaviourInv(w, b, |b| - 1);
      forall i | 0 <= i < |w|
        ensures Scan(s.disks[i].journal) == StreamError <==> Broken(w[i], s.disks[i].journal)
      {
        assert w[i].Ok();
        PrefixOfFull(w, s, i);
        ThrowsWhenBroken(w[i], s.disks[i].journal);
      }
    }
  }

  lemma ThrowsWhenBroken(p: Plan, j: Bytes)
    requires p.Ok() && j <= p.Full()
    ensures Scan(j) == StreamError <==> Broken(p, j)
  {
    ScanPlan(p, j);
  }

  /** A run that can be brought to an end can be so without a crash, and then all databases are old or all new. */
  lemma EveryRunFinishes(w: seq<Plan>, b: seq<State>) returns (b': seq<State>)
    requires AllOk(w) && Behaviour(w, b) && CanFinish(w, b[|b| - 1])
    ensures b <= b' && Behaviour(w, b') && b'[|b'| - 1].phase.Done?
    ensures forall i | |b| <= i < |b'| :: !b'[i].phase.Down?
    ensures AllOld(w, b'[|b'| - 1].disks) || AllNew(w, b'[|b'| - 1].disks)
  {
    hide Next, AllOk, AllOld, AllNew, Stuck, CanFinish;
    var n := |b| - 1;
    FinishExact(w, b[n]);
    var c := Finish(w, b[n]);
    b' := b + c[1..];
    forall i | 0 <= i < |b'| - 1
      ensures Next(w, b'[i], b'[i + 1])
    {
      if i < n {
        assert Next(w, b[i], b[i + 1]);
      } else {
        assert b'[i] == c[i - n] && b'[i + 1] == c[i - n + 1];
      }
    }
    assert b'[|b'| - 1] == c[|c| - 1];
    CrashAtomic(w, b', |b'| - 1);
  }

  /** Wherever there is a database there is such a run: the crash comes after the first byte of the first journal. */
  lemma SomeRunStuck(w: seq<Plan>) returns (b: seq<State>)
    requires AllOk(w) && |w| > 0
    ensures Behaviour(w, b) && !CanFinish(w, b[|b| - 1])
  {
    hide Plan.Ok, Scan, JournalBytes, CanFinish, AtBoundary, AllReadable;
    var s0 := State(seq(|w|, i requires 0 <= i < |w| => Disk(w[i].before, [])), Checkpointing(0));
    var j := w[0].Full()[..1];
    var s1 := State(s0.disks[0 := s0.disks[0].(journal := j)], Down);
    assert [] + j == j;
    assert TornJournal(w, s0, s1);
    b := [s0, s1];
    assert w[0].Ok();
    FirstByte(w[0].entries);
    ScanPlan(w[0], j);
    assert Scan(s1.disks[0].journal) == StreamError;
    FinishExact(w, s1);
  }
}
