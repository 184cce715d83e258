/**
  Crash atomicity over every behaviour of the commit protocol: a finished run, with any
  number of crashes in it, leaves all databases as they were or all with the new state.
 */
module CrashAtomicity {
  import opened Wrappers
  import opened Store
  import opened Transaction
  import opened Journal
  import opened Redo
  import opened RedoErases
  import opened Protocol

  ghost predicate AllOk(w: seq<Plan>)
  {
    forall i | 0 <= i < |w| :: w[i].Ok()
  }

  ghost predicate AllOld(w: seq<Plan>, disks: seq<Disk>)
    requires |disks| == |w|
  {
    forall i | 0 <= i < |w| :: disks[i].store == w[i].before
  }

  ghost predicate AllNew(w: seq<Plan>, disks: seq<Disk>)
    requires |disks| == |w|
  {
    forall i | 0 <= i < |w| :: IsNew(w[i], disks[i].store)
  }

  ghost predicate AllReleased(disks: seq<Disk>)
  {
    forall i | 0 <= i < |disks| :: disks[i].journal == []
  }

  /** Every journal has reached its commit mark. */
  ghost predicate AllFull(w: seq<Plan>, disks: seq<Disk>)
    requires |disks| == |w|
  {
    forall i | 0 <= i < |w| :: disks[i].journal == w[i].Full()
  }

  ghost predicate AllGood(w: seq<Plan>, disks: seq<Disk>)
    requires |disks| == |w|
  {
    forall i | 0 <= i < |w| :: Good(w[i], disks[i].store)
  }

  // ----- before and after the decision

  /** No database has changed, and some journal is not complete. */
  ghost predicate Undecided(w: seq<Plan>, disks: seq<Disk>)
    requires |disks| == |w|
  {
    && AllOld(w, disks)
    && (forall i | 0 <= i < |w| :: disks[i].journal <= w[i].Full())
    && exists i :: 0 <= i < |w| && disks[i].journal != w[i].Full()
  }

  ghost predicate Decided(w: seq<Plan>, disks: seq<Disk>)
    requires |disks| == |w|
  {
    AllFull(w, disks) && AllGood(w, disks)
  }

  /** Every database has its new state; some journals may be gone already. */
  ghost predicate Settled(w: seq<Plan>, disks: seq<Disk>)
    requires |disks| == |w|
  {
    && AllNew(w, disks) && AllGood(w, disks)
    && forall i | 0 <= i < |w| :: disks[i].journal == w[i].Full() || disks[i].journal == []
  }

  ghost predicate ReleasedUpTo(disks: seq<Disk>, i: nat)
  {
    i <= |disks| && forall k | 0 <= k < i :: disks[k].journal == []
  }

  ghost predicate NewUpTo(w: seq<Plan>, disks: seq<Disk>, i: nat)
    requires |disks| == |w|
  {
    i <= |w| && forall k | 0 <= k < i :: IsNew(w[k], disks[k].store)
  }

  ghost predicate LiveTxns(w: seq<Plan>, txns: seq<Txn>)
  {
    |txns| == |w| && forall k | 0 <= k < |w| :: txns[k] == w[k].Live()
  }

  ghost predicate InvOld(w: seq<Plan>, s: State)
  {
    && |s.disks| == |w|
    && match s.phase
       case Checkpointing(i) =>
         && i < |w| && AllOld(w, s.disks)
         && (forall k | 0 <= k < i :: s.disks[k].journal == w[k].Full())
         && (forall k | i <= k < |w| :: s.disks[k].journal == [])
       case Committing(_, _, _, _) => false
       case Releasing(i) => Undecided(w, s.disks) && ReleasedUpTo(s.disks, i)
       case Down => Undecided(w, s.disks)
       case Done => AllOld(w, s.disks) && AllReleased(s.disks)
  }

  ghost predicate InvNew(w: seq<Plan>, s: State)
  {
    && |s.disks| == |w|
    && match s.phase
       case Checkpointing(i) => i == |w| && Decided(w, s.disks)
       case Committing(txns, i, j, cache) =>
         && Decided(w, s.disks) && LiveTxns(w, txns)
         && NewUpTo(w, s.disks, i)
         && (i < |w| ==> Mid(w[i], s.disks[i].store, j, cache) && (w[i].atomic ==> j == 0))
       case Releasing(i) => Settled(w, s.disks) && ReleasedUpTo(s.disks, i)
       case Down => Decided(w, s.disks) || Settled(w, s.disks)
       case Done => Settled(w, s.disks) && AllReleased(s.disks)
  }

  // ----- each step keeps the invariant

  lemma InitHolds(w: seq<Plan>, s: State)
    requires AllOk(w) && Init(w, s)
    ensures InvOld(w, s) || InvNew(w, s)
  {
    if |w| == 0 {
      assert Decided(w, s.disks);
    }
  }

  lemma StepOld(w: seq<Plan>, s: State, s': State)
    requires AllOk(w) && InvOld(w, s) && Next(w, s, s')
    ensures InvOld(w, s') || InvNew(w, s')
  {
    hide Good, Mid, IsNew, Exec, Program, Plan.Ok, JournalBytes, Scan;
    if Crash(w, s, s') {
      CrashOld(w, s, s');
    } else {
      match s.phase
      case Checkpointing(i) => CheckpointOld(w, s, s', i);
      case Releasing(i) =>
        if i < |w| {
          ReleaseOld(w, s.disks, s'.disks, i);
        }
      case Down => RecoverOld(w, s, s');
    }
  }

  lemma OldIsGood(w: seq<Plan>, d: seq<Disk>)
    requires |d| == |w| && AllOk(w) && AllOld(w, d)
    ensures AllGood(w, d)
  {
    forall k | 0 <= k < |w|
      ensures Good(w[k], d[k].store)
    {
      assert w[k].Ok();
      GoodOld(w[k]);
    }
  }

  lemma CheckpointOld(w: seq<Plan>, s: State, s': State, i: nat)
    requires AllOk(w) && InvOld(w, s) && s.phase == Checkpointing(i)
    requires s' == State(s.disks[i := s.disks[i].(journal := s.disks[i].journal + w[i].Full())], Checkpointing(i + 1))
    ensures InvOld(w, s') || InvNew(w, s')
  {
    hide Good, Mid, IsNew, Exec, Program, Plan.Ok, JournalBytes, Scan;
    assert [] + w[i].Full() == w[i].Full();
    assert AllOld(w, s'.disks);
    if i + 1 == |w| {
      OldIsGood(w, s'.disks);
    }
  }

  lemma RecoverOld(w: seq<Plan>, s: State, s': State)
    requires AllOk(w) && |s.disks| == |w| && Undecided(w, s.disks) && Recover(w, s, s')
    ensures s' == s || s' == s.(phase := Releasing(0))
  {
    hide Plan.Ok, JournalBytes, Scan, AllReadable, AtBoundary;
    var i :| 0 <= i < |w| && s.disks[i].journal != w[i].Full();
    assert w[i].Ok();
    ScanPlan(w[i], s.disks[i].journal);
    assert !Scan(s.disks[i].journal).Committed?;
  }

  lemma ReleaseOld(w: seq<Plan>, d: seq<Disk>, d': seq<Disk>, i: nat)
    requires |d| == |w| && i < |w| && Undecided(w, d) && d' == d[i := d[i].(journal := [])]
    ensures Undecided(w, d')
  {
    hide Good, Mid, IsNew, Exec, Program, Plan.Ok, JournalBytes, Scan;
    assert d'[i].journal != w[i].Full();
  }

  lemma CrashOld(w: seq<Plan>, s: State, s': State)
    requires InvOld(w, s) && Crash(w, s, s') && AllOk(w)
    ensures InvOld(w, s') || InvNew(w, s')
  {
    hide Good, Mid, IsNew, Exec, Program, Plan.Ok, JournalBytes, Scan;
    if s.phase.Checkpointing? {
      var i := s.phase.i;
      if s'.disks == s.disks {
        assert s.disks[i].journal != w[i].Full();
      } else {
        var n :| 0 <= n <= |w[i].Full()|
              && s'.disks == s.disks[i := s.disks[i].(journal := s.disks[i].journal + w[i].Full()[..n])];
        assert [] + w[i].Full()[..n] == w[i].Full()[..n];
        TornOld(w, s, s'.disks, n);
      }
    } else if s.phase.Done? {
      DoneUndecided(w, s.disks);
    }
  }

  lemma TornOld(w: seq<Plan>, s: State, d': seq<Disk>, n: nat)
    requires InvOld(w, s) && s.phase.Checkpointing? && AllOk(w)
    requires n <= |w[s.phase.i].Full()|
    requires d' == s.disks[s.phase.i := s.disks[s.phase.i].(journal := w[s.phase.i].Full()[..n])]
    ensures Undecided(w, d') || Decided(w, d')
  {
    hide Good, Mid, IsNew, Exec, Program, Plan.Ok, JournalBytes, Scan;
    var i := s.phase.i;
    if n < |w[i].Full()| {
      assert d'[i].journal != w[i].Full();
    } else if i + 1 < |w| {
      assert d'[i + 1].journal != w[i + 1].Full();
    } else {
      assert w[i].Full()[..n] == w[i].Full();
      OldIsGood(w, d');
    }
  }

  lemma DoneUndecided(w: seq<Plan>, d: seq<Disk>)
    requires |d| == |w| && AllOld(w, d) && AllReleased(d) && AllOk(w)
    ensures Undecided(w, d) || Decided(w, d)
  {
    if |w| > 0 {
      assert d[0].journal != w[0].Full();
    }
  }

  lemma StepNew(w: seq<Plan>, s: State, s': State)
    requires AllOk(w) && InvNew(w, s) && Next(w, s, s')
    ensures InvNew(w, s')
  {
    hide Good, Mid, IsNew, Exec, Program, Plan.Ok, JournalBytes, Scan;
    if Crash(w, s, s') {
      CrashNew(w, s, s');
    } else {
      match s.phase
      case Checkpointing(i) =>
        if |w| > 0 {
          MidStart(w[0], s.disks[0].store);
        }
      case Committing(txns, i, j, cache) =>
        if i < |w| {
          CommitNew(w, s, s');
        }
      case Releasing(i) =>
      case Down => RecoverNew(w, s, s');
    }
  }

  /** Every journal is whole or was released. */
  lemma RecoverNew(w: seq<Plan>, s: State, s': State)
    requires AllOk(w) && InvNew(w, s) && s.phase.Down? && Recover(w, s, s')
    ensures InvNew(w, s')
  {
    hide Good, Mid, IsNew, Exec, Program, Plan.Ok, JournalBytes, Scan, AllReadable, AtBoundary;
    forall k | 0 <= k < |w|
      ensures Scan(s.disks[k].journal).Committed? ==>
                s.disks[k].journal == w[k].Full() && Recovered(s.disks[k].journal) == w[k].Live()
    {
      assert w[k].Ok();
      ScanPlan(w[k], s.disks[k].journal);
    }
    if s' != s && AllCommitted(s.disks) {
      assert AllFull(w, s.disks);
      if |w| > 0 {
        MidStart(w[0], s.disks[0].store);
      }
    } else if s' != s {
      NoneCommitted(w, s.disks);
    }
  }

  /** If nothing throws and not all journals are whole, one was released. */
  lemma NoneCommitted(w: seq<Plan>, d: seq<Disk>)
    requires AllOk(w) && |d| == |w| && !Throws(d) && !AllCommitted(d)
    ensures !AllFull(w, d)
  {
    hide Plan.Ok, JournalBytes, Scan, AllReadable, AtBoundary;
    var k :| 0 <= k < |d| && !Scan(d[k].journal).Committed?;
    assert w[k].Ok();
    if d[k].journal == w[k].Full() {
      ScanPlan(w[k], d[k].journal);
    }
  }

  lemma CrashNew(w: seq<Plan>, s: State, s': State)
    requires AllOk(w) && InvNew(w, s) && Crash(w, s, s')
    ensures InvNew(w, s')
  {
    hide Good, Mid, IsNew, Exec, Program, Plan.Ok, JournalBytes, Scan;
    if s'.disks != s.disks {
      var i, j := s.phase.i, s.phase.j;
      var torn :| Torn(s.disks[i].store, Program(s.phase.txns[i])[j], torn)
                  && s'.disks == s.disks[i := s.disks[i].(store := torn)];
      assert w[i].Ok() && s.phase.txns[i] == w[i].Live();
      StepwiseSafe(w[i]);
      MidTorn(w[i], s.disks[i].store, j, s.phase.cache, torn);
      GoodUpdate(w, s.disks, i, torn);
    }
  }

  lemma GoodUpdate(w: seq<Plan>, d: seq<Disk>, i: nat, st: Store)
    requires |d| == |w| && i < |w| && Decided(w, d) && Good(w[i], st)
    ensures Decided(w, d[i := d[i].(store := st)])
  {
    hide Good, Mid, IsNew, Exec, Program, Plan.Ok, JournalBytes, Scan;
  }

  lemma CommitNew(w: seq<Plan>, s: State, s': State)
    requires AllOk(w) && InvNew(w, s) && s.phase.Committing? && s.phase.i < |w|
    requires CommitStep(w, s, s', s.phase.txns, s.phase.i, s.phase.j, s.phase.cache)
    ensures InvNew(w, s')
  {
    hide Good, Mid, IsNew, Exec, Program, Plan.Ok, JournalBytes, Scan;
    var i, j, cache := s.phase.i, s.phase.j, s.phase.cache;
    var p, st := w[i], s.disks[i].store;
    assert p.Ok() && s.phase.txns[i] == p.Live();
    if p.atomic {
      GoodWhole(p, st);
      NextDatabase(w, s, Final(st, p.Live()));
    } else if j < |p.Prog()| && Step(st, cache, p.Prog()[j]).Some? {
      StepwiseSafe(p);
      MidStep(p, st, j, cache);
      NextRecord(w, s, s');
    } else {
      MidEnd(p, st, j, cache);
      NextDatabase(w, s, st);
      assert s.disks[i := s.disks[i].(store := st)] == s.disks;
    }
  }

  lemma NextDatabase(w: seq<Plan>, s: State, st: Store)
    requires InvNew(w, s) && s.phase.Committing? && s.phase.i < |w|
    requires Good(w[s.phase.i], st) && IsNew(w[s.phase.i], st)
    ensures var i := s.phase.i;
            InvNew(w, State(s.disks[i := s.disks[i].(store := st)], Committing(s.phase.txns, i + 1, 0, map[])))
  {
    hide Good, Mid, IsNew, Exec, Program, Plan.Ok, JournalBytes, Scan;
    var i := s.phase.i;
    var d' := s.disks[i := s.disks[i].(store := st)];
    GoodUpdate(w, s.disks, i, st);
    assert NewUpTo(w, d', i + 1);
    if i + 1 < |w| {
      MidStart(w[i + 1], d'[i + 1].store);
    }
  }

  lemma NextRecord(w: seq<Plan>, s: State, s': State)
    requires InvNew(w, s) && s.phase.Committing? && s.phase.i < |w| && !w[s.phase.i].atomic
    requires s'.phase.Committing? && s'.phase.txns == s.phase.txns && s'.phase.i == s.phase.i
    requires |s'.disks| == |w| && s'.disks == s.disks[s.phase.i := s.disks[s.phase.i].(store := s'.disks[s.phase.i].store)]
    requires Mid(w[s.phase.i], s'.disks[s.phase.i].store, s'.phase.j, s'.phase.cache)
    requires Good(w[s.phase.i], s'.disks[s.phase.i].store)
    ensures InvNew(w, s')
  {
    hide Good, IsNew, Exec, Program, Plan.Ok, JournalBytes, Scan;
    GoodUpdate(w, s.disks, s.phase.i, s'.disks[s.phase.i].store);
    assert NewUpTo(w, s'.disks, s.phase.i);
  }

  // ----- every behaviour

  lemma {:induction false} BehaviourInv(w: seq<Plan>, b: seq<State>, n: nat)
    requires AllOk(w) && Behaviour(w, b) && n < |b|
    ensures InvOld(w, b[n]) || InvNew(w, b[n])
  {
    hide InvNew, Next;
    if n == 0 {
      InitHolds(w, b[0]);
    } else {
      BehaviourInv(w, b, n - 1);
      assert Next(w, b[n - 1], b[n - 1 + 1]);
      if InvOld(w, b[n - 1]) {
        StepOld(w, b[n - 1], b[n]);
      } else {
        StepNew(w, b[n - 1], b[n]);
      }
    }
  }

  lemma {:induction false} NewForever(w: seq<Plan>, b: seq<State>, m: nat, n: nat)
    requires AllOk(w) && Behaviour(w, b) && m <= n < |b| && InvNew(w, b[m])
    ensures InvNew(w, b[n])
    decreases n - m
  {
    hide InvNew, Next;
    if m < n {
      NewForever(w, b, m, n - 1);
      assert Next(w, b[n - 1], b[n - 1 + 1]);
      StepNew(w, b[n - 1], b[n]);
    }
  }

  /** All or nothing: a run that finishes, whatever crashed on the way, changed every database or none. */
  lemma CrashAtomic(w: seq<Plan>, b: seq<State>, n: nat)
    requires AllOk(w) && Behaviour(w, b) && n < |b| && b[n].phase.Done?
    ensures AllReleased(b[n].disks)
    ensures AllOld(w, b[n].disks) || AllNew(w, b[n].disks)
  {
    hide Next, Good, Mid, IsNew, AllOk;
    BehaviourInv(w, b, n);
  }

  /** Durability: once every journal holds its commit mark, every finish is the new state. */
  lemma Durable(w: seq<Plan>, b: seq<State>, m: nat, n: nat)
    requires AllOk(w) && Behaviour(w, b) && m <= n < |b|
    requires AllFull(w, b[m].disks) && b[n].phase.Done?
    ensures AllNew(w, b[n].disks)
  {
    hide InvNew, InvOld, Next, AllNew, AllFull, AllOk;
    if |w| > 0 {
      BehaviourInv(w, b, m);
      if InvOld(w, b[m]) {
        OldNotFull(w, b[m]);
      }
      NewForever(w, b, m, n);
      DoneNew(w, b[n]);
    } else {
      NoDatabases(w, b[n].disks);
    }
  }

  /** One uninterrupted recovery of the databases a crash left behind; it leaves them alone when it throws. */
  ghost predicate Restarted(d: seq<Disk>, d': seq<Disk>)
  {
    && |d'| == |d|
    && if Throws(d) then d' == d
       else
         && AllReleased(d')
         && forall i | 0 <= i < |d| ::
              d'[i].store == if AllCommitted(d) then Final(d[i].store, Recovered(d[i].journal)) else d[i].store
  }

  /** From every crash point, after any number of earlier crashes, a recovery that does not throw gives all old or all new stores. */
  lemma RecoveryOutcome(w: seq<Plan>, b: seq<State>, n: nat, d: seq<Disk>)
    requires AllOk(w) && Behaviour(w, b) && n < |b| && b[n].phase.Down?
    requires Restarted(b[n].disks, d) && !Throws(b[n].disks)
    ensures AllOld(w, d) || AllNew(w, d)
  {
    hide Next, Good, Mid, IsNew, Final, Plan.Ok, JournalBytes, Scan, AllReadable, AtBoundary;
    var s := b[n];
    BehaviourInv(w, b, n);
    if AllCommitted(s.disks) {
      CommittedFull(w, b, n);
      forall k | 0 <= k < |w|
        ensures IsNew(w[k], d[k].store)
      {
        assert w[k].Ok() && Scan(s.disks[k].journal).Committed?;
        ScanPlan(w[k], s.disks[k].journal);
        GoodWhole(w[k], s.disks[k].store);
      }
    } else {
      NoneCommitted(w, s.disks);
    }
  }

  /** Journals that are all committed are all whole, and the outcome is decided. */
  lemma CommittedFull(w: seq<Plan>, b: seq<State>, n: nat)
    requires AllOk(w) && Behaviour(w, b) && n < |b| && b[n].phase.Down? && AllCommitted(b[n].disks)
    ensures |b[n].disks| == |w| && AllFull(w, b[n].disks) && AllGood(w, b[n].disks)
  {
    hide Next, Good, Plan.Ok, JournalBytes, Scan, AllReadable, AtBoundary, IsNew, Program, Final;
    var s := b[n];
    BehaviourInv(w, b, n);
    forall k | 0 <= k < |w|
      ensures s.disks[k].journal == w[k].Full()
    {
      assert w[k].Ok() && Scan(s.disks[k].journal).Committed?;
      PrefixOfFull(w, s, k);
      ScanPlan(w[k], s.disks[k].journal);
    }
  }

  /** At a crash a journal is a beginning of what was to be written. */
  lemma PrefixOfFull(w: seq<Plan>, s: State, k: nat)
    requires (InvOld(w, s) || InvNew(w, s)) && s.phase.Down? && k < |w|
    ensures s.disks[k].journal <= w[k].Full()
  {
    hide Good, IsNew, Program, Final, Plan.Full;
  }

  lemma DoneNew(w: seq<Plan>, s: State)
    requires InvNew(w, s) && s.phase.Done?
    ensures AllNew(w, s.disks)
  {
  }

  lemma NoDatabases(w: seq<Plan>, d: seq<Disk>)
    requires |w| == 0 == |d|
    ensures AllNew(w, d)
  {
  }

  lemma OldNotFull(w: seq<Plan>, s: State)
    requires InvOld(w, s) && |w| > 0
    ensures !AllFull(w, s.disks)
  {
    match s.phase
    case Checkpointing(i) => assert s.disks[i].journal != w[i].Full();
    case Releasing(_) =>
    case Down =>
    case Done => assert s.disks[0].journal != w[0].Full();
  }

  /** Without a crash the run ends with the new state. */
  lemma CrashFree(w: seq<Plan>, b: seq<State>, n: nat)
    requires AllOk(w) && Behaviour(w, b) && n < |b| && b[n].phase.Done?
    requires forall i | 0 <= i < |b| :: !b[i].phase.Down?
    ensures AllNew(w, b[n].disks)
  {
    hide Next, InvNew, InvOld, AllNew;
    Uncrashed(w, b, n);
    DoneNew(w, b[n]);
  }

  lemma {:induction false} Uncrashed(w: seq<Plan>, b: seq<State>, n: nat)
    requires AllOk(w) && Behaviour(w, b) && n < |b|
    requires forall i | 0 <= i < |b| :: !b[i].phase.Down?
    ensures InvNew(w, b[n]) || (InvOld(w, b[n]) && b[n].phase.Checkpointing?)
  {
    hide InvNew, Next;
    if n == 0 {
      InitHolds(w, b[0]);
    } else {
      Uncrashed(w, b, n - 1);
      assert Next(w, b[n - 1], b[n - 1 + 1]);
      if InvNew(w, b[n - 1]) {
        StepNew(w, b[n - 1], b[n]);
      } else {
        CheckpointOnly(w, b[n - 1], b[n]);
      }
    }
  }

  lemma CheckpointOnly(w: seq<Plan>, s: State, s': State)
    requires AllOk(w) && InvOld(w, s) && s.phase.Checkpointing? && Next(w, s, s') && !s'.phase.Down?
    ensures InvNew(w, s') || (InvOld(w, s') && s'.phase.Checkpointing?)
  {
    hide InvNew;
    CheckpointOld(w, s, s', s.phase.i);
  }
}
