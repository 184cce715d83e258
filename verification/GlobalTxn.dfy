/**
  The global transaction handlers: the same call on every open database, in a fixed
  order, and the all-or-nothing decision of recovery, unless a journal throws.
 */
module GlobalTxn {
  import opened Wrappers
  import opened Store
  import opened Transaction
  import opened Journal
  import opened Redo
  import opened Protocol
  import opened SectorDatabase
  import opened CrashAtomicity
  import opened Progress
  import opened CommitTrace

  ghost predicate Distinct(dbs: seq<Database>)
  {
    forall i, j | 0 <= i < j < |dbs| :: dbs[i] != dbs[j]
  }

  /** A database with capacity for its pending transaction. */
  ghost predicate CanCommit(db: Database)
    reads db
  {
    db.Valid() && (db.pTransaction.Some? ==> db.RoomFor(db.pTransaction.value))
  }

  /** A database with capacity for the transaction in its journal. */
  ghost predicate CanRecover(db: Database)
    reads db
  {
    && db.Valid() && db.pTransaction.None?
    && (Scan(db.journal).Committed? ==> db.RoomFor(Recovered(db.journal)))
  }

  /** What a commit of a pending transaction makes of a store. */
  ghost function Done(s: Store, o: Option<Txn>): (s': Store)
  {
    if o.Some? then Final(s, o.value) else s
  }

  /** What the databases have on disk. */
  ghost function DisksOf(dbs: seq<Database>): (d: seq<Disk>)
    reads dbs
    ensures |d| == |dbs| && forall i | 0 <= i < |dbs| :: d[i] == Disk(dbs[i].model, dbs[i].journal)
  {
    if dbs == [] then [] else [Disk(dbs[0].model, dbs[0].journal)] + DisksOf(dbs[1..])
  }

  lemma OneDisk(d: seq<Disk>, dbs: seq<Database>, n: nat)
    requires n < |d| == |dbs|
    requires forall i | 0 <= i < |dbs| && i != n :: Disk(dbs[i].model, dbs[i].journal) == d[i]
    ensures DisksOf(dbs) == d[n := Disk(dbs[n].model, dbs[n].journal)]
  {
    hide DisksOf;
  }

  /** The databases are those of a protocol, each with the calls of its open transaction logged and no journal yet. */
  ghost predicate Opened(w: seq<Plan>, dbs: seq<Database>)
    reads dbs
  {
    |w| == |dbs| && forall i | 0 <= i < |dbs| :: OpenedAs(w[i], dbs[i])
  }

  ghost predicate OpenedAs(p: Plan, db: Database)
    reads db
  {
    db.Logging() && p.before == db.model && p.entries == db.calls && db.journal == []
  }

  /** The databases hold the transactions that a behaviour of the protocol is about to commit. */
  ghost predicate Pending(w: seq<Plan>, b: seq<State>, txns: seq<Txn>, dbs: seq<Database>)
    reads dbs
  {
    && |w| == |txns| == |dbs| && (forall i | 0 <= i < |dbs| :: dbs[i].pTransaction == Some(txns[i]))
    && Reaches(w, b, State(DisksOf(dbs), Committing(txns, 0, 0, map[])))
  }

  method CommitAll(dbs: seq<Database>, ghost w: seq<Plan>, ghost txns: seq<Txn>, ghost b: seq<State>) returns (ghost b': seq<State>)
    requires Distinct(dbs) && forall i | 0 <= i < |dbs| :: CanCommit(dbs[i])
    modifies set i | 0 <= i < |dbs| :: dbs[i]
    ensures forall i | 0 <= i < |dbs| :: dbs[i].Valid()
    ensures forall i | 0 <= i < |dbs| :: dbs[i].model == Done(old(dbs[i].model), old(dbs[i].pTransaction))
    ensures forall i | 0 <= i < |dbs| :: dbs[i].journal == old(dbs[i].journal)
    ensures old(Pending(w, b, txns, dbs)) ==> b <= b' && Reaches(w, b', State(DisksOf(dbs), Committing(txns, |w|, 0, map[])))
  {
    hide Commit, Database.Valid, Database.RoomFor, Reaches, DisksOf;
    b' := b;
    ghost var traced := Pending(w, b, txns, dbs);
    var n := 0;
    while n < |dbs|
      invariant 0 <= n <= |dbs|
      invariant forall i | n <= i < |dbs| :: CanCommit(dbs[i])
      invariant forall i | 0 <= i < n :: dbs[i].Valid()
      invariant forall i | 0 <= i < n :: dbs[i].model == Done(old(dbs[i].model), old(dbs[i].pTransaction))
      invariant forall i | n <= i < |dbs| :: dbs[i].model == old(dbs[i].model) && dbs[i].pTransaction == old(dbs[i].pTransaction)
      invariant forall i | 0 <= i < |dbs| :: dbs[i].journal == old(dbs[i].journal)
      invariant traced ==> b <= b' && Reaches(w, b', State(DisksOf(dbs), Committing(txns, n, 0, map[])))
    {
      ghost var d := DisksOf(dbs);
      var ok := dbs[n].TxnCommit();
      if traced {
        OneDisk(d, dbs, n);
        b' := RunDatabase(w, b', d, DisksOf(dbs), txns, n);
      }
      n := n + 1;
    }
  }

  method ReleaseAll(dbs: seq<Database>, ghost w: seq<Plan>, ghost b: seq<State>) returns (ghost b': seq<State>)
    requires Distinct(dbs) && forall i | 0 <= i < |dbs| :: dbs[i].Valid()
    modifies set i | 0 <= i < |dbs| :: dbs[i]
    ensures forall i | 0 <= i < |dbs| :: dbs[i].Valid() && dbs[i].model == old(dbs[i].model)
    ensures forall i | 0 <= i < |dbs| :: dbs[i].pTransaction == None && dbs[i].journal == []
    ensures |w| == |dbs| && Reaches(w, b, State(old(DisksOf(dbs)), Releasing(0))) ==>
              b <= b' && Reaches(w, b', State(DisksOf(dbs), Phase.Done))
  {
    hide Database.Valid, Reaches, DisksOf;
    b' := b;
    ghost var traced := |w| == |dbs| && Reaches(w, b, State(DisksOf(dbs), Releasing(0)));
    var n := 0;
    while n < |dbs|
      invariant 0 <= n <= |dbs|
      invariant forall i | 0 <= i < |dbs| :: dbs[i].Valid() && dbs[i].model == old(dbs[i].model)
      invariant forall i | 0 <= i < n :: dbs[i].pTransaction == None && dbs[i].journal == []
      invariant traced ==> b <= b' && Reaches(w, b', State(DisksOf(dbs), Releasing(n)))
    {
      ghost var d := DisksOf(dbs);
      dbs[n].TxnRelease();
      if traced {
        OneDisk(d, dbs, n);
        ReleaseOne(w, b', d, DisksOf(dbs), n);
        b' := b' + [State(DisksOf(dbs), Releasing(n + 1))];
      }
      n := n + 1;
    }
    if traced {
      ReleasesDone(w, b', DisksOf(dbs));
      b' := b' + [State(DisksOf(dbs), Phase.Done)];
    }
  }

  lemma OpenedDisks(w: seq<Plan>, dbs: seq<Database>)
    requires Opened(w, dbs)
    ensures forall i | 0 <= i < |w| :: DisksOf(dbs)[i] == Disk(w[i].before, []) && dbs[i].Logging() && dbs[i].calls == w[i].entries
  {
    forall i | 0 <= i < |w|
      ensures DisksOf(dbs)[i] == Disk(w[i].before, []) && dbs[i].Logging() && dbs[i].calls == w[i].entries
    {
      assert OpenedAs(w[i], dbs[i]);
    }
  }

  /** The first `n` journals are written, and the other databases still log the calls of the protocol. */
  ghost predicate Journaling(w: seq<Plan>, b: seq<State>, n: nat, dbs: seq<Database>)
    reads dbs
  {
    && |w| == |dbs| && Reaches(w, b, State(DisksOf(dbs), Checkpointing(n)))
    && forall i | n <= i < |dbs| :: dbs[i].Logging() && dbs[i].calls == w[i].entries
  }

  lemma BeginJournals(w: seq<Plan>, dbs: seq<Database>)
    requires Opened(w, dbs)
    ensures Journaling(w, [State(DisksOf(dbs), Checkpointing(0))], 0, dbs)
  {
    hide DisksOf, Reaches, Database.Logging;
    forall i | 0 <= i < |w|
      ensures DisksOf(dbs)[i] == Disk(w[i].before, []) && dbs[i].Logging() && dbs[i].calls == w[i].entries
    {
      assert OpenedAs(w[i], dbs[i]);
    }
    Begin(w, DisksOf(dbs));
  }

  lemma Journaled(w: seq<Plan>, b: seq<State>, d: seq<Disk>, dbs: seq<Database>, n: nat)
    requires n < |d| == |dbs| == |w| && Reaches(w, b, State(d, Checkpointing(n)))
    requires forall i | 0 <= i < |dbs| && i != n :: Disk(dbs[i].model, dbs[i].journal) == d[i]
    requires dbs[n].model == d[n].store && dbs[n].journal == d[n].journal + JournalBytes(w[n].entries)
    ensures Reaches(w, b + [State(DisksOf(dbs), Checkpointing(n + 1))], State(DisksOf(dbs), Checkpointing(n + 1)))
  {
    hide DisksOf, Reaches, JournalBytes;
    OneDisk(d, dbs, n);
    Checkpoint(w, b, d, DisksOf(dbs), n);
  }

  method CheckpointOne(dbs: seq<Database>, n: nat, ghost w: seq<Plan>, ghost b: seq<State>) returns (ghost b': seq<State>)
    requires Distinct(dbs) && n < |dbs| && CanCommit(dbs[n])
    modifies dbs[n]
    ensures CanCommit(dbs[n]) && dbs[n].model == old(dbs[n].model) && dbs[n].pTransaction == old(dbs[n].pTransaction)
    ensures b' == b + [State(DisksOf(dbs), Checkpointing(n + 1))]
    ensures old(Journaling(w, b, n, dbs)) ==> Journaling(w, b', n + 1, dbs)
  {
    hide Database.Valid, Database.RoomFor, JournalBytes, DisksOf, Reaches;
    ghost var d := DisksOf(dbs);
    ghost var traced := Journaling(w, b, n, dbs);
    var ok := dbs[n].TxnCheckpoint();
    if traced {
      Journaled(w, b, d, dbs, n);
    }
    b' := b + [State(DisksOf(dbs), Checkpointing(n + 1))];
  }

  /** Every database writes its whole journal, on which the commits then rely. */
  method CheckpointAll(dbs: seq<Database>, ghost w: seq<Plan>) returns (ghost b: seq<State>)
    requires Distinct(dbs) && forall i | 0 <= i < |dbs| :: CanCommit(dbs[i])
    modifies set i | 0 <= i < |dbs| :: dbs[i]
    ensures forall i | 0 <= i < |dbs| :: CanCommit(dbs[i])
    ensures forall i | 0 <= i < |dbs| :: dbs[i].model == old(dbs[i].model) && dbs[i].pTransaction == old(dbs[i].pTransaction)
    ensures old(Opened(w, dbs)) ==> Journaling(w, b, |dbs|, dbs)
    ensures b != [] && b[0] == State(old(DisksOf(dbs)), Checkpointing(0))
  {
    hide CanCommit, DisksOf, Opened, Journaling;
    b := [State(DisksOf(dbs), Checkpointing(0))];
    ghost var traced := Opened(w, dbs);
    if traced {
      BeginJournals(w, dbs);
    }
    var n := 0;
    while n < |dbs|
      invariant 0 <= n <= |dbs|
      invariant forall i | 0 <= i < |dbs| :: CanCommit(dbs[i])
      invariant forall i | 0 <= i < |dbs| :: dbs[i].model == old(dbs[i].model) && dbs[i].pTransaction == old(dbs[i].pTransaction)
      invariant b != [] && b[0] == State(old(DisksOf(dbs)), Checkpointing(0))
      invariant traced ==> Journaling(w, b, n, dbs)
    {
      b := CheckpointOne(dbs, n, w, b);
      n := n + 1;
    }
  }

  /**
    Checkpoint all, commit all, release all. With a transaction open in every database the disks go through
    the states of a behaviour of the protocol, so that a crash between any two calls, or within one, finds
    what the protocol says.
   */
  method TxnCommit(dbs: seq<Database>, ghost w: seq<Plan>) returns (ghost b: seq<State>)
    requires Distinct(dbs) && forall i | 0 <= i < |dbs| :: CanCommit(dbs[i])
    modifies set i | 0 <= i < |dbs| :: dbs[i]
    ensures forall i | 0 <= i < |dbs| :: dbs[i].Valid()
    ensures forall i | 0 <= i < |dbs| :: dbs[i].model == Done(old(dbs[i].model), old(dbs[i].pTransaction))
    ensures forall i | 0 <= i < |dbs| :: dbs[i].pTransaction == None && dbs[i].journal == []
    ensures old(Opened(w, dbs)) ==> b != [] && b[0] == State(old(DisksOf(dbs)), Checkpointing(0))
    ensures old(Opened(w, dbs)) ==> Reaches(w, b, State(DisksOf(dbs), Phase.Done))
  {
    hide CanCommit, OpenedAs, Opened, Reaches, DisksOf, Done, Plan.Live;
    ghost var traced := Opened(w, dbs);
    if traced {
      OpenedTxns(w, dbs);
    }
    ghost var txns := seq(|w|, i requires 0 <= i < |w| => w[i].Live());
    b := CheckpointAll(dbs, w);
    if traced {
      CheckpointsDone(w, b, DisksOf(dbs), txns);
      b := b + [State(DisksOf(dbs), Committing(txns, 0, 0, map[]))];
    }
    b := CommitAll(dbs, w, txns, b);
    if traced {
      CommitsDone(w, b, DisksOf(dbs), txns);
      b := b + [State(DisksOf(dbs), Releasing(0))];
    }
    b := ReleaseAll(dbs, w, b);
  }

  lemma OpenedTxns(w: seq<Plan>, dbs: seq<Database>)
    requires Opened(w, dbs)
    ensures |w| == |dbs| && forall i | 0 <= i < |w| :: dbs[i].pTransaction == Some(w[i].Live())
  {
    forall i | 0 <= i < |w|
      ensures dbs[i].pTransaction == Some(w[i].Live())
    {
      assert OpenedAs(w[i], dbs[i]);
    }
  }

  /** Read every journal, up to the first whose stream throws; nobody catches the exception. */
  method ReadAll(dbs: seq<Database>) returns (fRecovery: bool, thrown: bool)
    requires Distinct(dbs) && forall i | 0 <= i < |dbs| :: CanRecover(dbs[i])
    modifies set i | 0 <= i < |dbs| :: dbs[i]
    ensures forall i | 0 <= i < |dbs| :: dbs[i].Valid() && dbs[i].model == old(dbs[i].model) && dbs[i].journal == old(dbs[i].journal)
    ensures thrown <==> exists i :: 0 <= i < |dbs| && Scan(old(dbs[i].journal)) == StreamError
    ensures !thrown ==> (fRecovery <==> forall i | 0 <= i < |dbs| :: Scan(old(dbs[i].journal)).Committed?)
    ensures !thrown && fRecovery ==>
              forall i | 0 <= i < |dbs| :: CanCommit(dbs[i]) && dbs[i].pTransaction == Some(Recovered(old(dbs[i].journal)))
  {
    hide Scan, Recovered, Database.Valid, Database.RoomFor;
    fRecovery, thrown := true, false;
    var n := 0;
    while n < |dbs|
      invariant 0 <= n <= |dbs|
      invariant forall i | 0 <= i < |dbs| :: dbs[i].Valid() && dbs[i].model == old(dbs[i].model) && dbs[i].journal == old(dbs[i].journal)
      invariant forall i | n <= i < |dbs| :: CanRecover(dbs[i])
      invariant forall i | 0 <= i < n :: Scan(old(dbs[i].journal)) != StreamError
      invariant fRecovery <==> forall i | 0 <= i < n :: Scan(old(dbs[i].journal)).Committed?
      invariant fRecovery ==>
                  forall i | 0 <= i < n :: CanCommit(dbs[i]) && dbs[i].pTransaction == Some(Recovered(old(dbs[i].journal)))
    {
      var ok;
      ok, thrown := dbs[n].TxnRecovery();
      if thrown {
        return;
      }
      if !ok {
        fRecovery := false;
      }
      n := n + 1;
    }
  }

  /**
    After a start: redo every journal if all of them are complete, otherwise none, then release all. When a
    journal throws, no store and no journal is changed. Started on what a crash left of a behaviour of the
    protocol, it carries that behaviour on.
   */
  method TxnRecovery(dbs: seq<Database>, ghost w: seq<Plan>, ghost b: seq<State>) returns (thrown: bool, ghost b': seq<State>)
    requires Distinct(dbs) && forall i | 0 <= i < |dbs| :: CanRecover(dbs[i])
    modifies set i | 0 <= i < |dbs| :: dbs[i]
    ensures forall i | 0 <= i < |dbs| :: dbs[i].Valid()
    ensures thrown <==> Throws(old(DisksOf(dbs)))
    ensures !thrown ==> forall i | 0 <= i < |dbs| :: dbs[i].pTransaction == None
    ensures Restarted(old(DisksOf(dbs)), DisksOf(dbs))
    ensures |w| == |dbs| && Reaches(w, b, State(old(DisksOf(dbs)), Down)) ==>
              b <= b' && Reaches(w, b', State(DisksOf(dbs), if thrown then Down else Phase.Done))
  {
    hide CanRecover, Database.Valid, Database.RoomFor, Final, Scan, Recovered, DisksOf, Restarted, Throws, AllCommitted, Reaches;
    ghost var d := DisksOf(dbs);
    ghost var traced := |w| == |dbs| && Reaches(w, b, State(d, Down));
    ghost var txns := seq(|d|, i requires 0 <= i < |d| => if Scan(d[i].journal).Committed? then Recovered(d[i].journal) else EmptyTxn);
    b' := b;
    var fRecovery;
    fRecovery, thrown := ReadAll(dbs);
    ReadDisks(d, thrown, fRecovery);
    assert DisksOf(dbs) == d;
    if !thrown {
      if traced {
        Redecide(w, b, d, txns);
        b' := b + [State(d, if fRecovery then Committing(txns, 0, 0, map[]) else Releasing(0))];
      }
      if fRecovery {
        b' := CommitAll(dbs, w, txns, b');
        if traced {
          CommitsDone(w, b', DisksOf(dbs), txns);
          b' := b' + [State(DisksOf(dbs), Releasing(0))];
        }
      }
      b' := ReleaseAll(dbs, w, b');
    }
    RestartedWhen(d, DisksOf(dbs), thrown, fRecovery);
  }

  lemma RestartedWhen(d: seq<Disk>, d': seq<Disk>, thrown: bool, fRecovery: bool)
    requires (thrown <==> Throws(d)) && (!thrown ==> (fRecovery <==> AllCommitted(d))) && |d'| == |d|
    requires thrown ==> forall i | 0 <= i < |d| :: d'[i] == d[i]
    requires !thrown ==> forall i | 0 <= i < |d| :: d'[i].journal == []
    requires !thrown && !fRecovery ==> forall i | 0 <= i < |d| :: d'[i].store == d[i].store
    requires !thrown && fRecovery ==>
               forall i | 0 <= i < |d| :: Scan(d[i].journal).Committed? ==> d'[i].store == Final(d[i].store, Recovered(d[i].journal))
    ensures Restarted(d, d')
  {
    hide Scan, Final, Throws, Recovered;
  }

  lemma ReadDisks(d: seq<Disk>, thrown: bool, fRecovery: bool)
    requires thrown <==> exists i :: 0 <= i < |d| && Scan(d[i].journal) == StreamError
    requires !thrown ==> (fRecovery <==> forall i | 0 <= i < |d| :: Scan(d[i].journal).Committed?)
    ensures thrown <==> Throws(d)
    ensures !thrown ==> (fRecovery <==> AllCommitted(d))
  {
    hide Scan;
  }

  /** In databases that are all new every key reads as after one commit of the transaction. */
  lemma NewReads(w: seq<Plan>, d: seq<Disk>, i: nat, k: Key)
    requires |d| == |w| && AllNew(w, d) && i < |w|
    ensures d[i].store.Valid() && w[i].New().Valid() && DiskRead(d[i].store, k) == DiskRead(w[i].New(), k)
  {
    hide Plan.New, Plan.Live;
    assert IsNew(w[i], d[i].store);
    EquivRead(d[i].store, w[i].New(), k);
  }

  /**
    Started on what any behaviour of the protocol left at a crash, recovery either throws, and changes nothing,
    or makes all databases old or all new; either way the behaviour goes on.
   */
  method Restart(dbs: seq<Database>, ghost w: seq<Plan>, ghost b: seq<State>) returns (thrown: bool, ghost b': seq<State>)
    requires Distinct(dbs) && forall i | 0 <= i < |dbs| :: CanRecover(dbs[i])
    requires AllOk(w) && Behaviour(w, b) && b[|b| - 1] == State(DisksOf(dbs), Down)
    modifies set i | 0 <= i < |dbs| :: dbs[i]
    ensures forall i | 0 <= i < |dbs| :: dbs[i].Valid()
    ensures thrown <==> exists i :: 0 <= i < |w| && Broken(w[i], b[|b| - 1].disks[i].journal)
    ensures thrown ==> DisksOf(dbs) == b[|b| - 1].disks
    ensures !thrown ==> |dbs| == |w| && (AllOld(w, DisksOf(dbs)) || AllNew(w, DisksOf(dbs))) && AllReleased(DisksOf(dbs))
    ensures b <= b' && Behaviour(w, b') && b'[|b'| - 1] == State(DisksOf(dbs), if thrown then Down else Phase.Done)
  {
    hide Next, CanRecover, Database.Valid, AllOk, AllOld, AllNew, Broken, CanFinish, Scan;
    ghost var d := DisksOf(dbs);
    thrown, b' := TxnRecovery(dbs, w, b);
    RunFinishes(w, b);
    FinishExact(w, b[|b| - 1]);
    if !thrown {
      RecoveryOutcome(w, b, |b| - 1, DisksOf(dbs));
    }
  }
}
