/**
  How the global calls on database objects run through the states of the commit protocol: what each
  single call of a database adds to a behaviour.
 */
module CommitTrace {
  import opened Wrappers
  import opened Store
  import opened Transaction
  import opened Journal
  import opened Redo
  import opened Protocol
  import opened CrashAtomicity

  /** A behaviour of the protocol that has come to `s`. */
  ghost predicate Reaches(w: seq<Plan>, b: seq<State>, s: State)
  {
    Behaviour(w, b) && b[|b| - 1] == s
  }

  lemma Extend(w: seq<Plan>, b: seq<State>, s: State, s': State)
    requires Reaches(w, b, s) && |s.disks| == |w| == |s'.disks| && Next(w, s, s')
    ensures Reaches(w, b + [s'], s')
  {
    hide Next, Init;
    var c := b + [s'];
    forall i | 0 <= i < |c| - 1
      ensures Next(w, c[i], c[i + 1])
    {
      if i < |b| - 1 {
        assert Next(w, b[i], b[i + 1]);
      }
    }
  }

  lemma Width(w: seq<Plan>, b: seq<State>, s: State)
    requires Reaches(w, b, s)
    ensures |s.disks| == |w|
  {
    hide Next, Init;
  }

  lemma Begin(w: seq<Plan>, d: seq<Disk>)
    requires |d| == |w| && forall i | 0 <= i < |w| :: d[i] == Disk(w[i].before, [])
    ensures Reaches(w, [State(d, Checkpointing(0))], State(d, Checkpointing(0)))
  {
    assert d == seq(|w|, i requires 0 <= i < |w| => Disk(w[i].before, []));
  }

  /** One checkpoint. */
  lemma Checkpoint(w: seq<Plan>, b: seq<State>, d: seq<Disk>, d': seq<Disk>, i: nat)
    requires Reaches(w, b, State(d, Checkpointing(i))) && i < |w| == |d| == |d'|
    requires d' == d[i := d[i].(journal := d[i].journal + w[i].Full())]
    ensures Reaches(w, b + [State(d', Checkpointing(i + 1))], State(d', Checkpointing(i + 1)))
  {
    hide Plan.Full;
    Extend(w, b, State(d, Checkpointing(i)), State(d', Checkpointing(i + 1)));
  }

  /** The last checkpoint is made, and the commits of the live transactions begin. */
  lemma CheckpointsDone(w: seq<Plan>, b: seq<State>, d: seq<Disk>, txns: seq<Txn>)
    requires Reaches(w, b, State(d, Checkpointing(|w|))) && |d| == |w|
    requires |txns| == |w| && forall k | 0 <= k < |w| :: txns[k] == w[k].Live()
    ensures Reaches(w, b + [State(d, Committing(txns, 0, 0, map[]))], State(d, Committing(txns, 0, 0, map[])))
  {
    hide Plan.Live;
    assert txns == seq(|w|, k requires 0 <= k < |w| => w[k].Live());
    Extend(w, b, State(d, Checkpointing(|w|)), State(d, Committing(txns, 0, 0, map[])));
  }

  /** The first `n` records of a database's commit. */
  lemma {:induction false} RunRecords(w: seq<Plan>, b: seq<State>, d: seq<Disk>, txns: seq<Txn>, i: nat, n: nat) returns (b': seq<State>)
    requires i < |w| == |d| == |txns| && !w[i].atomic
    requires Reaches(w, b, State(d, Committing(txns, i, 0, map[])))
    requires n <= |Program(txns[i])| && After(d[i].store, map[], Program(txns[i]), n).Some?
    ensures var x := After(d[i].store, map[], Program(txns[i]), n).value;
            Reaches(w, b', State(d[i := d[i].(store := x.0)], Committing(txns, i, n, x.1)))
    ensures b <= b'
  {
    hide Program, Step, Reaches;
    if n == 0 {
      b' := b;
      assert d[i := d[i].(store := d[i].store)] == d;
    } else {
      var x := After(d[i].store, map[], Program(txns[i]), n - 1).value;
      var y := After(d[i].store, map[], Program(txns[i]), n).value;
      var c := RunRecords(w, b, d, txns, i, n - 1);
      var s := State(d[i := d[i].(store := x.0)], Committing(txns, i, n - 1, x.1));
      var s' := State(d[i := d[i].(store := y.0)], Committing(txns, i, n, y.1));
      OneRecord(w, s, s', txns, i, n - 1, x, y);
      Extend(w, c, s, s');
      b' := c + [s'];
    }
  }

  lemma OneRecord(w: seq<Plan>, s: State, s': State, txns: seq<Txn>, i: nat, n: nat, x: (Store, map<Key, Ref>), y: (Store, map<Key, Ref>))
    requires i < |w| == |s.disks| == |txns| && !w[i].atomic && n < |Program(txns[i])|
    requires s.phase == Committing(txns, i, n, x.1) && s.disks[i].store == x.0
    requires Step(x.0, x.1, Program(txns[i])[n]) == Some(y)
    requires s' == State(s.disks[i := s.disks[i].(store := y.0)], Committing(txns, i, n + 1, y.1))
    ensures Next(w, s, s')
  {
    hide Program, Step;
  }

  /** How far a commit gets before it is done or stops at an error. */
  lemma {:induction false} Reached(s: Store, p: seq<Record>, n: nat) returns (m: nat)
    requires n <= |p| && After(s, map[], p, n).Some?
    ensures m <= |p| && After(s, map[], p, m).Some? && After(s, map[], p, m).value.0 == Exec(s, map[], p).0
    ensures m < |p| ==> Step(After(s, map[], p, m).value.0, After(s, map[], p, m).value.1, p[m]).None?
    decreases |p| - n
  {
    ExecAfter(s, map[], p, n);
    if n < |p| && After(s, map[], p, n + 1).Some? {
      m := Reached(s, p, n + 1);
    } else {
      m := n;
      assert n < |p| ==> p[n..][0] == p[n];
    }
  }

  /** The whole commit of one database. */
  lemma RunDatabase(w: seq<Plan>, b: seq<State>, d: seq<Disk>, d': seq<Disk>, txns: seq<Txn>, i: nat) returns (b': seq<State>)
    requires i < |w| == |d| == |txns| && Reaches(w, b, State(d, Committing(txns, i, 0, map[])))
    requires d' == d[i := d[i].(store := Final(d[i].store, txns[i]))]
    ensures Reaches(w, b', State(d', Committing(txns, i + 1, 0, map[]))) && b <= b'
  {
    hide Program, Step, Exec, Reaches, After;
    var p, s' := Program(txns[i]), State(d', Committing(txns, i + 1, 0, map[]));
    if w[i].atomic {
      Extend(w, b, State(d, Committing(txns, i, 0, map[])), s');
      b' := b + [s'];
    } else {
      AfterNone(d[i].store, map[], p);
      var m := Reached(d[i].store, p, 0);
      var c := RunRecords(w, b, d, txns, i, m);
      var x := After(d[i].store, map[], p, m).value;
      var s := State(d', Committing(txns, i, m, x.1));
      assert d[i := d[i].(store := x.0)] == d';
      Extend(w, c, s, s');
      b' := c + [s'];
    }
  }

  lemma CommitsDone(w: seq<Plan>, b: seq<State>, d: seq<Disk>, txns: seq<Txn>)
    requires |w| == |d| == |txns| && Reaches(w, b, State(d, Committing(txns, |w|, 0, map[])))
    ensures Reaches(w, b + [State(d, Releasing(0))], State(d, Releasing(0)))
  {
    Extend(w, b, State(d, Committing(txns, |w|, 0, map[])), State(d, Releasing(0)));
  }

  /** One release. */
  lemma ReleaseOne(w: seq<Plan>, b: seq<State>, d: seq<Disk>, d': seq<Disk>, i: nat)
    requires Reaches(w, b, State(d, Releasing(i))) && i < |w| == |d|
    requires d' == d[i := d[i].(journal := [])]
    ensures Reaches(w, b + [State(d', Releasing(i + 1))], State(d', Releasing(i + 1)))
  {
    Extend(w, b, State(d, Releasing(i)), State(d', Releasing(i + 1)));
  }

  lemma ReleasesDone(w: seq<Plan>, b: seq<State>, d: seq<Disk>)
    requires Reaches(w, b, State(d, Releasing(|w|))) && |d| == |w|
    ensures Reaches(w, b + [State(d, Phase.Done)], State(d, Phase.Done))
  {
    Extend(w, b, State(d, Releasing(|w|)), State(d, Phase.Done));
  }

  /** The decision of recovery, which keeps all disks. */
  lemma Redecide(w: seq<Plan>, b: seq<State>, d: seq<Disk>, txns: seq<Txn>)
    requires Reaches(w, b, State(d, Down)) && |d| == |w| && !Throws(d)
    requires AllCommitted(d) ==> |txns| == |w| && forall k | 0 <= k < |w| :: txns[k] == Recovered(d[k].journal)
    ensures var s := State(d, if AllCommitted(d) then Committing(txns, 0, 0, map[]) else Releasing(0));
            Reaches(w, b + [s], s)
  {
    hide Scan, Recovered;
    var s := State(d, if AllCommitted(d) then Committing(txns, 0, 0, map[]) else Releasing(0));
    if AllCommitted(d) {
      assert forall k | 0 <= k < |w| :: Scan(d[k].journal).Committed?;
      assert txns == seq(|w|, k requires 0 <= k < |w| => Recovered(d[k].journal));
    }
    assert Recover(w, State(d, Down), s);
    Extend(w, b, State(d, Down), s);
  }

  /** The process may end after any of the calls. */
  lemma CrashAfter(w: seq<Plan>, b: seq<State>, n: nat)
    requires Behaviour(w, b) && n < |b|
    ensures Reaches(w, b[..n + 1] + [State(b[n].disks, Down)], State(b[n].disks, Down))
  {
    hide Init;
    assert forall i | 0 <= i < n :: Next(w, b[i], b[i + 1]);
    assert Crash(w, b[n], State(b[n].disks, Down));
    hide Next;
    assert Behaviour(w, b[..n + 1]);
    Extend(w, b[..n + 1], b[n], State(b[n].disks, Down));
  }

  /** The process may end after any byte of a journal that is being written. */
  lemma CutJournal(w: seq<Plan>, b: seq<State>, d: seq<Disk>, i: nat, n: nat)
    requires Reaches(w, b, State(d, Checkpointing(i))) && i < |w| == |d| && n <= |w[i].Full()|
    ensures var s := State(d[i := d[i].(journal := d[i].journal + w[i].Full()[..n])], Down); Reaches(w, b + [s], s)
  {
    hide Plan.Full;
    var s := State(d[i := d[i].(journal := d[i].journal + w[i].Full()[..n])], Down);
    assert TornJournal(w, State(d, Checkpointing(i)), s);
    Extend(w, b, State(d, Checkpointing(i)), s);
  }

  /** In the middle of a write in place its sector may be left with any bytes of its length. */
  lemma CutWrite(w: seq<Plan>, b: seq<State>, d: seq<Disk>, txns: seq<Txn>, i: nat, j: nat, cache: map<Key, Ref>, g: Bytes)
    requires Reaches(w, b, State(d, Committing(txns, i, j, cache)))
    requires i < |w| == |d| == |txns| && !w[i].atomic && j < |Program(txns[i])|
    requires var r := Program(txns[i])[j]; r.Write? && d[i].store.Fits(r.key, r.data) && |g| == |r.data|
    ensures var k := Program(txns[i])[j].key;
            var torn := d[i].store.(sectors := d[i].store.sectors[d[i].store.keys[k].id := g]);
            var s := State(d[i := d[i].(store := torn)], Down);
            Reaches(w, b + [s], s)
  {
    hide Program;
    var k, r := Program(txns[i])[j].key, Program(txns[i])[j];
    var torn := d[i].store.(sectors := d[i].store.sectors[d[i].store.keys[k].id := g]);
    var s := State(d[i := d[i].(store := torn)], Down);
    assert Torn(d[i].store, r, torn);
    assert TornCommit(w, State(d, Committing(txns, i, j, cache)), s);
    Extend(w, b, State(d, Committing(txns, i, j, cache)), s);
  }

  /** Wherever it ends, a recovery that does not throw makes all databases old or all new. */
  lemma CrashPoint(w: seq<Plan>, b: seq<State>, n: nat, d: seq<Disk>)
    requires AllOk(w) && Behaviour(w, b) && n < |b|
    requires Restarted(b[n].disks, d) && !Throws(b[n].disks)
    ensures AllOld(w, d) || AllNew(w, d)
  {
    hide Next, Restarted, Throws, AllOk, AllOld, AllNew;
    CrashAfter(w, b, n);
    var c := b[..n + 1] + [State(b[n].disks, Down)];
    assert c[n + 1] == State(b[n].disks, Down);
    RecoveryOutcome(w, c, n + 1, d);
  }
}
