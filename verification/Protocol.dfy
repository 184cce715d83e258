/**
  The multi-database commit protocol with crashes: checkpoint all, commit all, release
  all; after a crash, recovery redoes every journal or none and releases all.
  A commit runs record by record and may be torn inside a sector write; a journal may be
  cut at any byte.
 */
module Protocol {
  import opened Wrappers
  import opened Store
  import opened KeyOrder
  import opened Transaction
  import opened Journal
  import opened Redo
  import opened RedoSoundness
  import opened RedoErases
  import opened RedoCopies

  /**
    One database's share: its store before, the calls made inside the transaction, and whether its commit is
    taken as one indivisible step.
   */
  datatype Plan = Plan(before: Store, entries: seq<Entry>, atomic: bool) {
    ghost function Live(): (t: Txn) { Called(entries) }

    ghost function Prog(): (p: seq<Record>) { Program(Live()) }

    ghost function New(): (s: Store) { Final(before, Live()) }

    function Full(): (j: Bytes)
      ensures j != []
    {
      JournalBytes(entries)
    }

    /**
      Safe under redo, or erasing with an indivisible commit; no erased key is written again, and the
      journal is below 4 GB.
     */
    ghost predicate Ok()
    {
      && Ready(before, Live())
      && NoRewrite(entries) && |Full()| < 0x1_0000_0000
      && (Safe(Live()) || (atomic && Live().erased != {}))
    }
  }

  /** What a crash leaves of a database. */
  datatype Disk = Disk(store: Store, journal: Bytes)

  datatype Phase =
    | Checkpointing(i: nat)
    | Committing(txns: seq<Txn>, i: nat, j: nat, cache: map<Key, Ref>)
    | Releasing(i: nat)
    | Down
    | Done

  datatype State = State(disks: seq<Disk>, phase: Phase)

  ghost predicate Init(w: seq<Plan>, s: State)
  {
    s == State(seq(|w|, i requires 0 <= i < |w| => Disk(w[i].before, [])), Checkpointing(0))
  }

  ghost predicate Next(w: seq<Plan>, s: State, s': State)
    requires |s.disks| == |w|
  {
    Crash(w, s, s') ||
    match s.phase
    case Checkpointing(i) =>
      if i < |w| then
        s' == State(s.disks[i := s.disks[i].(journal := s.disks[i].journal + w[i].Full())], Checkpointing(i + 1))
      else
        s' == s.(phase := Committing(seq(|w|, k requires 0 <= k < |w| => w[k].Live()), 0, 0, map[]))
    case Committing(txns, i, j, cache) =>
      if i < |w| && i < |txns| then CommitStep(w, s, s', txns, i, j, cache)
      else s' == s.(phase := Releasing(0))
    case Releasing(i) =>
      if i < |w| then s' == State(s.disks[i := s.disks[i].(journal := [])], Releasing(i + 1))
      else s' == s.(phase := Done)
    case Down => Recover(w, s, s')
    case Done => false
  }

  ghost predicate CommitStep(w: seq<Plan>, s: State, s': State, txns: seq<Txn>, i: nat, j: nat, cache: map<Key, Ref>)
    requires |s.disks| == |w| && i < |w| && i < |txns|
  {
    var d, p := s.disks[i], Program(txns[i]);
    if w[i].atomic then
      s' == State(s.disks[i := d.(store := Exec(d.store, map[], p).0)], Committing(txns, i + 1, 0, map[]))
    else if j >= |p| then
      s' == s.(phase := Committing(txns, i + 1, 0, map[]))
    else match Step(d.store, cache, p[j])
      case None => s' == s.(phase := Committing(txns, i + 1, 0, map[]))
      case Some(next) =>
        s' == State(s.disks[i := d.(store := next.0)], Committing(txns, i, j + 1, next.1))
  }

  ghost predicate Throws(d: seq<Disk>)
  {
    exists i :: 0 <= i < |d| && Scan(d[i].journal) == StreamError
  }

  ghost predicate AllCommitted(d: seq<Disk>)
  {
    forall i | 0 <= i < |d| :: Scan(d[i].journal).Committed?
  }

  /**
    Recovery reads every journal; it redoes all of them when all reached their commit mark, and otherwise none.
    A journal that ends inside a record throws, the process ends, and the journals stay as they are.
   */
  ghost predicate Recover(w: seq<Plan>, s: State, s': State)
    requires |s.disks| == |w|
  {
    if Throws(s.disks) then s' == s
    else if AllCommitted(s.disks) then
      s' == s.(phase := Committing(seq(|w|, k requires 0 <= k < |w| => Recovered(s.disks[k].journal)), 0, 0, map[]))
    else
      s' == s.(phase := Releasing(0))
  }

  /** A crash at any moment, with the write in progress cut short: a journal at any byte. */
  ghost predicate Crash(w: seq<Plan>, s: State, s': State)
    requires |s.disks| == |w|
  {
    && s'.phase == Down
    && (s'.disks == s.disks
        || (s.phase.Checkpointing? && s.phase.i < |w| && TornJournal(w, s, s'))
        || (s.phase.Committing? && TornCommit(w, s, s')))
  }

  ghost predicate TornJournal(w: seq<Plan>, s: State, s': State)
    requires |s.disks| == |w| && s.phase.Checkpointing? && s.phase.i < |w|
  {
    var i := s.phase.i;
    exists n :: 0 <= n <= |w[i].Full()|
      && s'.disks == s.disks[i := s.disks[i].(journal := s.disks[i].journal + w[i].Full()[..n])]
  }

  ghost predicate TornCommit(w: seq<Plan>, s: State, s': State)
    requires |s.disks| == |w| && s.phase.Committing?
  {
    var i, j := s.phase.i, s.phase.j;
    && i < |w| && i < |s.phase.txns| && !w[i].atomic
    && j < |Program(s.phase.txns[i])|
    && exists torn :: Torn(s.disks[i].store, Program(s.phase.txns[i])[j], torn)
                      && s'.disks == s.disks[i := s.disks[i].(store := torn)]
  }

  ghost predicate Behaviour(w: seq<Plan>, b: seq<State>)
  {
    && b != [] && Init(w, b[0])
    && (forall i | 0 <= i < |b| :: |b[i].disks| == |w|)
    && forall i | 0 <= i < |b| - 1 :: Next(w, b[i], b[i + 1])
  }

  // ----- one database: a store from which redo reaches the new state

  /** The new state; without erases also with as many copies of every key. */
  ghost predicate IsNew(p: Plan, s: Store)
  {
    Equiv(s, p.New()) && (p.Live().erased == {} ==> SameSlots(s, p.New()))
  }

  ghost predicate Good(p: Plan, s: Store)
  {
    && s.Valid() && s.Keyed()
    && IsNew(p, Final(s, p.Live()))
    && GoodFor(p, p.Live(), s)
  }

  ghost predicate GoodFor(p: Plan, t: Txn, s: Store)
  {
    if t.erased == {} then Resolved(s, t)
    else if OnlyErase(t) then AloneState(p.before, Least(t.erased), s)
    else s == p.before || Least(t.erased) !in s.keys
  }

  lemma TargetsKept(p: Plan)
    requires p.Ok()
    ensures Apart(p.Live()) && Linkable(p.Live())
  {
    ErasedApart(p.entries);
    forall k | k in p.Live().links.Values
      ensures k !in p.Live().erased
    {
    }
  }

  /** What may be committed record by record is safe. */
  lemma StepwiseSafe(p: Plan)
    requires p.Ok() && !p.atomic
    ensures Safe(p.Live())
  {
  }

  lemma GoodOld(p: Plan)
    requires p.Ok()
    ensures Good(p, p.before)
  {
    FinalSelf(p.before, p.Live());
  }

  /** Cut short anywhere, a safe commit leaves a store from which redo reaches the new state. */
  lemma GoodInterrupted(p: Plan, s: Store, s': Store)
    requires p.Ok() && Safe(p.Live()) && Good(p, s) && Interrupted(s, p.Prog(), s')
    ensures Good(p, s')
  {
    var t := p.Live();
    TargetsKept(p);
    hide Program, Final, Interrupted, Redoable, OnlyErase, Ready, Resolved, Equiv, Store.Keyed, SameSlots;
    if t.erased == {} {
      RedoStep(t, s, s');
      EquivTrans(Final(s', t), Final(s, t), p.New());
      RedoKeepsCopies(t, s, s');
      SlotsTrans(Final(s', t), Final(s, t), p.New());
    } else {
      AloneErased(t);
      InterruptedStays(t, s, s');
      AloneStep(p.before, t, Least(t.erased), s, s');
      AloneFinal(p.before, t, s');
    }
  }

  lemma InterruptedStays(t: Txn, s: Store, s': Store)
    requires s.Valid() && s.Keyed() && Interrupted(s, Program(t), s')
    ensures s'.Valid() && s'.Keyed()
  {
    var n :| 0 <= n <= |Program(t)| && InterruptedAt(s, Program(t), n, s');
    InterruptedKeeps(t, s, n, s');
  }

  /** A whole commit ends in one of its own states. */
  lemma {:induction false} ExecReached(s: Store, p: seq<Record>, n: nat)
    requires n <= |p| && After(s, map[], p, n).Some?
    ensures exists m :: 0 <= m <= |p| && After(s, map[], p, m).Some? && After(s, map[], p, m).value.0 == Exec(s, map[], p).0
    decreases |p| - n
  {
    ExecAfter(s, map[], p, n);
    if n < |p| && After(s, map[], p, n + 1).Some? {
      ExecReached(s, p, n + 1);
    } else {
      var x := After(s, map[], p, n).value;
      assert n < |p| ==> p[n..][0] == p[n];
      assert Exec(x.0, x.1, p[n..]).0 == x.0;
    }
  }

  lemma WholeInterrupted(s: Store, t: Txn)
    ensures Interrupted(s, Program(t), Final(s, t))
  {
    assert After(s, map[], Program(t), 0).Some?;
    ExecReached(s, Program(t), 0);
    var m :| 0 <= m <= |Program(t)| && After(s, map[], Program(t), m).Some?
             && After(s, map[], Program(t), m).value.0 == Exec(s, map[], Program(t)).0;
    assert InterruptedAt(s, Program(t), m, Final(s, t));
  }

  /** A commit done in one step, from any store that recovery may find. */
  lemma GoodWhole(p: Plan, s: Store)
    requires p.Ok() && Good(p, s)
    ensures var s' := Final(s, p.Live()); Good(p, s') && IsNew(p, s')
  {
    var t := p.Live();
    hide Program, Final, Interrupted, Redoable, OnlyErase, Ready, Equiv, Store.Keyed;
    WholeInterrupted(s, t);
    if Safe(t) {
      GoodInterrupted(p, s, Final(s, t));
    } else {
      InterruptedStays(t, s, Final(s, t));
      ErasedOnce(p, s);
    }
  }

  /** After a commit with erases its first erase fails, so redo leaves it alone. */
  lemma ErasedOnce(p: Plan, s: Store)
    requires p.Ok() && Good(p, s) && p.Live().erased != {} && !OnlyErase(p.Live())
    ensures var s' := Final(s, p.Live()); GoodFor(p, p.Live(), s') && IsNew(p, Final(s', p.Live()))
  {
    var t := p.Live();
    hide Program, Final, Ready, OnlyErase, Equiv, Store.Keyed;
    TargetsKept(p);
    if s == p.before {
      FinalKeys(s, t);
    } else {
      RedoStops(s, t);
    }
    RedoStops(Final(s, t), t);
  }

  // ----- in the middle of a record-by-record commit

  ghost predicate Mid(p: Plan, s: Store, j: nat, cache: map<Key, Ref>)
  {
    exists s0 :: MidFrom(p, s0, s, j, cache)
  }

  ghost predicate MidFrom(p: Plan, s0: Store, s: Store, j: nat, cache: map<Key, Ref>)
  {
    Good(p, s0) && j <= |p.Prog()| && After(s0, map[], p.Prog(), j) == Some((s, cache))
  }

  lemma MidStart(p: Plan, s: Store)
    requires Good(p, s)
    ensures Mid(p, s, 0, map[])
  {
    assert MidFrom(p, s, s, 0, map[]);
  }

  lemma MidStep(p: Plan, s: Store, j: nat, cache: map<Key, Ref>)
    requires p.Ok() && Safe(p.Live()) && Mid(p, s, j, cache) && j < |p.Prog()|
    requires Step(s, cache, p.Prog()[j]).Some?
    ensures var next := Step(s, cache, p.Prog()[j]).value; Mid(p, next.0, j + 1, next.1) && Good(p, next.0)
  {
    hide Good, Safe, Equiv, Program, Step, Plan.Ok;
    var s0 :| MidFrom(p, s0, s, j, cache);
    var next := Step(s, cache, p.Prog()[j]).value;
    assert After(s0, map[], p.Prog(), j + 1) == Some(next);
    assert MidFrom(p, s0, next.0, j + 1, next.1);
    assert InterruptedAt(s0, p.Prog(), j + 1, next.0);
    GoodInterrupted(p, s0, next.0);
  }

  lemma MidTorn(p: Plan, s: Store, j: nat, cache: map<Key, Ref>, s': Store)
    requires p.Ok() && Safe(p.Live()) && Mid(p, s, j, cache) && j < |p.Prog()| && Torn(s, p.Prog()[j], s')
    ensures Good(p, s')
  {
    hide Good, Safe, Equiv, Program, Torn, Plan.Ok;
    var s0 :| MidFrom(p, s0, s, j, cache);
    assert InterruptedAt(s0, p.Prog(), j, s');
    GoodInterrupted(p, s0, s');
  }

  lemma MidEnd(p: Plan, s: Store, j: nat, cache: map<Key, Ref>)
    requires Mid(p, s, j, cache)
    requires j >= |p.Prog()| || Step(s, cache, p.Prog()[j]).None?
    ensures IsNew(p, s)
  {
    hide IsNew, Program;
    var s0 :| MidFrom(p, s0, s, j, cache);
    ExecAfter(s0, map[], p.Prog(), j);
    if j < |p.Prog()| {
      assert p.Prog()[j..][0] == p.Prog()[j];
    }
  }

  // ----- the journal

  /** A journal cut at any byte is redone only when it is the whole journal. */
  lemma ScanPlan(p: Plan, j: Bytes)
    requires p.Ok() && j <= p.Full()
    ensures Scan(j).Committed? <==> j == p.Full() && AllReadable(p.entries)
    ensures Scan(j).Committed? ==> Recovered(j) == p.Live()
    ensures Scan(j) == StreamError <==> if j == p.Full() then !AllReadable(p.entries) else !AtBoundary(p.entries, j)
  {
    hide AllReadable, AtBoundary, JournalBytes, Scan;
    ScanExact(p.entries, j);
    ReplayExact(p.entries);
  }
}
