/**
  The memory overlays of the contract, register and ledger databases: values waiting in an
  open memory transaction, values committed to memory, values of the block being built,
  and the disk below them.
 */
module Overlay {
  import opened Wrappers
  import opened Store

  datatype Flag = BLOCK | MEMPOOL | MINER | ERASE | LOOKUP | OTHER

  /** Contracts stands also for the ledger's proofs, whose values carry nothing. */
  datatype Kind = Contracts | States | Claims

  /** An open memory transaction. */
  datatype Layer<K, V> = Layer(values: map<K, V>, erased: set<K>) {
    function Set(k: K, v: V): (l: Layer<K, V>)
      ensures Apart() ==> l.Apart()
    {
      Layer(values[k := v], erased - {k})
    }

    function Unset(k: K): (l: Layer<K, V>)
      ensures Apart() ==> l.Apart()
    {
      Layer(values - {k}, erased + {k})
    }

    predicate Apart()
    {
      values.Keys !! erased
    }

    /** Committed values with this layer applied: the writes, then the erases. */
    function Onto(commit: map<K, V>): (m: map<K, V>)
    {
      commit + values - erased
    }
  }

  datatype State<K, V> = State(
    commit: map<K, V>,
    pending: Option<Layer<K, V>>,
    miner: Option<map<K, V>>,
    disk: map<K, V>)
  {
    /** The committed values if the open transaction committed now. */
    function Effective(): (m: map<K, V>)
    {
      if pending.Some? then pending.value.Onto(commit) else commit
    }

    function Set(k: K, v: V): (s: State<K, V>)
    {
      if pending.Some? then this.(pending := Some(pending.value.Set(k, v))) else this.(commit := commit[k := v])
    }

    function Unset(k: K): (s: State<K, V>)
    {
      if pending.Some? then this.(pending := Some(pending.value.Unset(k))) else this.(commit := commit - {k})
    }

    function SetMiner(k: K, v: V): (s: State<K, V>)
    {
      if miner.Some? then this.(miner := Some(miner.value[k := v])) else this
    }

    function Begin(): (s: State<K, V>)
    {
      this.(pending := Some(Layer(map[], {})))
    }

    function Release(): (s: State<K, V>)
    {
      this.(pending := None)
    }

    function Commit(): (s: State<K, V>)
    {
      this.(commit := Effective(), pending := None)
    }
  }

  datatype Call<K, V> = Write(key: K, value: V, flag: Flag) | Erase(key: K, flag: Flag)

  /** Whether a block-level call drops the memory value of its key, looking at the given committed values. */
  predicate Drops<K, V(==)>(kind: Kind, commit: map<K, V>, c: Call<K, V>)
  {
    match c
    case Erase(k, f) => (f.BLOCK? || f.ERASE?) && k in commit
    case Write(k, v, f) =>
      match kind
      case Contracts => f.BLOCK? || f.ERASE?
      case States => (f.BLOCK? || f.ERASE?) && k in commit && (commit[k] == v || f.ERASE?)
      case Claims => f.BLOCK? && k in commit && commit[k] == v
  }

  /** Whether a call sets the memory value of its key. */
  predicate Sets<K, V>(kind: Kind, c: Call<K, V>)
  {
    c.Write? && (c.flag.MEMPOOL? || (kind.Claims? && c.flag.ERASE?))
  }

  /** What the call does below the overlay: only the flags of a block reach the disk. */
  function OnDisk<K, V>(kind: Kind, disk: map<K, V>, c: Call<K, V>): (d: map<K, V>)
  {
    if c.flag.MEMPOOL? || c.flag.ERASE? then disk
    else if c.Erase? then disk - {c.key}
    else if c.flag.MINER? then disk
    else disk[c.key := c.value]
  }

  function Do<K, V(==)>(kind: Kind, s: State<K, V>, c: Call<K, V>): (s': State<K, V>)
  {
    var m :=
      if Sets(kind, c) then s.Set(c.key, c.value)
      else if (c.Erase? && c.flag.MEMPOOL?) || Drops(kind, s.commit, c) then s.Unset(c.key)
      else if c.Write? && c.flag.MINER? then s.SetMiner(c.key, c.value)
      else s;
    m.(disk := OnDisk(kind, s.disk, c))
  }

  function Run<K, V(==)>(kind: Kind, s: State<K, V>, calls: seq<Call<K, V>>): (s': State<K, V>)
  {
    if calls == [] then s else Do(kind, Run(kind, s, calls[..|calls| - 1]), calls[|calls| - 1])
  }

  /** States are looked up in memory, too, and so are claims that are being erased. */
  predicate ReadsMemory(kind: Kind, f: Flag)
  {
    f.MEMPOOL? || (kind.States? && f.LOOKUP?) || (kind.Claims? && f.ERASE?)
  }

  function Read<K, V>(kind: Kind, s: State<K, V>, k: K, f: Flag): (v: Option<V>)
  {
    if ReadsMemory(kind, f) && s.pending.Some? && k in s.pending.value.values then Some(s.pending.value.values[k])
    else if ReadsMemory(kind, f) && k in s.commit then Some(s.commit[k])
    else if f.MINER? && s.miner.Some? && k in s.miner.value then Some(s.miner.value[k])
    else Lookup(s.disk, k)
  }

  function Lookup<K, V>(m: map<K, V>, k: K): (v: Option<V>)
  {
    if k in m then Some(m[k]) else None
  }

  // ----- what a read finds after a call

  /** Every read of another key, and every read of this one with a flag outside `but`, is as before. */
  ghost predicate Elsewhere<K(!new), V>(kind: Kind, s: State<K, V>, s': State<K, V>, k: K, but: set<Flag>)
  {
    && (forall j, f | j != k :: Read(kind, s', j, f) == Read(kind, s, j, f))
    && (forall f | f !in but :: Read(kind, s', k, f) == Read(kind, s, k, f))
  }

  /** The flags with which a read of a kind looks into memory. */
  function MemoryFlags(kind: Kind): (f: set<Flag>)
    ensures forall g :: g in f <==> g == MEMPOOL || (kind == States && g == LOOKUP) || (kind == Claims && g == ERASE)
    ensures forall g :: g in f <==> ReadsMemory(kind, g)
  {
    match kind
    case Contracts => {MEMPOOL}
    case States => {MEMPOOL, LOOKUP}
    case Claims => {MEMPOOL, ERASE}
  }

  /** A mempool write is read back by the mempool, with or without an open transaction, and by nobody else. */
  lemma MempoolWritten<K(!new), V>(kind: Kind, s: State<K, V>, k: K, v: V)
    ensures var s' := Do(kind, s, Call.Write(k, v, MEMPOOL));
            && (forall f | f in MemoryFlags(kind) :: Read(kind, s', k, f) == Some(v))
            && (forall f | f in MemoryFlags(kind) && (s.pending.Some? ==> s.pending.value.Apart()) :: Read(kind, s'.Commit(), k, f) == Some(v))
            && Elsewhere(kind, s, s', k, MemoryFlags(kind)) && s'.disk == s.disk && s'.miner == s.miner
  {
    var s' := Do(kind, s, Call.Write(k, v, MEMPOOL));
    assert s' == s.Set(k, v);
  }

  /**
    After a mempool erase the mempool reads the disk, unless a transaction is open and the value was committed
    before it: then it still reads that value until the transaction commits.
   */
  lemma MempoolErased<K(!new), V>(kind: Kind, s: State<K, V>, k: K)
    ensures var s' := Do(kind, s, Call<K, V>.Erase(k, MEMPOOL));
            && (forall f | f in MemoryFlags(kind) ::
                  Read(kind, s', k, f) == if s.pending.Some? && k in s.commit then Some(s.commit[k])
                                          else Lookup(s.disk, k))
            && Elsewhere(kind, s, s', k, MemoryFlags(kind)) && s'.disk == s.disk && s'.miner == s.miner
            && (s.pending.Some? ==> forall f | f in MemoryFlags(kind) :: Read(kind, s'.Commit(), k, f) == Lookup(s.disk, k))
  {
    var s' := Do(kind, s, Call<K, V>.Erase(k, MEMPOOL));
    assert s' == s.Unset(k);
  }

  /** A miner's write is read by the miner while its layer is open, and by nobody else; without a layer it is lost. */
  lemma MinerWritten<K(!new), V>(kind: Kind, s: State<K, V>, k: K, v: V)
    ensures var s' := Do(kind, s, Call.Write(k, v, MINER));
            && (s.miner.Some? ==> Read(kind, s', k, MINER) == Some(v))
            && (s.miner.None? ==> s' == s)
            && Elsewhere(kind, s, s', k, {MINER}) && s'.disk == s.disk && s'.commit == s.commit && s'.pending == s.pending
  {
    var s' := Do(kind, s, Call.Write(k, v, MINER));
    assert s' == s.SetMiner(k, v);
  }

  /** A write with no flag of its own reaches the disk and nothing else. */
  lemma PlainWritten<K, V>(kind: Kind, s: State<K, V>, k: K, v: V, f: Flag)
    requires f == LOOKUP || f == OTHER
    ensures Do(kind, s, Call.Write(k, v, f)) == s.(disk := s.disk[k := v])
    ensures Do(kind, s, Call<K, V>.Erase(k, f)) == s.(disk := s.disk - {k})
  {
  }

  /**
    A block's write is on disk. With no transaction open the mempool reads it, too, unless a different state or
    claim was committed to memory.
   */
  lemma BlockWritten<K, V>(kind: Kind, s: State<K, V>, k: K, v: V)
    ensures var s' := Do(kind, s, Call.Write(k, v, BLOCK));
            && s'.disk == s.disk[k := v] && s'.miner == s.miner
            && Read(kind, s', k, OTHER) == Some(v)
            && (kind == Contracts ==> Read(kind, s'.Commit(), k, MEMPOOL) == Some(v))
            && (s.pending.None? ==>
                  Read(kind, s', k, MEMPOOL) == if kind != Contracts && k in s.commit && s.commit[k] != v then Some(s.commit[k]) else Some(v))
            && forall j, f | j != k :: Read(kind, s', j, f) == Read(kind, s, j, f)
  {
  }

  /** A block's erase takes the value from the disk and, with no transaction open, from memory. */
  lemma BlockErased<K, V>(kind: Kind, s: State<K, V>, k: K)
    ensures var s' := Do(kind, s, Call<K, V>.Erase(k, BLOCK));
            && s'.disk == s.disk - {k} && s'.miner == s.miner
            && Read(kind, s', k, OTHER) == None
            && (s.pending.None? ==> Read(kind, s', k, MEMPOOL) == None)
            && (k in s.commit ==> Read(kind, s'.Commit(), k, MEMPOOL) == None)
            && forall j, f | j != k :: Read(kind, s', j, f) == Read(kind, s, j, f)
  {
  }

  /** A write with the erase flag sets a claim in memory, drops a contract or a state from it, and leaves the disk. */
  lemma EraseWritten<K, V>(kind: Kind, s: State<K, V>, k: K, v: V)
    ensures var s' := Do(kind, s, Call.Write(k, v, ERASE));
            && s'.disk == s.disk && s'.miner == s.miner
            && (kind == Claims ==> Read(kind, s', k, MEMPOOL) == Some(v) && Read(kind, s', k, ERASE) == Some(v))
            && (kind != Claims && s.pending.None? ==> Read(kind, s', k, MEMPOOL) == Lookup(s.disk, k))
            && (kind == Contracts || (kind == States && k in s.commit) ==> Read(kind, s'.Commit(), k, MEMPOOL) == Lookup(s.disk, k))
            && forall j, f | j != k :: Read(kind, s', j, f) == Read(kind, s, j, f)
  {
  }

  /** An erase with the erase flag drops a value committed to memory and leaves the disk. */
  lemma EraseErased<K, V>(kind: Kind, s: State<K, V>, k: K)
    ensures var s' := Do(kind, s, Call<K, V>.Erase(k, ERASE));
            && s'.disk == s.disk && s'.miner == s.miner
            && (s.pending.None? ==> Read(kind, s', k, MEMPOOL) == Lookup(s.disk, k))
            && (k in s.commit ==> Read(kind, s'.Commit(), k, MEMPOOL) == Lookup(s.disk, k))
            && (k !in s.commit ==> s' == s)
            && forall j, f | j != k :: Read(kind, s', j, f) == Read(kind, s, j, f)
  {
  }

  /** Opening a transaction changes no read, and releasing it takes a write inside it back. */
  lemma OpenedReads<K, V>(kind: Kind, s: State<K, V>, k: K, v: V, j: K, f: Flag)
    requires s.pending.None?
    ensures Read(kind, s.Begin(), j, f) == Read(kind, s, j, f)
    ensures Read(kind, Do(kind, s.Begin(), Call.Write(k, v, MEMPOOL)).Release(), j, f) == Read(kind, s, j, f)
  {
  }

  // ----- a run in a transaction against the same run without one

  /** `t` has a transaction open, `d` has none; committing `t` now would give `d`. */
  ghost predicate Twin<K, V>(t: State<K, V>, d: State<K, V>)
  {
    && t.pending.Some? && d.pending.None? && t.pending.value.Apart()
    && d == State(t.Effective(), None, t.miner, t.disk)
  }

  /** The call decides differently by the committed values and by those the transaction would commit. */
  predicate Diverges<K, V(==)>(kind: Kind, t: State<K, V>, c: Call<K, V>)
  {
    c.key in t.Effective() && (Drops(kind, t.commit, c) != Drops(kind, t.Effective(), c))
  }

  /** One call keeps the two in step exactly when it does not diverge. */
  lemma TwinStep<K, V>(kind: Kind, t: State<K, V>, d: State<K, V>, c: Call<K, V>)
    requires Twin(t, d)
    ensures Twin(Do(kind, t, c), Do(kind, d, c)) <==> !Diverges(kind, t, c)
  {
    EffectiveDo(kind, t, c);
    EffectiveDo(kind, d, c);
    DoFrame(kind, t, c);
    DoFrame(kind, d, c);
    var m := t.Effective();
    assert m == d.Effective();
    assert c.key in m ==> m - {c.key} != m;
    assert c.key !in m ==> m - {c.key} == m;
    hide Do, State.Effective, Sets, Drops;
  }

  /** What a call does to the committed values as they would be. */
  lemma EffectiveDo<K, V>(kind: Kind, s: State<K, V>, c: Call<K, V>)
    requires s.pending.Some? ==> s.pending.value.Apart()
    ensures Do(kind, s, c).Effective()
         == if Sets(kind, c) then s.Effective()[c.key := c.value]
            else if (c.Erase? && c.flag.MEMPOOL?) || Drops(kind, s.commit, c) then s.Effective() - {c.key}
            else s.Effective()
  {
    if s.pending.Some? {
      UnsetOnto(s.pending.value, s.commit, c.key);
      if Sets(kind, c) {
        SetOnto(s.pending.value, s.commit, c.key, c.value);
      }
      hide Layer.Onto, Layer.Set, Layer.Unset, Drops;
    }
  }

  lemma DoFrame<K, V>(kind: Kind, s: State<K, V>, c: Call<K, V>)
    ensures var s' := Do(kind, s, c);
            && (s'.pending.Some? <==> s.pending.Some?)
            && (s.pending.Some? && s.pending.value.Apart() ==> s'.pending.value.Apart())
            && s'.disk == OnDisk(kind, s.disk, c)
            && s'.miner == if !Sets(kind, c) && !Drops(kind, s.commit, c) && c.Write? && c.flag.MINER? then s.SetMiner(c.key, c.value).miner else s.miner
  {
  }

  lemma SetOnto<K, V>(l: Layer<K, V>, commit: map<K, V>, k: K, v: V)
    requires l.Apart()
    ensures l.Set(k, v).Onto(commit) == l.Onto(commit)[k := v]
  {
  }

  lemma UnsetOnto<K, V>(l: Layer<K, V>, commit: map<K, V>, k: K)
    ensures l.Unset(k).Onto(commit) == l.Onto(commit) - {k}
  {
  }

  /** For contracts and proofs only a block-level erase of a key that is pending but not committed diverges. */
  lemma ContractsDiverge<K, V>(t: State<K, V>, c: Call<K, V>)
    requires t.pending.Some? && t.pending.value.Apart()
    ensures Diverges(Contracts, t, c) <==>
              c.Erase? && (c.flag.BLOCK? || c.flag.ERASE?) && c.key in t.pending.value.values && c.key !in t.commit
  {
  }

  /** A run that never diverges commits to what the same run leaves without a transaction. */
  lemma {:induction false} RunTwin<K, V>(kind: Kind, s: State<K, V>, calls: seq<Call<K, V>>)
    requires s.pending.None?
    requires forall i | 0 <= i < |calls| :: !Diverges(kind, Run(kind, s.Begin(), calls[..i]), calls[i])
    ensures Twin(Run(kind, s.Begin(), calls), Run(kind, s, calls))
    ensures Run(kind, s.Begin(), calls).Commit() == Run(kind, s, calls)
  {
    hide Do, Diverges, State.Effective, Twin;
    if calls == [] {
      TwinBegin(s);
    } else {
      var n := |calls| - 1;
      forall i | 0 <= i < n
        ensures !Diverges(kind, Run(kind, s.Begin(), calls[..n][..i]), calls[..n][i])
      {
        assert calls[..n][..i] == calls[..i];
      }
      RunTwin(kind, s, calls[..n]);
      assert calls[..n] == calls[..|calls| - 1] && !Diverges(kind, Run(kind, s.Begin(), calls[..n]), calls[n]);
      TwinStep(kind, Run(kind, s.Begin(), calls[..n]), Run(kind, s, calls[..n]), calls[n]);
    }
    TwinCommits(Run(kind, s.Begin(), calls), Run(kind, s, calls));
  }

  lemma TwinBegin<K, V>(s: State<K, V>)
    requires s.pending.None?
    ensures Twin(s.Begin(), s)
  {
    assert s.Begin().Effective() == s.commit;
  }

  lemma TwinCommits<K, V>(t: State<K, V>, d: State<K, V>)
    requires Twin(t, d)
    ensures t.Commit() == d
  {
  }

  /** Mempool writes and erases and block-level writes of contracts and proofs need no condition. */
  lemma ContractsRun<K, V>(s: State<K, V>, calls: seq<Call<K, V>>)
    requires s.pending.None?
    requires forall c | c in calls :: c.Erase? ==> c.flag.MEMPOOL?
    ensures Run(Contracts, s.Begin(), calls).Commit() == Run(Contracts, s, calls)
  {
    forall i | 0 <= i < |calls|
      ensures !Diverges(Contracts, Run(Contracts, s.Begin(), calls[..i]), calls[i])
    {
      assert calls[i] in calls;
      OpenApart(Contracts, s, calls[..i]);
      ContractsDiverge(Run(Contracts, s.Begin(), calls[..i]), calls[i]);
    }
    RunTwin(Contracts, s, calls);
  }

  /** While a transaction is open the committed values stay as they were, and no key is both written and erased in it. */
  lemma {:induction false} OpenApart<K, V>(kind: Kind, s: State<K, V>, calls: seq<Call<K, V>>)
    ensures var t := Run(kind, s.Begin(), calls);
            t.pending.Some? && t.pending.value.Apart() && t.commit == s.commit
  {
    if calls != [] {
      OpenApart(kind, s, calls[..|calls| - 1]);
    }
  }

  /** A released transaction leaves the committed values untouched. */
  lemma Released<K, V>(kind: Kind, s: State<K, V>, calls: seq<Call<K, V>>)
    ensures Run(kind, s.Begin(), calls).Release().commit == s.commit
  {
    OpenApart(kind, s, calls);
  }

  /** Inside the transaction a read misses exactly, if it looks into memory, the pending erases of committed values the disk does not equal. */
  lemma ReadTwin<K, V>(kind: Kind, t: State<K, V>, d: State<K, V>, k: K, f: Flag)
    requires Twin(t, d)
    ensures Read(kind, t, k, f) == Read(kind, d, k, f) <==>
              !(ReadsMemory(kind, f) && k in t.pending.value.erased && k in t.commit && Lookup(t.disk, k) != Some(t.commit[k]))
  {
  }

  // ----- connecting blocks

  /** The states a block writes, inside a memory transaction or not. */
  datatype Block<K, V> = Block(writes: seq<(K, V)>, open: bool)

  function WriteAll<K, V(==)>(kind: Kind, s: State<K, V>, w: seq<(K, V)>): (s': State<K, V>)
  {
    if w == [] then s
    else Do(kind, WriteAll(kind, s, w[..|w| - 1]), Call.Write(w[|w| - 1].0, w[|w| - 1].1, BLOCK))
  }

  function Connect<K, V(==)>(kind: Kind, s: State<K, V>, b: Block<K, V>): (s': State<K, V>)
  {
    if b.open then WriteAll(kind, s.Begin(), b.writes).Commit() else WriteAll(kind, s, b.writes)
  }

  function ConnectAll<K, V(==)>(kind: Kind, s: State<K, V>, bs: seq<Block<K, V>>): (s': State<K, V>)
  {
    if bs == [] then s else Connect(kind, ConnectAll(kind, s, bs[..|bs| - 1]), bs[|bs| - 1])
  }

  function Writes<K, V>(bs: seq<Block<K, V>>): (w: seq<(K, V)>)
  {
    if bs == [] then [] else Writes(bs[..|bs| - 1]) + bs[|bs| - 1].writes
  }

  function LastWrite<K(==), V>(w: seq<(K, V)>, k: K): (v: Option<V>)
    ensures v.Some? ==> (k, v.value) in w
    ensures v.None? ==> forall x | x in w :: x.0 != k
  {
    if w == [] then None
    else if w[|w| - 1].0 == k then Some(w[|w| - 1].1)
    else LastWrite(w[..|w| - 1], k)
  }

  /** The mempool value stays until a block writes that same value; then the view is the last block's. */
  function View<K(==), V(==)>(s: State<K, V>, w: seq<(K, V)>, k: K): (v: Option<V>)
  {
    if k in s.commit && (k, s.commit[k]) !in w then Some(s.commit[k])
    else if LastWrite(w, k).Some? then LastWrite(w, k)
    else Lookup(s.disk, k)
  }

  /** What a key's value in memory and on disk are after block writes. */
  ghost predicate Tracks<K, V>(s: State<K, V>, w: seq<(K, V)>, k: K, s': State<K, V>)
  {
    && (k in s'.Effective() <==> k in s.commit && (k, s.commit[k]) !in w)
    && (k in s'.Effective() ==> s'.Effective()[k] == s.commit[k])
    && Lookup(s'.disk, k) == (if LastWrite(w, k).Some? then LastWrite(w, k) else Lookup(s.disk, k))
  }

  /** One more block write, with no transaction open or in one that only erases. */
  lemma TracksStep<K, V>(kind: Kind, s: State<K, V>, w: seq<(K, V)>, x: (K, V), k: K, t: State<K, V>)
    requires kind != Contracts && Tracks(s, w, k, t)
    requires t.pending.Some? ==> t.commit == s.commit && t.pending.value.values == map[]
    ensures var t' := Do(kind, t, Call.Write(x.0, x.1, BLOCK)); Tracks(s, w + [x], k, t')
  {
    assert forall y :: y in w + [x] <==> y in w || y == x;
    assert (w + [x])[..|w|] == w;
    var c := Call<K, V>.Write(x.0, x.1, BLOCK);
    EffectiveDo(kind, t, c);
    DoFrame(kind, t, c);
    hide Do, State.Effective;
  }

  lemma OpenStep<K, V>(kind: Kind, t: State<K, V>, x: (K, V))
    requires kind != Contracts && t.pending.Some? && t.pending.value.values == map[]
    ensures var t' := Do(kind, t, Call.Write(x.0, x.1, BLOCK));
            t'.pending.Some? && t'.pending.value.values == map[] && t'.commit == t.commit
  {
  }

  lemma {:induction false} WriteAllTracks<K, V>(kind: Kind, s: State<K, V>, w: seq<(K, V)>, k: K)
    requires kind != Contracts && s.pending.None?
    ensures Tracks(s, w, k, WriteAll(kind, s, w)) && WriteAll(kind, s, w).pending.None?
    ensures var t := WriteAll(kind, s.Begin(), w);
            Tracks(s, w, k, t) && t.commit == s.commit && t.pending.Some? && t.pending.value.values == map[]
  {
    if w == [] {
      assert s.Begin().Effective() == s.commit;
    } else {
      var n := |w| - 1;
      WriteAllTracks(kind, s, w[..n], k);
      assert w == w[..n] + [w[n]];
      hide Tracks;
      TracksStep(kind, s, w[..n], w[n], k, WriteAll(kind, s, w[..n]));
      TracksStep(kind, s, w[..n], w[n], k, WriteAll(kind, s.Begin(), w[..n]));
      OpenStep(kind, WriteAll(kind, s.Begin(), w[..n]), w[n]);
    }
  }

  lemma LastWriteAppend<K, V>(a: seq<(K, V)>, b: seq<(K, V)>, k: K)
    ensures LastWrite(a + b, k) == if LastWrite(b, k).Some? then LastWrite(b, k) else LastWrite(a, k)
  {
    if b == [] {
      assert a + b == a;
    } else {
      assert (a + b)[..|a + b| - 1] == a + b[..|b| - 1];
      LastWriteAppend(a, b[..|b| - 1], k);
    }
  }

  /** Connecting blocks never rolls the mempool view back. */
  lemma {:induction false} NeverRollsBack<K, V>(kind: Kind, s: State<K, V>, bs: seq<Block<K, V>>, k: K)
    requires kind != Contracts && s.pending.None?
    ensures var s' := ConnectAll(kind, s, bs);
            && s'.pending.None? && Tracks(s, Writes(bs), k, s')
            && Read(kind, s', k, MEMPOOL) == View(s, Writes(bs), k)
  {
    if bs != [] {
      var n := |bs| - 1;
      var s1, w1, w2 := ConnectAll(kind, s, bs[..n]), Writes(bs[..n]), bs[n].writes;
      NeverRollsBack(kind, s, bs[..n], k);
      WriteAllTracks(kind, s1, w2, k);
      LastWriteAppend(w1, w2, k);
      assert forall x :: x in w1 + w2 <==> x in w1 || x in w2;
    }
  }

  // ----- the databases

  class MemoryDB<K(==), V(==)> {
    var pMemory: Option<Layer<K, V>>
    var pMiner: Option<map<K, V>>
    var pCommit: map<K, V>
    var disk: map<K, V>

    ghost function Now(): (s: State<K, V>)
      reads this
    {
      State(pCommit, pMemory, pMiner, disk)
    }

    constructor ()
      ensures Now() == State(map[], None, None, map[])
    {
      pMemory, pMiner, pCommit, disk := None, None, map[], map[];
    }

    method MemoryBegin(nFlags: Flag)
      modifies this`pMemory, this`pMiner
      ensures nFlags.MINER? ==> Now() == old(Now()).(miner := Some(map[]))
      ensures !nFlags.MINER? ==> Now() == old(Now()).Begin()
    {
      if nFlags.MINER? {
        pMiner := Some(map[]);
        return;
      }
      pMemory := Some(Layer(map[], {}));
    }

    method MemoryRelease(nFlags: Flag)
      modifies this`pMemory, this`pMiner
      ensures nFlags.MINER? ==> Now() == old(Now()).(miner := None)
      ensures !nFlags.MINER? ==> Now() == old(Now()).Release()
    {
      if nFlags.MINER? {
        pMiner := None;
        return;
      }
      pMemory := None;
    }

    /** Copy the pending values one by one, then take the erased keys out one by one. */
    method MemoryCommit()
      modifies this`pMemory, this`pCommit
      ensures Now() == old(Now()).Commit()
    {
      if pMemory.Some? {
        var values, erased := pMemory.value.values, pMemory.value.erased;
        var rem := values.Keys;
        while rem != {}
          invariant rem <= values.Keys && pMemory == old(pMemory)
          invariant pCommit == old(pCommit) + (values - rem)
          decreases rem
        {
          var k :| k in rem;
          pCommit := pCommit[k := values[k]];
          rem := rem - {k};
        }
        assert values - {} == values;
        var left := erased;
        while left != {}
          invariant left <= erased && pMemory == old(pMemory)
          invariant pCommit == old(pCommit) + values - (erased - left)
          decreases left
        {
          var k :| k in left;
          pCommit := pCommit - {k};
          left := left - {k};
        }
        assert erased - {} == erased;
        pMemory := None;
      }
    }

    // The calls all three databases share: setting and dropping the memory value of a key.

    method SetValue(k: K, v: V)
      modifies this`pMemory, this`pCommit
      ensures Now() == old(Now()).Set(k, v)
    {
      if pMemory.Some? {
        pMemory := Some(Layer(pMemory.value.values[k := v], pMemory.value.erased - {k}));
        return;
      }
      pCommit := pCommit[k := v];
    }

    method Drop(k: K)
      modifies this`pMemory, this`pCommit
      ensures Now() == old(Now()).Unset(k)
    {
      if pMemory.Some? {
        pMemory := Some(Layer(pMemory.value.values - {k}, pMemory.value.erased + {k}));
        return;
      }
      pCommit := pCommit - {k};
    }

    /** `ContractDB::WriteContract`, and `LedgerDB::WriteProof` with values that carry nothing. */
    method WriteContract(k: K, v: V, nFlags: Flag)
      modifies this
      ensures Now() == Do(Contracts, old(Now()), Call.Write(k, v, nFlags))
    {
      if nFlags.MEMPOOL? {
        SetValue(k, v);
        return;
      } else if nFlags.MINER? {
        if pMiner.Some? {
          pMiner := Some(pMiner.value[k := v]);
        }
        return;
      } else if nFlags.BLOCK? || nFlags.ERASE? {
        Drop(k);
        if nFlags.ERASE? {
          return;
        }
      }
      disk := disk[k := v];
    }

    /** `RegisterDB::WriteState`. */
    method WriteState(k: K, v: V, nFlags: Flag)
      modifies this
      ensures Now() == Do(States, old(Now()), Call.Write(k, v, nFlags))
    {
      if nFlags.MEMPOOL? {
        SetValue(k, v);
        return;
      } else if nFlags.MINER? {
        if pMiner.Some? {
          pMiner := Some(pMiner.value[k := v]);
        }
        return;
      } else if nFlags.BLOCK? || nFlags.ERASE? {
        if k in pCommit {
          if pCommit[k] == v || nFlags.ERASE? {
            Drop(k);
          }
        }
        if nFlags.ERASE? {
          return;
        }
      }
      disk := disk[k := v];
    }

    /** `LedgerDB::WriteClaimed`. */
    method WriteClaimed(k: K, v: V, nFlags: Flag)
      modifies this
      ensures Now() == Do(Claims, old(Now()), Call.Write(k, v, nFlags))
    {
      if nFlags.MEMPOOL? || nFlags.ERASE? {
        SetValue(k, v);
        return;
      } else if nFlags.MINER? {
        if pMiner.Some? {
          pMiner := Some(pMiner.value[k := v]);
        }
        return;
      } else if nFlags.BLOCK? {
        if k in pCommit {
          if pCommit[k] == v {
            Drop(k);
          }
        }
      }
      disk := disk[k := v];
    }

    /** `EraseContract`, `EraseProof` and `EraseState`; the result is that of the database below. */
    method EraseValue(k: K, nFlags: Flag, ghost kind: Kind) returns (ok: bool)
      modifies this
      ensures Now() == Do(kind, old(Now()), Call.Erase(k, nFlags))
      ensures !ok <==> !nFlags.MEMPOOL? && !nFlags.ERASE? && k !in old(disk)
    {
      if nFlags.MEMPOOL? {
        Drop(k);
        return true;
      } else if nFlags.BLOCK? || nFlags.ERASE? {
        if k in pCommit {
          Drop(k);
        }
        if nFlags.ERASE? {
          return true;
        }
      }
      ok := k in disk;
      disk := disk - {k};
    }

    /** `ReadContract`, `ReadState` and `ReadClaimed`, which differ in the flags that look into memory. */
    method ReadValue(k: K, nFlags: Flag, kind: Kind) returns (v: Option<V>)
      ensures v == Read(kind, Now(), k, nFlags)
    {
      if nFlags.MEMPOOL? || (kind.States? && nFlags.LOOKUP?) || (kind.Claims? && nFlags.ERASE?) {
        if pMemory.Some? && k in pMemory.value.values {
          return Some(pMemory.value.values[k]);
        }
        if k in pCommit {
          return Some(pCommit[k]);
        }
      } else if nFlags.MINER? {
        if pMiner.Some? && k in pMiner.value {
          return Some(pMiner.value[k]);
        }
      }
      return if k in disk then Some(disk[k]) else None;
    }
  }
}
