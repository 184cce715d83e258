/**
  The buffered write mode of `SectorDatabase`: any number of writers calling `Put`, and the
  `CacheWriter` thread that swaps the buffer and flushes it, as steps in any interleaving.
 */
module DiskBuffer {
  import opened Wrappers
  import opened Store

  const MAX_SECTOR_BUFFER_SIZE: nat := 1024 * 1024 * 4

  datatype Put = Put(key: Key, data: Bytes)

  datatype Writer = Checking | Waiting | Swapping | Flushing(batch: seq<Put>) | Exited

  /** `puts` is the history of completed pushes; `admitted` counts callers past the full-buffer gate. */
  datatype State = State(
    vDiskBuffer: seq<Put>,
    nBufferBytes: nat,
    fDestruct: bool,
    admitted: nat,
    writer: Writer,
    store: Store,
    flushed: seq<Put>,
    puts: seq<Put>)

  function Size(p: Put): (n: nat)
  {
    |p.key| + |p.data|
  }

  function Sum(ps: seq<Put>): (n: nat)
  {
    if ps == [] then 0 else Sum(ps[..|ps| - 1]) + Size(ps[|ps| - 1])
  }

  /** The store after the same records were forced one after the other. */
  function Forced(s: Store, ps: seq<Put>): (s': Store)
  {
    if ps == [] then s else Forced(s, ps[..|ps| - 1]).Force(ps[|ps| - 1].key, ps[|ps| - 1].data)
  }

  function InHand(s: State): (ps: seq<Put>)
  {
    if s.writer.Flushing? then s.writer.batch else []
  }

  ghost predicate Init(s: State, s0: Store)
  {
    s == State([], 0, false, 0, Checking, s0, [], [])
  }

  // ----- the steps

  /** A caller finds the buffer below its limit, or the database closing. */
  ghost predicate Admit(s: State, s': State)
  {
    && (s.fDestruct || s.nBufferBytes < MAX_SECTOR_BUFFER_SIZE)
    && s' == s.(admitted := s.admitted + 1)
  }

  /** The locked section of `Put`; the byte counter has 32 bits. */
  ghost predicate Push(s: State, s': State, p: Put)
  {
    && s.admitted > 0
    && s' == s.(
         admitted := s.admitted - 1,
         vDiskBuffer := s.vDiskBuffer + [p],
         nBufferBytes := (s.nBufferBytes + Size(p)) % 0x1_0000_0000,
         puts := s.puts + [p])
  }

  ghost predicate Destruct(s: State, s': State)
  {
    s' == s.(fDestruct := true)
  }

  ghost predicate Write(s: State, s': State)
  {
    match s.writer
    case Checking => s' == s.(writer := if s.fDestruct && s.nBufferBytes == 0 then Exited else Waiting)
    case Waiting => (s.fDestruct || s.nBufferBytes > 0) && s' == s.(writer := Swapping)
    case Swapping => s' == s.(writer := Flushing(s.vDiskBuffer), vDiskBuffer := [], nBufferBytes := 0)
    case Flushing(batch) =>
      if batch == [] then s' == s.(writer := Checking)
      else s' == s.(
             writer := Flushing(batch[1..]),
             store := s.store.Force(batch[0].key, batch[0].data),
             flushed := s.flushed + [batch[0]])
    case Exited => false
  }

  ghost predicate Next(s: State, s': State)
  {
    Admit(s, s') || (exists p :: Push(s, s', p)) || Destruct(s, s') || Write(s, s')
  }

  ghost predicate Behaviour(b: seq<State>, s0: Store)
  {
    b != [] && Init(b[0], s0) && forall i | 0 <= i < |b| - 1 :: Next(b[i], b[i + 1])
  }

  // ----- nothing is lost or reordered

  predicate InOrder(flushed: seq<Put>, batch: seq<Put>, buffer: seq<Put>, puts: seq<Put>)
  {
    flushed + batch + buffer == puts
  }

  /** The counter has 32 bits. */
  predicate Counted(n: nat, ps: seq<Put>)
  {
    n == Sum(ps) % 0x1_0000_0000
  }

  ghost predicate Inv(s: State, s0: Store)
  {
    && InOrder(s.flushed, InHand(s), s.vDiskBuffer, s.puts)
    && Counted(s.nBufferBytes, s.vDiskBuffer)
    && s.store == Forced(s0, s.flushed)
  }

  lemma SumSnoc(ps: seq<Put>, p: Put)
    ensures Sum(ps + [p]) == Sum(ps) + Size(p)
  {
    assert (ps + [p])[..|ps|] == ps;
  }

  lemma ForcedSnoc(s: Store, ps: seq<Put>, p: Put)
    ensures Forced(s, ps + [p]) == Forced(s, ps).Force(p.key, p.data)
  {
    assert (ps + [p])[..|ps|] == ps;
  }

  lemma InvPush(s: State, s': State, p: Put, s0: Store)
    requires Inv(s, s0) && Push(s, s', p)
    ensures Inv(s', s0)
  {
    hide InOrder, Counted, Forced, Size;
    OrderPush(s.flushed, InHand(s), s.vDiskBuffer, s.puts, p);
    CountPush(s.nBufferBytes, s.vDiskBuffer, p);
  }

  lemma OrderPush(flushed: seq<Put>, batch: seq<Put>, buffer: seq<Put>, puts: seq<Put>, p: Put)
    requires InOrder(flushed, batch, buffer, puts)
    ensures InOrder(flushed, batch, buffer + [p], puts + [p])
  {
  }

  lemma CountPush(n: nat, ps: seq<Put>, p: Put)
    requires Counted(n, ps)
    ensures Counted((n + Size(p)) % 0x1_0000_0000, ps + [p])
  {
    SumSnoc(ps, p);
    hide Sum, Size;
    AddWrap(n, Sum(ps), Size(p));
  }

  lemma AddWrap(a: nat, x: nat, y: nat)
    requires a == x % 0x1_0000_0000
    ensures (a + y) % 0x1_0000_0000 == (x + y) % 0x1_0000_0000
  {
  }

  lemma InvFlush(s: State, s': State, s0: Store)
    requires Inv(s, s0) && Write(s, s') && s.writer.Flushing? && s.writer.batch != []
    ensures Inv(s', s0)
  {
    hide InOrder, Counted, Forced, Store.Force, Store.Fits;
    ForcedSnoc(s0, s.flushed, s.writer.batch[0]);
    OrderFlush(s.flushed, s.writer.batch, s.vDiskBuffer, s.puts);
  }

  /** A record goes from those in hand to those flushed. */
  lemma OrderFlush(flushed: seq<Put>, batch: seq<Put>, buffer: seq<Put>, puts: seq<Put>)
    requires batch != [] && InOrder(flushed, batch, buffer, puts)
    ensures InOrder(flushed + [batch[0]], batch[1..], buffer, puts)
  {
    assert flushed + [batch[0]] + batch[1..] == flushed + batch;
  }

  /** The whole buffer goes in hand. */
  lemma OrderSwap(flushed: seq<Put>, buffer: seq<Put>, puts: seq<Put>)
    requires InOrder(flushed, [], buffer, puts)
    ensures InOrder(flushed, buffer, [], puts)
  {
    assert flushed + [] + buffer == flushed + buffer + [];
  }

  lemma CountNone()
    ensures Counted(0, [])
  {
  }

  lemma InvOther(s: State, s': State, s0: Store)
    requires Inv(s, s0) && s'.puts == s.puts && s'.flushed == s.flushed && s'.store == s.store
    requires
      || (InHand(s') == InHand(s) && s'.vDiskBuffer == s.vDiskBuffer && s'.nBufferBytes == s.nBufferBytes)
      || (InHand(s) == [] && InHand(s') == s.vDiskBuffer && s'.vDiskBuffer == [] && s'.nBufferBytes == 0)
    ensures Inv(s', s0)
  {
    hide InOrder, Counted, Forced, InHand;
    CountNone();
    if InHand(s) == [] {
      OrderSwap(s.flushed, s.vDiskBuffer, s.puts);
    }
  }

  lemma InvNext(s: State, s': State, s0: Store)
    requires Inv(s, s0) && Next(s, s')
    ensures Inv(s', s0)
  {
    hide Inv, Size;
    if p :| Push(s, s', p) {
      InvPush(s, s', p, s0);
    } else if Write(s, s') && s.writer.Flushing? && s.writer.batch != [] {
      InvFlush(s, s', s0);
    } else {
      InvOther(s, s', s0);
    }
  }

  /** In every interleaving: flushed, then in hand, then buffered is the sequence of puts, and the store holds the flushed ones. */
  lemma {:induction false} Kept(b: seq<State>, s0: Store, n: nat)
    requires Behaviour(b, s0) && n < |b|
    ensures Inv(b[n], s0)
  {
    if n > 0 {
      Kept(b, s0, n - 1);
      assert Next(b[n - 1], b[n - 1 + 1]);
      InvNext(b[n - 1], b[n], s0);
    }
  }

  lemma {:induction false} SumZero(ps: seq<Put>)
    requires forall p | p in ps :: p.key != []
    ensures Sum(ps) == 0 <==> ps == []
  {
    if ps != [] {
      assert ps[|ps| - 1] in ps;
    }
  }

  /** The writer leaves with records still buffered exactly when their sizes add up to a multiple of 2^32. */
  lemma ExitEmpty(b: seq<State>, s0: Store, n: nat)
    requires Behaviour(b, s0) && n + 1 < |b| && !b[n].writer.Exited? && b[n + 1].writer.Exited?
    requires forall p | p in b[n].vDiskBuffer :: p.key != []
    ensures b[n + 1].vDiskBuffer == [] <==> Sum(b[n].vDiskBuffer) < 0x1_0000_0000
  {
    Kept(b, s0, n);
    assert Next(b[n], b[n + 1]);
    SumZero(b[n].vDiskBuffer);
  }

  lemma Extended(b: seq<State>, s0: Store, s: State)
    requires Behaviour(b, s0) && Next(b[|b| - 1], s)
    ensures Behaviour(b + [s], s0)
  {
    hide Next;
    forall i | 0 <= i < |b|
      ensures Next((b + [s])[i], (b + [s])[i + 1])
    {
      if i < |b| - 1 {
        assert Next(b[i], b[i + 1]);
      }
    }
  }

  /** Once the database closes, any records at all can be put before the writer looks again. */
  lemma {:induction false} Filled(s0: Store, ps: seq<Put>) returns (b: seq<State>)
    ensures Behaviour(b, s0)
    ensures b[|b| - 1] == State(ps, Sum(ps) % 0x1_0000_0000, true, 0, Checking, s0, [], ps)
  {
    if ps == [] {
      var s := State([], 0, false, 0, Checking, s0, [], []);
      b := [s, s.(fDestruct := true)];
      assert Destruct(b[0], b[1]);
    } else {
      var n := |ps| - 1;
      var c := Filled(s0, ps[..n]);
      var s := c[|c| - 1];
      var s1 := s.(admitted := 1);
      assert Admit(s, s1);
      Extended(c, s0, s1);
      var s2 := State(ps, Sum(ps) % 0x1_0000_0000, true, 0, Checking, s0, [], ps);
      assert ps[..n] + [ps[n]] == ps;
      AddWrap(s.nBufferBytes, Sum(ps[..n]), Size(ps[n]));
      assert Push(s1, s2, ps[n]);
      Extended(c + [s1], s0, s2);
      b := c + [s1] + [s2];
    }
  }

  /** Records whose sizes add up to a multiple of 2^32 can all be left behind by the writer. */
  lemma LeftBehind(s0: Store, ps: seq<Put>) returns (b: seq<State>)
    requires Sum(ps) % 0x1_0000_0000 == 0
    ensures Behaviour(b, s0) && b[|b| - 1].writer.Exited?
    ensures b[|b| - 1].vDiskBuffer == b[|b| - 1].puts == ps && b[|b| - 1].store == s0
  {
    var c := Filled(s0, ps);
    var s := c[|c| - 1].(writer := Exited);
    assert Write(c[|c| - 1], s);
    Extended(c, s0, s);
    b := c + [s];
  }

  /** When the writer has left an empty buffer, the store is that of the same puts forced one by one. */
  lemma SameAsForced(b: seq<State>, s0: Store, n: nat)
    requires Behaviour(b, s0) && n < |b| && b[n].writer.Exited? && b[n].vDiskBuffer == []
    ensures b[n].store == Forced(s0, b[n].puts) && b[n].flushed == b[n].puts
  {
    Kept(b, s0, n);
    assert b[n].flushed + InHand(b[n]) + b[n].vDiskBuffer == b[n].flushed;
  }

  // ----- how full the buffer gets

  /** At most `t` callers at a time and records of at most `r` bytes. */
  ghost predicate Limited(b: seq<State>, t: nat, r: nat)
  {
    && (forall i | 0 <= i < |b| :: b[i].admitted <= t && !b[i].fDestruct)
    && (forall i, p | 0 <= i < |b| && p in b[i].puts :: Size(p) <= r)
  }

  ghost predicate Bounded(s: State, t: nat, r: nat)
  {
    Within(Sum(s.vDiskBuffer), s.admitted, t, r)
  }

  predicate Within(sum: nat, a: nat, t: nat, r: nat)
  {
    sum + a * r < MAX_SECTOR_BUFFER_SIZE + t * r
  }

  /** While the database is open the buffer exceeds its limit by less than one record per caller, so the counter never wraps. */
  lemma {:induction false} BufferBound(b: seq<State>, s0: Store, t: nat, r: nat, n: nat)
    requires Behaviour(b, s0) && Limited(b, t, r) && n < |b|
    requires MAX_SECTOR_BUFFER_SIZE + t * r <= 0x1_0000_0000
    ensures Bounded(b[n], t, r)
    ensures b[n].nBufferBytes == Sum(b[n].vDiskBuffer) < MAX_SECTOR_BUFFER_SIZE + t * r
  {
    Kept(b, s0, n);
    if n == 0 {
      MulMono(0, t, r);
    } else {
      BufferBound(b, s0, t, r, n - 1);
      assert Next(b[n - 1], b[n - 1 + 1]);
      hide Next;
      BoundedNext(b[n - 1], b[n], t, r);
    }
    hide Behaviour;
    Unwrapped(b[n], s0, t, r);
  }

  lemma Unwrapped(s: State, s0: Store, t: nat, r: nat)
    requires Inv(s, s0) && Bounded(s, t, r) && MAX_SECTOR_BUFFER_SIZE + t * r <= 0x1_0000_0000
    ensures s.nBufferBytes == Sum(s.vDiskBuffer) < MAX_SECTOR_BUFFER_SIZE + t * r
  {
    MulMono(0, s.admitted, r);
  }

  lemma BoundedNext(s: State, s': State, t: nat, r: nat)
    requires Bounded(s, t, r) && Next(s, s') && s'.admitted <= t && !s'.fDestruct
    requires s.nBufferBytes == Sum(s.vDiskBuffer)
    requires forall p | p in s'.puts :: Size(p) <= r
    ensures Bounded(s', t, r)
  {
    assert Sum([]) == 0;
    hide Sum, Size;
    if p :| Push(s, s', p) {
      assert p == s'.puts[|s.puts|];
      BoundedPush(s, s', p, t, r);
    } else if Admit(s, s') {
      MulMono(s'.admitted, t, r);
    } else {
      assert s'.admitted == s.admitted;
    }
  }

  /** A push takes one caller away and adds one record to the buffer and to the history. */
  lemma PushAdds(s: State, s': State, p: Put)
    requires Push(s, s', p)
    ensures s.admitted > 0 && s'.admitted == s.admitted - 1 && p in s'.puts
    ensures Sum(s'.vDiskBuffer) == Sum(s.vDiskBuffer) + Size(p)
  {
    SumSnoc(s.vDiskBuffer, p);
    assert p == s'.puts[|s.puts|];
  }

  lemma BoundedPush(s: State, s': State, p: Put, t: nat, r: nat)
    requires Bounded(s, t, r) && Push(s, s', p) && Size(p) <= r
    ensures Bounded(s', t, r)
  {
    hide Within, Sum, Size;
    PushAdds(s, s', p);
    PushBound(Sum(s.vDiskBuffer), Size(p), s.admitted, t, r);
  }

  /** One record of at most `r` bytes more and one caller fewer stay within the bound. */
  lemma PushBound(sum: nat, size: nat, a: nat, t: nat, r: nat)
    requires a > 0 && size <= r && Within(sum, a, t, r)
    ensures Within(sum + size, a - 1, t, r)
  {
    OneLess(a, r);
  }

  lemma MulMono(a: nat, b: nat, r: nat)
    requires a <= b
    ensures 0 <= a * r <= b * r
  {
    assert b * r - a * r == (b - a) * r;
  }

  lemma OneLess(a: int, r: int)
    ensures (a - 1) * r == a * r - r
  {
  }
}
