/**
  The event lists of `LedgerDB`: a 32-bit sequence counter per address and one index entry
  per event, which together form a stack of transaction ids.
 */
module Events {
  import opened Wrappers
  import opened Store

  datatype EventKey = EventKey(address: nat, index: nat)

  class EventLog {
    var sequence: map<nat, nat>
    var events: map<EventKey, nat>
    /** The transactions an event can be an index of. */
    var txs: set<nat>

    function Count(a: nat): (n: nat)
      reads this
    {
      if a in sequence then sequence[a] else 0
    }

    /** An address has exactly the events below its counter. */
    ghost predicate Stacked(a: nat)
      reads this
    {
      Count(a) < 0x1_0000_0000 && forall i: nat :: EventKey(a, i) in events <==> i < Count(a)
    }

    ghost function Stack(a: nat): (l: seq<nat>)
      requires Stacked(a)
      reads this
      ensures |l| == Count(a)
    {
      seq(Count(a), i requires 0 <= i < Count(a) && EventKey(a, i) in events reads this => events[EventKey(a, i)])
    }

    constructor ()
      ensures forall a :: Stacked(a) && Stack(a) == []
    {
      sequence, events, txs := map[], map[], {};
    }

    /**
      A known transaction is pushed; an unknown one is refused, but the counter has moved already. This is
      the call outside a transaction: inside one the index is only logged and the call succeeds, and a
      transaction still unknown at the commit makes the commit fail in its last pass.
    */
    method WriteEvent(a: nat, hashTx: nat) returns (ok: bool)
      requires forall b :: Stacked(b)
      requires Count(a) + 1 < 0x1_0000_0000
      modifies this`sequence, this`events
      ensures ok <==> hashTx in txs
      ensures ok ==> Stacked(a) && Stack(a) == old(Stack(a)) + [hashTx]
      ensures forall b | b != a :: Stacked(b) && Stack(b) == old(Stack(b))
      ensures !ok ==> Count(a) == old(Count(a)) + 1 && !Stacked(a)
    {
      assert Stacked(a);
      var nSequence := Count(a);
      sequence := sequence[a := (nSequence + 1) % 0x1_0000_0000];
      ok := hashTx in txs;
      assert EventKey(a, nSequence) !in events;
      if ok {
        events := events[EventKey(a, nSequence) := hashTx];
      }
      forall b | b != a
        ensures Stacked(b) && Stack(b) == old(Stack(b))
      {
        assert old(Stacked(b));
      }
    }

    /** The last event is popped. After the last one is gone a further erase makes the counter wrap. */
    method EraseEvent(a: nat) returns (ok: bool)
      requires forall b :: Stacked(b)
      modifies this`sequence, this`events
      ensures ok <==> old(Count(a)) > 0
      ensures ok ==> Stacked(a) && Stack(a) == old(Stack(a))[..old(Count(a)) - 1]
      ensures Stacked(a) <==> old(Count(a)) > 0 || a !in old(sequence)
      ensures !ok && a !in old(sequence) ==> Stack(a) == []
      ensures forall b | b != a :: Stacked(b) && Stack(b) == old(Stack(b))
    {
      assert Stacked(a);
      if a !in sequence {
        return false;
      }
      var nSequence: int := sequence[a];
      var n: nat := (nSequence + 0xffff_ffff) % 0x1_0000_0000;
      sequence := sequence[a := n];
      ok := EventKey(a, n) in events;
      events := events - {EventKey(a, n)};
      assert Count(a) == n;
      forall b | b != a
        ensures Stacked(b) && Stack(b) == old(Stack(b))
      {
        assert old(Stacked(b));
      }
      assert nSequence == 0 ==> EventKey(a, 0) !in events && n > 0;
    }

    /** The last event of an address, none when there is no event. */
    method ReadLastEvent(a: nat) returns (ok: bool, hashLast: Option<nat>)
      requires Stacked(a)
      ensures ok
      ensures hashLast == if Stack(a) == [] then None else Some(Stack(a)[|Stack(a)| - 1])
    {
      var nSequence := Count(a);
      if nSequence > 0 {
        if EventKey(a, nSequence - 1) in events {
          return true, Some(events[EventKey(a, nSequence - 1)]);
        }
        return false, None;
      }
      return true, None;
    }
  }

  /** An erase takes back what the write before it did. */
  method WriteErase(log: EventLog, a: nat, hashTx: nat)
    requires forall b :: log.Stacked(b)
    requires log.Count(a) + 1 < 0x1_0000_0000 && hashTx in log.txs
    modifies log`sequence, log`events
    ensures forall b :: log.Stacked(b) && log.Stack(b) == old(log.Stack(b))
  {
    var written := log.WriteEvent(a, hashTx);
    var erased := log.EraseEvent(a);
  }
}
