/**
  One bucket of a keychain: slots in the order they were allocated, each free or holding a
  key. A key is looked up from the newest slot on, so it may have older copies.
 */
module Chain {
  import opened Wrappers

  datatype Cell<K, V> = Free | Held(key: K, value: V)

  /** The newest slot with a property, or -1. */
  function Newest<S>(c: seq<S>, p: S -> bool): (i: int)
    ensures -1 <= i < |c|
    ensures i >= 0 ==> p(c[i])
    ensures forall j | i < j < |c| :: !p(c[j])
  {
    if c == [] then -1
    else if p(c[|c| - 1]) then |c| - 1
    else Newest(c[..|c| - 1], p)
  }

  /** `Newest` is the only such position. */
  lemma NewestIs<S>(c: seq<S>, p: S -> bool, i: int)
    requires -1 <= i < |c|
    requires i >= 0 ==> p(c[i])
    requires forall j | i < j < |c| :: !p(c[j])
    ensures Newest(c, p) == i
  {
  }

  lemma NewestSnoc<S>(c: seq<S>, x: S, p: S -> bool)
    ensures Newest(c + [x], p) == if p(x) then |c| else Newest(c, p)
  {
    assert (c + [x])[..|c|] == c;
  }

  predicate Holds<K(==), V>(x: Cell<K, V>, k: K)
  {
    x.Held? && x.key == k
  }

  function Holding<K(==), V>(k: K): (p: Cell<K, V> -> bool)
  {
    (x: Cell<K, V>) => Holds(x, k)
  }

  function Usable<K(==), V>(k: K): (p: Cell<K, V> -> bool)
  {
    (x: Cell<K, V>) => x.Free? || Holds(x, k)
  }

  function Find<K(==), V>(c: seq<Cell<K, V>>, k: K): (v: Option<V>)
  {
    var i := Newest(c, Holding(k));
    if i < 0 then None else Some(c[i].value)
  }

  /** A write takes the newest slot that is free or holds the key, else a new one. */
  function Put<K(==), V>(c: seq<Cell<K, V>>, k: K, v: V): (c': seq<Cell<K, V>>)
  {
    var i := Newest(c, Usable(k));
    if i < 0 then c + [Held(k, v)] else c[i := Held(k, v)]
  }

  /** An erase frees the newest slot that holds the key, and that one only. */
  function Erase<K(==), V>(c: seq<Cell<K, V>>, k: K): (c': seq<Cell<K, V>>)
  {
    var i := Newest(c, Holding(k));
    if i < 0 then c else c[i := Free]
  }

  /** How many slots have a property. */
  function Count<S>(c: seq<S>, p: S -> bool): (n: nat)
  {
    if c == [] then 0 else Count(c[..|c| - 1], p) + (if p(c[|c| - 1]) then 1 else 0)
  }

  function Copies<K(==), V>(c: seq<Cell<K, V>>, k: K): (n: nat)
  {
    Count(c, Holding(k))
  }

  lemma PutAt<K, V>(c: seq<Cell<K, V>>, k: K, v: V, i: int)
    requires -1 <= i < |c| && (i >= 0 ==> Usable(k)(c[i])) && forall j | i < j < |c| :: !Usable(k)(c[j])
    ensures Put(c, k, v) == if i < 0 then c + [Held(k, v)] else c[i := Held(k, v)]
  {
    hide Newest;
    NewestIs(c, Usable(k), i);
  }

  lemma EraseAt<K, V>(c: seq<Cell<K, V>>, k: K, i: nat)
    requires i < |c| && Holding(k)(c[i]) && forall j | i < j < |c| :: !Holding(k)(c[j])
    ensures Erase(c, k) == c[i := Free]
  {
    hide Newest;
    NewestIs(c, Holding(k), i);
  }

  // ----- lookups after one operation

  lemma FindPut<K, V>(c: seq<Cell<K, V>>, k: K, v: V)
    ensures Find(Put(c, k, v), k) == Some(v)
  {
    var i := Newest(c, Usable(k));
    NewestIs(Put(c, k, v), Holding(k), if i < 0 then |c| else i);
  }

  lemma FindSlot<K, V>(c: seq<Cell<K, V>>, i: nat, x: Cell<K, V>, j: K)
    requires i < |c| && !Holds(c[i], j) && !Holds(x, j)
    ensures Find(c[i := x], j) == Find(c, j)
  {
    NewestIs(c[i := x], Holding(j), Newest(c, Holding(j)));
  }

  lemma FindPutOther<K, V>(c: seq<Cell<K, V>>, k: K, v: V, j: K)
    requires j != k
    ensures Find(Put(c, k, v), j) == Find(c, j)
  {
    var i := Newest(c, Usable(k));
    if i < 0 {
      NewestIs(c + [Held(k, v)], Holding(j), Newest(c, Holding(j)));
    } else {
      FindSlot(c, i, Held(k, v), j);
    }
  }

  lemma FindEraseOther<K, V>(c: seq<Cell<K, V>>, k: K, j: K)
    requires j != k
    ensures Find(Erase(c, k), j) == Find(c, j)
  {
    var i := Newest(c, Holding(k));
    if i >= 0 {
      FindSlot(c, i, Free, j);
    }
  }

  // ----- copies

  lemma {:induction false} NoneCounted<S>(c: seq<S>, p: S -> bool)
    ensures Newest(c, p) < 0 <==> Count(c, p) == 0
  {
    if c != [] && !p(c[|c| - 1]) {
      NoneCounted(c[..|c| - 1], p);
    }
  }

  lemma {:induction false} CountUpdate<S>(c: seq<S>, i: nat, x: S, p: S -> bool)
    requires i < |c|
    ensures Count(c[i := x], p) == Count(c, p) - (if p(c[i]) then 1 else 0) + (if p(x) then 1 else 0)
  {
    var c' := c[i := x];
    if i == |c| - 1 {
      assert c'[..|c| - 1] == c[..|c| - 1];
    } else {
      CountUpdate(c[..|c| - 1], i, x, p);
      assert c'[..|c| - 1] == c[..|c| - 1][i := x];
    }
  }

  lemma CountSnoc<S>(c: seq<S>, x: S, p: S -> bool)
    ensures Count(c + [x], p) == Count(c, p) + (if p(x) then 1 else 0)
  {
    assert (c + [x])[..|c|] == c;
  }

  lemma FoundExactly<K, V>(c: seq<Cell<K, V>>, k: K)
    ensures Find(c, k).None? <==> Copies(c, k) == 0
  {
    NoneCounted(c, Holding(k));
  }

  /** An erase takes one copy away. */
  lemma CopiesErase<K, V>(c: seq<Cell<K, V>>, k: K, j: K)
    ensures Copies(Erase(c, k), j) == if j == k && Copies(c, k) > 0 then Copies(c, k) - 1 else Copies(c, j)
  {
    FoundExactly(c, k);
    var i := Newest(c, Holding(k));
    if i >= 0 {
      CountUpdate(c, i, Free, Holding(j));
    }
  }

  /** A write leaves the copies of other keys alone; its own key gets one more unless its newest usable slot held it. */
  lemma CopiesPut<K, V>(c: seq<Cell<K, V>>, k: K, v: V, j: K)
    ensures var i := Newest(c, Usable(k));
            Copies(Put(c, k, v), j) == Copies(c, j) + (if j == k && !(i >= 0 && Holds(c[i], k)) then 1 else 0)
  {
    var i := Newest(c, Usable(k));
    if i < 0 {
      CountSnoc(c, Held(k, v), Holding(j));
    } else {
      CountUpdate(c, i, Held(k, v), Holding(j));
    }
  }

  /** After an erase a key is absent if and only if it had at most one copy. */
  lemma AbsentAfterErase<K, V>(c: seq<Cell<K, V>>, k: K)
    ensures Find(Erase(c, k), k).None? <==> Copies(c, k) <= 1
  {
    FoundExactly(Erase(c, k), k);
    CopiesErase(c, k, k);
  }
}
