/**
  One bucket of a `BinaryHashTree`: a search tree laid out by heap numbering, one node
  per file, with the keys that are smaller than a node's key in its odd child.
 */
module SearchTree {
  import opened Wrappers
  import opened Store
  import opened Keychain
  import opened KeyOrder

  type FullKey = s: Bytes | |s| == HASHMAP_MAX_KEY_SIZE witness seq(HASHMAP_MAX_KEY_SIZE, _ => 0)

  /** The difference of the first bytes that differ, or 0. */
  function Compare(a: Bytes, b: Bytes): (n: int)
    requires |a| == |b|
    ensures n == 0 <==> a == b
  {
    if a == [] then 0
    else if a[0] != b[0] then a[0] - b[0]
    else Compare(a[1..], b[1..])
  }

  datatype Node = Node(key: FullKey, header: Header)

  /** The occupied positions of a bucket. */
  type Tree = map<nat, Node>

  /** Every occupied position but the first hangs below an occupied one. */
  ghost predicate Rooted(t: Tree)
  {
    0 !in t && forall i | i in t && i > 1 :: i / 2 in t
  }

  function Child(i: nat, larger: bool): (j: nat)
    ensures j / 2 == i
  {
    2 * i + if larger then 1 else 0
  }

  function From(t: Tree, i: nat): (s: set<nat>)
  {
    set j | j in t && j >= i
  }

  /** The position where the walk for a key stops: its own node or the first free position. */
  function Walk(t: Tree, k: FullKey, i: nat): (p: nat)
    requires i > 0
    ensures p >= i
    ensures p in t ==> t[p].key == k
    decreases |From(t, i)|
  {
    if i !in t || t[i].key == k then i
    else
      var j := Child(i, Compare(t[i].key, k) > 0);
      FromShrinks(t, i, j);
      Walk(t, k, j)
  }

  lemma FromShrinks(t: Tree, i: nat, j: nat)
    requires i in t && i < j
    ensures |From(t, j)| < |From(t, i)|
  {
    assert From(t, j) <= From(t, i) - {i};
    SubsetSize(From(t, j), From(t, i) - {i});
  }

  lemma {:induction false} SubsetSize<T>(a: set<T>, b: set<T>)
    requires a <= b
    ensures |a| <= |b|
  {
    if a != {} {
      var x :| x in a;
      SubsetSize(a - {x}, b - {x});
    }
  }

  function Get(t: Tree, k: FullKey): (h: Option<Header>)
  {
    var p := Walk(t, k, 1);
    if p in t && t[p].header[0] == READY then Some(t[p].header) else None
  }

  /** A lookup finds the node where the walk ends, if it has the key and its state is 1. */
  lemma GetIs(t: Tree, k: FullKey, h: Header)
    ensures Get(t, k) == Some(h) <==> Walk(t, k, 1) in t && t[Walk(t, k, 1)] == Node(k, h) && h[0] == 1
  {
  }

  function Put(t: Tree, k: FullKey, h: Header): (t': Tree)
  {
    t[Walk(t, k, 1) := Node(k, h)]
  }

  // ----- the walk after a write

  /** A node added at a free position ends no walk early; a walk that stopped there goes one step further. */
  lemma {:induction false} WalkPut(t: Tree, p: nat, n: Node, k: FullKey, i: nat)
    requires Rooted(t) && i > 0 && n.key != k
    requires p in t ==> t[p].key == n.key
    ensures var t' := t[p := n];
            Walk(t', k, i) == if Walk(t, k, i) == p then Child(p, Compare(n.key, k) > 0) else Walk(t, k, i)
    decreases |From(t, i)|
  {
    var t' := t[p := n];
    if i in t && t[i].key != k {
      var j := Child(i, Compare(t[i].key, k) > 0);
      FromShrinks(t, i, j);
      WalkPut(t, p, n, k, j);
      assert t'[i].key == t[i].key;
      FromShrinks(t', i, j);
    } else if i == p {
      var j := Child(p, Compare(n.key, k) > 0);
      FromShrinks(t', p, j);
      if p in t {
        assert false;
      }
      assert j !in t;
    }
  }

  /** Every node is where the walk for its key ends. */
  ghost predicate Consistent(t: Tree)
  {
    Rooted(t) && forall i | i in t :: Walk(t, t[i].key, 1) == i
  }

  /** The walk for `k` ends at a free position below an occupied one, or at the root. */
  lemma {:induction false} WalkRooted(t: Tree, k: FullKey, i: nat)
    requires i > 0 && (i > 1 ==> i / 2 in t)
    ensures var p := Walk(t, k, i); p > 1 ==> p / 2 in t
    decreases |From(t, i)|
  {
    if i in t && t[i].key != k {
      var j := Child(i, Compare(t[i].key, k) > 0);
      FromShrinks(t, i, j);
      WalkRooted(t, k, j);
    }
  }

  /** The walk for the key just written ends where it was written. */
  lemma {:induction false} WalkOwn(t: Tree, k: FullKey, h: Header, i: nat)
    requires i > 0
    ensures var p := Walk(t, k, i); Walk(t[p := Node(k, h)], k, i) == p
    decreases |From(t, i)|
  {
    var p := Walk(t, k, i);
    var t' := t[p := Node(k, h)];
    if i in t && t[i].key != k {
      var j := Child(i, Compare(t[i].key, k) > 0);
      FromShrinks(t, i, j);
      WalkOwn(t, k, h, j);
      assert p > i && t'[i] == t[i];
      FromShrinks(t', i, j);
    }
  }

  lemma PutConsistent(t: Tree, k: FullKey, h: Header)
    requires Consistent(t)
    ensures Consistent(Put(t, k, h))
  {
    var p := Walk(t, k, 1);
    var t' := Put(t, k, h);
    WalkRooted(t, k, 1);
    forall i | i in t'
      ensures Walk(t', t'[i].key, 1) == i
    {
      if i == p {
        WalkOwn(t, k, h, 1);
      } else {
        WalkPut(t, p, Node(k, h), t[i].key, 1);
      }
    }
  }

  lemma GetPut(t: Tree, k: FullKey, h: Header)
    requires h[0] == READY
    ensures Get(Put(t, k, h), k) == Some(h)
  {
    WalkOwn(t, k, h, 1);
  }

  lemma PutOthers(t: Tree, k: FullKey, h: Header, j: FullKey)
    requires Consistent(t) && j != k
    ensures Get(Put(t, k, h), j) == Get(t, j)
  {
    var p := Walk(t, k, 1);
    WalkPut(t, p, Node(k, h), j, 1);
    if Walk(t, j, 1) == p {
      var c := Child(p, Compare(k, j) > 0);
      assert p !in t;
      assert c !in t;
    }
  }

  // ----- the order of the keys

  /** The keys of one length compare by the first byte in which they differ. */
  lemma {:induction false} CompareIs(a: Bytes, b: Bytes)
    requires |a| == |b|
    ensures Compare(a, b) > 0 <==> exists i: nat :: SmallerAt(b, a, i)
    ensures Compare(a, b) < 0 <==> exists i: nat :: SmallerAt(a, b, i)
  {
    if a != [] {
      LexCons(a, b);
      LexCons(b, a);
      CompareIs(a[1..], b[1..]);
      hide SmallerAt;
    } else {
      assert forall i: nat :: !SmallerAt(a, b, i) && !SmallerAt(b, a, i);
    }
  }

  /** Position `j` is `i` or lies below it: its number, halved some times, is `i`. */
  predicate Under(j: nat, i: nat)
  {
    j == i || (j > i && Under(j / 2, i))
  }

  /** Of two positions above a third one the deeper lies below the other. */
  lemma {:induction false} UnderBoth(p: nat, a: nat, b: nat)
    requires Under(p, a) && Under(p, b) && a >= b
    ensures Under(a, b)
    decreases p
  {
    if p != a {
      UnderBoth(p / 2, a, b);
    }
  }

  /** A walk stays below the positions it visits, and at each goes to the odd child for a smaller key. */
  lemma {:induction false} WalkUnder(t: Tree, k: FullKey, i: nat)
    requires i > 0
    ensures Under(Walk(t, k, i), i)
    decreases |From(t, i)|
  {
    if i in t && t[i].key != k {
      var j := Child(i, Compare(t[i].key, k) > 0);
      FromShrinks(t, i, j);
      WalkUnder(t, k, j);
      UnderParent(Walk(t, k, j), j);
    }
  }

  lemma {:induction false} UnderParent(p: nat, j: nat)
    requires Under(p, j) && j > 1
    ensures Under(p, j / 2)
    decreases p
  {
    if p != j {
      UnderParent(p / 2, j);
    }
  }

  lemma {:induction false} WalkSide(t: Tree, k: FullKey, x: nat, i: nat)
    requires x > 0 && i in t && Under(i, x)
    requires var p := Walk(t, k, x); p > i && Under(p, i)
    ensures var p := Walk(t, k, x);
            && t[i].key != k
            && (Under(p, 2 * i + 1) <==> Compare(t[i].key, k) > 0)
            && (Under(p, 2 * i) <==> Compare(t[i].key, k) < 0)
    decreases |From(t, x)|
  {
    var p := Walk(t, k, x);
    WalkUnder(t, k, x);
    assert x in t && t[x].key != k;
    var j := Child(x, Compare(t[x].key, k) > 0);
    FromShrinks(t, x, j);
    WalkUnder(t, k, j);
    if x == i {
      if Under(p, 2 * i) && Under(p, 2 * i + 1) {
        UnderBoth(p, 2 * i + 1, 2 * i);
      }
    } else {
      assert i > x;
      if j > i {
        UnderBoth(p, j, i);
      }
      UnderBoth(p, i, j);
      WalkSide(t, k, j, i);
    }
  }

  /**
    Below the odd child of a node are smaller keys, below its even child larger ones, byte by byte: the keys of
    a bucket are in search order.
   */
  lemma SearchOrder(t: Tree, i: nat, j: nat)
    requires Consistent(t) && i in t && j in t && j > i > 0 && Under(j, i)
    ensures Under(j, 2 * i + 1) <==> exists n: nat :: SmallerAt(t[j].key, t[i].key, n)
    ensures Under(j, 2 * i) <==> exists n: nat :: SmallerAt(t[i].key, t[j].key, n)
  {
    Rooting(i);
    WalkSide(t, t[j].key, 1, i);
    CompareIs(t[i].key, t[j].key);
  }

  lemma {:induction false} Rooting(i: nat)
    requires i > 0
    ensures Under(i, 1)
  {
    if i > 1 {
      Rooting(i / 2);
    }
  }

  // ----- runs

  datatype Write = Write(key: FullKey, header: Header)

  function Run(w: seq<Write>): (t: Tree)
  {
    if w == [] then map[] else Put(Run(w[..|w| - 1]), w[|w| - 1].key, w[|w| - 1].header)
  }

  function Last(w: seq<Write>, k: FullKey): (h: Option<Header>)
  {
    if w == [] then None
    else if w[|w| - 1].key == k then Some(w[|w| - 1].header)
    else Last(w[..|w| - 1], k)
  }

  /** The keys written, each once. */
  function KeysOf(w: seq<Write>): (s: set<FullKey>)
  {
    set x | x in w :: x.key
  }

  /** The tree of any run is a map from each key to what was last written for it. */
  lemma {:induction false} RunGet(w: seq<Write>, k: FullKey)
    requires forall x | x in w :: x.header[0] == READY
    ensures Consistent(Run(w)) && Get(Run(w), k) == Last(w, k)
  {
    if w != [] {
      var rest, x := w[..|w| - 1], w[|w| - 1];
      assert x in w && forall y | y in rest :: y in w;
      RunGet(rest, k);
      PutConsistent(Run(rest), x.key, x.header);
      if x.key == k {
        GetPut(Run(rest), k, x.header);
      } else {
        PutOthers(Run(rest), x.key, x.header, k);
      }
    }
  }

  ghost predicate Reached(t: Tree, k: FullKey)
  {
    Walk(t, k, 1) in t
  }

  /** The nodes hold exactly these keys, each once. */
  ghost predicate Holds(t: Tree, keys: set<FullKey>)
  {
    && (forall i | i in t :: t[i].key in keys)
    && (forall k {:trigger Reached(t, k)} | k in keys :: Reached(t, k))
    && |t| == |keys|
  }

  lemma PutKeepsKey(t: Tree, k: FullKey, h: Header, j: FullKey)
    requires Consistent(t) && (j == k || Walk(t, j, 1) in t)
    ensures Walk(Put(t, k, h), j, 1) in Put(t, k, h)
  {
    WalkOwn(t, k, h, 1);
    if j != k {
      WalkPut(t, Walk(t, k, 1), Node(k, h), j, 1);
    }
  }

  lemma PutSize(t: Tree, k: FullKey, h: Header)
    ensures |Put(t, k, h)| == if Walk(t, k, 1) in t then |t| else |t| + 1
  {
    var p := Walk(t, k, 1);
    hide Walk;
    assert Put(t, k, h).Keys == t.Keys + {p};
  }

  lemma PutHolds(t: Tree, keys: set<FullKey>, k: FullKey, h: Header)
    requires Consistent(t) && Holds(t, keys)
    ensures Holds(Put(t, k, h), keys + {k})
  {
    hide Reached, Put, Consistent, Walk;
    forall j | j in keys + {k}
      ensures Reached(Put(t, k, h), j)
    {
      assert j != k ==> Reached(t, j);
      PutReaches(t, k, h, j);
    }
    PutNodes(t, k, h);
    PutSize(t, k, h);
    FoundKey(t, keys, k);
    AddedSize(keys, k);
  }

  lemma PutReaches(t: Tree, k: FullKey, h: Header, j: FullKey)
    requires Consistent(t) && (j == k || Reached(t, j))
    ensures Reached(Put(t, k, h), j)
  {
    PutKeepsKey(t, k, h, j);
  }

  /** Every node after a write was there before, or has the key written. */
  lemma PutNodes(t: Tree, k: FullKey, h: Header)
    ensures forall i | i in Put(t, k, h) :: Put(t, k, h)[i].key == k || (i in t && Put(t, k, h)[i] == t[i])
  {
    hide Walk;
  }

  lemma FoundKey(t: Tree, keys: set<FullKey>, k: FullKey)
    requires Holds(t, keys)
    ensures Walk(t, k, 1) in t <==> k in keys
  {
    assert k in keys ==> Reached(t, k);
  }

  lemma AddedSize<T>(s: set<T>, x: T)
    ensures |s + {x}| == if x in s then |s| else |s| + 1
  {
    assert x in s ==> s + {x} == s;
  }

  /** There is exactly one node for each key written. */
  lemma {:induction false} RunKeys(w: seq<Write>)
    requires forall x | x in w :: x.header[0] == READY
    ensures Holds(Run(w), KeysOf(w))
  {
    if w == [] {
      assert KeysOf(w) == {};
    } else {
      var rest, x := w[..|w| - 1], w[|w| - 1];
      assert w == rest + [x];
      assert KeysOf(w) == KeysOf(rest) + {x.key};
      RunKeys(rest);
      RunGet(rest, x.key);
      PutHolds(Run(rest), KeysOf(rest), x.key, x.header);
    }
  }

  // ----- how far a walk goes

  /** The number of positions a walk visits. */
  function Steps(t: Tree, k: FullKey, i: nat): (n: nat)
    requires i > 0
    ensures n >= 1
    decreases |From(t, i)|
  {
    if i !in t || t[i].key == k then 1
    else
      var j := Child(i, Compare(t[i].key, k) > 0);
      FromShrinks(t, i, j);
      1 + Steps(t, k, j)
  }

  lemma {:induction false} StepsBound(t: Tree, k: FullKey, i: nat)
    requires i > 0
    ensures Steps(t, k, i) <= |From(t, i)| + 1
    decreases |From(t, i)|
  {
    if i in t && t[i].key != k {
      var j := Child(i, Compare(t[i].key, k) > 0);
      FromShrinks(t, i, j);
      StepsBound(t, k, j);
    }
  }

  /** A walk is at most one longer than the number of keys in the bucket. */
  lemma WalkLength(t: Tree, k: FullKey)
    ensures Steps(t, k, 1) <= |t| + 1
  {
    StepsBound(t, k, 1);
    SubsetSize(From(t, 1), t.Keys);
  }
}
