/**
  The doubly linked list that the caches thread through their nodes, from the most to the
  least recently used.
 */
module NodeList {

  class Node<T> {
    var pprev: Node?<T>
    var pnext: Node?<T>
    var item: T
    /** Where the owning cache keeps the node. */
    ghost const slot: nat

    constructor (item: T, ghost slot: nat)
      ensures this.item == item && this.slot == slot
      ensures pprev == null && pnext == null
    {
      this.item := item;
      pprev, pnext := null, null;
      this.slot := slot;
    }
  }

  // ----- the list

  ghost predicate Distinct<T>(l: seq<Node<T>>)
  {
    forall i, j | 0 <= i < j < |l| :: l[i] != l[j]
  }

  /** `l` is the chain from `first` along `pnext`, and back along `pprev`. */
  ghost predicate Linked<T>(l: seq<Node<T>>)
    reads l`pprev, l`pnext
  {
    && Distinct(l)
    && (forall i {:trigger l[i].pnext} | 0 <= i < |l| :: l[i].pnext == Nth(l, i + 1))
    && (forall i {:trigger l[i].pprev} | 0 <= i < |l| :: l[i].pprev == Nth(l, i - 1))
  }

  ghost function Nth<T>(l: seq<Node<T>>, i: int): (n: Node?<T>)
  {
    if 0 <= i < |l| then l[i] else null
  }

  /** The first pointer is exact; the last one may still be null while there is one node. */
  ghost predicate Ends<T>(l: seq<Node<T>>, first: Node?<T>, last: Node?<T>)
  {
    && first == Nth(l, 0)
    && (last == Nth(l, |l| - 1) || (last == null && |l| <= 1))
  }

  ghost function Without<T>(l: seq<Node<T>>, k: nat): (r: seq<Node<T>>)
    requires k < |l|
  {
    l[..k] + l[k + 1..]
  }

  /** The links of every node but `k` skip node `k`. */
  ghost predicate Skips<T>(l: seq<Node<T>>, k: nat)
    requires k < |l|
    reads l
  {
    && Distinct(l)
    && (forall i {:trigger l[i].pnext} | 0 <= i < |l| && i != k :: l[i].pnext == Nth(l, if i == k - 1 then k + 1 else i + 1))
    && (forall i {:trigger l[i].pprev} | 0 <= i < |l| && i != k :: l[i].pprev == Nth(l, if i == k + 1 then k - 1 else i - 1))
  }

  /** Linked, except that the neighbours of node `k` may skip it already. */
  ghost predicate HalfLinked<T>(l: seq<Node<T>>, k: nat)
    requires k < |l|
    reads l
  {
    && Distinct(l)
    && (forall i {:trigger l[i].pnext} | 0 <= i < |l| :: l[i].pnext == Nth(l, i + 1) || (i == k - 1 && l[i].pnext == Nth(l, k + 1)))
    && (forall i {:trigger l[i].pprev} | 0 <= i < |l| :: l[i].pprev == Nth(l, i - 1) || (i == k + 1 && l[i].pprev == Nth(l, k - 1)))
  }

  lemma WithoutNth<T>(l: seq<Node<T>>, k: nat, i: int)
    requires k < |l|
    ensures Nth(Without(l, k), i) == Nth(l, if i < k then i else i + 1)
  {
  }

  lemma WithoutDistinct<T>(l: seq<Node<T>>, k: nat)
    requires k < |l| && Distinct(l)
    ensures Distinct(Without(l, k))
  {
  }

  lemma WithoutMembers<T>(l: seq<Node<T>>, k: nat)
    requires k < |l| && Distinct(l)
    ensures forall n :: n in Without(l, k) <==> n in l && n != l[k]
  {
    forall n | n in l && n != l[k]
      ensures n in Without(l, k)
    {
      var i :| 0 <= i < |l| && l[i] == n;
      assert Without(l, k)[if i < k then i else i - 1] == n;
    }
  }

  lemma SkipsLinked<T>(l: seq<Node<T>>, k: nat)
    requires k < |l| && Skips(l, k)
    ensures Linked(Without(l, k))
  {
    WithoutDistinct(l, k);
    var w := Without(l, k);
    hide Distinct, Without, Nth;
    forall i | 0 <= i < |w|
      ensures w[i].pnext == Nth(w, i + 1) && w[i].pprev == Nth(w, i - 1)
    {
      SkipsAt(l, k, i);
    }
  }

  lemma SkipsAt<T>(l: seq<Node<T>>, k: nat, i: nat)
    requires k < |l| && Skips(l, k) && i < |Without(l, k)|
    ensures var w := Without(l, k); w[i].pnext == Nth(w, i + 1) && w[i].pprev == Nth(w, i - 1)
  {
    WithoutNth(l, k, i - 1);
    WithoutNth(l, k, i);
    WithoutNth(l, k, i + 1);
    var j := if i < k then i else i + 1;
    assert Without(l, k)[i] == l[j];
    hide Without;
    assert l[j].pnext == Nth(l, if j == k - 1 then k + 1 else j + 1);
    assert l[j].pprev == Nth(l, if j == k + 1 then k - 1 else j - 1);
  }

  lemma EndsWithout<T>(l: seq<Node<T>>, k: nat, first: Node?<T>, last: Node?<T>)
    requires k < |l| && Ends(l, first, last) && Distinct(l)
    ensures Ends(Without(l, k), if l[k] == first then Nth(l, k + 1) else first, if l[k] == last then Nth(l, k - 1) else last)
  {
  }

  /** The list after removing `pthis`; position -1 stands for a node that is in no list. */
  ghost function Removed<T>(l: seq<Node<T>>, k: int): (r: seq<Node<T>>)
    requires -1 <= k < |l|
  {
    if k < 0 then l else Without(l, k)
  }

  ghost predicate Position<T>(l: seq<Node<T>>, pthis: Node<T>, k: int)
    reads pthis
  {
    && -1 <= k < |l|
    && (k < 0 ==> pthis !in l && pthis.pprev == null && pthis.pnext == null)
    && (k >= 0 ==> l[k] == pthis)
  }

  lemma PositionRange<T>(l: seq<Node<T>>, pthis: Node<T>, k: int)
    requires Position(l, pthis, k)
    ensures -1 <= k < |l|
  {
  }

  lemma AlreadyFirst<T>(l: seq<Node<T>>, first: Node?<T>, last: Node?<T>, pthis: Node<T>, k: int)
    requires Linked(l) && Ends(l, first, last) && Position(l, pthis, k)
    ensures pthis == first ==> k == 0 && l == [pthis] + Removed(l, k)
  {
  }

  lemma RemovedMembers<T>(l: seq<Node<T>>, pthis: Node<T>, k: int)
    requires Distinct(l) && -1 <= k < |l| && (if k < 0 then pthis !in l else l[k] == pthis)
    ensures forall n :: n in Removed(l, k) <==> n in l && n != pthis
  {
    if k >= 0 {
      WithoutMembers(l, k);
    }
  }

  lemma RemovedTotal<T>(l: seq<Node<T>>, k: int, size: T -> nat)
    requires -1 <= k < |l|
    ensures Total(Removed(l, k), size) == Total(l, size) - (if k < 0 then 0 else size(l[k].item))
  {
    hide Total, Without;
    if k >= 0 {
      TotalWithout(l, k, size);
    }
  }

  lemma RemovedNone<T>(l: seq<Node<T>>)
    ensures Removed(l, -1) == l
  {
  }

  lemma RemovedAt<T>(l: seq<Node<T>>, k: nat)
    requires k < |l|
    ensures Removed(l, k) == Without(l, k)
  {
  }

  lemma RemovedAbsent<T>(l: seq<Node<T>>, pthis: Node<T>, k: int)
    requires Distinct(l) && -1 <= k < |l| && (if k < 0 then pthis !in l else l[k] == pthis)
    ensures pthis !in Removed(l, k) && forall n | n in Removed(l, k) :: n in l
  {
  }

  /** The sizes of the items of a list. */
  ghost function Total<T>(l: seq<Node<T>>, size: T -> nat): (n: nat)
    reads l`item
  {
    if l == [] then 0 else size(l[0].item) + Total(l[1..], size)
  }

  lemma {:induction false} TotalAppend<T>(a: seq<Node<T>>, b: seq<Node<T>>, size: T -> nat)
    ensures Total(a + b, size) == Total(a, size) + Total(b, size)
  {
    if a == [] {
      assert a + b == b;
    } else {
      assert (a + b)[1..] == a[1..] + b;
      TotalAppend(a[1..], b, size);
    }
  }

  lemma TotalWithout<T>(l: seq<Node<T>>, k: nat, size: T -> nat)
    requires k < |l|
    ensures Total(l, size) == Total(Without(l, k), size) + size(l[k].item)
  {
    hide Total;
    TotalOne(l[k], size);
    assert l == l[..k] + ([l[k]] + l[k + 1..]);
    TotalAppend(l[..k], [l[k]] + l[k + 1..], size);
    TotalAppend([l[k]], l[k + 1..], size);
    TotalAppend(l[..k], l[k + 1..], size);
  }

  lemma TotalOne<T>(n: Node<T>, size: T -> nat)
    ensures Total([n], size) == size(n.item)
  {
    assert [n][1..] == [];
  }

  lemma FrontTotal<T>(l: seq<Node<T>>, k: nat, size: T -> nat)
    requires k < |l|
    ensures Total([l[k]] + Without(l, k), size) == Total(l, size)
  {
    TotalWithout(l, k, size);
    TotalAppend([l[k]], Without(l, k), size);
  }

  /** Linked but for the last node, whose predecessor no longer leads to it. */
  ghost predicate CutAt<T>(l: seq<Node<T>>)
    requires |l| >= 2
    reads l`pprev, l`pnext
  {
    && Distinct(l)
    && (forall i {:trigger l[i].pnext} | 0 <= i < |l| - 1 :: l[i].pnext == if i == |l| - 2 then null else Nth(l, i + 1))
    && (forall i {:trigger l[i].pprev} | 0 <= i < |l| - 1 :: l[i].pprev == Nth(l, i - 1))
  }

  lemma CutLinked<T>(l: seq<Node<T>>)
    requires |l| >= 2 && CutAt(l)
    ensures Linked(l[..|l| - 1])
  {
  }

  lemma LastTotal<T>(l: seq<Node<T>>, size: T -> nat)
    requires |l| >= 2
    ensures Total(l[1..], size) == Total(l[1..|l| - 1], size) + size(l[|l| - 1].item)
  {
    assert l[1..] == l[1..|l| - 1] + [l[|l| - 1]];
    TotalAppend(l[1..|l| - 1], [l[|l| - 1]], size);
  }

  lemma SameMembers<T>(a: seq<Node<T>>, b: seq<Node<T>>)
    requires multiset(a) == multiset(b)
    ensures forall n :: n in a <==> n in b
  {
    assert forall n :: n in a <==> n in multiset(a);
    assert forall n :: n in b <==> n in multiset(b);
  }

  lemma FrontMultiset<T>(l: seq<Node<T>>, k: nat)
    requires k < |l|
    ensures multiset([l[k]] + Without(l, k)) == multiset(l)
  {
    assert l == l[..k] + [l[k]] + l[k + 1..];
  }

  // ----- what the list holds, newest first

  datatype Cell<T> = Cell(slot: nat, item: T)

  ghost function CellOf<T>(n: Node<T>): (c: Cell<T>)
    reads n`item
  {
    Cell(n.slot, n.item)
  }

  ghost function Cells<T>(l: seq<Node<T>>): (c: seq<Cell<T>>)
    reads l`item
    ensures |c| == |l| && forall i | 0 <= i < |l| :: c[i] == CellOf(l[i])
  {
    if l == [] then [] else [CellOf(l[0])] + Cells(l[1..])
  }

  /** Without the cells of a slot. */
  function Off<T>(c: seq<Cell<T>>, s: nat): (r: seq<Cell<T>>)
  {
    if c == [] then [] else (if c[0].slot == s then [] else [c[0]]) + Off(c[1..], s)
  }

  function Sum<T>(c: seq<Cell<T>>, size: T -> nat): (n: nat)
  {
    if c == [] then 0 else size(c[0].item) + Sum(c[1..], size)
  }

  /** The longest beginning whose data fits a budget. */
  function Kept<T>(c: seq<Cell<T>>, size: T -> nat, budget: int): (r: seq<Cell<T>>)
  {
    if c == [] || Sum(c, size) <= budget then c else Kept(c[..|c| - 1], size, budget)
  }

  /** What is kept fits, and with the next element it would not. */
  lemma {:induction false} KeptLongest<T>(c: seq<Cell<T>>, size: T -> nat, budget: int)
    ensures var r := Kept(c, size, budget);
            && r <= c && (r != [] ==> Sum(r, size) <= budget)
            && (|r| < |c| ==> Sum(c[..|r| + 1], size) > budget)
  {
    if c != [] && Sum(c, size) > budget {
      var n := |c| - 1;
      KeptLongest(c[..n], size, budget);
      var r := Kept(c[..n], size, budget);
      if |r| < n {
        assert c[..n][..|r| + 1] == c[..|r| + 1];
      } else {
        assert c[..|r| + 1] == c;
      }
    }
  }

  lemma {:induction false} KeptFirst<T>(c: seq<Cell<T>>, size: T -> nat, budget: int)
    requires c != [] && size(c[0].item) <= budget
    ensures Kept(c, size, budget) != [] && Kept(c, size, budget)[0] == c[0]
  {
    if |c| == 1 {
      assert c == [c[0]] && c[1..] == [];
      assert Sum(c, size) == size(c[0].item) + Sum(c[1..], size);
    } else if Sum(c, size) > budget {
      KeptFirst(c[..|c| - 1], size, budget);
    }
  }

  lemma NothingKept<T>(s: nat, size: T -> nat, budget: int)
    ensures Off<T>([], s) == [] && Kept([], size, budget) == []
  {
  }

  lemma OffFirst<T>(c: seq<Cell<T>>, s: nat)
    requires c != [] && c[0].slot != s
    ensures Off(c, s) != [] && Off(c, s)[0] == c[0]
  {
  }

  lemma KeptShorter<T>(c: seq<Cell<T>>, size: T -> nat, n: nat, budget: int)
    requires 2 <= n <= |c| && Sum(c[..n][1..], size) > budget
    ensures Kept(c[1..n], size, budget) == Kept(c[1..n - 1], size, budget)
  {
    assert c[..n][1..] == c[1..n] && c[1..n][..n - 2] == c[1..n - 1];
  }

  lemma KeptWhole<T>(c: seq<Cell<T>>, size: T -> nat, n: nat, budget: int)
    requires 1 <= n <= |c| && Sum(c[..n][1..], size) <= budget
    ensures Kept(c[1..n], size, budget) == c[1..n]
  {
    assert c[..n][1..] == c[1..n];
  }

  lemma {:induction false} OffNone<T>(c: seq<Cell<T>>, s: nat)
    requires forall i | 0 <= i < |c| :: c[i].slot != s
    ensures Off(c, s) == c
  {
    if c != [] {
      OffNone(c[1..], s);
    }
  }

  lemma {:induction false} OffAt<T>(c: seq<Cell<T>>, k: nat)
    requires k < |c| && forall i | 0 <= i < |c| && i != k :: c[i].slot != c[k].slot
    ensures Off(c, c[k].slot) == c[..k] + c[k + 1..]
  {
    if k == 0 {
      OffNone(c[1..], c[0].slot);
    } else {
      OffAt(c[1..], k - 1);
      assert c[..k] + c[k + 1..] == [c[0]] + (c[1..][..k - 1] + c[1..][k..]);
    }
  }

  lemma {:induction false} CellsSum<T>(l: seq<Node<T>>, size: T -> nat)
    ensures Sum(Cells(l), size) == Total(l, size)
  {
    if l != [] {
      CellsSum(l[1..], size);
      assert Cells(l)[1..] == Cells(l[1..]);
    }
  }

  /** The cells after a node was taken out and the others kept their items. */
  lemma CellsWithout<T>(l: seq<Node<T>>, c: seq<Cell<T>>, k: nat)
    requires k < |l| == |c| && forall i | 0 <= i < |l| && i != k :: c[i] == CellOf(l[i])
    ensures Cells(Without(l, k)) == c[..k] + c[k + 1..]
  {
    var w, d := Without(l, k), c[..k] + c[k + 1..];
    hide Cells;
    forall i | 0 <= i < |w|
      ensures d[i] == CellOf(w[i])
    {
      assert w[i] == if i < k then l[i] else l[i + 1];
      assert d[i] == if i < k then c[i] else c[i + 1];
    }
    CellsSame(w, d);
  }

  /** Taking out the one node of a slot. */
  lemma CellsDropped<T>(l: seq<Node<T>>, c: seq<Cell<T>>, k: nat)
    requires k < |l| == |c| && forall i | 0 <= i < |l| && i != k :: c[i] == CellOf(l[i]) && c[i].slot != c[k].slot
    ensures Cells(Removed(l, k)) == Off(c, c[k].slot)
  {
    RemovedAt(l, k);
    CellsWithout(l, c, k);
    OffAt(c, k);
  }

  lemma CellsSame<T>(l: seq<Node<T>>, c: seq<Cell<T>>)
    requires |l| == |c| && forall i | 0 <= i < |l| :: c[i] == CellOf(l[i])
    ensures Cells(l) == c
  {
  }

  class LinkedNodes<T> {
    var pfirst: Node?<T>
    var plast: Node?<T>
    ghost var l: seq<Node<T>>

    ghost predicate Valid()
      reads this, l`pprev, l`pnext
    {
      Linked(l) && Ends(l, pfirst, plast)
    }

    lemma AllDistinct()
      requires Valid()
      ensures Distinct(l)
    {
    }

    constructor ()
      ensures Valid() && l == []
    {
      pfirst, plast := null, null;
      l := [];
    }

    /** Unlink a node; a node that is in no list is left alone. */
    method RemoveNode(pthis: Node<T>, ghost k: int)
      requires Valid() && Position(l, pthis, k)
      modifies this`pfirst, this`plast, this`l, l`pprev, l`pnext, pthis`pprev, pthis`pnext
      ensures Valid() && l == Removed(old(l), k)
      ensures pthis.pprev == null && pthis.pnext == null
    {
      hide HalfLinked, Skips, Ends, Linked, Without, Position;
      assert -1 <= k < |l| by { PositionRange(l, pthis, k); }
      RelinkEnds(pthis, k);
      Bypass(pthis, k);
      if k >= 0 {
        SkipsLinked(l, k);
        l := Without(l, k);
      }
    }

    /** Link the neighbours of the node to each other and the node to none. */
    method Bypass(pthis: Node<T>, ghost k: int)
      requires Position(l, pthis, k)
      requires if k < 0 then Linked(l) else HalfLinked(l, k)
      modifies l`pprev, l`pnext, pthis`pprev, pthis`pnext
      ensures pthis.pprev == null && pthis.pnext == null
      ensures if k < 0 then Linked(l) else Skips(l, k)
    {
      if k >= 0 {
        assert pthis.pnext == Nth(l, k + 1) && pthis.pprev == Nth(l, k - 1);
      }
      if pthis.pnext != null {
        pthis.pnext.pprev := pthis.pprev;
      }
      if pthis.pprev != null {
        pthis.pprev.pnext := pthis.pnext;
      }
      pthis.pnext := null;
      pthis.pprev := null;
    }

    /** Move the end pointers off the node, cutting the link that led to it. */
    method RelinkEnds(pthis: Node<T>, ghost k: int)
      requires Valid() && Position(l, pthis, k)
      modifies this`pfirst, this`plast, l`pprev, l`pnext
      ensures Position(l, pthis, k) && Ends(Removed(l, k), pfirst, plast)
      ensures if k < 0 then Linked(l) else HalfLinked(l, k)
    {
      if k >= 0 {
        EndsWithout(l, k, pfirst, plast);
        assert pthis.pnext == Nth(l, k + 1) && pthis.pprev == Nth(l, k - 1);
      }
      if pthis == plast {
        plast := plast.pprev;
        if plast != null {
          assert k >= 1 && plast == l[k - 1] && k == |l| - 1;
          plast.pnext := null;
        }
      }
      if pthis == pfirst {
        pfirst := pfirst.pnext;
        if pfirst != null {
          assert k == 0 && pfirst == l[1];
          pfirst.pprev := null;
        }
      }
    }

    method MoveToFront(pthis: Node<T>, ghost k: int)
      requires Valid() && Position(l, pthis, k)
      modifies this`pfirst, this`plast, this`l, l`pprev, l`pnext, pthis`pprev, pthis`pnext
      ensures Valid() && l == [pthis] + Removed(old(l), k)
    {
      AlreadyFirst(l, pfirst, plast, pthis, k);
      ghost var l0 := l;
      assert Distinct(l0);
      hide Linked, Ends, Removed, Distinct;
      if pthis == pfirst {
        return;
      }
      RemoveNode(pthis, k);
      RemovedAbsent(l0, pthis, k);
      LinkFront(pthis);
    }

    method LinkFront(pthis: Node<T>)
      requires Valid() && pthis !in l
      modifies this`pfirst, this`plast, this`l, l`pprev, l`pnext, pthis`pprev, pthis`pnext
      ensures Valid() && l == [pthis] + old(l)
    {
      pthis.pprev := null;
      pthis.pnext := pfirst;
      if pfirst != null {
        pfirst.pprev := pthis;
        if plast == null {
          plast := pfirst;
          plast.pnext := null;
        }
      }
      pfirst := pthis;
      l := [pthis] + l;
    }

    method CutLast(pnode: Node<T>)
      requires Valid() && |l| >= 2 && pnode == plast
      modifies this`plast, this`l, l`pprev, l`pnext
      ensures Valid() && old(l) == l + [pnode]
      ensures forall n :: n in l <==> n in old(l) && n != pnode
      ensures pnode.pprev == null && pnode.pnext == null
    {
      ghost var l0, m := l, |l| - 1;
      plast := plast.pprev;
      if plast != null {
        plast.pnext := null;
      }
      pnode.pprev := null;
      pnode.pnext := null;
      l := l[..m];
      CutLinked(l0);
      hide Linked, CutAt;
      assert l0 == l + [pnode];
    }
  }
}
