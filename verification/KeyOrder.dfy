/** The order in which the containers of a transaction are walked: byte by byte. */
module KeyOrder {
  import opened Wrappers
  import opened Store

  predicate LexLe(a: Key, b: Key)
  {
    a == [] || (b != [] && (a[0] < b[0] || (a[0] == b[0] && LexLe(a[1..], b[1..]))))
  }

  /** The first position at which two keys differ is `i`, and `a` has the smaller byte there. */
  ghost predicate SmallerAt(a: Key, b: Key, i: nat)
  {
    i < |a| && i < |b| && a[..i] == b[..i] && a[i] < b[i]
  }

  /** A key comes first when it is a beginning of the other, or has the smaller byte where they first differ. */
  lemma {:induction false} LexIs(a: Key, b: Key)
    ensures LexLe(a, b) <==> a <= b || exists i: nat :: SmallerAt(a, b, i)
  {
    if a != [] && b != [] {
      LexIs(a[1..], b[1..]);
      LexCons(a, b);
    }
  }

  /** Both conditions, one byte further on. */
  lemma LexCons(a: Key, b: Key)
    requires a != [] && b != []
    ensures a <= b <==> a[0] == b[0] && a[1..] <= b[1..]
    ensures (exists i: nat :: SmallerAt(a, b, i)) <==> a[0] < b[0] || (a[0] == b[0] && exists i: nat :: SmallerAt(a[1..], b[1..], i))
  {
    assert a == [a[0]] + a[1..] && b == [b[0]] + b[1..];
    if i: nat :| SmallerAt(a, b, i) {
      if i > 0 {
        assert a[..i][0] == b[..i][0] && a[1..][..i - 1] == a[..i][1..] && b[1..][..i - 1] == b[..i][1..];
        assert SmallerAt(a[1..], b[1..], i - 1);
      }
    }
    if a[0] < b[0] {
      assert SmallerAt(a, b, 0);
    }
    if i: nat :| a[0] == b[0] && SmallerAt(a[1..], b[1..], i) {
      assert a[..i + 1] == [a[0]] + a[1..][..i] && b[..i + 1] == [b[0]] + b[1..][..i];
      assert SmallerAt(a, b, i + 1);
    }
  }

  lemma {:induction false} LexTotal(a: Key, b: Key)
    ensures LexLe(a, b) || LexLe(b, a)
  {
    if a != [] && b != [] && a[0] == b[0] {
      LexTotal(a[1..], b[1..]);
    }
  }

  lemma {:induction false} LexTrans(a: Key, b: Key, c: Key)
    requires LexLe(a, b) && LexLe(b, c)
    ensures LexLe(a, c)
  {
    if a != [] && a[0] == b[0] && b[0] == c[0] {
      LexTrans(a[1..], b[1..], c[1..]);
    }
  }

  lemma {:induction false} LexAntisym(a: Key, b: Key)
    requires LexLe(a, b) && LexLe(b, a)
    ensures a == b
  {
    if a != [] {
      LexAntisym(a[1..], b[1..]);
      assert a == [a[0]] + a[1..] && b == [b[0]] + b[1..];
    }
  }

  predicate IsLeast(m: Key, s: set<Key>)
  {
    m in s && forall x | x in s :: LexLe(m, x)
  }

  lemma {:induction false} LeastExists(s: set<Key>)
    requires s != {}
    ensures exists m :: IsLeast(m, s)
    decreases |s|
  {
    var x :| x in s;
    if s == {x} {
      LexTotal(x, x);
      assert IsLeast(x, s);
    } else {
      LeastExists(s - {x});
      var m :| IsLeast(m, s - {x});
      LexTotal(m, x);
      if LexLe(m, x) {
        assert IsLeast(m, s);
      } else {
        forall y | y in s
          ensures LexLe(x, y)
        {
          if y == x {
            LexTotal(x, x);
          } else {
            LexTrans(x, m, y);
          }
        }
        assert IsLeast(x, s);
      }
    }
  }

  lemma LeastUnique(m: Key, m': Key, s: set<Key>)
    requires IsLeast(m, s) && IsLeast(m', s)
    ensures m == m'
  {
    LexAntisym(m, m');
  }

  ghost function Least(s: set<Key>): (m: Key)
    requires s != {}
    ensures IsLeast(m, s)
  {
    LeastExists(s);
    var m :| IsLeast(m, s);
    m
  }

  /** Earlier in the walk. */
  predicate Less(a: Key, b: Key)
  {
    a != b && LexLe(a, b)
  }

  lemma LessTotal(a: Key, b: Key)
    ensures a == b || (Less(a, b) && !Less(b, a)) || (Less(b, a) && !Less(a, b))
  {
    LexTotal(a, b);
    if LexLe(a, b) && LexLe(b, a) {
      LexAntisym(a, b);
    }
  }

  lemma LessTrans(a: Key, b: Key, c: Key)
    requires Less(a, b) && Less(b, c)
    ensures Less(a, c)
  {
    LexTrans(a, b, c);
    LessTotal(a, b);
  }

  /** Records in the order of their keys. */
  ghost predicate Sorted(p: seq<Record>)
  {
    forall i, j | 0 <= i < j < |p| :: Less(p[i].key, p[j].key)
  }

  lemma SortedApart(p: seq<Record>, i: nat, j: nat)
    requires Sorted(p) && i < |p| && j < |p|
    ensures p[i].key == p[j].key <==> i == j
    ensures Less(p[i].key, p[j].key) <==> i < j
  {
    if i < j {
      assert Less(p[i].key, p[j].key);
    } else if j < i {
      assert Less(p[j].key, p[i].key);
    }
    LessTotal(p[i].key, p[j].key);
  }
}
