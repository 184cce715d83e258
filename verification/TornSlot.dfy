/**
  A crash inside the write of a keychain entry. The slot is written first and the bucket's
  counter after it, so a beginning of the slot's bytes may be there, or the whole slot and a
  beginning of the counter.
 */
module TornSlot {
  import opened Wrappers
  import opened Store
  import opened ByteFile
  import C = Chain
  import opened Keychain
  import opened BinaryHashMap
  import opened SectorKeys
  import opened SectorDatabase

  /** The first `n` bytes of header and key over a slot. */
  function Torn(r: Slot, k: ShortKey, h: Header, n: nat): (r': Slot)
    requires n <= HEADER + |k|
  {
    (h + k)[..n] + r[n..]
  }

  function Max(a: nat, b: nat): (m: nat)
  {
    if a < b then b else a
  }

  // ----- a new slot and its counter

  /**
    A slot torn before it was counted: the counters still give the chains there were, and a write that
    extends the bucket with a key as long leaves the files it leaves when nothing was torn.
  */
  lemma UncountedSlot(files: seq<Bytes>, n: nat, counts: seq<nat>, b: nat, k: ShortKey, h: Header, m: nat, j: ShortKey, x: Header)
    requires FilesOf(files, n) && |counts| == n && b < n && counts[b] < |files|
    requires forall a | 0 <= a < n :: counts[a] <= |files|
    requires m <= HEADER + |k| && |j| >= |k|
    ensures var files' := files[counts[b] := Splice(files[counts[b]], HASHMAP_KEY_ALLOCATION * b, (h + k)[..m])];
            && FilesOf(files', n)
            && (forall a | 0 <= a < n :: ChainOf(files', n, a, counts[a]) == ChainOf(files, n, a, counts[a]))
            && WriteSlot(files', counts[b], b, j, x) == WriteSlot(files, counts[b], b, j, x)
  {
    var i, p := counts[b], HASHMAP_KEY_ALLOCATION * b;
    var f := files[i];
    var files' := files[i := Splice(f, p, (h + k)[..m])];
    forall a | 0 <= a < n
      ensures ChainOf(files', n, a, counts[a]) == ChainOf(files, n, a, counts[a])
    {
      forall l | 0 <= l < counts[a]
        ensures SlotAt(files', l, a) == SlotAt(files, l, a)
      {
        if l == i {
          assert a != b;
          OtherBytes(f, n, b, a, (h + k)[..m]);
        }
      }
    }
    assert Splice(Splice(f, p, (h + k)[..m]), p, x + j) == Splice(f, p, x + j);
  }

  lemma OtherBytes(f: Bytes, n: nat, b: nat, a: nat, d: Bytes)
    requires |f| == HASHMAP_KEY_ALLOCATION * n && b < n && a < n && a != b && |d| <= HASHMAP_KEY_ALLOCATION
    ensures var p := HASHMAP_KEY_ALLOCATION * a;
            Splice(f, HASHMAP_KEY_ALLOCATION * b, d)[p..p + HASHMAP_KEY_ALLOCATION] == f[p..p + HASHMAP_KEY_ALLOCATION]
  {
  }

  lemma TwoBytes(c: nat)
    requires c < 0x1_0000
    ensures LittleEndian(c, 2) == [c % 0x100, c / 0x100] && FromLittleEndian([c % 0x100, c / 0x100]) == c
  {
    assert LittleEndian(c / 0x100, 1) == [c / 0x100 % 0x100] + LittleEndian(c / 0x100 / 0x100, 0);
    FirstByte(c / 0x100, []);
    FirstByte(c % 0x100, [c / 0x100]);
  }

  lemma FirstByte(a: Byte, s: Bytes)
    ensures FromLittleEndian([a] + s) == a + 0x100 * FromLittleEndian(s)
  {
    assert ([a] + s)[1..] == s;
  }

  /** The number with the low byte of `c + 1` and the high byte of `c`. */
  lemma MixedBytes(c: nat)
    requires c < 0x7fff
    ensures var m := if c % 0x100 == 0xff then c - 0xff else c + 1;
            m < 0x1_0000 && m % 0x100 == (c + 1) % 0x100 && m / 0x100 == c / 0x100
  {
  }

  /**
    A counter torn between its two bytes is the new one, unless the low byte has just passed 255: then
    the bucket loses 255 slots and the new one.
  */
  lemma TornCounter(index: Bytes, counts: seq<nat>, b: nat)
    requires Indexed(index, counts) && b < |counts| && counts[b] < 0x7fff
    ensures var c := counts[b];
            var index' := index[2 * b := LittleEndian(c + 1, 2)[0]];
            && FromLittleEndian(index'[2 * b..2 * b + 2]) == (if c % 0x100 == 0xff then c - 0xff else c + 1)
            && forall a | 0 <= a < |counts| && a != b :: index'[2 * a..2 * a + 2] == LittleEndian(counts[a], 2)
  {
    hide LittleEndian, FromLittleEndian;
    var c := counts[b];
    var x := LittleEndian(c + 1, 2)[0];
    var index' := index[2 * b := x];
    assert index[2 * b..2 * b + 2] == LittleEndian(c, 2);
    assert index'[2 * b..2 * b + 2] == [x, index[2 * b..2 * b + 2][1]];
    forall a | 0 <= a < |counts| && a != b
      ensures index'[2 * a..2 * a + 2] == LittleEndian(counts[a], 2)
    {
      assert index'[2 * a..2 * a + 2] == index[2 * a..2 * a + 2];
    }
    TornTwoBytes(c);
  }

  lemma TornTwoBytes(c: nat)
    requires c < 0x7fff
    ensures FromLittleEndian([LittleEndian(c + 1, 2)[0], LittleEndian(c, 2)[1]]) == if c % 0x100 == 0xff then c - 0xff else c + 1
  {
    hide LittleEndian, FromLittleEndian;
    TwoBytes(c);
    TwoBytes(c + 1);
    MixedBytes(c);
    TwoBytes(if c % 0x100 == 0xff then c - 0xff else c + 1);
  }

  // ----- a slot of the chain, written over

  /** The key bytes not written yet are those of the key all the same. */
  predicate RestOfKey(r: Slot, k: ShortKey, n: nat)
    requires n <= HEADER + |k|
  {
    var m := Max(n, HEADER);
    r[m..HEADER + |k|] == k[m - HEADER..]
  }

  lemma Cut(s: Bytes, a: nat, m: nat, b: nat)
    requires a <= m <= b <= |s|
    ensures s[a..b] == s[a..m] + s[m..b]
  {
  }

  lemma TornMatches(r: Slot, k: ShortKey, h: Header, n: nat)
    requires n <= HEADER + |k|
    ensures Matches(Torn(r, k, h, n), k) <==> RestOfKey(r, k, n)
  {
    var t, m, e := Torn(r, k, h, n), Max(n, HEADER), HEADER + |k|;
    Cut(t, HEADER, m, e);
    Cut(k, 0, m - HEADER, |k|);
    assert k[0..|k|] == k;
    assert t[HEADER..m] == k[0..m - HEADER] by {
      assert t[..n] == (h + k)[..n];
    }
    assert t[m..e] == r[m..e];
  }

  lemma TornWritten(r: Slot, k: ShortKey, h: Header, n: nat, x: Header)
    requires n <= HEADER + |k|
    ensures Written(Torn(r, k, h, n), k, x) == Written(r, k, x)
  {
    assert Torn(r, k, h, n)[HEADER + |k|..] == r[HEADER + |k|..];
  }

  lemma MatchesRest(r: Slot, k: ShortKey, n: nat)
    requires n <= HEADER + |k| && Matches(r, k)
    ensures RestOfKey(r, k, n)
  {
    var m := Max(n, HEADER);
    assert r[m..HEADER + |k|] == r[HEADER..HEADER + |k|][m - HEADER..];
  }

  lemma TornUsable(r: Slot, k: ShortKey, h: Header, n: nat)
    requires n <= HEADER + |k| && h[0] == READY && Usable(k)(r)
    ensures Usable(k)(Torn(r, k, h, n)) <==> n == 0 || RestOfKey(r, k, n)
  {
    TornMatches(r, k, h, n);
    if n == 0 {
      assert Torn(r, k, h, n) == r;
    } else {
      assert Torn(r, k, h, n)[0] == READY;
    }
    hide Torn, Matches, RestOfKey;
  }

  /**
    A torn slot is written again, to the chain there would have been, if and only if nothing was written
    of it or the key bytes that were not are right already.
  */
  lemma TornPut(c: seq<Slot>, k: ShortKey, h: Header, n: nat, x: Header)
    requires C.Newest(c, Usable(k)) >= 0 && n <= HEADER + |k| && h[0] == READY
    ensures var i := C.Newest(c, Usable(k));
            Put(c[i := Torn(c[i], k, h, n)], k, x) == Put(c, k, x) <==> n == 0 || RestOfKey(c[i], k, n)
  {
    var i := C.Newest(c, Usable(k));
    var t := Torn(c[i], k, h, n);
    hide Torn, Written, C.Newest, RestOfKey, Matches, Empty;
    TornUsable(c[i], k, h, n);
    TornWritten(c[i], k, h, n, x);
    var c' := c[i := t];
    if Usable(k)(t) {
      C.NewestIs(c', Usable(k), i);
    } else {
      assert Put(c, k, x)[i] == Written(c[i], k, x);
      assert C.Newest(c', Usable(k)) != i;
      assert Put(c', k, x)[i] == t;
    }
  }

  lemma LiveSome(c: seq<Slot>, k: ShortKey, i: nat)
    requires i < |c| && Live(k)(c[i])
    ensures Get(c, k).Some?
  {
    hide Live;
  }

  lemma Stranger(t: Slot, k: ShortKey)
    requires Ready(t) && !Matches(t, k)
    ensures t[HEADER..HEADER + |k|] != k && Live(t[HEADER..HEADER + |k|])(t)
  {
  }

  /** Otherwise a key that nobody wrote is found, and still is after the key was written again. */
  lemma TornStranger(c: seq<Slot>, k: ShortKey, h: Header, n: nat, x: Header)
    requires C.Newest(c, Usable(k)) >= 0 && 0 < n <= HEADER + |k| && h[0] == READY
    requires !RestOfKey(c[C.Newest(c, Usable(k))], k, n)
    ensures var i := C.Newest(c, Usable(k));
            var c', j := c[i := Torn(c[i], k, h, n)], Torn(c[i], k, h, n)[HEADER..HEADER + |k|];
            j != k && Get(Put(c', k, x), j).Some?
  {
    hide RestOfKey, Put, Get, Matches, Live, Usable, C.Newest;
    var i := C.Newest(c, Usable(k));
    var t := Torn(c[i], k, h, n);
    assert Ready(t);
    hide Torn;
    TornMatches(c[i], k, h, n);
    Stranger(t, k);
    var c': seq<Slot>, j: ShortKey := c[i := t], t[HEADER..HEADER + |k|];
    LiveSome(c', j, i);
    PutOthers(c', k, x, j);
  }

  // ----- a record that moves to a new sector

  /** The fields of a header: state, key length, sector file, sector size and sector start. */
  function FileOf(h: Header): (n: nat)
  {
    FromLittleEndian(h[3..5])
  }

  function SizeOf(h: Header): (n: nat)
  {
    FromLittleEndian(h[5..9])
  }

  function StartOf(h: Header): (n: nat)
  {
    FromLittleEndian(h[9..13])
  }

  /** Where a write of a record puts it: over the sector of its key, or at the end of the sector files. */
  datatype Place = Over(file: nat, start: nat) | Appended

  /** A write of a record of sector size `size`, whose entry will be `x` if it is appended. */
  function Rewrite(c: seq<Slot>, k: ShortKey, size: nat, x: Header): (r: (seq<Slot>, Place))
  {
    var h := Get(c, k);
    if h.Some? && SizeOf(h.value) == size then (c, Over(FileOf(h.value), StartOf(h.value))) else (Put(c, k, x), Appended)
  }

  /** The new size stands there, written or equal, but the start is neither fully written nor equal. */
  predicate Stray(o: Header, w: Header, n: nat)
  {
    && 5 < n <= HEADER
    && o[n..Max(n, 9)] == w[n..Max(n, 9)]
    && o[Max(n, 9)..HEADER] != w[Max(n, 9)..HEADER]
  }

  lemma {:induction false} SameNumber(s: Bytes, t: Bytes)
    requires |s| == |t|
    ensures FromLittleEndian(s) == FromLittleEndian(t) <==> s == t
  {
    if s != [] {
      SameNumber(s[1..], t[1..]);
      assert s == [s[0]] + s[1..] && t == [t[0]] + t[1..];
    }
  }

  /** A torn header agrees with the new one on some bytes if and only if what is not written of them does. */
  lemma SameRest(o: Header, w: Header, n: nat, a: nat, b: nat)
    requires n <= HEADER && a <= b <= HEADER
    ensures var h, m := w[..n] + o[n..], Max(a, n);
            h[a..b] == w[a..b] <==> m >= b || o[m..b] == w[m..b]
  {
    var h, m := w[..n] + o[n..], Max(a, n);
    if m < b {
      Cut(h, a, m, b);
      Cut(w, a, m, b);
      assert h[a..m] == w[a..m] && h[m..b] == o[m..b];
    } else {
      assert h[a..b] == w[a..b];
    }
  }

  lemma TornHeader(o: Header, w: Header, n: nat)
    requires n <= HEADER && SizeOf(o) != SizeOf(w)
    ensures var h: Header := w[..n] + o[n..];
            && (Stray(o, w, n) ==> SizeOf(h) == SizeOf(w))
            && (SizeOf(h) == SizeOf(w) ==> FileOf(h) == FileOf(w) && (StartOf(h) == StartOf(w) <==> !Stray(o, w, n)))
            && (SizeOf(h) == SizeOf(w) && !Stray(o, w, n) ==> h == w)
  {
    var h: Header := w[..n] + o[n..];
    SameNumber(h[5..9], w[5..9]);
    SameNumber(h[9..13], w[9..13]);
    hide FromLittleEndian;
    if n <= 5 {
      assert h[5..9] == o[5..9];
    } else {
      assert h[3..5] == w[3..5];
      SameRest(o, w, n, 5, 9);
      SameRest(o, w, n, 9, 13);
      SameRest(o, w, n, 0, 13);
      if n < 9 {
        Cut(o, n, 9, HEADER);
        Cut(w, n, 9, HEADER);
      }
    }
  }

  lemma TornLive(r: Slot, k: ShortKey, w: Header, n: nat)
    requires Live(k)(r) && w[0] == READY && n <= HEADER + |k|
    ensures var t := Torn(r, k, w, n);
            && Live(k)(t) && RestOfKey(r, k, n)
            && HeaderOf(t) == (if n <= HEADER then w[..n] + HeaderOf(r)[n..] else w)
            && (HeaderOf(t) == w ==> t == Written(r, k, w))
  {
    hide Matches, RestOfKey;
    var t := Torn(r, k, w, n);
    MatchesRest(r, k, n);
    TornMatches(r, k, w, n);
    assert Ready(t);
    assert HeaderOf(t) == if n <= HEADER then w[..n] + HeaderOf(r)[n..] else w;
    if HeaderOf(t) == w {
      SameSlot(t, r, k, w);
      TornTail(r, k, w, n);
    }
  }

  lemma TornTail(r: Slot, k: ShortKey, w: Header, n: nat)
    requires n <= HEADER + |k|
    ensures Torn(r, k, w, n)[HEADER + |k|..] == r[HEADER + |k|..]
  {
  }

  /** A slot is its header, its key and what is behind them. */
  lemma SameSlot(t: Slot, r: Slot, k: ShortKey, w: Header)
    requires HeaderOf(t) == w && Matches(t, k)
    ensures t[HEADER + |k|..] == r[HEADER + |k|..] ==> t == Written(r, k, w)
  {
    assert t == t[..HEADER] + t[HEADER..HEADER + |k|] + t[HEADER + |k|..];
  }

  lemma LiveFound(c: seq<Slot>, k: ShortKey, i: nat)
    requires i < |c| && Live(k)(c[i]) && forall j | i < j < |c| :: !Live(k)(c[j])
    ensures Get(c, k) == Some(HeaderOf(c[i]))
  {
    C.NewestIs(c, Live(k), i);
  }

  lemma NotLive(c: seq<Slot>, k: ShortKey, i: nat)
    requires C.Newest(c, Usable(k)) == i
    ensures forall j | i < j < |c| :: !Live(k)(c[j])
  {
    forall j | i < j < |c|
      ensures !Live(k)(c[j])
    {
      assert !Usable(k)(c[j]);
    }
  }

  lemma TornFound(c: seq<Slot>, k: ShortKey, w: Header, n: nat, i: nat)
    requires C.Newest(c, Usable(k)) == i && Live(k)(c[i]) && w[0] == READY && n <= HEADER + |k|
    ensures Get(c, k) == Some(HeaderOf(c[i]))
    ensures Get(c[i := Torn(c[i], k, w, n)], k) == Some(HeaderOf(Torn(c[i], k, w, n)))
  {
    hide Live, Usable, Torn, Written, RestOfKey, Get, Matches, HeaderOf, C.Newest;
    NotLive(c, k, i);
    TornLive(c[i], k, w, n);
    LiveFound(c, k, i);
    LiveFound(c[i := Torn(c[i], k, w, n)], k, i);
  }

  /**
    The entry of a key is torn when its record moves to a sector of another size. The write done again
    goes on as if the entry had not been written or as if all of it had, if and only if the entry is not
    stray; a stray entry has the record written over bytes that are not its own.
  */
  lemma TornEntry(c: seq<Slot>, k: ShortKey, w: Header, n: nat, size: nat, x: Header, i: nat)
    requires C.Newest(c, Usable(k)) == i && Live(k)(c[i]) && w[0] == READY && n <= HEADER + |k|
    requires SizeOf(HeaderOf(c[i])) != size == SizeOf(w)
    ensures var r := Rewrite(c[i := Torn(c[i], k, w, n)], k, size, x);
            r == Rewrite(c, k, size, x) || r == Rewrite(Put(c, k, w), k, size, x) <==> !Stray(HeaderOf(c[i]), w, n)
  {
    hide Live, Usable, Torn, Put, Get, Written, RestOfKey, C.Newest, FromLittleEndian, Stray, HeaderOf, SizeOf, FileOf, StartOf;
    TornFound(c, k, w, n, i);
    TornLive(c[i], k, w, n);
    TornPut(c, k, w, n, x);
    WholeSlot(c, k, w, i);
    GetPut(c, k, w);
    if n <= HEADER {
      TornHeader(HeaderOf(c[i]), w, n);
    } else {
      LongNotStray(HeaderOf(c[i]), w, n);
    }
  }

  lemma WholeSlot(c: seq<Slot>, k: ShortKey, w: Header, i: nat)
    requires C.Newest(c, Usable(k)) == i
    ensures Put(c, k, w) == c[i := Written(c[i], k, w)]
  {
    hide Written, C.Newest;
  }

  lemma LongNotStray(o: Header, w: Header, n: nat)
    requires n > HEADER
    ensures !Stray(o, w, n)
  {
  }

  /** Where a header locates a record. */
  function LocatedBy(h: Header): (p: SectorKey)
  {
    SectorKey(FileOf(h), StartOf(h), SizeOf(h))
  }

  lemma Fields(a: Byte, b: Byte, c: Byte)
    ensures LocatedBy([1, 0, 0, 0, 0, a, 0, 0, 0, b, c, 0, 0]) == SectorKey(0, b + 0x100 * c, a)
  {
    hide FromLittleEndian;
    var h: Header := [1, 0, 0, 0, 0, a, 0, 0, 0, b, c, 0, 0];
    assert h[3..5] == [0, 0] && h[5..9] == [a, 0, 0, 0] && h[9..13] == [b, c, 0, 0];
    Zero();
    FourBytes(a, 0);
    FourBytes(b, c);
  }

  lemma Zero()
    ensures FromLittleEndian([0, 0]) == 0
  {
    FirstByte(0, []);
    FirstByte(0, [0]);
    assert [0] + [0] == [0, 0];
  }

  lemma FourBytes(a: Byte, b: Byte)
    ensures FromLittleEndian([a, b, 0, 0]) == a + 0x100 * b
  {
    hide FromLittleEndian;
    Zero();
    FirstByte(b, [0, 0]);
    FirstByte(a, [b, 0, 0]);
    assert [b] + [0, 0] == [b, 0, 0] && [a] + [b, 0, 0] == [a, b, 0, 0];
  }

  /**
    For example, with sectors at 0 (50 bytes) and at 50 (250 bytes) and the first record moving to 300 (200 bytes):
    when the first ten bytes of its entry are written, it is taken to lie at 44, across the second record.
  */
  lemma StrayOverlaps()
    ensures var o: Header := [1, 0, 0, 0, 0, 50, 0, 0, 0, 0, 0, 0, 0];
            var w: Header := [1, 0, 0, 0, 0, 200, 0, 0, 0, 44, 1, 0, 0];
            var h: Header := w[..10] + o[10..];
            && LocatedBy(o) == SectorKey(0, 0, 50) && LocatedBy(w) == SectorKey(0, 300, 200)
            && Stray(o, w, 10) && LocatedBy(h) == SectorKey(0, 44, 200)
            && !Disjoint(LocatedBy(h), SectorKey(0, 50, 250))
  {
    hide LocatedBy;
    Fields(50, 0, 0);
    Fields(200, 44, 1);
    Fields(200, 44, 0);
    var o: Header := [1, 0, 0, 0, 0, 50, 0, 0, 0, 0, 0, 0, 0];
    var w: Header := [1, 0, 0, 0, 0, 200, 0, 0, 0, 44, 1, 0, 0];
    assert w[..10] + o[10..] == [1, 0, 0, 0, 0, 200, 0, 0, 0, 44, 0, 0, 0];
    assert o[10..13][0] != w[10..13][0];
    assert o[10..10] == w[10..10];
  }
}
