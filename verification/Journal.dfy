/**
  The journal file as bytes: how a transaction's calls are serialized into it, and how
  recovery reads it back, up to where a crash cut it off.
 */
module Journal {
  import opened Wrappers
  import opened Store
  import opened ByteFile
  import opened Transaction

  /** The longest string or vector a stream reads back. */
  const MAX_SIZE: nat := 0x0200_0000

  // The record types, as the characters of their names.
  const ERASE: Bytes := [101, 114, 97, 115, 101]
  const KEY: Bytes := [107, 101, 121]
  const WRITE: Bytes := [119, 114, 105, 116, 101]
  const INDEX: Bytes := [105, 110, 100, 101, 120]
  const COMMIT: Bytes := [99, 111, 109, 109, 105, 116]

  // ----- writing

  /** A string or byte vector behind its compact size. */
  function Field(b: Bytes): (s: Bytes)
    ensures |s| > 0
  {
    Prefix(|b|) + b
  }

  function EntryBytes(e: Entry): (s: Bytes)
    ensures |s| > 0
  {
    match e
    case EraseEntry(k) => Field(ERASE) + Field(k)
    case KeyEntry(k) => Field(KEY) + Field(k)
    case WriteEntry(k, d) => Field(WRITE) + (Field(k) + Field(d))
    case IndexEntry(k, i) => Field(INDEX) + (Field(k) + Field(i))
  }

  function Code(c: char): (b: Byte)
    requires c < '\U{80}'
  {
    c as int
  }

  function Chars(s: string): (b: Bytes)
    requires forall i | 0 <= i < |s| :: s[i] < '\U{80}'
    ensures |b| == |s|
  {
    seq(|s|, i requires 0 <= i < |s| => Code(s[i]))
  }

  lemma Names()
    ensures ERASE == Chars("erase") && KEY == Chars("key") && WRITE == Chars("write")
    ensures INDEX == Chars("index") && COMMIT == Chars("commit")
  {
  }

  /** The records by the names of their types, each field behind its size. */
  lemma EntryForms(k: Key, x: Bytes)
    ensures EntryBytes(EraseEntry(k)) == [5] + Chars("erase") + Prefix(|k|) + k
    ensures EntryBytes(KeyEntry(k)) == [3] + Chars("key") + Prefix(|k|) + k
    ensures EntryBytes(WriteEntry(k, x)) == [5] + Chars("write") + Prefix(|k|) + k + Prefix(|x|) + x
    ensures EntryBytes(IndexEntry(k, x)) == [5] + Chars("index") + Prefix(|k|) + k + Prefix(|x|) + x
    ensures Field(COMMIT) == [6] + Chars("commit")
  {
    Names();
    assert Prefix(5) == [5] && Prefix(3) == [3] && Prefix(6) == [6];
    assert |ERASE| == 5 && |KEY| == 3 && |WRITE| == 5 && |INDEX| == 5 && |COMMIT| == 6;
    hide Prefix, Chars, ERASE, KEY, WRITE, INDEX, COMMIT;
    JoinFields([5], WRITE, Prefix(|k|), k, Prefix(|x|), x);
    JoinFields([5], INDEX, Prefix(|k|), k, Prefix(|x|), x);
  }

  lemma JoinFields(a: Bytes, b: Bytes, c: Bytes, d: Bytes, e: Bytes, f: Bytes)
    ensures (a + b) + (c + d + (e + f)) == a + b + c + d + e + f
    ensures (a + b) + (c + d) == a + b + c + d
  {
  }

  function Encoded(es: seq<Entry>): (s: Bytes)
  {
    if es == [] then [] else EntryBytes(es[0]) + Encoded(es[1..])
  }

  lemma {:induction false} EncodedSnoc(es: seq<Entry>, e: Entry)
    ensures Encoded(es + [e]) == Encoded(es) + EntryBytes(e)
  {
    hide EntryBytes;
    if es != [] {
      EncodedSnoc(es[1..], e);
      assert (es + [e])[1..] == es[1..] + [e];
    } else {
      assert (es + [e])[1..] == [];
    }
  }

  /** The journal of a checkpoint. */
  function JournalBytes(es: seq<Entry>): (s: Bytes)
  {
    Encoded(es) + Field(COMMIT)
  }

  // ----- reading; None is an exception of the stream

  function ReadSize(s: Bytes): (r: Option<(nat, Bytes)>)
    ensures r.Some? ==> |r.value.1| < |s|
  {
    if s == [] then None
    else
      var w := if s[0] < 253 then 0 else if s[0] == 253 then 2 else if s[0] == 254 then 4 else 8;
      if |s| < 1 + w then None
      else
        var n := if w == 0 then s[0] else FromLittleEndian(s[1..1 + w]);
        if n > MAX_SIZE then None else Some((n, s[1 + w..]))
  }

  function ReadField(s: Bytes): (r: Option<(Bytes, Bytes)>)
    ensures r.Some? ==> |r.value.1| < |s|
  {
    match ReadSize(s)
    case None => None
    case Some(x) => if |x.1| < x.0 then None else Some((x.1[..x.0], x.1[x.0..]))
  }

  datatype Item = CommitItem | CallItem(entry: Entry) | UnknownItem

  function ReadItem(s: Bytes): (r: Option<(Item, Bytes)>)
    ensures r.Some? ==> |r.value.1| < |s|
  {
    match ReadField(s)
    case None => None
    case Some(t) =>
      if t.0 == COMMIT then Some((CommitItem, t.1))
      else if t.0 == ERASE || t.0 == KEY then
        match ReadField(t.1)
        case None => None
        case Some(k) => Some((CallItem(if t.0 == ERASE then EraseEntry(k.0) else KeyEntry(k.0)), k.1))
      else if t.0 == WRITE || t.0 == INDEX then
        match ReadField(t.1)
        case None => None
        case Some(k) =>
          match ReadField(k.1)
          case None => None
          case Some(d) => Some((CallItem(if t.0 == WRITE then WriteEntry(k.0, d.0) else IndexEntry(k.0, d.0)), d.1))
      else Some((UnknownItem, t.1))
  }

  datatype Outcome = Committed(entries: seq<Entry>) | Unfinished | StreamError

  /** The reading loop: a file that ends between records never reached its commit. */
  function ScanBytes(s: Bytes, es: seq<Entry>): (o: Outcome)
    decreases |s|
  {
    if s == [] then Unfinished
    else match ReadItem(s)
      case None => StreamError
      case Some(x) =>
        match x.0
        case CommitItem => Committed(es)
        case CallItem(e) => ScanBytes(x.1, es + [e])
        case UnknownItem => ScanBytes(x.1, es)
  }

  // ----- one field

  /** A prefix of two sequences one after the other. */
  lemma Split(a: Bytes, b: Bytes, f: Bytes)
    requires |f| <= |a + b| && f == (a + b)[..|f|]
    ensures |f| < |a| ==> f == a[..|f|]
    ensures |f| >= |a| ==> f == a + f[|a|..] && f[|a|..] == b[..|f[|a|..]|]
  {
  }

  lemma CapacityOf()
    ensures Capacity(2) == 0x1_0000 && Capacity(4) == 0x1_0000_0000 && Capacity(8) == 0x1_0000_0000_0000_0000
  {
    assert Capacity(2) == 0x1_0000;
    assert Capacity(4) == 0x1_0000_0000;
    assert Capacity(6) == 0x1_0000_0000_0000;
  }

  lemma SizeRead(n: nat, rest: Bytes)
    requires n < 0x1_0000_0000_0000_0000
    ensures ReadSize(Prefix(n) + rest) == if n > MAX_SIZE then None else Some((n, rest))
  {
    CapacityOf();
    var s := Prefix(n) + rest;
    if n >= 253 {
      var w := if n <= 0xffff then 2 else if n <= 0xffff_ffff then 4 else 8;
      LittleEndianRoundTrip(n, w);
      assert s[1..1 + w] == LittleEndian(n, w);
      assert s[1 + w..] == rest;
    } else {
      assert s[1..] == rest;
    }
  }

  lemma SizeCut(n: nat, f: Bytes)
    requires |f| < |Prefix(n)| && f == Prefix(n)[..|f|]
    ensures ReadSize(f) == None
  {
  }

  predicate Small(b: Bytes)
  {
    |b| <= MAX_SIZE
  }

  lemma FieldRead(b: Bytes, rest: Bytes)
    requires |b| < 0x1_0000_0000_0000_0000
    ensures ReadField(Field(b) + rest) == if |b| <= 33554432 then Some((b, rest)) else None
  {
    assert Field(b) + rest == Prefix(|b|) + (b + rest);
    SizeRead(|b|, b + rest);
  }

  lemma FieldCut(b: Bytes, f: Bytes)
    requires |b| < 0x1_0000_0000_0000_0000
    requires |f| < |Field(b)| && f == Field(b)[..|f|]
    ensures ReadField(f) == None
  {
    var p := Prefix(|b|);
    if |f| < |p| {
      assert f == p[..|f|];
      SizeCut(|b|, f);
    } else {
      assert f == p + b[..|f| - |p|];
      SizeRead(|b|, b[..|f| - |p|]);
    }
  }

  // ----- one record

  /** Writes and links have a second field behind the key. */
  predicate TwoFields(e: Entry) { e.WriteEntry? || e.IndexEntry? }

  function Second(e: Entry): (d: Bytes)
    requires TwoFields(e)
  {
    if e.WriteEntry? then e.data else e.target
  }

  function TypeOf(e: Entry): (t: Bytes)
    ensures |t| < 253
  {
    match e
    case EraseEntry(_) => ERASE
    case KeyEntry(_) => KEY
    case WriteEntry(_, _) => WRITE
    case IndexEntry(_, _) => INDEX
  }

  function Fields(e: Entry): (s: Bytes)
  {
    if TwoFields(e) then Field(e.key) + Field(Second(e)) else Field(e.key)
  }

  /** Vectors have 64-bit sizes. */
  predicate Sized(e: Entry)
  {
    |e.key| < 0x1_0000_0000_0000_0000 && (TwoFields(e) ==> |Second(e)| < 0x1_0000_0000_0000_0000)
  }

  /** Nothing in the entry is longer than a stream reads back. */
  predicate Readable(e: Entry)
  {
    Small(e.key) && (TwoFields(e) ==> Small(Second(e)))
  }

  lemma ItemRead(e: Entry, rest: Bytes)
    requires Sized(e)
    ensures ReadItem(EntryBytes(e) + rest) == if Readable(e) then Some((CallItem(e), rest)) else None
  {
    var t := TypeOf(e);
    hide Field, ReadField;
    if TwoFields(e) {
      var tail := Field(Second(e)) + rest;
      assert EntryBytes(e) + rest == Field(t) + (Field(e.key) + tail);
      FieldRead(t, Field(e.key) + tail);
      FieldRead(e.key, tail);
      FieldRead(Second(e), rest);
    } else {
      assert EntryBytes(e) + rest == Field(t) + (Field(e.key) + rest);
      FieldRead(t, Field(e.key) + rest);
      FieldRead(e.key, rest);
    }
  }

  /** A record of a type is read by its fields. */
  lemma TypedItem(e: Entry, f: Bytes, g: Bytes)
    requires ReadField(f) == Some((TypeOf(e), g))
    requires match ReadField(g)
             case None => true
             case Some(k) => TwoFields(e) && ReadField(k.1) == None
    ensures ReadItem(f) == None
  {
    hide ReadField;
  }

  lemma NoItem(f: Bytes)
    requires ReadField(f) == None
    ensures ReadItem(f) == None
  {
    hide ReadField;
  }

  lemma BytesOf(e: Entry)
    ensures EntryBytes(e) == Field(TypeOf(e)) + Fields(e)
  {
    hide Field;
  }

  /** A record cut short makes the stream throw. */
  lemma ItemCut(e: Entry, f: Bytes)
    requires Sized(e)
    requires |f| < |EntryBytes(e)| && f == EntryBytes(e)[..|f|]
    ensures ReadItem(f) == None
  {
    hide Field, ReadField, ReadItem, EntryBytes, Fields, Sized, TypeOf;
    var a := Field(TypeOf(e));
    BytesOf(e);
    Split(a, Fields(e), f);
    if |f| < |a| {
      FieldCut(TypeOf(e), f);
      NoItem(f);
    } else {
      var g := f[|a|..];
      FieldRead(TypeOf(e), g);
      RestCut(e, g);
      TypedItem(e, f, g);
    }
  }

  lemma RestCut(e: Entry, g: Bytes)
    requires Sized(e) && |g| < |Fields(e)| && g == Fields(e)[..|g|]
    ensures match ReadField(g)
            case None => true
            case Some(k) => TwoFields(e) && ReadField(k.1) == None
  {
    hide Field, ReadField;
    var b := Field(e.key);
    Split(b, if TwoFields(e) then Field(Second(e)) else [], g);
    if |g| < |b| {
      FieldCut(e.key, g);
    } else {
      var h := g[|b|..];
      FieldRead(e.key, h);
      FieldCut(Second(e), h);
    }
  }

  lemma CommitRead(f: Bytes)
    requires |f| <= |Field(COMMIT)| && f == Field(COMMIT)[..|f|]
    ensures ReadItem(f) == if f == Field(COMMIT) then Some((CommitItem, [])) else None
  {
    if f == Field(COMMIT) {
      assert f == Field(COMMIT) + [];
      FieldRead(COMMIT, []);
    } else {
      FieldCut(COMMIT, f);
    }
  }

  // ----- the whole journal

  lemma JournalHead(es: seq<Entry>)
    requires es != []
    ensures JournalBytes(es) == EntryBytes(es[0]) + JournalBytes(es[1..])
  {
    hide EntryBytes, Field;
  }

  /** A whole journal gives back the calls it was written from, unless one of them is too long to read back. */
  lemma {:induction false} ScanWhole(es: seq<Entry>, done: seq<Entry>)
    requires forall e | e in es :: Sized(e)
    ensures ScanBytes(JournalBytes(es), done)
         == if AllReadable(es) then Committed(done + es) else StreamError
  {
    hide EntryBytes, ReadItem, JournalBytes, Encoded, Field, AllReadable, Readable, Sized, ScanBytes;
    if es == [] {
      ScanNothing(done);
      assert done + es == done;
    } else {
      var rest := JournalBytes(es[1..]);
      JournalHead(es);
      ItemRead(es[0], rest);
      ScanStep(JournalBytes(es), done);
      ScanWhole(es[1..], done + [es[0]]);
      assert done + es == done + [es[0]] + es[1..];
      ReadableHead(es);
    }
  }

  lemma ScanNothing(done: seq<Entry>)
    ensures ScanBytes(JournalBytes([]), done) == Committed(done) && AllReadable([])
  {
    assert JournalBytes([]) == Field(COMMIT);
    CommitRead(Field(COMMIT));
  }

  lemma ScanStep(s: Bytes, done: seq<Entry>)
    ensures s == [] ==> ScanBytes(s, done) == Unfinished
    ensures s != [] && ReadItem(s) == None ==> ScanBytes(s, done) == StreamError
    ensures s != [] && ReadItem(s).Some? && ReadItem(s).value.0.CallItem? ==>
              ScanBytes(s, done) == ScanBytes(ReadItem(s).value.1, done + [ReadItem(s).value.0.entry])
  {
  }

  /** The file ends between two records, and those before it can be read. */
  ghost predicate AtBoundary(es: seq<Entry>, f: Bytes)
  {
    exists n :: 0 <= n <= |es| && BoundaryAt(es, f, n)
  }

  ghost predicate BoundaryAt(es: seq<Entry>, f: Bytes, n: nat)
    requires n <= |es|
  {
    f == Encoded(es[..n]) && AllReadable(es[..n])
  }

  predicate AllReadable(es: seq<Entry>)
  {
    forall e | e in es :: Readable(e)
  }

  lemma ReadableHead(es: seq<Entry>)
    requires es != []
    ensures AllReadable(es) <==> Readable(es[0]) && AllReadable(es[1..])
  {
    assert es == [es[0]] + es[1..];
  }

  lemma BoundaryRest(es: seq<Entry>, f: Bytes, g: Bytes)
    requires es != [] && f == EntryBytes(es[0]) + g
    ensures AtBoundary(es, f) <==> Readable(es[0]) && AtBoundary(es[1..], g)
  {
    hide EntryBytes, Readable, AllReadable;
    if n :| 0 <= n <= |es| && BoundaryAt(es, f, n) {
      assert n > 0;
      assert es[..n][0] == es[0] && es[..n][1..] == es[1..][..n - 1];
      ReadableHead(es[..n]);
      assert g == f[|EntryBytes(es[0])|..];
      assert BoundaryAt(es[1..], g, n - 1);
    }
    if n :| 0 <= n <= |es[1..]| && BoundaryAt(es[1..], g, n) && Readable(es[0]) {
      assert es[..n + 1][0] == es[0] && es[..n + 1][1..] == es[1..][..n];
      ReadableHead(es[..n + 1]);
      assert BoundaryAt(es, f, n + 1);
    }
  }

  lemma BoundaryLength(es: seq<Entry>, f: Bytes)
    requires es != [] && |f| < |EntryBytes(es[0])|
    ensures AtBoundary(es, f) <==> f == []
  {
    forall n | 1 <= n <= |es|
      ensures |Encoded(es[..n])| >= |EntryBytes(es[0])|
    {
      assert es[..n][0] == es[0];
    }
    assert es[..0] == [];
    assert f == [] ==> BoundaryAt(es, f, 0);
  }

  /**
    A journal cut short at any byte is never taken for a committed one: it reads as unfinished when the
    cut is between two records, and all before it can be read; otherwise the stream throws.
  */
  lemma {:induction false} ScanCut(es: seq<Entry>, done: seq<Entry>, f: Bytes)
    requires forall e | e in es :: Sized(e)
    requires |f| < |JournalBytes(es)| && f == JournalBytes(es)[..|f|]
    ensures ScanBytes(f, done) == if AtBoundary(es, f) then Unfinished else StreamError
  {
    if es == [] {
      assert JournalBytes(es) == Field(COMMIT);
      CommitRead(f);
      assert es[..0] == [] && (f == [] ==> BoundaryAt(es, f, 0));
    } else {
      var a, rest := EntryBytes(es[0]), JournalBytes(es[1..]);
      JournalHead(es);
      hide EntryBytes, ReadItem, AtBoundary, JournalBytes, Encoded, Field, ScanBytes, Readable;
      Split(a, rest, f);
      if |f| < |a| {
        ItemCut(es[0], f);
        ScanStep(f, done);
        BoundaryLength(es, f);
      } else {
        var g := f[|a|..];
        ItemRead(es[0], g);
        ScanStep(f, done);
        ScanCut(es[1..], done + [es[0]], g);
        BoundaryRest(es, f, g);
      }
    }
  }

  // ----- the file as recovery reads it

  /** The size of the file is kept in 32 bits, and no more than that is read. */
  function ReadFile(j: Bytes): (s: Bytes)
  {
    j[..|j| % 0x1_0000_0000]
  }

  function Scan(j: Bytes): (o: Outcome)
  {
    ScanBytes(ReadFile(j), [])
  }

  /** The transaction that recovery rebuilds. */
  function Recovered(j: Bytes): (t: Txn)
    requires Scan(j).Committed?
  {
    Replayed(Scan(j).entries)
  }

  lemma {:induction false} EncodedSize(es: seq<Entry>, e: Entry)
    requires e in es
    ensures |EntryBytes(e)| <= |Encoded(es)|
  {
    hide EntryBytes;
    if e != es[0] {
      EncodedSize(es[1..], e);
    }
  }

  lemma AllSized(es: seq<Entry>)
    requires |JournalBytes(es)| < 0x1_0000_0000_0000_0000
    ensures forall e | e in es :: Sized(e)
  {
    forall e | e in es
      ensures Sized(e)
    {
      EncodedSize(es, e);
    }
  }

  /** A journal below 4 GB, whole or cut at any byte, is committed exactly when it is whole and can be read. */
  lemma ScanExact(es: seq<Entry>, j: Bytes)
    requires |JournalBytes(es)| < 0x1_0000_0000 && j <= JournalBytes(es)
    ensures Scan(j)
         == if j == JournalBytes(es) && AllReadable(es) then Committed(es)
            else if j != JournalBytes(es) && AtBoundary(es, j) then Unfinished
            else StreamError
  {
    AllSized(es);
    assert ReadFile(j) == j;
    hide JournalBytes, ScanBytes, Readable, Sized;
    if j == JournalBytes(es) {
      ScanWhole(es, []);
      assert [] + es == es;
    } else {
      ScanCut(es, [], j);
    }
  }

  /** A whole journal is committed if and only if it is below 4 GB and can be read. */
  lemma WholeCommits(es: seq<Entry>)
    requires forall e | e in es :: Sized(e)
    ensures Scan(JournalBytes(es)).Committed? <==> |JournalBytes(es)| < 0x1_0000_0000 && AllReadable(es)
  {
    var j := JournalBytes(es);
    if |j| < 0x1_0000_0000 {
      ScanExact(es, j);
    } else {
      ScanCut(es, [], ReadFile(j));
    }
  }

  /** A journal of one byte is cut inside its first record. */
  lemma FirstByte(es: seq<Entry>)
    ensures |JournalBytes(es)| > 1 && !AtBoundary(es, JournalBytes(es)[..1])
  {
    forall n | 0 <= n <= |es|
      ensures |Encoded(es[..n])| != 1
    {
      if n > 0 {
        assert |EntryBytes(es[..n][0])| > 1;
      }
    }
  }
}
