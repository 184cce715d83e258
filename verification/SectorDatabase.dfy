/**
  `SectorDatabase` on bytes: sector files, the keychain that locates records in them,
  and the transaction object. The ghost field `model` is the record-level store the
  bytes stand for; every method states what it does to it.
 */
module SectorDatabase {
  import opened Wrappers
  import opened Store
  import Chain
  import opened SectorKeys
  import opened ByteFile
  import opened KeyOrder
  import opened Transaction
  import opened Journal

  const MAX_SECTOR_FILE_SIZE: int := 1024 * 1024 * 512

  // ----- records in their sectors

  function SectorSize(d: Bytes): (n: nat)
    ensures n >= 1
  {
    |d| + CompactWidth(|d|)
  }

  /** Sector sizes are equal exactly when record sizes are. */
  lemma SectorSizeExact(c: Bytes, d: Bytes)
    ensures SectorSize(c) == SectorSize(d) <==> |c| == |d|
  {
  }

  datatype ReadResult = Missing | Thrown | Data(data: Bytes)

  /** The bytes skipped too many when the prefix of the whole sector is wider than that of the record. */
  function Shift(c: Bytes): (n: nat)
    ensures n <= |c|
  {
    CompactWidth(SectorSize(c)) - CompactWidth(|c|)
  }

  /** The two prefixes have the same width. */
  predicate ReadsBack(c: Bytes)
  {
    CompactWidth(SectorSize(c)) == CompactWidth(|c|)
  }

  /** How many bytes of a record of `n` bytes a disk read loses, by the numbers. */
  function Lost(n: nat): (m: nat)
    ensures m <= n
  {
    if n == 252 || 65533 <= n <= 65535 then 2
    else if 4294967291 <= n <= 4294967295 then 4
    else 0
  }

  /** The widths of record and sector differ for the lengths 252, 65533 to 65535 and the last five below 2^32, and for no others. */
  lemma LostIs(c: Bytes)
    ensures Shift(c) == Lost(|c|) && (ReadsBack(c) <==> Lost(|c|) == 0)
  {
  }

  /** What a read of the sector files returns for a key. */
  ghost function DiskRead(s: Store, k: Key): (r: ReadResult)
    requires s.Valid()
    ensures s.HasSector(k) && ReadsBack(s.Content(k)) ==> r == Data(s.Content(k))
  {
    if k !in s.keys then Missing
    else if s.keys[k].KeyOnly? then Thrown
    else Data(s.Content(k)[Shift(s.Content(k))..])
  }

  lemma ReadLost(s: Store, k: Key)
    requires s.Valid() && s.HasSector(k)
    ensures var c := s.Content(k); DiskRead(s, k) == Data(c[Lost(|c|)..]) && (ReadsBack(c) <==> Lost(|c|) == 0)
  {
    LostIs(s.Content(k));
  }

  /** Equivalent stores read alike, before and after any write. */
  lemma EquivReads(a: Store, b: Store, j: Key, d: Bytes, k: Key)
    requires Equiv(a, b)
    ensures DiskRead(a, k) == DiskRead(b, k)
    ensures a.Force(j, d).Valid() && b.Force(j, d).Valid() && DiskRead(a.Force(j, d), k) == DiskRead(b.Force(j, d), k)
  {
    EquivForce(a, b, j, d);
    hide Store.Force;
    EquivRead(a, b, k);
    EquivRead(a.Force(j, d), b.Force(j, d), k);
  }

  lemma EquivRead(a: Store, b: Store, k: Key)
    requires Equiv(a, b)
    ensures DiskRead(a, k) == DiskRead(b, k)
  {
    assert k in a.keys ==> SameRecord(a, b, k);
  }

  // ----- layout of the sectors in the files

  ghost predicate InFile(files: seq<Bytes>, k: SectorKey)
  {
    k.size >= 1 && k.file < |files| && k.start + k.size <= |files[k.file]|
  }

  ghost predicate Disjoint(a: SectorKey, b: SectorKey)
  {
    a.file != b.file || a.start + a.size <= b.start || b.start + b.size <= a.start
  }

  /** Sector `k` holds the record `d` behind its size prefix. */
  ghost predicate Holds(files: seq<Bytes>, k: SectorKey, d: Bytes)
  {
    && InFile(files, k) && k.size == SectorSize(d)
    && files[k.file][k.start..k.start + k.size] == Prefix(|d|) + d
  }

  ghost predicate Layout(files: seq<Bytes>, layout: seq<SectorKey>, contents: seq<Bytes>)
  {
    && |layout| == |contents|
    && (forall i | 0 <= i < |layout| :: Holds(files, layout[i], contents[i]))
    && (forall i, j | 0 <= i < j < |layout| :: Disjoint(layout[i], layout[j]))
  }

  /** Rewriting one sector leaves every other one as it was. */
  lemma LayoutUpdate(files: seq<Bytes>, layout: seq<SectorKey>, contents: seq<Bytes>, i: nat, d: Bytes)
    requires Layout(files, layout, contents) && i < |layout| && layout[i].size == SectorSize(d)
    ensures var k := layout[i];
            Layout(files[k.file := Splice(files[k.file], k.start, Prefix(|d|) + d)], layout, contents[i := d])
  {
    var k := layout[i];
    assert Holds(files, k, contents[i]);
    var files' := files[k.file := Splice(files[k.file], k.start, Prefix(|d|) + d)];
    forall j | 0 <= j < |layout|
      ensures Holds(files', layout[j], contents[i := d][j])
    {
      assert Holds(files, layout[j], contents[j]);
      if j != i {
        assert Disjoint(layout[i], layout[j]) && Disjoint(layout[j], layout[i]) by {
          if i < j { assert Disjoint(layout[i], layout[j]); } else { assert Disjoint(layout[j], layout[i]); }
        }
        SpliceElsewhere(files, files', k, layout[j], Prefix(|d|) + d);
      }
    }
  }

  lemma SpliceElsewhere(files: seq<Bytes>, files': seq<Bytes>, k: SectorKey, x: SectorKey, d: Bytes)
    requires k.file < |files| && k.start <= |files[k.file]| && |d| == k.size
    requires files' == files[k.file := Splice(files[k.file], k.start, d)]
    requires InFile(files, x) && Disjoint(k, x)
    ensures InFile(files', x)
    ensures files'[x.file][x.start..x.start + x.size] == files[x.file][x.start..x.start + x.size]
  {
  }

  /** A sector appended at the end of the last file is disjoint from all others. */
  lemma LayoutAppend(files: seq<Bytes>, layout: seq<SectorKey>, contents: seq<Bytes>, d: Bytes)
    requires Layout(files, layout, contents) && |files| > 0
    ensures var f := |files| - 1;
            var k := SectorKey(f, |files[f]|, SectorSize(d));
            Layout(files[f := Splice(files[f], |files[f]|, Prefix(|d|) + d)], layout + [k], contents + [d])
  {
    var f := |files| - 1;
    var k := SectorKey(f, |files[f]|, SectorSize(d));
    var files' := files[f := Splice(files[f], |files[f]|, Prefix(|d|) + d)];
    AppendHolds(files, d);
    var l, c := layout + [k], contents + [d];
    forall j | 0 <= j < |l|
      ensures Holds(files', l[j], c[j])
    {
      if j < |layout| {
        assert Holds(files, layout[j], contents[j]);
        SpliceElsewhere(files, files', k, layout[j], Prefix(|d|) + d);
      }
    }
    forall i, j | 0 <= i < j < |l|
      ensures Disjoint(l[i], l[j])
    {
      assert Holds(files, layout[i], contents[i]);
      if j < |layout| {
        assert Disjoint(layout[i], layout[j]);
      }
    }
  }

  lemma AppendHolds(files: seq<Bytes>, d: Bytes)
    requires |files| > 0
    ensures var f := |files| - 1;
            Holds(files[f := Splice(files[f], |files[f]|, Prefix(|d|) + d)], SectorKey(f, |files[f]|, SectorSize(d)), d)
  {
    hide Prefix;
  }

  lemma LayoutNewFile(files: seq<Bytes>, layout: seq<SectorKey>, contents: seq<Bytes>)
    requires Layout(files, layout, contents)
    ensures Layout(files + [[]], layout, contents)
  {
    forall j | 0 <= j < |layout|
      ensures Holds(files + [[]], layout[j], contents[j])
    {
      assert Holds(files, layout[j], contents[j]);
    }
  }

  class Database {
    const bucket: Key -> nat
    var keychain: map<nat, Slots>
    var files: seq<Bytes>
    var nCurrentFile: nat
    var nCurrentFileSize: nat
    var pTransaction: Option<Txn>
    var ssJournal: Bytes
    var journal: Bytes

    ghost var model: Store
    ghost var layout: seq<SectorKey>
    /** The calls logged since the transaction began. */
    ghost var calls: seq<Entry>

    ghost predicate Valid()
      reads this`keychain, this`files, this`nCurrentFile, this`nCurrentFileSize, this`model, this`layout
    {
      && nCurrentFile == |files| - 1 && |files| > 0
      && nCurrentFileSize == |files[nCurrentFile]| < 0x1_0000_0000
      && model.Valid() && model.Keyed() && model.bucket == bucket
      && Layout(files, layout, model.sectors)
      && AllMirror(layout, model.chains, keychain)
    }

    /** The limits of the fields of a sector key: 16-bit file number, 32-bit position and size. */
    ghost predicate Room(d: Bytes)
      reads this
    {
      nCurrentFile + 1 < 0x1_0000 && |d| < 0x8000_0000
    }

    constructor (bucket: Key -> nat)
      ensures Valid() && this.bucket == bucket
      ensures model == EmptyStore(bucket) && journal == [] && pTransaction == None
    {
      this.bucket := bucket;
      keychain := map[];
      files := [[]];
      nCurrentFile, nCurrentFileSize := 0, 0;
      pTransaction, ssJournal, journal, calls := None, [], [], [];
      model, layout := EmptyStore(bucket), [];
      EmptyKeyed(bucket);
    }

    // ----- the keychain

    function Slots(k: Key): (c: Slots)
      reads this`keychain
    {
      if bucket(k) in keychain then keychain[bucket(k)] else []
    }

    function Lookup(k: Key): (r: Option<SectorKey>)
      reads this`keychain
    {
      Chain.Find(Slots(k), k)
    }

    /** Where the record of a key lies. */
    ghost function KeyAt(k: Key): (key: SectorKey)
      reads this`model, this`layout
    {
      if model.HasSector(k) && model.keys[k].id < |layout| then layout[model.keys[k].id] else BareKey
    }

    /** A lookup finds the keys of the store, and where they lie. */
    lemma LookupIs(k: Key)
      requires Valid()
      ensures Lookup(k) == if k in model.keys then Some(KeyAt(k)) else None
      ensures k in model.keys ==> Located(layout, model.keys[k], KeyAt(k))
    {
      assert model.Found(k);
      hide Layout;
      FindMirrors(layout, model.ChainOf(k), Slots(k), k);
    }

    method PutEntry(k: Key, key: SectorKey, ghost r: Ref)
      requires Valid() && RefValid(r) && Located(layout, r, key)
      modifies this`keychain, this`model
      ensures Valid()
      ensures model == old(model).PutKey(k, r)
    {
      hide Layout, Store.Keyed;
      PutMirrors(layout, model.ChainOf(k), Slots(k), k, r, key);
      PutKeyed(model, k, r);
      MirrorUpdate(layout, model.chains, keychain, bucket(k), Chain.Put(model.ChainOf(k), k, r), Chain.Put(Slots(k), k, key));
      keychain := keychain[bucket(k) := Chain.Put(Slots(k), k, key)];
      model := model.PutKey(k, r);
    }

    /** The newest copy of a key is erased; false if there is none. */
    method EraseEntry(k: Key) returns (ok: bool)
      requires Valid()
      modifies this`keychain, this`model
      ensures Valid()
      ensures ok <==> k in old(model).keys
      ensures model == if ok then old(model).DropKey(k) else old(model)
    {
      LookupIs(k);
      ok := Lookup(k).Some?;
      if ok {
        hide Layout, Store.Keyed;
        EraseMirrors(layout, model.ChainOf(k), Slots(k), k);
        EraseKeyed(model, k);
        KeyedValid(model.DropKey(k));
        MirrorUpdate(layout, model.chains, keychain, bucket(k), Chain.Erase(model.ChainOf(k), k), Chain.Erase(Slots(k), k));
        keychain := keychain[bucket(k) := Chain.Erase(Slots(k), k)];
        model := model.DropKey(k);
      }
    }

    // ----- reading and writing records

    /** A disk read: it starts behind a prefix sized for the whole sector, not for the record. */
    method Get(vKey: Key) returns (r: ReadResult)
      requires Valid()
      ensures r == DiskRead(model, vKey)
      ensures vKey !in model.keys ==> r == Missing
      ensures vKey in model.keys && model.keys[vKey].KeyOnly? ==> r == Thrown
      ensures model.HasSector(vKey) ==>
                var c := model.Content(vKey); r == Data(c[Lost(|c|)..]) && (r == Data(c) <==> Lost(|c|) == 0)
    {
      hide Layout, Prefix, CompactWidth, DiskRead, ReadsBack, Database.Valid, Database.KeyAt;
      LookupIs(vKey);
      ReadIs(vKey);
      if model.HasSector(vKey) {
        ReadLost(model, vKey);
      }
      var entry := Lookup(vKey);
      if entry.None? {
        return Missing;
      }
      var key := entry.value;
      var nSize := CompactWidth(key.size);
      if key.size < nSize {
        return Thrown;
      }
      r := Data(files[key.file][key.start + nSize..key.start + key.size]);
    }

    /** The three outcomes of a read by what the keychain holds for the key. */
    lemma ReadIs(vKey: Key)
      requires Valid()
      ensures model.Valid() && (vKey !in model.keys ==> DiskRead(model, vKey) == Missing && !model.HasSector(vKey))
      ensures vKey in model.keys && model.keys[vKey].KeyOnly? ==>
                DiskRead(model, vKey) == Thrown && !model.HasSector(vKey) && KeyAt(vKey).size < CompactWidth(KeyAt(vKey).size)
      ensures vKey in model.keys && model.keys[vKey].Sector? ==>
                var key, c := KeyAt(vKey), model.Content(vKey);
                && CompactWidth(key.size) <= key.size && key.file < |files| && key.start + key.size <= |files[key.file]|
                && DiskRead(model, vKey) == Data(files[key.file][key.start + CompactWidth(key.size)..key.start + key.size])
                && (DiskRead(model, vKey) == Data(c) <==> ReadsBack(c))
    {
      hide Layout, Prefix, Store.Keyed;
      if model.HasSector(vKey) {
        SectorBytes(vKey);
      }
    }

    /** The bytes behind a prefix of the sector's width are the record without its first `Shift` bytes. */
    lemma SectorBytes(vKey: Key)
      requires Valid() && model.HasSector(vKey)
      ensures var key, c := KeyAt(vKey), model.Content(vKey);
              && key.file < |files| && CompactWidth(key.size) <= key.size && key.start + key.size <= |files[key.file]|
              && files[key.file][key.start + CompactWidth(key.size)..key.start + key.size] == c[Shift(c)..]
              && (c[Shift(c)..] == c <==> Shift(c) == 0)
    {
      var key, c := KeyAt(vKey), model.Content(vKey);
      LookupIs(vKey);
      assert Holds(files, key, c);
      ReadBytes(files[key.file], key, c);
    }

    method Update(vKey: Key, vData: Bytes) returns (ok: bool)
      requires Valid()
      modifies this`files, this`model
      ensures Valid()
      ensures ok <==> old(model).Fits(vKey, vData)
      ensures model == if ok then old(model).Force(vKey, vData) else old(model)
      ensures ok ==> model.keys == old(model).keys
    {
      hide Layout, Store.Keyed;
      LookupIs(vKey);
      var entry := Lookup(vKey);
      if entry.None? {
        return false;
      }
      var key := entry.value;
      SizeMatches(vKey, vData);
      ok := SectorSize(vData) == key.size;
      if ok {
        Rewrite(vKey, key, vData);
      }
    }

    /** A sector has the size of the new record exactly when its record has. */
    lemma SizeMatches(vKey: Key, vData: Bytes)
      requires Valid() && vKey in model.keys
      ensures SectorSize(vData) == KeyAt(vKey).size <==> model.Fits(vKey, vData)
    {
      hide Store.Keyed;
      LookupIs(vKey);
      if model.HasSector(vKey) {
        assert Holds(files, KeyAt(vKey), model.Content(vKey));
        SectorSizeExact(model.Content(vKey), vData);
      }
    }

    method Rewrite(vKey: Key, key: SectorKey, vData: Bytes)
      requires Valid() && model.Fits(vKey, vData) && key == KeyAt(vKey)
      modifies this`files, this`model
      ensures Valid() && model == old(model).Force(vKey, vData)
    {
      SizeMatches(vKey, vData);
      ghost var id := model.keys[vKey].id;
      LayoutUpdate(files, layout, model.sectors, id, vData);
      ForceKeyed(model, vKey, vData);
      hide Layout, Store.Keyed;
      files := files[key.file := Splice(files[key.file], key.start, Prefix(|vData|) + vData)];
      model := model.Force(vKey, vData);
    }

    method Force(vKey: Key, vData: Bytes)
      requires Valid() && Room(vData)
      modifies this`files, this`model, this`layout, this`keychain, this`nCurrentFile, this`nCurrentFileSize
      ensures Valid()
      ensures model == old(model).Force(vKey, vData)
      ensures nCurrentFile <= old(nCurrentFile) + 1
      ensures old(model).Fits(vKey, vData) ==> layout == old(layout) && nCurrentFile == old(nCurrentFile) && nCurrentFileSize == old(nCurrentFileSize)
      ensures !old(model).Fits(vKey, vData) ==>
                var rolled := old(nCurrentFileSize) > 536870912;
                && nCurrentFile == old(nCurrentFile) + (if rolled then 1 else 0)
                && layout == old(layout) + [SectorKey(nCurrentFile, if rolled then 0 else old(nCurrentFileSize), SectorSize(vData))]
    {
      var updated := Update(vKey, vData);
      if !updated {
        if nCurrentFileSize > MAX_SECTOR_FILE_SIZE {
          NewFile();
        }
        Append(vKey, vData);
      }
    }

    method NewFile()
      requires Valid()
      modifies this`files, this`nCurrentFile, this`nCurrentFileSize
      ensures Valid() && nCurrentFile == old(nCurrentFile) + 1 && nCurrentFileSize == 0
    {
      LayoutNewFile(files, layout, model.sectors);
      nCurrentFile := nCurrentFile + 1;
      nCurrentFileSize := 0;
      files := files + [[]];
    }

    method Append(vKey: Key, vData: Bytes)
      requires Valid() && !model.Fits(vKey, vData)
      requires nCurrentFile < 0x1_0000 && nCurrentFileSize <= MAX_SECTOR_FILE_SIZE && |vData| < 0x8000_0000
      modifies this`files, this`model, this`layout, this`keychain, this`nCurrentFileSize
      ensures Valid()
      ensures model == old(model).Force(vKey, vData)
      ensures layout == old(layout) + [SectorKey(nCurrentFile, old(nCurrentFileSize), SectorSize(vData))]
    {
      hide Database.Valid;
      var key := AppendSector(vData);
      PutEntry(vKey, key, Sector(|layout| - 1));
    }

    method AppendSector(vData: Bytes) returns (key: SectorKey)
      requires Valid()
      requires nCurrentFile < 0x1_0000 && nCurrentFileSize <= MAX_SECTOR_FILE_SIZE && |vData| < 0x8000_0000
      modifies this`files, this`model, this`layout, this`nCurrentFileSize
      ensures Valid()
      ensures key == SectorKey(nCurrentFile, old(nCurrentFileSize), SectorSize(vData))
      ensures model == old(model).(sectors := old(model).sectors + [vData])
      ensures layout == old(layout) + [key] && |layout| == |model.sectors|
    {
      LayoutAppend(files, layout, model.sectors, vData);
      SectorsKeyed(model, model.sectors + [vData]);
      hide Layout, Store.Keyed;
      files := files[nCurrentFile := Splice(files[nCurrentFile], nCurrentFileSize, Prefix(|vData|) + vData)];
      key := SectorKey(nCurrentFile % 0x1_0000, nCurrentFileSize % 0x1_0000_0000, SectorSize(vData) % 0x1_0000_0000);
      assert key == SectorKey(nCurrentFile, nCurrentFileSize, SectorSize(vData));
      nCurrentFileSize := nCurrentFileSize + SectorSize(vData);
      MirrorGrow(layout, model.chains, keychain, key);
      layout := layout + [key];
      model := model.(sectors := model.sectors + [vData]);
      SameSize();
    }

    lemma SameSize()
      requires Layout(files, layout, model.sectors)
      ensures |layout| == |model.sectors|
    {
    }

    // ----- transactions

    /** The transaction object holds what the calls so far make of it, and the journal stream their records. */
    ghost predicate Logging()
      reads this`pTransaction, this`ssJournal, this`calls
    {
      pTransaction == Some(Called(calls)) && ssJournal == Encoded(calls)
    }

    method TxnBegin()
      modifies this`pTransaction, this`ssJournal, this`calls
      ensures Logging() && calls == []
    {
      pTransaction := Some(EmptyTxn);
      ssJournal, calls := [], [];
    }

    /** The in-transaction branch of Write, Index and Erase: log the call, then apply it to the transaction object. */
    method Log(e: Entry)
      requires Logging()
      modifies this`pTransaction, this`ssJournal, this`calls
      ensures Logging() && calls == old(calls) + [e]
    {
      assert (calls + [e])[..|calls|] == calls;
      EncodedSnoc(calls, e);
      ssJournal := ssJournal + EntryBytes(e);
      pTransaction := Some(Call(pTransaction.value, e));
      calls := calls + [e];
    }

    /** The commit record ends the stream, and the file gets the whole of it. */
    method TxnCheckpoint() returns (ok: bool)
      modifies this`ssJournal, this`journal
      ensures ok <==> pTransaction.Some?
      ensures ssJournal == old(ssJournal) + if ok then Field(COMMIT) else []
      ensures journal == old(journal) + if ok then ssJournal else []
      ensures ok && old(Logging()) ==> journal == old(journal) + JournalBytes(calls)
    {
      if pTransaction.None? {
        return false;
      }
      ssJournal := ssJournal + Field(COMMIT);
      journal := journal + ssJournal;
      return true;
    }

    method TxnRelease()
      modifies this`pTransaction, this`journal
      ensures pTransaction == None && journal == []
    {
      pTransaction := None;
      journal := [];
    }

    /** Rebuild the transaction from the journal file; the stream throws when it ends inside a record. */
    method TxnRecovery() returns (ok: bool, thrown: bool)
      modifies this`pTransaction, this`ssJournal, this`calls
      ensures ok <==> Scan(journal).Committed?
      ensures thrown <==> Scan(journal) == StreamError
      ensures ok ==> pTransaction == Some(Recovered(journal))
    {
      hide ReadItem, Replay, EntryBytes, Field;
      var nSize := |journal| % 0x1_0000_0000;
      if nSize == 0 {
        return false, false;
      }
      var unread := journal[..nSize];
      TxnBegin();
      ghost var es: seq<Entry> := [];
      while unread != []
        invariant Scan(journal) == ScanBytes(unread, es)
        invariant pTransaction == Some(Replayed(es))
        decreases |unread|
      {
        var item := ReadItem(unread);
        if item.None? {
          return false, true;
        }
        match item.value.0 {
        case CommitItem => return true, false;
        case CallItem(e) =>
          assert (es + [e])[..|es|] == es;
          pTransaction := Some(Replay(pTransaction.value, e));
          es := es + [e];
        case UnknownItem =>
        }
        unread := item.value.1;
      }
      return false, false;
    }

    /** Capacity for every record of a transaction. */
    ghost predicate RoomFor(t: Txn)
      reads this`nCurrentFile
    {
      nCurrentFile + |t.writes| < 0x1_0000 && forall k | k in t.writes :: |t.writes[k]| < 0x8000_0000
    }

    /** Commit in four passes, each in key order; it stops at the first error with what was done so far. */
    method TxnCommit() returns (ok: bool)
      requires Valid()
      requires pTransaction.Some? ==> RoomFor(pTransaction.value)
      modifies this`files, this`model, this`layout, this`keychain, this`nCurrentFile, this`nCurrentFileSize, this`pTransaction
      ensures Valid()
      ensures old(pTransaction).None? ==> !ok && model == old(model)
      ensures old(pTransaction).Some? ==> (model, ok) == Commit(old(model), old(pTransaction).value)
      ensures pTransaction == if ok then None else old(pTransaction)
    {
      if pTransaction.None? {
        return false;
      }
      hide Database.Valid, Commit;
      ok := CommitParts(pTransaction.value);
      if ok {
        pTransaction := None;
      }
    }

    method CommitParts(t: Txn) returns (ok: bool)
      requires Valid() && RoomFor(t)
      modifies this`files, this`model, this`layout, this`keychain, this`nCurrentFile, this`nCurrentFileSize
      ensures Valid() && (model, ok) == Commit(old(model), t)
    {
      hide Exec, PartProgram, Database.Valid;
      ghost var p1, p2, p3 := PartProgram(t, 1), PartProgram(t, 2), PartProgram(t, 3);
      assert Program(t) == PartProgram(t, 0) + (p1 + (p2 + p3));
      ok := CommitErases(t, p1 + (p2 + p3));
      if !ok {
        return;
      }
      CommitWrites(t, p2 + p3);
      CommitMarks(t, p3);
      ok := CommitLinks(t);
    }

    method CommitErases(t: Txn, ghost tail: seq<Record>) returns (ok: bool)
      requires Valid()
      modifies this`keychain, this`model
      ensures Valid()
      ensures Exec(old(model), map[], PartProgram(t, 0) + tail) == if ok then Exec(model, map[], tail) else (model, false)
    {
      hide Exec, Layout, Records;
      var rem := t.erased;
      while rem != {}
        invariant Valid() && rem <= t.erased
        invariant Exec(old(model), map[], PartProgram(t, 0) + tail)
               == Exec(model, map[], Records(t, 0, rem) + tail)
        decreases rem
      {
        LeastExists(rem);
        var k :| k in rem && IsLeast(k, rem);
        PassStep(t, 0, rem, k, EraseKey(k), model, map[], tail);
        ok := EraseEntry(k);
        if !ok {
          return false;
        }
        rem := rem - {k};
      }
      PassEnd(t, 0, tail);
      return true;
    }

    method CommitWrites(t: Txn, ghost tail: seq<Record>)
      requires Valid() && RoomFor(t)
      modifies this`files, this`model, this`layout, this`keychain, this`nCurrentFile, this`nCurrentFileSize
      ensures Valid()
      ensures Exec(old(model), map[], PartProgram(t, 1) + tail) == Exec(model, map[], tail)
    {
      hide Exec, Layout, Records;
      var rem := t.writes.Keys;
      while rem != {}
        invariant Valid() && rem <= t.writes.Keys
        invariant nCurrentFile + |rem| < 0x1_0000
        invariant Exec(old(model), map[], PartProgram(t, 1) + tail)
               == Exec(model, map[], Records(t, 1, rem) + tail)
        decreases rem
      {
        LeastExists(rem);
        var k :| k in rem && IsLeast(k, rem);
        PassStep(t, 1, rem, k, Write(k, t.writes[k]), model, map[], tail);
        Force(k, t.writes[k]);
        rem := rem - {k};
      }
      PassEnd(t, 1, tail);
    }

    method CommitMarks(t: Txn, ghost tail: seq<Record>)
      requires Valid()
      modifies this`keychain, this`model
      ensures Valid()
      ensures Exec(old(model), map[], PartProgram(t, 2) + tail) == Exec(model, map[], tail)
    {
      hide Exec, Layout, Records;
      var rem := t.marks;
      while rem != {}
        invariant Valid() && rem <= t.marks
        invariant Exec(old(model), map[], PartProgram(t, 2) + tail)
               == Exec(model, map[], Records(t, 2, rem) + tail)
        decreases rem
      {
        LeastExists(rem);
        var k :| k in rem && IsLeast(k, rem);
        PassStep(t, 2, rem, k, Mark(k), model, map[], tail);
        PutEntry(k, BareKey, KeyOnly);
        rem := rem - {k};
      }
      PassEnd(t, 2, tail);
    }

    lemma KeyRef(k: Key)
      requires Valid()
      ensures k in model.keys ==> RefValid(model.keys[k])
    {
    }

    method CommitLinks(t: Txn) returns (ok: bool)
      requires Valid()
      modifies this`keychain, this`model
      ensures Valid()
      ensures (model, ok) == Exec(old(model), map[], PartProgram(t, 3))
    {
      hide Exec, Step, Layout, Records, Located, Database.Valid, Store.PutKey, Store.Keyed;
      var rem := t.links.Keys;
      var mapIndex: map<Key, SectorKey> := map[];
      ghost var cache: map<Key, Ref> := map[];
      assert PartProgram(t, 3) + [] == PartProgram(t, 3);
      while rem != {}
        invariant Valid() && rem <= t.links.Keys
        invariant mapIndex.Keys == cache.Keys
        invariant forall x | x in cache :: Located(layout, cache[x], mapIndex[x]) && RefValid(cache[x])
        invariant Exec(old(model), map[], PartProgram(t, 3)) == Exec(model, cache, Records(t, 3, rem) + [])
        decreases rem
      {
        LeastExists(rem);
        var k :| k in rem && IsLeast(k, rem);
        var target := t.links[k];
        PassStep(t, 3, rem, k, Link(k, target), model, cache, []);
        var cKey;
        if target in mapIndex {
          cKey := mapIndex[target];
        } else {
          LookupIs(target);
          var entry := Lookup(target);
          if entry.None? {
            StepMissing(model, cache, k, target);
            return false;
          }
          cKey := entry.value;
          mapIndex := mapIndex[target := cKey];
        }
        StepLink(model, cache, k, target);
        KeyRef(target);
        cache := cache[target := if target in cache then cache[target] else model.keys[target]];
        PutEntry(k, cKey, cache[target]);
        rem := rem - {k};
      }
      PassEnd(t, 3, []);
      ExecNone(model, cache);
      return true;
    }

    ghost predicate RefValid(r: Ref)
      reads this
    {
      r.Sector? ==> r.id < |model.sectors|
    }
  }

  lemma ExecNone(s: Store, cache: map<Key, Ref>)
    ensures Exec(s, cache, []) == (s, true)
  {
  }

  /** One iteration of a commit pass is one record of the program. */
  lemma PassStep(t: Txn, part: nat, rem: set<Key>, k: Key, r: Record, s: Store, cache: map<Key, Ref>, tail: seq<Record>)
    requires part < 4 && rem <= PartKeys(t, part) && IsLeast(k, rem)
    requires Part(r) == part && r.key == k && InTxn(t, r)
    ensures Exec(s, cache, Records(t, part, rem) + tail)
         == match Step(s, cache, r)
            case None => (s, false)
            case Some(next) => Exec(next.0, next.1, Records(t, part, rem - {k}) + tail)
  {
    RecordsStep(t, part, rem, k);
    hide Records, Exec;
    assert RecordOf(t, part, k) == r;
    var rest := Records(t, part, rem - {k});
    assert ([r] + rest) + tail == [r] + (rest + tail);
    ExecHead(s, cache, r, rest + tail);
  }

  lemma PassEnd(t: Txn, part: nat, tail: seq<Record>)
    requires part < 4
    ensures Records(t, part, {}) + tail == tail
  {
  }

  lemma ExecHead(s: Store, cache: map<Key, Ref>, r: Record, rest: seq<Record>)
    ensures Exec(s, cache, [r] + rest)
         == match Step(s, cache, r) case None => (s, false) case Some(next) => Exec(next.0, next.1, rest)
  {
    assert ([r] + rest)[1..] == rest;
  }

  lemma ReadBytes(f: Bytes, k: SectorKey, c: Bytes)
    requires k.start + k.size <= |f| && k.size == SectorSize(c)
    requires f[k.start..k.start + k.size] == Prefix(|c|) + c
    ensures var shift := CompactWidth(k.size) - CompactWidth(|c|);
            && 0 <= shift <= |c|
            && f[k.start + CompactWidth(k.size)..k.start + k.size] == c[shift..]
            && (c[shift..] == c <==> shift == 0)
  {
    var n, shift := CompactWidth(k.size), CompactWidth(k.size) - CompactWidth(|c|);
    var s := f[k.start..k.start + k.size];
    assert f[k.start + n..k.start + k.size] == s[n..];
    assert (Prefix(|c|) + c)[n..] == c[shift..];
  }
}
