/**
  `SectorDatabase` with its `BinaryLRU` in front: reads answered by the cache agree with
  reads of the sector files, also when several keys share one sector.
 */
module CachedDatabase {
  import opened Wrappers
  import opened Store
  import opened SectorKeys
  import opened SectorDatabase
  import opened BinaryLru

  /** What the cache may hold for a record: the record as written, or as it was read from disk. */
  ghost predicate Current(s: Store, k: Key, d: Bytes)
    requires s.Valid()
  {
    s.HasSector(k) && (d == s.Content(k) || Data(d) == DiskRead(s, k))
  }

  /** A write leaves current what is cached for a key of another sector. */
  lemma ForceCurrent(s: Store, w: Key, data: Bytes, k: Key, d: Bytes)
    requires s.Valid() && Current(s, k, d) && k != w
    requires s.Fits(w, data) ==> s.keys[k] != s.keys[w]
    ensures s.Force(w, data).Valid() && Current(s.Force(w, data), k, d)
  {
    assert s.Force(w, data).Content(k) == s.Content(k);
  }

  /** A linked key has the record of its target. */
  lemma LinkCurrent(s: Store, w: Key, t: Key, d: Bytes)
    requires s.Valid() && t in s.keys
    ensures var s' := s.PutKey(w, s.keys[t]); s'.Valid() && (Current(s', w, d) <==> Current(s, t, d)) && DiskRead(s', w) == DiskRead(s, t)
  {
  }

  lemma LinkOthers(s: Store, w: Key, t: Key, k: Key, d: Bytes)
    requires s.Valid() && t in s.keys && k != w
    ensures var s' := s.PutKey(w, s.keys[t]); s'.Valid() && (Current(s', k, d) <==> Current(s, k, d))
  {
  }

  /** A marked key has no record any more. */
  lemma MarkCurrent(s: Store, w: Key, d: Bytes)
    requires s.Valid()
    ensures var s' := s.PutKey(w, KeyOnly); s'.Valid() && !Current(s', w, d) && DiskRead(s', w) == Thrown
  {
  }

  lemma MarkOthers(s: Store, w: Key, k: Key, d: Bytes)
    requires s.Valid() && k != w
    ensures var s' := s.PutKey(w, KeyOnly); s'.Valid() && (Current(s', k, d) <==> Current(s, k, d))
  {
  }

  class CachedDatabase {
    const db: Database
    const cachePool: BinaryLRU
    /** The keys in use: their hashes are distinct and not 0. */
    ghost const keys: iset<Key>

    ghost predicate Hashed(hash: Key -> nat)
    {
      forall j, k | j in keys && k in keys :: hash(k) != 0 && (hash(j) == hash(k) ==> j == k)
    }

    /** The cache slot of a sector depends on its position alone. */
    ghost function SlotOf(key: SectorKey): (s: nat)
      requires cachePool.MAX_CACHE_BUCKETS > 0
    {
      cachePool.Slot(cachePool.Index(key.file, key.start))
    }

    /** An entry of the key with these data. */
    ghost predicate Caches(k: Key, d: Bytes)
      requires cachePool.Sized()
      reads this, cachePool, cachePool.hashmap, cachePool.nodes
      requires cachePool.SlotsValid()
    {
      exists s :: 0 <= s < cachePool.MAX_CACHE_BUCKETS && cachePool.Entry(s) == Some(CacheEntry(cachePool.hash(k), d))
    }

    /** Each cached entry of a key lies in the slot of the key's sector and is current. */
    ghost predicate Coherent()
      requires cachePool.Sized() && db.model.Valid() && cachePool.SlotsValid()
      reads this, db, cachePool, cachePool.hashmap, cachePool.nodes
    {
      forall s, k | 0 <= s < cachePool.MAX_CACHE_BUCKETS && k in keys
                    && cachePool.Entry(s).Some? && cachePool.Entry(s).value.hash == cachePool.hash(k) ::
        k in db.model.keys && s == SlotOf(db.KeyAt(k)) && Current(db.model, k, cachePool.Entry(s).value.data)
    }

    /** What is cached for the first key is the record of the second, in its place. */
    ghost predicate CachedAlike(k: Key, t: Key)
      requires cachePool.Sized() && db.model.Valid() && cachePool.SlotsValid()
      reads this, db, cachePool, cachePool.hashmap, cachePool.nodes
    {
      forall s | 0 <= s < cachePool.MAX_CACHE_BUCKETS && cachePool.Entry(s).Some? && cachePool.Entry(s).value.hash == cachePool.hash(k) ::
        s == SlotOf(db.KeyAt(t)) && Current(db.model, t, cachePool.Entry(s).value.data)
    }

    /** No sector position has the index 0. */
    ghost predicate Indexed()
      reads this, db
    {
      forall i | 0 <= i < |db.layout| :: cachePool.Index(db.layout[i].file, db.layout[i].start) != 0
    }

    /** Everything but coherence. */
    ghost predicate Sound()
      reads this, db, cachePool, cachePool.hashmap, cachePool.indexes, cachePool.nodes, cachePool.list, cachePool.list.l
    {
      db.Valid() && cachePool.Valid() && Hashed(cachePool.hash) && Indexed()
    }

    ghost predicate Valid()
      reads this, db, cachePool, cachePool.hashmap, cachePool.indexes, cachePool.nodes, cachePool.list, cachePool.list.l
    {
      Sound() && Coherent()
    }

    constructor (nCacheSize: nat, hash: Key -> nat, bucket: Key -> nat, ghost keys: iset<Key>)
      requires nCacheSize >= 128
      requires forall j, k | j in keys && k in keys :: hash(k) != 0 && (hash(j) == hash(k) ==> j == k)
      ensures Valid() && this.keys == keys && cachePool.hash == hash && db.model == EmptyStore(bucket)
    {
      hide BinaryLRU.Valid, BinaryLRU.SlotsValid, BinaryLRU.Entry, BinaryLRU.Slot, BinaryLRU.Index, BinaryLRU.Recent, Database.Valid;
      db := new Database(bucket);
      cachePool := new BinaryLRU(nCacheSize, hash);
      this.keys := keys;
      new;
      StoreValid();
      NothingCached();
    }

    lemma NothingCached()
      requires db.Valid() && cachePool.Valid() && cachePool.nodes == {}
      ensures cachePool.Sized() && cachePool.SlotsValid() && db.model.Valid() && Coherent()
    {
      hide Database.Valid, BinaryLRU.Slot, BinaryLRU.Index, BinaryLRU.LiveValid, BinaryLRU.DetachedValid, BinaryLRU.IndexValid;
      StoreValid();
    }

    method Get(vKey: Key) returns (r: ReadResult)
      requires Valid() && vKey in keys
      modifies cachePool, cachePool.list, cachePool.hashmap, cachePool.indexes, cachePool.nodes
      ensures Valid() && fresh(cachePool.nodes - old(cachePool.nodes))
      ensures r == DiskRead(db.model, vKey) || (db.model.HasSector(vKey) && r == Data(db.model.Content(vKey)))
      ensures db.model.HasSector(vKey) && ReadsBack(db.model.Content(vKey)) ==> r == DiskRead(db.model, vKey)
    {
      hide CachedDatabase.Sound, CachedDatabase.Coherent, Database.Valid, DiskRead;
      StoreOf();
      IfReadsBack(vKey);
      var cached := FromCache(vKey);
      if cached.Some? {
        IsCurrent(vKey, cached.value);
        return Data(cached.value);
      }
      StoreOf();
      r := db.Get(vKey);
      if r.Data? {
        HasLayout(vKey);
        Refill(vKey, r.data);
      }
    }

    /** The cache answers with what it has for the key, current or not; a look into it changes only the order of use. */
    method FromCache(vKey: Key) returns (cached: Option<Bytes>)
      requires Sound() && vKey in keys
      modifies cachePool, cachePool.list, cachePool.hashmap, cachePool.indexes, cachePool.nodes
      ensures Sound() && cachePool.nodes == old(cachePool.nodes)
      ensures forall d :: Caches(vKey, d) <==> cached == Some(d)
      ensures Coherent() <==> old(Coherent())
    {
      hide Database.Valid, BinaryLRU.Valid, BinaryLRU.SlotsValid, BinaryLRU.Slot, BinaryLRU.Entry, BinaryLRU.Recent, BinaryLRU.Bucket, DiskRead;
      cachePool.Members();
      StoreValid();
      cached := cachePool.Get(vKey);
      cachePool.Members();
      cachePool.OneEntry(cachePool.hash(vKey));
    }

    lemma IsCurrent(k: Key, d: Bytes)
      requires Valid() && k in keys && Caches(k, d)
      ensures Current(db.model, k, d)
    {
      hide Database.Valid, BinaryLRU.Valid, BinaryLRU.SlotsValid, BinaryLRU.Slot, BinaryLRU.Entry, Current;
      cachePool.Members();
      StoreValid();
    }

    /** Cache what was read from disk. */
    method Refill(vKey: Key, vData: Bytes)
      requires Valid() && vKey in keys && db.model.HasSector(vKey) && Current(db.model, vKey, vData)
      modifies cachePool, cachePool.list, cachePool.hashmap, cachePool.indexes, cachePool.nodes
      ensures Valid() && fresh(cachePool.nodes - old(cachePool.nodes))
    {
      hide Database.Valid, BinaryLRU.Valid, BinaryLRU.SlotsValid, BinaryLRU.Slot, BinaryLRU.Entry, Current;
      cachePool.Members();
      StoreValid();
      IndexedKey(vKey);
      db.LookupIs(vKey);
      var key := db.Lookup(vKey).value;
      Remember(key, vKey, vData);
    }

    lemma IfReadsBack(k: Key)
      requires db.model.Valid()
      ensures db.model.HasSector(k) && ReadsBack(db.model.Content(k)) ==> DiskRead(db.model, k) == Data(db.model.Content(k))
    {
    }

    lemma HasLayout(k: Key)
      requires db.Valid() && DiskRead(db.model, k).Data?
      ensures db.model.HasSector(k)
    {
    }

    /** Coherence of every entry but those of one key and those in its sector's slot. */
    ghost predicate CoherentBut(vKey: Key)
      requires cachePool.Sized() && db.model.Valid() && cachePool.SlotsValid() && vKey in db.model.keys
      reads this, db, cachePool, cachePool.hashmap, cachePool.nodes
    {
      forall s, k | 0 <= s < cachePool.MAX_CACHE_BUCKETS && k in keys && k != vKey && s != SlotOf(db.KeyAt(vKey))
                    && cachePool.Entry(s).Some? && cachePool.Entry(s).value.hash == cachePool.hash(k) ::
        k in db.model.keys && s == SlotOf(db.KeyAt(k)) && Current(db.model, k, cachePool.Entry(s).value.data)
    }

    /** Caching the current record of a key makes the entries of every key that shares its sector current. */
    method Remember(key: SectorKey, vKey: Key, vData: Bytes)
      requires db.Valid() && cachePool.Valid() && Hashed(cachePool.hash) && vKey in keys
      requires vKey in db.model.keys && db.KeyAt(vKey) == key && Current(db.model, vKey, vData)
      requires cachePool.Index(key.file, key.start) != 0 && CoherentBut(vKey)
      modifies cachePool, cachePool.list, cachePool.hashmap, cachePool.indexes, cachePool.nodes
      ensures cachePool.Valid() && fresh(cachePool.nodes - old(cachePool.nodes)) && Coherent()
    {
      hide BinaryLRU.Valid, BinaryLRU.SlotsValid, BinaryLRU.Entry, BinaryLRU.Slot, BinaryLRU.Index, BinaryLRU.Bucket, BinaryLRU.Recent, Database.Valid, Current;
      cachePool.Members();
      cachePool.Put(key.file, key.start, vKey, vData);
      cachePool.Members();
    }

    method Update(vKey: Key, vData: Bytes) returns (ok: bool)
      requires Valid() && vKey in keys
      modifies db, cachePool, cachePool.list, cachePool.hashmap, cachePool.indexes, cachePool.nodes
      ensures Valid() && fresh(cachePool.nodes - old(cachePool.nodes))
      ensures ok <==> old(db.model).Fits(vKey, vData)
      ensures db.model == if ok then old(db.model).Force(vKey, vData) else old(db.model)
      ensures db.nCurrentFile == old(db.nCurrentFile) && db.nCurrentFileSize == old(db.nCurrentFileSize)
    {
      hide Database.Valid, CachedDatabase.Coherent, CachedDatabase.CoherentBut, BinaryLRU.Valid, BinaryLRU.SlotsValid, BinaryLRU.Index, Current;
      cachePool.Members();
      StoreValid();
      ok := UpdateDisk(vKey, vData);
      if ok {
        StoreValid();
        db.LookupIs(vKey);
        var key := db.Lookup(vKey).value;
        assert cachePool.Index(key.file, key.start) != 0 by { IndexedKey(vKey); }
        Remember(key, vKey, vData);
      }
    }

    /** The write in place; what the cache has for the keys of the sector is not current any more. */
    method UpdateDisk(vKey: Key, vData: Bytes) returns (ok: bool)
      requires Valid() && vKey in keys
      modifies db
      ensures Sound()
      ensures ok <==> old(db.model).Fits(vKey, vData)
      ensures db.model == if ok then old(db.model).Force(vKey, vData) else old(db.model)
      ensures db.nCurrentFile == old(db.nCurrentFile) && db.nCurrentFileSize == old(db.nCurrentFileSize)
      ensures if ok then db.model.HasSector(vKey) && CoherentBut(vKey) && Current(db.model, vKey, vData) else Coherent()
    {
      hide Database.Valid, BinaryLRU.Valid, BinaryLRU.SlotsValid, BinaryLRU.Entry, BinaryLRU.Slot, BinaryLRU.Index, Current;
      ghost var m := db.model;
      cachePool.Members();
      StoreValid();
      ok := db.Update(vKey, vData);
      StoreValid();
      if ok {
        Shared(vKey);
        forall k, d | k != vKey && k in m.keys && Current(m, k, d) && m.keys[k] != m.keys[vKey]
          ensures Current(db.model, k, d)
        {
          ForceCurrent(m, vKey, vData, k, d);
        }
        Written(m, vKey, vData);
      }
    }

    lemma IndexedKey(vKey: Key)
      requires db.Valid() && db.model.HasSector(vKey) && Indexed()
      ensures cachePool.Index(db.KeyAt(vKey).file, db.KeyAt(vKey).start) != 0
    {
      assert Located(db.layout, db.model.keys[vKey], db.KeyAt(vKey));
    }

    /** Keys of one sector have one position. */
    lemma Shared(vKey: Key)
      requires db.Valid() && db.model.HasSector(vKey)
      ensures forall k | db.model.HasSector(k) :: db.model.keys[k] == db.model.keys[vKey] ==> db.KeyAt(k) == db.KeyAt(vKey)
    {
    }

    /** Where the next record is appended. */
    ghost function NextFile(): (f: nat)
      reads db
    {
      if db.nCurrentFileSize > MAX_SECTOR_FILE_SIZE then db.nCurrentFile + 1 else db.nCurrentFile
    }

    ghost function NextStart(): (n: nat)
      reads db
    {
      if db.nCurrentFileSize > MAX_SECTOR_FILE_SIZE then 0 else db.nCurrentFileSize
    }

    method Force(vKey: Key, vData: Bytes)
      requires Valid() && vKey in keys && db.Room(vData)
      requires cachePool.Index(NextFile(), NextStart()) != 0
      modifies db, cachePool, cachePool.list, cachePool.hashmap, cachePool.indexes, cachePool.nodes
      ensures Valid() && fresh(cachePool.nodes - old(cachePool.nodes))
      ensures db.model == old(db.model).Force(vKey, vData)
    {
      hide CachedDatabase.Valid;
      var updated := Update(vKey, vData);
      if !updated {
        Add(vKey, vData);
      }
    }

    /** Append a record, to a new file when the last one is full. */
    method AppendSector(vKey: Key, vData: Bytes)
      requires db.Valid() && db.Room(vData) && !db.model.Fits(vKey, vData)
      modifies db
      ensures db.Valid() && db.model == old(db.model).Force(vKey, vData)
      ensures db.KeyAt(vKey) == SectorKey(old(NextFile()), old(NextStart()), SectorSize(vData))
      ensures db.layout == old(db.layout) + [db.KeyAt(vKey)]
      ensures forall k | k != vKey && old(db.model).HasSector(k) :: db.KeyAt(k) == old(db.KeyAt(k))
    {
      hide Database.Valid;
      StoreValid();
      if db.nCurrentFileSize > MAX_SECTOR_FILE_SIZE {
        db.NewFile();
      }
      db.Append(vKey, vData);
    }

    /** The appending half of a write. */
    method Add(vKey: Key, vData: Bytes)
      requires Valid() && vKey in keys && db.Room(vData) && !db.model.Fits(vKey, vData)
      requires cachePool.Index(NextFile(), NextStart()) != 0
      modifies db, cachePool, cachePool.list, cachePool.hashmap, cachePool.indexes, cachePool.nodes
      ensures Valid() && fresh(cachePool.nodes - old(cachePool.nodes))
      ensures db.model == old(db.model).Force(vKey, vData)
    {
      hide Database.Valid, CachedDatabase.Coherent, CachedDatabase.CoherentBut, BinaryLRU.Valid, BinaryLRU.SlotsValid, BinaryLRU.Index, Current;
      AddDisk(vKey, vData);
      cachePool.Members();
      StoreValid();
      db.LookupIs(vKey);
      var key := db.Lookup(vKey).value;
      assert cachePool.Index(key.file, key.start) != 0 by { IndexedKey(vKey); }
      Remember(key, vKey, vData);
    }

    method AddDisk(vKey: Key, vData: Bytes)
      requires Valid() && vKey in keys && db.Room(vData) && !db.model.Fits(vKey, vData)
      requires cachePool.Index(NextFile(), NextStart()) != 0
      modifies db
      ensures Sound() && db.model == old(db.model).Force(vKey, vData)
      ensures db.model.HasSector(vKey) && CoherentBut(vKey) && Current(db.model, vKey, vData)
    {
      hide Database.Valid, BinaryLRU.Valid, BinaryLRU.SlotsValid, BinaryLRU.Entry, BinaryLRU.Slot, BinaryLRU.Index, Current;
      ghost var m := db.model;
      cachePool.Members();
      StoreValid();
      AppendSector(vKey, vData);
      StoreValid();
      forall k, d | k != vKey && Current(m, k, d)
        ensures m.HasSector(k) && Current(db.model, k, d)
      {
        ForceCurrent(m, vKey, vData, k, d);
        CurrentSector(m, k, d);
      }
      Written(m, vKey, vData);
    }

    lemma CurrentSector(s: Store, k: Key, d: Bytes)
      requires s.Valid() && Current(s, k, d)
      ensures s.HasSector(k)
    {
    }

    /**
      Point a key to the sector of another. The cache is not told: it stays coherent exactly when what it has
      for the key, if anything, is the other's record.
    */
    method Link(vKey: Key, vIndex: Key) returns (ok: bool)
      requires Valid()
      modifies db
      ensures Sound()
      ensures ok <==> vIndex in old(db.model).keys
      ensures db.model == if ok then old(db.model).PutKey(vKey, old(db.model).keys[vIndex]) else old(db.model)
      ensures ok ==> DiskRead(db.model, vKey) == DiskRead(db.model, vIndex)
      ensures forall d | ok && vKey != vIndex :: Current(db.model, vKey, d) <==> Current(old(db.model), vIndex, d)
      ensures Coherent() <==> (ok && vKey in keys ==> old(CachedAlike(vKey, vIndex)))
    {
      hide Database.Valid, CachedDatabase.Sound, CachedDatabase.Coherent, CachedDatabase.CachedAlike, Current;
      StoreOf();
      db.LookupIs(vIndex);
      var entry := db.Lookup(vIndex);
      if entry.None? {
        return false;
      }
      forall d
        ensures Current(old(db.model).PutKey(vKey, old(db.model).keys[vIndex]), vKey, d) <==> Current(old(db.model), vIndex, d)
        ensures var s := old(db.model).PutKey(vKey, old(db.model).keys[vIndex]); DiskRead(s, vKey) == DiskRead(s, vIndex)
      {
        LinkCurrent(old(db.model), vKey, vIndex, d);
      }
      Repoint(vKey, vIndex, entry.value);
      return true;
    }

    /**
      Make a key a bare one, so that reads of it throw. The cache is not told of that either: it stays coherent
      exactly when it had nothing for the key.
    */
    method Mark(vKey: Key)
      requires Valid()
      modifies db
      ensures Sound()
      ensures db.model == old(db.model).PutKey(vKey, KeyOnly) && DiskRead(db.model, vKey) == Thrown
      ensures Coherent() <==> (vKey in keys ==> forall d :: !old(Caches(vKey, d)))
    {
      hide Database.Valid, BinaryLRU.Valid, BinaryLRU.SlotsValid, BinaryLRU.Entry, BinaryLRU.Slot, BinaryLRU.Index, Current, DiskRead;
      ghost var m := db.model;
      cachePool.Members();
      StoreValid();
      db.PutEntry(vKey, BareKey, KeyOnly);
      StoreValid();
      MarkCurrent(m, vKey, []);
      forall k, d
        ensures !Current(db.model, vKey, d)
        ensures k != vKey ==> (Current(db.model, k, d) <==> Current(m, k, d))
      {
        MarkCurrent(m, vKey, d);
        if k != vKey {
          MarkOthers(m, vKey, k, d);
        }
      }
      assert forall k | k != vKey :: db.KeyAt(k) == old(db.KeyAt(k));
      assert forall d :: Caches(vKey, d) <==> old(Caches(vKey, d));
      NoneCached(vKey);
      EntryCached(vKey);
    }

    /** What an entry with a key's hash holds is cached for the key. */
    lemma EntryCached(k: Key)
      requires cachePool.Sized() && cachePool.SlotsValid()
      ensures forall s | 0 <= s < cachePool.MAX_CACHE_BUCKETS && cachePool.Entry(s).Some? && cachePool.Entry(s).value.hash == cachePool.hash(k) ::
                Caches(k, cachePool.Entry(s).value.data)
    {
      hide BinaryLRU.SlotsValid, BinaryLRU.Entry;
      forall s | 0 <= s < cachePool.MAX_CACHE_BUCKETS && cachePool.Entry(s).Some? && cachePool.Entry(s).value.hash == cachePool.hash(k)
        ensures Caches(k, cachePool.Entry(s).value.data)
      {
        assert cachePool.Entry(s) == Some(CacheEntry(cachePool.hash(k), cachePool.Entry(s).value.data));
      }
    }

    /** A key whose record nothing is current for has no entry in a coherent cache. */
    lemma NoneCached(k: Key)
      requires Sound() && cachePool.Sized() && db.model.Valid() && cachePool.SlotsValid()
      requires forall d :: !Current(db.model, k, d)
      ensures Coherent() && k in keys ==> forall d :: !Caches(k, d)
    {
      hide Database.Valid, BinaryLRU.Valid, BinaryLRU.SlotsValid, BinaryLRU.Entry, BinaryLRU.Slot, BinaryLRU.Index, Current;
    }

    method Repoint(vKey: Key, vIndex: Key, key: SectorKey)
      requires Valid() && vIndex in db.model.keys && key == db.KeyAt(vIndex)
      requires Located(db.layout, db.model.keys[vIndex], key)
      modifies db
      ensures Sound() && db.model == old(db.model).PutKey(vKey, old(db.model).keys[vIndex])
      ensures Coherent() <==> (vKey in keys ==> old(CachedAlike(vKey, vIndex)))
    {
      hide Database.Valid, BinaryLRU.Valid, BinaryLRU.SlotsValid, BinaryLRU.Entry, BinaryLRU.Slot, BinaryLRU.Index, Current, Located;
      ghost var m := db.model;
      cachePool.Members();
      StoreValid();
      db.PutEntry(vKey, key, m.keys[vIndex]);
      StoreValid();
      forall k, d
        ensures Current(db.model, vKey, d) <==> Current(m, vIndex, d)
        ensures k != vKey ==> (Current(db.model, k, d) <==> Current(m, k, d))
      {
        LinkCurrent(m, vKey, vIndex, d);
        if k != vKey {
          LinkOthers(m, vKey, vIndex, k, d);
        }
      }
      assert db.KeyAt(vKey) == old(db.KeyAt(vIndex));
      assert forall k | k != vKey :: db.KeyAt(k) == old(db.KeyAt(k));
      if vKey in keys && Coherent() {
        forall s | 0 <= s < cachePool.MAX_CACHE_BUCKETS && old(cachePool.Entry(s)).Some? && old(cachePool.Entry(s)).value.hash == cachePool.hash(vKey)
          ensures s == SlotOf(old(db.KeyAt(vIndex))) && Current(m, vIndex, old(cachePool.Entry(s)).value.data)
        {
          assert cachePool.Entry(s) == old(cachePool.Entry(s));
        }
        assert old(CachedAlike(vKey, vIndex));
      }
    }

    lemma StoreOf()
      requires Sound()
      ensures db.Valid() && db.model.Valid()
    {
    }

    lemma StoreValid()
      requires db.Valid()
      ensures db.model.Valid() && db.nCurrentFileSize < 0x1_0000_0000 && |db.layout| == |db.model.sectors|
    {
    }
  }

  lemma Written(s: Store, k: Key, d: Bytes)
    requires s.Valid()
    ensures s.Force(k, d).Valid() && s.Force(k, d).HasSector(k) && Current(s.Force(k, d), k, d)
  {
  }
}
