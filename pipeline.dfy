/** The ingestion stage of a monitoring session: the de-duplication cache, the
    batch buffer, and how a line of trace output travels through both into the
    store. Every step is one atomic action at one clock reading `now`, in
    milliseconds; the goroutines, tickers and mutexes around them are not
    modelled. */
module Pipeline {

  import opened Wrappers
  import opened Model
  import opened Filter
  import opened LineParser
  import opened StoreSpec
  import Database

  /** The buffer is handed to the store once it holds this many records. */
  const BatchSize: nat := 100

  /** A repeat of the same access within this many milliseconds is dropped. */
  const DebounceMs: int := 500

  /** Cache entries older than this many milliseconds are evicted. */
  const CacheRetentionMs: int := 30000

  /** What makes two accesses "the same" for de-duplication. */
  datatype AccessKey = AccessKey(process: string, filePath: string, operation: string)

  function KeyOf(a: FileAccess): AccessKey {
    AccessKey(a.processName, a.filePath, a.operation)
  }

  /** The cache says: this key was seen less than 500 ms before now. A time
      going backwards also counts as "less than". */
  predicate Suppressed(cache: map<AccessKey, int>, key: AccessKey, now: int) {
    key in cache && now - cache[key] < DebounceMs
  }

  /** The entries cleanupAccessCache keeps at time now: those at most 30 s
      old. */
  function Retained(cache: map<AccessKey, int>, now: int): (r: map<AccessKey, int>)
    ensures forall k :: k in r <==> k in cache && now - cache[k] <= CacheRetentionMs
    ensures forall k :: k in r ==> r[k] == cache[k]
  {
    map k | k in cache && now - cache[k] <= CacheRetentionMs :: cache[k]
  }

  /** Once the cache has stamped a key with t, a repeat is dropped exactly
      while it comes less than 500 ms after t. */
  lemma DebounceWindow(cache: map<AccessKey, int>, key: AccessKey, t: int, later: int)
    ensures Suppressed(cache[key := t], key, later) <==> later - t < DebounceMs
  {
  }

  /** Eviction never changes a de-duplication decision taken at or after the
      time of the cleanup: whatever it removes is too old to suppress
      anything. */
  lemma CleanupKeepsDecisions(cache: map<AccessKey, int>, now: int, key: AccessKey, later: int)
    requires later >= now
    ensures Suppressed(Retained(cache, now), key, later) <==> Suppressed(cache, key, later)
  {
  }

  /** With a cap below 500, every full batch delivered to a full store leaves
      it larger than its cap: the store keeps growing as batches arrive. */
  lemma FullBatchOutgrowsSmallCap(s: seq<FileAccess>, batch: seq<FileAccess>, firstId: nat, now: int, maxRecords: int)
    requires 0 < maxRecords < 5 * BatchSize
    requires |s| == maxRecords && |batch| == BatchSize
    ensures |Trim(s + Stamp(batch, firstId, now), maxRecords)| > maxRecords
  {
    BatchOutgrowsCap(s, Stamp(batch, firstId, now), maxRecords);
  }

  /** The record one line contributes, given the cache: the parsed record,
      unless the same access was seen less than 500 ms before. */
  function Accepted(cache: map<AccessKey, int>, line: string, f: FilterState, now: int): (r: Option<FileAccess>)
    ensures r.Some? <==>
      ParseFsUsageLine(line, f, now).Some? && !Suppressed(cache, KeyOf(ParseFsUsageLine(line, f, now).value), now)
    ensures r.Some? ==> r == ParseFsUsageLine(line, f, now)
  {
    match ParseFsUsageLine(line, f, now)
    case None => None
    case Some(a) => if Suppressed(cache, KeyOf(a), now) then None else Some(a)
  }

  /** The records an Option holds, as a list. */
  function AsSeq(r: Option<FileAccess>): (s: seq<FileAccess>)
    ensures r.None? ==> s == []
    ensures r.Some? ==> s == [r.value]
  {
    match r
    case None => []
    case Some(a) => [a]
  }

  /** The state the reading loop and the flush loop share. */
  class Session {
    var recentAccesses: map<AccessKey, int>
    var accessBuffer: seq<FileAccess>

    /** A full buffer is always handed over at once, so it never holds a whole
        batch. */
    ghost predicate Valid()
      reads this
    {
      |accessBuffer| < BatchSize
    }

    constructor ()
      ensures Valid()
      ensures recentAccesses == map[] && accessBuffer == []
    {
      recentAccesses := map[];
      accessBuffer := [];
    }

    /** The de-duplication step: a key seen less than 500 ms ago is dropped
        and leaves the cache alone; any other key is stamped with now. */
    method CheckAndRecord(key: AccessKey, now: int) returns (suppressed: bool)
      modifies this
      ensures suppressed <==> Suppressed(old(recentAccesses), key, now)
      ensures suppressed ==> recentAccesses == old(recentAccesses)
      ensures !suppressed ==> recentAccesses == old(recentAccesses)[key := now]
      ensures accessBuffer == old(accessBuffer)
    {
      if key in recentAccesses && now - recentAccesses[key] < DebounceMs {
        return true;
      }
      recentAccesses := recentAccesses[key := now];
      return false;
    }

    /** The buffering step: append, and once the buffer holds 100 records
        hand all of them over, in arrival order, leaving it empty. */
    method Append(access: FileAccess) returns (batch: seq<FileAccess>)
      requires Valid()
      modifies this
      ensures Valid()
      ensures batch + accessBuffer == old(accessBuffer) + [access]
      ensures |old(accessBuffer)| + 1 >= BatchSize ==> batch == old(accessBuffer) + [access] && accessBuffer == []
      ensures |old(accessBuffer)| + 1 < BatchSize ==> batch == [] && accessBuffer == old(accessBuffer) + [access]
      ensures recentAccesses == old(recentAccesses)
    {
      accessBuffer := accessBuffer + [access];
      if |accessBuffer| >= BatchSize {
        batch := accessBuffer;
        accessBuffer := [];
      } else {
        batch := [];
      }
    }

    /** cleanupAccessCache: evict every entry more than 30 s older than now,
        and nothing else. */
    method CleanupAccessCache(now: int)
      modifies this
      ensures recentAccesses == Retained(old(recentAccesses), now)
      ensures accessBuffer == old(accessBuffer)
    {
      ghost var original := recentAccesses;
      var keys := recentAccesses.Keys;
      while keys != {}
        invariant keys <= original.Keys
        invariant forall k :: k in recentAccesses <==>
          k in original && (k in keys || now - original[k] <= CacheRetentionMs)
        invariant forall k :: k in recentAccesses ==> recentAccesses[k] == original[k]
        invariant accessBuffer == old(accessBuffer)
        decreases |keys|
      {
        var key :| key in keys;
        if now - recentAccesses[key] > CacheRetentionMs {
          recentAccesses := recentAccesses - {key};
        }
        keys := keys - {key};
      }
      assert recentAccesses.Keys == Retained(original, now).Keys;
    }

    /** flushAccessBuffer, up to the hand-over: an empty buffer gives nothing
        and changes nothing; otherwise all of it is handed over and it is
        emptied. */
    method Flush() returns (batch: seq<FileAccess>)
      requires Valid()
      modifies this
      ensures Valid()
      ensures batch == old(accessBuffer) && accessBuffer == []
      ensures recentAccesses == old(recentAccesses)
    {
      if |accessBuffer| == 0 {
        return [];
      }
      batch := accessBuffer;
      accessBuffer := [];
    }

    /** The body of the reading loop for one line: parse, de-duplicate, buffer,
        and pass a full batch to the store. `delivered` is the batch the store
        received (empty for none). */
    method IngestLine(line: string, f: FilterState, now: int, store: Database.MemoryStore)
      returns (delivered: seq<FileAccess>)
      requires Valid() && store.Valid()
      modifies this, store
      ensures Valid() && store.Valid()
      ensures recentAccesses ==
        match Accepted(old(recentAccesses), line, f, now)
        case None => old(recentAccesses)
        case Some(a) => old(recentAccesses)[KeyOf(a) := now]
      ensures delivered + accessBuffer == old(accessBuffer) + AsSeq(Accepted(old(recentAccesses), line, f, now))
      ensures delivered != [] ==> |delivered| == BatchSize
      ensures delivered == [] ==> store.accesses == old(store.accesses) && store.currentID == old(store.currentID)
      ensures delivered != [] ==>
        store.accesses == Trim(old(store.accesses) + Stamp(delivered, old(store.currentID), now), store.maxRecords)
      ensures delivered != [] ==> store.currentID == old(store.currentID) + |delivered|
      ensures store.maxRecords == old(store.maxRecords)
    {
      delivered := [];
      var parsed := ParseFsUsageLine(line, f, now);
      if parsed.None? {
        return;
      }
      var access := parsed.value;
      var suppressed := CheckAndRecord(KeyOf(access), now);
      if suppressed {
        return;
      }
      delivered := Append(access);
      if delivered != [] {
        DeliverBatch(delivered, now, store);
      }
    }

    /** The flush loop's tick: flush the buffer and hand a non-empty batch to
        the store. */
    method FlushToStore(now: int, store: Database.MemoryStore) returns (delivered: seq<FileAccess>)
      requires Valid() && store.Valid()
      modifies this, store
      ensures Valid() && store.Valid()
      ensures delivered == old(accessBuffer) && accessBuffer == []
      ensures recentAccesses == old(recentAccesses)
      ensures delivered == [] ==> store.accesses == old(store.accesses) && store.currentID == old(store.currentID)
      ensures delivered != [] ==>
        store.accesses == Trim(old(store.accesses) + Stamp(delivered, old(store.currentID), now), store.maxRecords)
      ensures delivered != [] ==> store.currentID == old(store.currentID) + |delivered|
      ensures store.maxRecords == old(store.maxRecords)
    {
      delivered := Flush();
      if delivered != [] {
        DeliverBatch(delivered, now, store);
      }
    }
  }

  /** Copy a batch into a fresh slice and pass it to AddFileAccessBatch. */
  method DeliverBatch(batch: seq<FileAccess>, now: int, store: Database.MemoryStore)
    requires batch != [] && store.Valid()
    modifies store
    ensures store.Valid()
    ensures store.accesses == Trim(old(store.accesses) + Stamp(batch, old(store.currentID), now), store.maxRecords)
    ensures store.currentID == old(store.currentID) + |batch| && store.maxRecords == old(store.maxRecords)
  {
    var currentBatch := new FileAccess[|batch|](k requires 0 <= k < |batch| => batch[k]);
    assert currentBatch[..] == batch;
    store.AddFileAccessBatch(currentBatch, now);
  }
}
