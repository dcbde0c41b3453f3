/** MemoryStore: the ordered list of file-access records, the next ID to hand
    out and the cap, updated in place by the writes and read by the queries.
    Each operation is one atomic step; the read/write lock around it is not
    modelled. */
module Database {

  import opened Model
  import opened StoreSpec

  /** The cap InitDB asks for. */
  const InitialStoreCapacity: int := 100000

  /** The counters GetStoreStats reports. */
  datatype StoreStats = StoreStats(currentRecords: nat, maxRecords: int, nextId: nat)

  class MemoryStore {
    var accesses: seq<FileAccess>
    var currentID: nat
    var maxRecords: int

    /** The cap is positive, and the stored records carry consecutive IDs
        ending just below currentID. */
    ghost predicate Valid()
      reads this
    {
      maxRecords > 0 && IdsEndAt(accesses, currentID)
    }

    /** NewMemoryStore: an empty store whose IDs start at 1. */
    constructor (maxRecords: int)
      ensures Valid()
      ensures this.maxRecords == InitialMaxRecords(maxRecords)
      ensures accesses == [] && currentID == 1
    {
      var cap := maxRecords;
      if cap <= 0 {
        cap := DefaultMaxRecords;
      }
      accesses := [];
      this.maxRecords := cap;
      currentID := 1;
    }

    /** AddFileAccess: the record gets the next ID and the creation time, is
        appended, and the oldest fifth of the cap goes once the cap is
        exceeded. */
    method AddFileAccess(access: FileAccess, now: int)
      requires Valid()
      modifies this
      ensures Valid()
      ensures currentID == old(currentID) + 1 && maxRecords == old(maxRecords)
      ensures accesses == Trim(old(accesses) + Stamp([access], old(currentID), now), maxRecords)
      ensures maxRecords >= 5 && |old(accesses)| <= maxRecords ==> |accesses| <= maxRecords
    {
      var stamped := access.(id := currentID, createdAt := now);
      assert [stamped] == Stamp([access], currentID, now);
      IdsEndAtAppend(accesses, [stamped], currentID);
      if maxRecords >= 5 && |accesses| <= maxRecords {
        TrimKeepsCap(accesses, stamped, maxRecords);
      }
      currentID := currentID + 1;
      accesses := accesses + [stamped];
      if |accesses| > maxRecords {
        var removeCount := maxRecords / 5;
        IdsEndAtSuffix(accesses, currentID, removeCount);
        accesses := accesses[removeCount..];
      }
    }

    /** AddFileAccessBatch: the caller's records are stamped in place with
        consecutive IDs and one creation time, then appended and trimmed
        once. An empty batch changes nothing. */
    method AddFileAccessBatch(batch: array<FileAccess>, now: int)
      requires Valid()
      modifies this, batch
      ensures Valid()
      ensures batch.Length == 0 ==> accesses == old(accesses) && currentID == old(currentID)
      ensures batch[..] == Stamp(old(batch[..]), old(currentID), now)
      ensures currentID == old(currentID) + batch.Length && maxRecords == old(maxRecords)
      ensures batch.Length > 0 ==> accesses == Trim(old(accesses) + batch[..], maxRecords)
    {
      if batch.Length == 0 {
        return;
      }
      ghost var original := batch[..];
      var firstId := currentID;
      var i := 0;
      while i < batch.Length
        invariant 0 <= i <= batch.Length
        invariant currentID == firstId + i
        invariant batch[..i] == Stamp(original[..i], firstId, now)
        invariant batch[i..] == original[i..]
        invariant accesses == old(accesses) && maxRecords == old(maxRecords)
      {
        assert original[..i + 1] == original[..i] + [original[i]];
        batch[i] := batch[i].(id := currentID, createdAt := now);
        currentID := currentID + 1;
        i := i + 1;
        assert batch[i..] == original[i..];
      }
      assert batch[..] == batch[..batch.Length];
      assert original[..batch.Length] == original;
      IdsEndAtAppend(accesses, batch[..], firstId);
      accesses := accesses + batch[..];
      if |accesses| > maxRecords {
        var removeCount := maxRecords / 5;
        IdsEndAtSuffix(accesses, currentID, removeCount);
        accesses := accesses[removeCount..];
      }
    }

    /** GetFileAccessList: the newest `limit` records, newest first. */
    method GetFileAccessList(limit: int) returns (result: seq<FileAccess>)
      requires limit >= 0
      ensures |result| == (if |accesses| <= limit then |accesses| else limit)
      ensures forall k :: 0 <= k < |result| ==> result[k] == accesses[|accesses| - 1 - k]
      ensures result == Take(NewestFirst(accesses), limit)
    {
      result := [];
      var totalRecords := |accesses|;
      var startIdx := totalRecords - limit;
      if startIdx < 0 {
        startIdx := 0;
      }
      var i := totalRecords - 1;
      while i >= startIdx
        invariant startIdx - 1 <= i <= totalRecords - 1
        invariant |result| == totalRecords - 1 - i
        invariant forall k :: 0 <= k < |result| ==> result[k] == accesses[totalRecords - 1 - k]
      {
        result := result + [accesses[i]];
        i := i - 1;
      }
    }

    /** The backward scan shared by GetAccessByProcessName and
        GetAccessByPathPrefix: walk from the newest record, keep the matches,
        stop after `limit` of them. */
    method ScanNewest(q: Query, limit: int) returns (result: seq<FileAccess>)
      requires limit >= 0
      ensures result == NewestMatches(q, accesses, limit)
    {
      var records := accesses;
      result := [];
      var count := 0;
      var i := |records| - 1;
      while i >= 0 && count < limit
        invariant -1 <= i < |records|
        invariant count == |result| <= limit
        invariant result == Scanned(q, records, i + 1)
      {
        if Matches(q, records[i]) {
          result := result + [records[i]];
          count := count + 1;
        }
        i := i - 1;
      }
      ScanStopsInTime(q, records, i, limit);
    }

    /** GetAccessByProcessName: the newest `limit` records of the process,
        newest first. */
    method GetAccessByProcessName(processName: string, limit: int) returns (result: seq<FileAccess>)
      requires limit >= 0
      ensures result == NewestMatches(ByProcess(processName), accesses, limit)
      ensures |result| <= limit
      ensures forall a :: a in result ==> a in accesses && a.processName == processName
    {
      result := ScanNewest(ByProcess(processName), limit);
    }

    /** GetAccessByPathPrefix: the newest `limit` records under the prefix,
        newest first. */
    method GetAccessByPathPrefix(pathPrefix: string, limit: int) returns (result: seq<FileAccess>)
      requires limit >= 0
      ensures result == NewestMatches(ByPathPrefix(pathPrefix), accesses, limit)
      ensures |result| <= limit
      ensures forall a :: a in result ==> a in accesses && Matches(ByPathPrefix(pathPrefix), a)
    {
      result := ScanNewest(ByPathPrefix(pathPrefix), limit);
    }

    /** GetRecentAccessByTimeRange: every record strictly inside the window,
        newest first. */
    method GetRecentAccessByTimeRange(start: int, end: int) returns (result: seq<FileAccess>)
      ensures result == NewestFirst(Select(InWindow(start, end), accesses))
      ensures forall a :: a in result <==> a in accesses && start < a.timestamp < end
    {
      var records := accesses;
      var window := InWindow(start, end);
      result := [];
      var i := |records| - 1;
      while i >= 0
        invariant -1 <= i < |records|
        invariant result == Scanned(window, records, i + 1)
      {
        var access := records[i];
        if start < access.timestamp && access.timestamp < end {
          result := result + [access];
        }
        i := i - 1;
      }
      ScannedIsNewestSelect(window, records, 0);
      assert records[0..] == records;
      NewestFirstSameElements(Select(window, records));
    }

    /** The counting loop of GetAccessCountByProcess: a map from each process
        name to its number of records. */
    method CountByProcess() returns (countMap: map<string, nat>)
      ensures IsCountMap(countMap, accesses)
    {
      var records := accesses;
      countMap := map[];
      var i := 0;
      while i < |records|
        invariant 0 <= i <= |records|
        invariant IsCountMap(countMap, records[..i])
      {
        var name := records[i].processName;
        CountMapStep(countMap, records, i);
        var previous := if name in countMap then countMap[name] else 0;
        countMap := countMap[name := previous + 1];
        i := i + 1;
      }
      assert records[..|records|] == records;
    }

    /** GetAccessCountByProcess: one entry per process name with its number of
        records, largest count first. */
    method GetAccessCountByProcess() returns (result: seq<FileAccessSummary>)
      ensures IsTally(result, accesses)
      ensures ByCountDescending(result)
      ensures SumCounts(result) == |accesses|
    {
      var countMap := CountByProcess();
      var entries := Summaries(countMap);
      SortedTally(entries, accesses);
      result := SortByCount(entries);
      TallyAddsUp(result, accesses);
    }

    /** SetMaxRecords: a non-positive cap is ignored; otherwise the cap is
        replaced and only the newest records up to it are kept. */
    method SetMaxRecords(newMax: int)
      requires Valid()
      modifies this
      ensures Valid()
      ensures newMax <= 0 ==> accesses == old(accesses) && maxRecords == old(maxRecords)
      ensures newMax > 0 ==> maxRecords == newMax && accesses == KeepNewest(old(accesses), newMax)
      ensures newMax > 0 ==> |accesses| <= maxRecords
      ensures currentID == old(currentID)
    {
      if newMax <= 0 {
        return;
      }
      maxRecords := newMax;
      if |accesses| > newMax {
        IdsEndAtSuffix(accesses, currentID, |accesses| - newMax);
        accesses := accesses[|accesses| - newMax..];
      }
    }

    /** GetStoreStats: the record count, the cap and the next ID; the next ID
        always exceeds the number of stored records. */
    method GetStoreStats() returns (stats: StoreStats)
      requires Valid()
      ensures stats == StoreStats(|accesses|, maxRecords, currentID)
      ensures stats.currentRecords < stats.nextId && stats.maxRecords > 0
    {
      stats := StoreStats(|accesses|, maxRecords, currentID);
    }
  }

  /** Every entry carries a key of countMap and that key's count. */
  predicate CountsFrom(entries: seq<FileAccessSummary>, countMap: map<string, nat>) {
    forall k :: 0 <= k < |entries| ==>
      entries[k].processName in countMap && entries[k].count == countMap[entries[k].processName]
  }

  /** The loop of Summaries after it has emptied `remaining` of some keys:
      each key it took is listed once, with its count. */
  predicate SummariesSoFar(entries: seq<FileAccessSummary>, countMap: map<string, nat>, remaining: set<string>) {
    remaining <= countMap.Keys &&
    NameSet(entries) == countMap.Keys - remaining &&
    DistinctNames(entries) &&
    CountsFrom(entries, countMap)
  }

  /** Taking one more key keeps the loop's invariant. */
  lemma SummariesStep(entries: seq<FileAccessSummary>, countMap: map<string, nat>, remaining: set<string>, processName: string)
    requires SummariesSoFar(entries, countMap, remaining) && processName in remaining
    ensures SummariesSoFar(entries + [FileAccessSummary(processName, countMap[processName])],
                           countMap, remaining - {processName})
  {
    var entry := FileAccessSummary(processName, countMap[processName]);
    var next := entries + [entry];
    assert processName !in NameSet(entries);
    NameSetSnoc(entries, entry);
    DistinctSnoc(entries, entry);
    assert CountsFrom(next, countMap) by {
      forall k | 0 <= k < |next|
        ensures next[k].processName in countMap && next[k].count == countMap[next[k].processName]
      {
        if k < |entries| {
          assert next[k] == entries[k];
        }
      }
    }
  }

  /** The map-to-list loop of GetAccessCountByProcess: one entry per key, in
      whatever order the keys are picked. */
  method Summaries(countMap: map<string, nat>) returns (entries: seq<FileAccessSummary>)
    ensures DistinctNames(entries) && NameSet(entries) == countMap.Keys
    ensures forall k :: 0 <= k < |entries| ==>
      entries[k].processName in countMap && entries[k].count == countMap[entries[k].processName]
  {
    entries := [];
    var remaining := countMap.Keys;
    while remaining != {}
      invariant SummariesSoFar(entries, countMap, remaining)
      decreases |remaining|
    {
      var processName :| processName in remaining;
      SummariesStep(entries, countMap, remaining, processName);
      entries := entries + [FileAccessSummary(processName, countMap[processName])];
      remaining := remaining - {processName};
    }
  }

  /** InitDB: the store the service starts with. */
  method InitDB() returns (store: MemoryStore)
    ensures fresh(store) && store.Valid()
    ensures store.accesses == [] && store.currentID == 1 && store.maxRecords == InitialStoreCapacity
  {
    store := new MemoryStore(InitialStoreCapacity);
  }
}
