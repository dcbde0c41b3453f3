/** The in-memory store's behaviour stated on values: what an add leaves
    behind, what each query returns, and the per-process tally. The class in
    the Database module is proved against these definitions. */
module StoreSpec {

  import opened Text
  import opened Model

  // ---------------------------------------------------------------------
  // IDs and stamping

  /** The same observed event, whatever ID and creation time it carries. */
  predicate SameEvent(a: FileAccess, b: FileAccess) {
    && a.timestamp == b.timestamp
    && a.processName == b.processName
    && a.pid == b.pid
    && a.filePath == b.filePath
    && a.operation == b.operation
  }

  /** The records carry the IDs first, first + 1, ... in order. */
  predicate ConsecutiveIds(s: seq<FileAccess>, first: int) {
    forall k :: 0 <= k < |s| ==> s[k].id == first + k
  }

  /** What the store does to incoming records: they get the next IDs and one
      creation time, and are otherwise left as they are. */
  function Stamp(batch: seq<FileAccess>, firstId: nat, now: int): (r: seq<FileAccess>)
    ensures |r| == |batch| && ConsecutiveIds(r, firstId)
    ensures forall k :: 0 <= k < |r| ==> SameEvent(r[k], batch[k]) && r[k].createdAt == now
  {
    seq(|batch|, k requires 0 <= k < |batch| => batch[k].(id := firstId + k, createdAt := now))
  }

  /** The store's ID invariant: the stored records carry consecutive IDs, the
      newest one just below `next`, and every ID is at least 1. */
  predicate IdsEndAt(s: seq<FileAccess>, next: nat) {
    |s| < next && ConsecutiveIds(s, next - |s|)
  }

  /** Appending freshly stamped records keeps the IDs consecutive. */
  lemma IdsEndAtAppend(s: seq<FileAccess>, t: seq<FileAccess>, next: nat)
    requires IdsEndAt(s, next) && ConsecutiveIds(t, next)
    ensures IdsEndAt(s + t, next + |t|)
  {
  }

  /** Dropping the oldest records keeps the IDs consecutive. */
  lemma IdsEndAtSuffix(s: seq<FileAccess>, next: nat, i: nat)
    requires IdsEndAt(s, next) && i <= |s|
    ensures IdsEndAt(s[i..], next)
  {
  }

  // ---------------------------------------------------------------------
  // The cap

  /** The cap check after an append: once the store holds more than
      maxRecords records, the oldest maxRecords / 5 are dropped. */
  function Trim(s: seq<FileAccess>, maxRecords: int): (r: seq<FileAccess>)
    requires maxRecords > 0
    ensures |r| <= |s| && r == s[|s| - |r|..]
    ensures |s| <= maxRecords ==> r == s
    ensures |s| > maxRecords ==> |r| == |s| - maxRecords / 5
  {
    if |s| > maxRecords then s[maxRecords / 5..] else s
  }

  /** With a cap of at least 5, adding one record to a store within its cap
      leaves it within its cap. */
  lemma TrimKeepsCap(s: seq<FileAccess>, x: FileAccess, maxRecords: int)
    requires maxRecords >= 5 && |s| <= maxRecords
    ensures |Trim(s + [x], maxRecords)| <= maxRecords
  {
    assert maxRecords / 5 >= 1;
  }

  /** With a cap below 5, maxRecords / 5 is 0: the trim drops nothing and the
      store grows without bound. */
  lemma SmallCapNeverTrims(s: seq<FileAccess>, maxRecords: int)
    requires 0 < maxRecords < 5
    ensures Trim(s, maxRecords) == s
  {
  }

  /** A batch trims only once: appended to a full store, a batch longer than
      a fifth of the cap leaves the store above its cap. */
  lemma BatchOutgrowsCap(s: seq<FileAccess>, t: seq<FileAccess>, maxRecords: int)
    requires maxRecords > 0 && |s| == maxRecords && |t| > maxRecords / 5
    ensures |Trim(s + t, maxRecords)| == maxRecords + |t| - maxRecords / 5 > maxRecords
  {
    assert |s + t| > maxRecords;
  }

  /** The retrim of SetMaxRecords: the newest n records, in order. */
  function KeepNewest(s: seq<FileAccess>, n: int): (r: seq<FileAccess>)
    requires n > 0
    ensures |r| == (if |s| <= n then |s| else n)
    ensures r == s[|s| - |r|..]
  {
    if |s| > n then s[|s| - n..] else s
  }

  // ---------------------------------------------------------------------
  // Queries

  /** The three filtered queries: by process name, by path prefix, and by an
      open time window. */
  datatype Query = ByProcess(name: string) | ByPathPrefix(prefix: string) | InWindow(start: int, end: int)

  predicate Matches(q: Query, a: FileAccess) {
    match q
    case ByProcess(name) => a.processName == name
    case ByPathPrefix(prefix) => HasPrefix(a.filePath, prefix)
    case InWindow(start, end) => start < a.timestamp < end
  }

  /** The records a query selects, in stored (oldest first) order. */
  function Select(q: Query, s: seq<FileAccess>): (r: seq<FileAccess>)
    ensures |r| <= |s|
    ensures forall a :: a in r <==> a in s && Matches(q, a)
  {
    if s == [] then []
    else
      var last := s[|s| - 1];
      Select(q, s[..|s| - 1]) + (if Matches(q, last) then [last] else [])
  }

  lemma {:induction false} SelectAppend(q: Query, s: seq<FileAccess>, t: seq<FileAccess>)
    ensures Select(q, s + t) == Select(q, s) + Select(q, t)
    decreases |t|
  {
    if t == [] {
      assert s + t == s;
    } else {
      var u := t[..|t| - 1];
      var last := t[|t| - 1];
      var tail := if Matches(q, last) then [last] else [];
      assert Select(q, s + t) == Select(q, s + u) + tail by {
        assert (s + t)[..|s + t| - 1] == s + u;
        assert (s + t)[|s + t| - 1] == last;
      }
      SelectAppend(q, s, u);
      Regroup(Select(q, s + t), Select(q, s + u), Select(q, s), Select(q, u), tail, Select(q, t));
    }
  }

  /** (a + b) + c == a + (b + c), with every part named. */
  lemma Regroup(whole: seq<FileAccess>, front: seq<FileAccess>, a: seq<FileAccess>, b: seq<FileAccess>,
                c: seq<FileAccess>, back: seq<FileAccess>)
    requires whole == front + c && front == a + b && back == b + c
    ensures whole == a + back
  {
  }

  /** The records newest first. */
  function NewestFirst(s: seq<FileAccess>): (r: seq<FileAccess>)
    ensures |r| == |s|
    ensures forall k :: 0 <= k < |s| ==> r[k] == s[|s| - 1 - k]
  {
    if s == [] then [] else [s[|s| - 1]] + NewestFirst(s[..|s| - 1])
  }

  lemma NewestFirstAppend(s: seq<FileAccess>, t: seq<FileAccess>)
    ensures NewestFirst(s + t) == NewestFirst(t) + NewestFirst(s)
  {
  }

  /** A single record is selected exactly when it matches. */
  lemma SelectOne(q: Query, x: FileAccess)
    ensures Select(q, [x]) == (if Matches(q, x) then [x] else [])
  {
    assert [x][..0] == [];
  }

  lemma NewestFirstOfAppendShort(a: seq<FileAccess>, b: seq<FileAccess>)
    requires |a| <= 1
    ensures NewestFirst(a + b) == NewestFirst(b) + a
  {
    NewestFirstAppend(a, b);
    assert NewestFirst(a) == a by {
      if a != [] {
        assert a[..|a| - 1] == [];
      }
    }
  }

  /** One step of a backward scan: the record at i comes after every newer
      match. */
  lemma NewestSelectStep(q: Query, s: seq<FileAccess>, i: nat)
    requires i < |s|
    ensures NewestFirst(Select(q, s[i..])) ==
      NewestFirst(Select(q, s[i + 1..])) + (if Matches(q, s[i]) then [s[i]] else [])
  {
    assert s[i..] == [s[i]] + s[i + 1..];
    SelectAppend(q, [s[i]], s[i + 1..]);
    SelectOne(q, s[i]);
    NewestFirstOfAppendShort(Select(q, [s[i]]), Select(q, s[i + 1..]));
  }

  /** What a backward scan has collected once it has looked at s[j..]: the
      matches found there, in the order the scan meets them. */
  function Scanned(q: Query, s: seq<FileAccess>, j: nat): seq<FileAccess>
    decreases |s| - j
  {
    if j >= |s| then []
    else Scanned(q, s, j + 1) + (if Matches(q, s[j]) then [s[j]] else [])
  }

  /** The backward scan collects exactly the matches of s[j..], newest
      first. */
  lemma {:induction false} ScannedIsNewestSelect(q: Query, s: seq<FileAccess>, j: nat)
    requires j <= |s|
    ensures Scanned(q, s, j) == NewestFirst(Select(q, s[j..]))
    decreases |s| - j
  {
    if j < |s| {
      ScannedIsNewestSelect(q, s, j + 1);
      NewestSelectStep(q, s, j);
    }
  }

  /** A backward scan that stops after `limit` matches, or at the oldest
      record, has collected the answer to the limited query. */
  lemma ScanStopsInTime(q: Query, s: seq<FileAccess>, i: int, limit: nat)
    requires -1 <= i < |s|
    requires |Scanned(q, s, i + 1)| <= limit
    requires i >= 0 ==> |Scanned(q, s, i + 1)| == limit
    ensures Scanned(q, s, i + 1) == NewestMatches(q, s, limit)
  {
    ScannedIsNewestSelect(q, s, i + 1);
    if i < 0 {
      assert s[0..] == s;
    } else {
      assert s == s[..i + 1] + s[i + 1..];
      NewestMatchesNoGap(q, s[..i + 1], s[i + 1..], limit);
    }
  }

  /** Reversal keeps exactly the same records. */
  lemma NewestFirstSameElements(s: seq<FileAccess>)
    ensures forall a :: a in NewestFirst(s) <==> a in s
  {
    var r := NewestFirst(s);
    forall a | a in s ensures a in r {
      var k :| 0 <= k < |s| && s[k] == a;
      assert r[|s| - 1 - k] == a;
    }
  }

  /** At most `limit` records from the front. */
  function Take(s: seq<FileAccess>, limit: nat): (r: seq<FileAccess>)
    ensures |r| == (if |s| <= limit then |s| else limit)
    ensures r == s[..|r|]
  {
    if |s| <= limit then s else s[..limit]
  }

  /** The answer to a limited query: the newest matching records, newest
      first, at most `limit` of them. */
  function NewestMatches(q: Query, s: seq<FileAccess>, limit: nat): (r: seq<FileAccess>)
    ensures |r| <= limit
    ensures forall a :: a in r ==> a in s && Matches(q, a)
    ensures |r| < limit ==> forall a :: a in s && Matches(q, a) ==> a in r
  {
    var matches := NewestFirst(Select(q, s));
    var r := Take(matches, limit);
    assert forall a :: a in matches <==> a in Select(q, s) by {
      forall a | a in Select(q, s) ensures a in matches {
        var k :| 0 <= k < |Select(q, s)| && Select(q, s)[k] == a;
        assert matches[|matches| - 1 - k] == a;
      }
    }
    r
  }

  lemma TakeAppend(a: seq<FileAccess>, b: seq<FileAccess>, limit: nat)
    requires |a| <= limit
    ensures Take(a + b, limit) == a + Take(b, limit - |a|)
  {
    var r := Take(a + b, limit);
    assert r == (a + b)[..|r|];
    assert (a + b)[..|r|] == a + b[..|r| - |a|];
  }

  /** The answer to a query over older records s followed by newer records
      t: while t's matches fit in the limit, all of them come first and only
      the rest of the limit goes to s. No newer match is passed over. */
  lemma NewestMatchesNoGap(q: Query, s: seq<FileAccess>, t: seq<FileAccess>, limit: nat)
    requires |Select(q, t)| <= limit
    ensures NewestMatches(q, s + t, limit) ==
      NewestFirst(Select(q, t)) + Take(NewestFirst(Select(q, s)), limit - |Select(q, t)|)
  {
    SelectAppend(q, s, t);
    NewestFirstAppend(Select(q, s), Select(q, t));
    TakeAppend(NewestFirst(Select(q, t)), NewestFirst(Select(q, s)), limit);
  }

  // ---------------------------------------------------------------------
  // The per-process tally

  /** How many stored records name `name` as their process. */
  function CountOf(s: seq<FileAccess>, name: string): (n: nat)
    ensures n <= |s|
  {
    if s == [] then 0
    else CountOf(s[..|s| - 1], name) + (if s[|s| - 1].processName == name then 1 else 0)
  }

  /** The count of a name is the size of the by-process query for it. */
  lemma {:induction false} CountIsSelection(s: seq<FileAccess>, name: string)
    ensures CountOf(s, name) == |Select(ByProcess(name), s)|
    decreases |s|
  {
    if s != [] {
      CountIsSelection(s[..|s| - 1], name);
    }
  }

  lemma CountStep(s: seq<FileAccess>, i: nat, name: string)
    requires i < |s|
    ensures CountOf(s[..i + 1], name) == CountOf(s[..i], name) + (if s[i].processName == name then 1 else 0)
  {
    assert s[..i + 1][..i] == s[..i];
  }

  /** The distinct process names among the records. */
  function ProcessNames(s: seq<FileAccess>): set<string> {
    set k | 0 <= k < |s| :: s[k].processName
  }

  /** A process with no record has count 0. */
  lemma CountOfAbsent(s: seq<FileAccess>, name: string)
    requires name !in ProcessNames(s)
    ensures CountOf(s, name) == 0
    decreases |s|
  {
    if s != [] {
      var init := s[..|s| - 1];
      assert s[|s| - 1].processName in ProcessNames(s);
      assert ProcessNames(init) <= ProcessNames(s) by {
        forall k | 0 <= k < |init| ensures init[k].processName in ProcessNames(s) {
          assert init[k] == s[k];
        }
      }
      CountOfAbsent(init, name);
    }
  }

  /** The counting map of GetAccessCountByProcess over the records s: one key
      per process name, mapped to its number of records. */
  predicate IsCountMap(m: map<string, nat>, s: seq<FileAccess>) {
    m.Keys == ProcessNames(s) && forall n :: n in m ==> m[n] == CountOf(s, n)
  }

  /** Counting one more record raises its process's entry by one, starting
      from 0 for a new name. */
  lemma CountMapStep(m: map<string, nat>, s: seq<FileAccess>, i: nat)
    requires i < |s| && IsCountMap(m, s[..i])
    ensures var name := s[i].processName;
      IsCountMap(m[name := (if name in m then m[name] else 0) + 1], s[..i + 1])
  {
    var name := s[i].processName;
    ProcessNamesStep(s, i);
    forall n ensures CountOf(s[..i + 1], n) == CountOf(s[..i], n) + (if name == n then 1 else 0) {
      CountStep(s, i, n);
    }
    if name !in m {
      CountOfAbsent(s[..i], name);
    }
  }

  function NameSet(entries: seq<FileAccessSummary>): set<string> {
    set k | 0 <= k < |entries| :: entries[k].processName
  }

  predicate DistinctNames(entries: seq<FileAccessSummary>) {
    forall i, j :: 0 <= i < j < |entries| ==> entries[i].processName != entries[j].processName
  }

  function SumCounts(entries: seq<FileAccessSummary>): nat {
    if entries == [] then 0 else entries[0].count + SumCounts(entries[1..])
  }

  predicate ByCountDescending(entries: seq<FileAccessSummary>) {
    forall i, j :: 0 <= i < j < |entries| ==> entries[i].count >= entries[j].count
  }

  lemma NameSetCons(x: FileAccessSummary, entries: seq<FileAccessSummary>)
    ensures NameSet([x] + entries) == {x.processName} + NameSet(entries)
  {
    var r := [x] + entries;
    assert r[0].processName == x.processName;
    forall n | n in NameSet(r) ensures n in {x.processName} + NameSet(entries) {
      var k :| 0 <= k < |r| && r[k].processName == n;
      if k > 0 {
        assert entries[k - 1].processName == n;
      }
    }
    forall n | n in NameSet(entries) ensures n in NameSet(r) {
      var k :| 0 <= k < |entries| && entries[k].processName == n;
      assert r[k + 1].processName == n;
    }
  }

  lemma NameSetSnoc(entries: seq<FileAccessSummary>, x: FileAccessSummary)
    ensures NameSet(entries + [x]) == NameSet(entries) + {x.processName}
  {
    var r := entries + [x];
    assert r[|entries|].processName == x.processName;
    forall n | n in NameSet(entries) ensures n in NameSet(r) {
      var k :| 0 <= k < |entries| && entries[k].processName == n;
      assert r[k].processName == n;
    }
  }

  lemma DistinctSnoc(entries: seq<FileAccessSummary>, x: FileAccessSummary)
    requires DistinctNames(entries) && x.processName !in NameSet(entries)
    ensures DistinctNames(entries + [x])
  {
    var r := entries + [x];
    forall i, j | 0 <= i < j < |r| ensures r[i].processName != r[j].processName {
      assert r[i] == entries[i];
      if j < |entries| {
        assert r[j] == entries[j];
      }
    }
  }

  /** One more record adds its process name to the names seen. */
  lemma ProcessNamesStep(s: seq<FileAccess>, i: nat)
    requires i < |s|
    ensures ProcessNames(s[..i + 1]) == ProcessNames(s[..i]) + {s[i].processName}
  {
    var p := s[..i + 1];
    assert p[i] == s[i];
    forall n | n in ProcessNames(s[..i]) ensures n in ProcessNames(p) {
      var k :| 0 <= k < i && s[..i][k].processName == n;
      assert p[k].processName == n;
    }
  }

  lemma DistinctTail(entries: seq<FileAccessSummary>)
    requires entries != []
    ensures DistinctNames(entries) ==>
      DistinctNames(entries[1..]) && entries[0].processName !in NameSet(entries[1..])
  {
    if DistinctNames(entries) {
      forall k | 0 <= k < |entries[1..]| ensures entries[1..][k].processName != entries[0].processName {
        assert entries[1..][k] == entries[k + 1];
      }
    }
  }

  /** One entry per distinct process name of s, each with its true count. */
  predicate IsTally(entries: seq<FileAccessSummary>, s: seq<FileAccess>) {
    && DistinctNames(entries)
    && NameSet(entries) == ProcessNames(s)
    && forall k :: 0 <= k < |entries| ==> entries[k].count == CountOf(s, entries[k].processName)
  }

  lemma DistinctCons(x: FileAccessSummary, entries: seq<FileAccessSummary>)
    ensures DistinctNames(entries) && x.processName !in NameSet(entries) ==> DistinctNames([x] + entries)
  {
    if DistinctNames(entries) && x.processName !in NameSet(entries) {
      var r := [x] + entries;
      forall i, j | 0 <= i < j < |r| ensures r[i].processName != r[j].processName {
        assert r[j] == entries[j - 1];
        if i > 0 {
          assert r[i] == entries[i - 1];
        }
      }
    }
  }

  /** An entry inserted behind the head of a sorted list leaves the head in
      front. */
  lemma HeadStaysFirst(entries: seq<FileAccessSummary>, x: FileAccessSummary, rest: seq<FileAccessSummary>)
    requires entries != [] && ByCountDescending(entries) && x.count < entries[0].count
    requires ByCountDescending(rest) && multiset(rest) == multiset(entries[1..]) + multiset{x}
    ensures ByCountDescending([entries[0]] + rest)
  {
    var r := [entries[0]] + rest;
    forall j | 1 <= j < |r| ensures r[0].count >= r[j].count {
      var y := rest[j - 1];
      assert y in multiset(rest);
      if y != x {
        assert y in multiset(entries[1..]);
        var i :| 0 <= i < |entries[1..]| && entries[1..][i] == y;
        assert entries[i + 1] == y;
      }
    }
  }

  /** What inserting x into entries must produce. */
  predicate InsertedBy(r: seq<FileAccessSummary>, x: FileAccessSummary, entries: seq<FileAccessSummary>) {
    && ByCountDescending(r)
    && multiset(r) == multiset(entries) + multiset{x}
    && NameSet(r) == NameSet(entries) + {x.processName}
    && SumCounts(r) == SumCounts(entries) + x.count
    && (DistinctNames(entries) && x.processName !in NameSet(entries) ==> DistinctNames(r))
  }

  lemma InsertInFront(x: FileAccessSummary, entries: seq<FileAccessSummary>)
    requires ByCountDescending(entries) && (entries == [] || x.count >= entries[0].count)
    ensures InsertedBy([x] + entries, x, entries)
  {
    var r := [x] + entries;
    assert r[1..] == entries;
    NameSetCons(x, entries);
    DistinctCons(x, entries);
  }

  lemma InsertBehindHead(x: FileAccessSummary, entries: seq<FileAccessSummary>, rest: seq<FileAccessSummary>)
    requires entries != [] && ByCountDescending(entries) && x.count < entries[0].count
    requires InsertedBy(rest, x, entries[1..])
    ensures InsertedBy([entries[0]] + rest, x, entries)
  {
    var h, tail := entries[0], entries[1..];
    var r := [h] + rest;
    assert entries == [h] + tail;
    assert ByCountDescending(r) by {
      HeadStaysFirst(entries, x, rest);
    }
    assert multiset(r) == multiset(entries) + multiset{x};
    assert NameSet(r) == NameSet(entries) + {x.processName} by {
      NameSetCons(h, tail);
      NameSetCons(h, rest);
    }
    assert SumCounts(r) == SumCounts(entries) + x.count by {
      assert r[1..] == rest;
    }
    if DistinctNames(entries) && x.processName !in NameSet(entries) {
      DistinctTail(entries);
      NameSetCons(h, tail);
      NameSetCons(h, rest);
      DistinctCons(h, rest);
    }
  }

  /** Insertion of one entry into a list sorted by count, largest first. */
  function InsertByCount(x: FileAccessSummary, entries: seq<FileAccessSummary>): (r: seq<FileAccessSummary>)
    requires ByCountDescending(entries)
    ensures InsertedBy(r, x, entries)
  {
    if entries == [] || x.count >= entries[0].count then
      InsertInFront(x, entries);
      [x] + entries
    else
      var rest := InsertByCount(x, entries[1..]);
      InsertBehindHead(x, entries, rest);
      [entries[0]] + rest
  }

  /** What sorting entries must produce: the same entries, largest count
      first. */
  predicate SortedFrom(r: seq<FileAccessSummary>, entries: seq<FileAccessSummary>) {
    && ByCountDescending(r)
    && multiset(r) == multiset(entries)
    && NameSet(r) == NameSet(entries)
    && SumCounts(r) == SumCounts(entries)
    && (DistinctNames(entries) ==> DistinctNames(r))
  }

  lemma SortStep(entries: seq<FileAccessSummary>, sortedRest: seq<FileAccessSummary>, r: seq<FileAccessSummary>)
    requires entries != [] && SortedFrom(sortedRest, entries[1..])
    requires InsertedBy(r, entries[0], sortedRest)
    ensures SortedFrom(r, entries)
  {
    var rest := entries[1..];
    assert entries == [entries[0]] + rest;
    assert SumCounts(entries) == entries[0].count + SumCounts(rest);
    NameSetCons(entries[0], rest);
    DistinctTail(entries);
  }

  /** Sorting the tally by count, largest first; ties in any order. */
  function SortByCount(entries: seq<FileAccessSummary>): (r: seq<FileAccessSummary>)
    ensures SortedFrom(r, entries)
  {
    if entries == [] then []
    else
      var sortedRest := SortByCount(entries[1..]);
      var r := InsertByCount(entries[0], sortedRest);
      SortStep(entries, sortedRest, r);
      r
  }

  /** Sorting a tally leaves a tally. */
  lemma SortedTally(entries: seq<FileAccessSummary>, s: seq<FileAccess>)
    requires IsTally(entries, s)
    ensures IsTally(SortByCount(entries), s) && ByCountDescending(SortByCount(entries))
  {
    var r := SortByCount(entries);
    forall k | 0 <= k < |r| ensures r[k].count == CountOf(s, r[k].processName) {
      assert r[k] in multiset(entries);
    }
  }

  /** The records of s counted once per entry of the list. */
  function Total(entries: seq<FileAccessSummary>, s: seq<FileAccess>): nat {
    if entries == [] then 0 else CountOf(s, entries[0].processName) + Total(entries[1..], s)
  }

  /** How many entries of the list carry the name. */
  function Hits(entries: seq<FileAccessSummary>, name: string): nat {
    if entries == [] then 0
    else (if entries[0].processName == name then 1 else 0) + Hits(entries[1..], name)
  }

  lemma {:induction false} TotalStep(entries: seq<FileAccessSummary>, s: seq<FileAccess>, a: FileAccess)
    ensures Total(entries, s + [a]) == Total(entries, s) + Hits(entries, a.processName)
  {
    assert (s + [a])[..|s + [a]| - 1] == s;
    if entries != [] {
      TotalStep(entries[1..], s, a);
    }
  }

  lemma {:induction false} TotalEmpty(entries: seq<FileAccessSummary>)
    ensures Total(entries, []) == 0
  {
    if entries != [] {
      TotalEmpty(entries[1..]);
    }
  }

  lemma {:induction false} HitsOfDistinct(entries: seq<FileAccessSummary>, name: string)
    requires DistinctNames(entries)
    ensures Hits(entries, name) == if name in NameSet(entries) then 1 else 0
  {
    if entries != [] {
      var rest := entries[1..];
      HitsOfDistinct(rest, name);
      assert entries == [entries[0]] + rest;
      NameSetCons(entries[0], rest);
      DistinctTail(entries);
    }
  }

  lemma {:induction false} TotalCovers(entries: seq<FileAccessSummary>, s: seq<FileAccess>)
    requires DistinctNames(entries) && ProcessNames(s) <= NameSet(entries)
    ensures Total(entries, s) == |s|
    decreases |s|
  {
    if s == [] {
      TotalEmpty(entries);
    } else {
      var p := s[..|s| - 1];
      var a := s[|s| - 1];
      assert s == p + [a];
      assert ProcessNames(p) <= ProcessNames(s) by {
        forall n | n in ProcessNames(p) ensures n in ProcessNames(s) {
          var k :| 0 <= k < |p| && p[k].processName == n;
          assert s[k].processName == n;
        }
      }
      assert a.processName in ProcessNames(s);
      TotalCovers(entries, p);
      TotalStep(entries, p, a);
      HitsOfDistinct(entries, a.processName);
    }
  }

  lemma {:induction false} SumIsTotal(entries: seq<FileAccessSummary>, s: seq<FileAccess>)
    requires forall k :: 0 <= k < |entries| ==> entries[k].count == CountOf(s, entries[k].processName)
    ensures SumCounts(entries) == Total(entries, s)
  {
    if entries != [] {
      SumIsTotal(entries[1..], s);
    }
  }

  /** The counts of a tally add up to the number of records. */
  lemma TallyAddsUp(entries: seq<FileAccessSummary>, s: seq<FileAccess>)
    requires IsTally(entries, s)
    ensures SumCounts(entries) == |s|
  {
    SumIsTotal(entries, s);
    TotalCovers(entries, s);
  }
}
