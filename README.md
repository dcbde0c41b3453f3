# fileWatch core in Dafny

fileWatch is a macOS service. It runs the system's file-system trace tool,
reads its output line by line and turns each line into a file-access record.
A record says which process (name and PID) performed which operation on
which path, and when. The records are filtered, de-duplicated and buffered,
and the buffer is handed in batches to an in-memory store. The store keeps a
capped list of records and answers queries by process, by path prefix, by
time window and by per-process count.

This project models that core and proves properties of the model:

- `text.dfy` (module `Text`) holds the Go string routines the core relies on:
  `strings.Index`, `LastIndex`, `Split`, `Join`, `Fields` and `strconv.Atoi`.
  Each is stated as a function and proved against its meaning: first
  occurrence, last occurrence, a split/join round trip, and fields that keep
  every non-space character.
- `glob.dfy` (module `Glob`) holds the fragment of `filepath.Match` that the
  matcher uses: `*` and `?` never cross a `/`.
- `wildcard.dfy` (module `Wildcard`) holds `matchWildcard`. Its rules are
  tried in order:
  1. a whole-string glob;
  2. `prefix**/suffix`;
  3. `*S`;
  4. `P*`;
  5. several `*`, checked by a left-to-right scan of the segments.

  The scan is modelled as the loop the source runs (`ScanSegments`). It is
  proved equal to the declarative reading: every segment occurs in order
  without overlapping. The proof shows that taking first occurrences never
  needs backtracking.
- `filter.dfy` (module `Filter`) holds the process filter, the include and
  exclude patterns, and the fixed lists of ignored path prefixes and
  suffixes.
- `line_parser.dfy` (module `LineParser`) holds the conversion of one trace
  line into a record:
  - the read/write operation vocabulary (`unlink` is listed but excluded);
  - `name.pid` splitting at the last dot;
  - extraction of the path: the first field that starts with `/`, else a
    repaired field that looks like the tail of a `/Volumes/`, `Library/` or
    `/Users/` path;
  - the filters.

  The example line `12:00:00 write F=3 /Users/a/doc.txt myapp.123` is proved
  to give a `write` record of process `myapp`, PID 123, on
  `/Users/a/doc.txt`.
- `model.dfy` and `database.dfy` (modules `Model` and `Database`) hold the
  record types and the `MemoryStore` class. Its fields (`accesses`,
  `currentID`, `maxRecords`) are updated in place by `AddFileAccess`,
  `AddFileAccessBatch` and `SetMaxRecords`. `store_spec.dfy` (module
  `StoreSpec`) gives the functions the store's methods are proved against:
  - ID stamping;
  - the cap with its "drop the oldest fifth" trim;
  - query selection, newest first;
  - the per-process tally and its sort by count.
- `pipeline.dfy` (module `Pipeline`) holds the `Session` class: the
  de-duplication cache (key → last-seen time) and the batch buffer. It also
  has the per-line step of the reading loop and the flush step, both wired
  to the store.

Times are integers in milliseconds. Every operation takes the current clock
reading as a parameter `now`.

The trim runs once per write and removes `cap / 5` records. A single
`AddFileAccess` into a store within its cap therefore keeps it within the cap
when the cap is at least 5 (`StoreSpec.TrimKeepsCap`). With a cap of 1 to 4
the trim removes nothing (`StoreSpec.SmallCapNeverTrims`). A batch is trimmed
only once, however many records it holds, so a batch longer than a fifth of
the cap leaves a full store above its cap (`StoreSpec.BatchOutgrowsCap`). The
reading loop writes only in batches of 100, so with any cap below 500 the
store grows with every full batch (`Pipeline.FullBatchOutgrowsSmallCap`).
All of this is modelled as written.

## Model

| member | source | states |
|---|---|---|
| Text.HasPrefix | internal/monitor/monitor.go:281 | `strings.HasPrefix`: the string begins with the prefix |
| Text.HasSuffix | internal/monitor/monitor.go:454 | `strings.HasSuffix`: the string ends with the suffix |
| Text.Join | internal/monitor/monitor.go:443 | `strings.Join`: the pieces with the separator between consecutive ones |
| Text.Index | internal/monitor/monitor.go:480 | result is -1 exactly when the needle occurs nowhere; otherwise it is an occurrence with none before it |
| Text.LastIndexOf | internal/monitor/monitor.go:263 | result is -1 or a position holding the character, and no later position holds it |
| Text.ContainsChar | internal/monitor/monitor.go:209 | a one-character substring test is membership of that character |
| Text.Split | internal/monitor/monitor.go:427 | splitting yields at least one piece, and no piece contains the separator |
| Text.BeforeFirstOccurrence | internal/monitor/monitor.go:427 | the text before the first occurrence of the separator contains no occurrence of it |
| Text.JoinSplit | internal/monitor/monitor.go:441-443 | joining the pieces of a split with the separator gives back the original string |
| Text.SplitAround | internal/monitor/monitor.go:441 | splitting `d/t` at `/` gives the pieces of d followed by the pieces of t |
| Text.WordLength | internal/monitor/monitor.go:214 | the leading run it measures holds no whitespace and is followed by whitespace or the end |
| Text.Fields | internal/monitor/monitor.go:214 | every field is non-empty and free of whitespace |
| Text.FieldsSkipSpace | internal/monitor/monitor.go:214 | leading whitespace of any width contributes no field |
| Text.FieldsOfWordGap | internal/monitor/monitor.go:214 | a word followed by a whitespace gap of any non-empty width is the first field, then come the fields of the rest |
| Text.FieldsOfSpaced | internal/monitor/monitor.go:214 | words separated by whitespace gaps of any non-empty width, with optional whitespace before and after, are exactly the fields: the fields are the maximal non-space runs |
| Text.FieldsKeepEveryNonSpace | internal/monitor/monitor.go:214 | the fields, concatenated, are exactly the line's non-space characters in order |
| Text.FieldCharsInLine | internal/monitor/monitor.go:214 | every character of every field comes from the line |
| Text.FieldsOfJoin | internal/monitor/monitor.go:214 | splitting words joined by single spaces gives back the words |
| Text.Atoi | internal/monitor/monitor.go:267 | a value exactly for an optional `+` or `-` followed by one or more digits; the value is the digits' decimal value, negated after `-` |
| Text.DecimalText | internal/monitor/monitor.go:267 | the decimal text of a number is non-empty and all digits |
| Text.AtoiDecimalText | internal/monitor/monitor.go:267 | parsing the decimal text of n gives back n |
| Glob.BadPattern | internal/monitor/monitor.go:412-417 | the patterns this fragment treats as an error: any with `[` or `\` |
| Glob.Match | internal/monitor/monitor.go:412 | `filepath.Match` on a good pattern: `*` matches a run without `/`, `?` one character other than `/`, anything else itself |
| Glob.LiteralMatch | internal/monitor/monitor.go:412 | a pattern with no `*` or `?` matches exactly itself |
| Glob.StarStaysInSegment | internal/monitor/monitor.go:412 | a lone `*` matches exactly the names without `/` |
| Wildcard.SubPathMatches | internal/monitor/monitor.go:441-448 | some slice of the directories from i on, joined with `/`, glob-matches the suffix |
| Wildcard.RecursiveMatch | internal/monitor/monitor.go:426-451 | the pattern has one `**/`, the path starts with its prefix, and some trailing sub-path of the rest matches its suffix |
| Wildcard.GreedyScan | internal/monitor/monitor.go:473-487 | each non-empty segment is found at its first occurrence in what the previous one left |
| Wildcard.SegmentsMatch | internal/monitor/monitor.go:463-488 | the first segment starts the path, the last ends it, and the greedy scan succeeds |
| Wildcard.MatchWildcard | internal/monitor/monitor.go:410-491 | a bad pattern never matches; a whole-string glob match or a `**/` match always matches |
| Wildcard.ScanSegments | internal/monitor/monitor.go:474-485 | the scan loop succeeds exactly when the segments occur in order without overlapping |
| Wildcard.GreedyScanComplete | internal/monitor/monitor.go:474-487 | first-occurrence scanning succeeds exactly when some in-order placement exists |
| Wildcard.SegmentsMatchMeaning | internal/monitor/monitor.go:463-488 | the multi-`*` rule holds exactly when the path starts with the first segment, ends with the last, and all occur in order |
| Wildcard.EndsWithPattern | internal/monitor/monitor.go:454-456 | `*S` matches every path ending in S |
| Wildcard.StartsWithPattern | internal/monitor/monitor.go:458-460 | `P*` matches every path starting with P |
| Wildcard.LiteralPattern | internal/monitor/monitor.go:410-491 | a pattern with no wildcard matches only the identical path |
| Wildcard.RecursiveFormHere | internal/monitor/monitor.go:426-451 | `prefix**/suffix` matches prefix followed by a remainder that the suffix globs |
| Wildcard.RecursiveFormBelow | internal/monitor/monitor.go:426-451 | `**/` also skips any leading directories after the prefix |
| Filter.ShouldTrackProcess | internal/monitor/monitor.go:398-406 | an empty process pattern admits all; otherwise admits exactly the names it matches |
| Filter.HasAnyPrefix | internal/monitor/monitor.go:369-373 | true exactly when some listed prefix starts the path |
| Filter.HasAnySuffix | internal/monitor/monitor.go:387-391 | true exactly when some listed suffix ends the path |
| Filter.ShouldTrackFile | internal/monitor/monitor.go:341-395 | kept exactly when include matches (or is empty), exclude does not, and no ignored prefix or suffix applies |
| Filter.IgnoredPathsNeverTracked | internal/monitor/monitor.go:353-391 | a path under an ignored prefix or with an ignored suffix is never kept, whatever the patterns |
| Filter.ExcludeWinsOverInclude | internal/monitor/monitor.go:343-350 | a path matched by both patterns is dropped |
| Filter.NoPatternsOnlyStaticLists | internal/monitor/monitor.go:341-395 | without patterns only the static lists decide |
| LineParser.IsReadWriteOperation | internal/monitor/monitor.go:312-338 | true exactly for the 19 tracked operations; `unlink` is rejected |
| LineParser.PidOf | internal/monitor/monitor.go:267 | `strconv.Atoi` with its error ignored: the parsed value, or 0 when the text is not a number |
| LineParser.ParseProcessInfo | internal/monitor/monitor.go:258-275 | pid 0 keeps the whole field as the name; a non-zero pid came from the digits after the last dot, with a non-empty name before it |
| LineParser.ProcessInfoRoundTrip | internal/monitor/monitor.go:258-275 | `name.pid` with a non-empty name and a positive pid parses back to (name, pid) |
| LineParser.FirstRooted | internal/monitor/monitor.go:280-284 | the result is empty exactly when no field starts with `/`; otherwise it starts with `/` |
| LineParser.FirstRootedFieldIsPath | internal/monitor/monitor.go:280-284 | the first field starting with `/` is the extracted path |
| LineParser.RestoreRoot | internal/monitor/monitor.go:293-304 | the repaired field starts with `/`, ends with the whole field, and gains at most two characters; a field with none of the four stems just gets a leading `/` |
| LineParser.RestoreRootStems | internal/monitor/monitor.go:293-301 | the four stems that lost their capital come back whole: `ystem/` as `/System/`, `olumes/` as `/Volumes/`, `ibrary/` as `/Library/`, `sers/` as `/Users/` |
| LineParser.LooksTruncated | internal/monitor/monitor.go:288-290 | the field contains `/Volumes/`, `Library/` or `/Users/` |
| LineParser.FirstTruncated | internal/monitor/monitor.go:287-306 | empty exactly when no field looks like a truncated system path |
| LineParser.TruncatedPathIsRepaired | internal/monitor/monitor.go:287-306 | with no rooted field, the first truncated field is extracted repaired |
| LineParser.ExtractFilePath | internal/monitor/monitor.go:278-309 | the extracted path is empty or starts with `/` |
| LineParser.RecordOf | internal/monitor/monitor.go:213-254 | a record exactly when there are at least 4 fields, field 2 is a tracked operation, the process passes the process filter, and a non-empty extracted path passes the file filter; the record has a tracked operation from field 2, the process parsed from the last field, the extracted path (rooted), passes both filters, and carries the clock's time |
| LineParser.ParseFsUsageLine | internal/monitor/monitor.go:207-255 | a line without `/` is rejected; any other line gives exactly what its whitespace-separated fields give |
| LineParser.WellFormedFieldsParsed | internal/monitor/monitor.go:213-254 | with no filters, fields with a tracked operation and a kept first rooted field give a record with that operation, that path and the last field's process |
| LineParser.WellFormedLineParsed | internal/monitor/monitor.go:207-255 | a line with a tracked operation and a rooted, kept path yields a record |
| LineParser.SpacedLineParsed | internal/monitor/monitor.go:207-255 | with no filters, a line whose words are separated by whitespace of any width gives the record those words describe |
| LineParser.ExampleLine | internal/monitor/monitor.go:207-255 | the sample `write` line yields process myapp, pid 123, path /Users/a/doc.txt |
| Model.InitialMaxRecords | internal/database/model.go:34-37 | the cap is positive: the request when positive, else 10000 |
| StoreSpec.Stamp | internal/database/database.go:55-59 | stamped records keep their event data, get consecutive IDs from the next ID, and share one creation time |
| StoreSpec.IdsEndAtAppend | internal/database/database.go:26-31 | appending consecutively numbered records keeps IDs consecutive up to the new next ID |
| StoreSpec.IdsEndAtSuffix | internal/database/database.go:35-39 | dropping the oldest records keeps IDs consecutive |
| StoreSpec.Trim | internal/database/database.go:65-69 | the result is a suffix; within the cap nothing is dropped; above it exactly cap/5 oldest records go |
| StoreSpec.TrimKeepsCap | internal/database/database.go:34-39 | with a cap of at least 5, one append followed by the trim stays within the cap |
| StoreSpec.SmallCapNeverTrims | internal/database/database.go:37 | with a cap below 5 the trim removes nothing |
| StoreSpec.BatchOutgrowsCap | internal/database/database.go:62-69 | a batch longer than a fifth of the cap, appended to a full store, leaves it above its cap |
| StoreSpec.KeepNewest | internal/database/database.go:192-195 | the newest min(n, size) records, in order |
| StoreSpec.Select | internal/database/database.go:132-137 | a record is selected exactly when it is stored and matches the query |
| StoreSpec.SelectAppend | internal/database/database.go:151-156 | selection distributes over concatenation |
| StoreSpec.NewestFirst | internal/database/database.go:89-91 | the records in reverse order |
| StoreSpec.NewestFirstSameElements | internal/database/database.go:89-91 | reversing keeps exactly the same records |
| StoreSpec.Take | internal/database/database.go:151-156 | the first min(limit, size) elements |
| StoreSpec.NewestMatches | internal/database/database.go:143-178 | at most limit records, all stored and matching; fewer than limit only when no match is missing |
| StoreSpec.ScannedIsNewestSelect | internal/database/database.go:132-137 | a backward scan over all records collects exactly the matches, newest first |
| StoreSpec.ScanStopsInTime | internal/database/database.go:151-156 | a scan that stops after `limit` matches, or at the oldest record, has the answer of the limited query |
| StoreSpec.NewestMatchesNoGap | internal/database/database.go:151-156 | stopping the backward scan at limit matches loses nothing |
| StoreSpec.CountOf | internal/database/database.go:102-105 | the count of a name never exceeds the number of records |
| StoreSpec.CountIsSelection | internal/database/database.go:102-105 | the count of a name equals the number of records the by-process selection keeps |
| StoreSpec.CountOfAbsent | internal/database/database.go:102-105 | a name with no record has count 0 |
| StoreSpec.CountMapStep | internal/database/database.go:102-105 | counting one more record raises its process's entry by one, starting from 0, and keeps the map a count map |
| StoreSpec.InsertByCount | internal/database/database.go:117-119 | inserting into a list ordered by count keeps it ordered and adds exactly that entry |
| StoreSpec.SortByCount | internal/database/database.go:117-119 | the result is ordered by descending count and a permutation of the input |
| StoreSpec.SortedTally | internal/database/database.go:117-119 | sorting a tally keeps it a tally and orders it |
| StoreSpec.TotalCovers | internal/database/database.go:102-114 | distinct names covering every process see each record exactly once |
| StoreSpec.TallyAddsUp | internal/database/database.go:97-122 | the counts of a tally add up to the number of records |
| Database.MemoryStore.constructor | internal/database/model.go:34-43 | an empty store, IDs starting at 1, and a positive cap (10000 by default) |
| Database.MemoryStore.AddFileAccess | internal/database/database.go:22-42 | the record gets the next ID and the creation time, is appended, and the store is trimmed; with a cap of 5 or more the cap holds |
| Database.MemoryStore.AddFileAccessBatch | internal/database/database.go:45-72 | the caller's array is stamped in place; a non-empty batch is appended in order and trimmed once; an empty one changes nothing |
| Database.MemoryStore.GetFileAccessList | internal/database/database.go:75-94 | the newest min(limit, size) records, newest first |
| Database.MemoryStore.ScanNewest | internal/database/database.go:151-156 | the backward scan returns the newest `limit` matches, newest first |
| Database.MemoryStore.GetAccessByProcessName | internal/database/database.go:143-159 | the newest `limit` records of the process, newest first |
| Database.MemoryStore.GetAccessByPathPrefix | internal/database/database.go:162-178 | the newest `limit` records under the prefix, newest first |
| Database.MemoryStore.GetRecentAccessByTimeRange | internal/database/database.go:125-140 | exactly the records strictly inside the window, newest first |
| Database.MemoryStore.CountByProcess | internal/database/database.go:102-105 | one key per process, mapped to its number of records |
| Database.SummariesStep | internal/database/database.go:108-114 | taking one more map key keeps the entries distinct, each with its key's count, covering exactly the keys taken |
| Database.Summaries | internal/database/database.go:108-114 | one entry per map key, with the key's count, names distinct |
| Database.MemoryStore.GetAccessCountByProcess | internal/database/database.go:97-122 | one entry per process with its record count, largest first, counts summing to the store size |
| Database.MemoryStore.SetMaxRecords | internal/database/database.go:181-196 | a non-positive cap is ignored; otherwise the cap is set and only the newest records up to it are kept |
| Database.MemoryStore.GetStoreStats | internal/database/database.go:199-208 | the record count, cap and next ID, with count below next ID and a positive cap |
| Database.InitDB | internal/database/database.go:14-19 | a fresh empty store with cap 100000 |
| Pipeline.Retained | internal/monitor/monitor.go:173-184 | exactly the entries at most 30 s old, with their times |
| Pipeline.Suppressed | internal/monitor/monitor.go:126-130 | the key is cached and was stamped less than 500 ms before now |
| Pipeline.DebounceWindow | internal/monitor/monitor.go:125-136 | after stamping a key with t, a repeat is dropped exactly while it is less than 500 ms after t |
| Pipeline.CleanupKeepsDecisions | internal/monitor/monitor.go:173-184 | eviction never changes a later de-duplication decision |
| Pipeline.Accepted | internal/monitor/monitor.go:117-133 | a line contributes a record exactly when it parses and its key was not seen in the last 500 ms |
| Pipeline.Session.constructor | internal/monitor/monitor.go:69-75 | empty cache and empty buffer |
| Pipeline.Session.CheckAndRecord | internal/monitor/monitor.go:125-137 | suppressed exactly when seen less than 500 ms ago; a suppressed key leaves the cache alone, otherwise it is stamped with now |
| Pipeline.Session.Append | internal/monitor/monitor.go:139-157 | the record is buffered; at 100 records the whole buffer is handed over in arrival order and emptied |
| Pipeline.Session.CleanupAccessCache | internal/monitor/monitor.go:173-184 | the cache becomes exactly its entries at most 30 s old |
| Pipeline.Session.Flush | internal/monitor/monitor.go:187-198 | the whole buffer is handed over and emptied; an empty buffer yields nothing |
| Pipeline.Session.IngestLine | internal/monitor/monitor.go:114-157 | cache updated for an accepted record; no record lost or reordered between buffer and delivered batch; a delivered batch has 100 records, is stamped and appended to the store, and advances the next ID by its size |
| Pipeline.FullBatchOutgrowsSmallCap | internal/monitor/monitor.go:144-154 | with a cap below 500, a full batch delivered to a full store leaves it above its cap |
| Pipeline.Session.FlushToStore | internal/monitor/monitor.go:187-204 | the buffer goes to the store and is emptied, advancing the next ID by its size; an empty buffer leaves the store unchanged |
| Pipeline.DeliverBatch | internal/monitor/monitor.go:196-201 | a copy of the batch is stamped and appended to the store, trimmed once |

## Left out

- Running the trace tool, reading its output, and stopping it: this is process I/O. The model starts from each output line as a string.
- Logging, and the HTTP handlers in `internal/api/handler.go`: handler.go is not part of this model.
- Goroutines, the mutexes, and the tickers that run the cache cleanup every 30 s and the flush every 5 s. Each step is modelled as one atomic action; the timer periods themselves are not modelled.
- Time: `time.Time` values are integer milliseconds passed in as `now`. The source reads the clock separately for the cache stamp (`internal/monitor/monitor.go:127`), for the record's `Timestamp` (`internal/monitor/monitor.go:249`) and for `CreatedAt` when the store adds records (`internal/database/database.go:29`, `:54`). The model merges these readings into one `now` per step, so a buffered record's `CreatedAt` is the `now` of the line, or flush tick, that hands its batch to the store.
- The setters and getters of the session's patterns and the regular-expression variants: they only assign the three patterns that `FilterState` carries.
- Wildcard.MatchWildcard: `filepath.Match` character classes and escapes are not interpreted. Any pattern with `[` or `\` is treated as a bad pattern and never matches, while Go accepts well-formed classes.
- ParseProcessInfo: `strconv.Atoi`'s 64-bit range is not modelled. For an over-long PID Go returns a range error with the value clamped to the largest or smallest 64-bit integer; the error is ignored, so the name is the text before the last dot in both Go and the model, and only the pid differs: clamped in Go, the exact value here.
- Database.MemoryStore.AddFileAccess: `currentID` is unbounded. The wrap-around of Go's `uint` is not modelled.
- Database.MemoryStore.GetAccessCountByProcess: `sort.Slice` is modelled by an insertion sort. The contract fixes only the descending order and the contents; it does not fix the order of equal counts, which Go leaves unspecified too.
- Database.MemoryStore.GetFileAccessList: a negative limit is excluded by `requires limit >= 0`, because Go's `make` with a negative capacity panics. The same holds for GetAccessByProcessName and GetAccessByPathPrefix.
- `extractFilePathSimple`'s unused `line` parameter is dropped.
- Strings are sequences of characters, not UTF-8 bytes, so positions count characters. `Fields` splits at the Unicode white-space set of `unicode.IsSpace`.
- The capacity hints given to `make` do not change behaviour and are not modelled.
