/** parseFsUsageLine and its helpers: one line of fs_usage output becomes a
    file-access record, or is rejected. */
module LineParser {

  import opened Wrappers
  import opened Text
  import opened Filter
  import opened Model

  /** The operation table of isReadWriteOperation. `unlink` is listed, but
      switched off. */
  const ReadWriteOperations: map<string, bool> := map[
    "read" := true,
    "read_nocancel" := true,
    "write" := true,
    "write_nocancel" := true,
    "pread" := true,
    "pwrite" := true,
    "readv" := true,
    "writev" := true,
    "open" := true,
    "open_nocancel" := true,
    "close" := true,
    "close_nocancel" := true,
    "create" := true,
    "unlink" := false,
    "rename" := true,
    "truncate" := true,
    "ftruncate" := true,
    "fsync" := true,
    "fwrite" := true,
    "fread" := true
  ]

  /** The read/write-class vocabulary the monitor records. */
  const TrackedOperations: set<string> := {
    "read", "read_nocancel", "write", "write_nocancel", "pread", "pwrite",
    "readv", "writev", "open", "open_nocancel", "close", "close_nocancel",
    "create", "rename", "truncate", "ftruncate", "fsync", "fwrite", "fread"
  }

  /** isReadWriteOperation: a lookup in the table, where a missing entry
      reads as false. */
  function IsReadWriteOperation(operation: string): (r: bool)
    ensures r <==> operation in TrackedOperations
    ensures operation == "unlink" ==> !r
  {
    operation in ReadWriteOperations && ReadWriteOperations[operation]
  }

  /** The process name and pid found in the last field of a line. */
  datatype ProcessInfo = ProcessInfo(name: string, pid: int)

  /** strconv.Atoi with its error ignored: a malformed number reads as 0. */
  function PidOf(text: string): int {
    match Atoi(text)
    case Some(v) => v
    case None => 0
  }

  /** parseProcessInfo: split at the last `.` into name and pid. When the dot
      is missing, first or last, or the pid does not parse to a non-zero
      number, the whole field is the name and the pid is 0. */
  function ParseProcessInfo(info: string): (r: ProcessInfo)
    ensures r.pid == 0 ==> r.name == info
    ensures r.pid != 0 ==>
      var n := |r.name|;
      && 0 < n && n + 1 < |info|
      && info == r.name + "." + info[n + 1..]
      && (forall k :: n < k < |info| ==> info[k] != '.')
      && Atoi(info[n + 1..]) == Some(r.pid)
  {
    var lastDot := LastIndexOf(info, '.');
    if lastDot > 0 && lastDot < |info| - 1 then
      var name := info[..lastDot];
      var pid := PidOf(info[lastDot + 1..]);
      assert info == name + [info[lastDot]] + info[lastDot + 1..];
      if pid == 0 then ProcessInfo(info, 0) else ProcessInfo(name, pid)
    else ProcessInfo(info, 0)
  }

  /** A name and a positive pid written as `name.pid` are read back as they
      were written. */
  lemma ProcessInfoRoundTrip(name: string, pid: nat)
    requires name != [] && pid > 0
    ensures ParseProcessInfo(name + "." + DecimalText(pid)) == ProcessInfo(name, pid)
  {
    var digits := DecimalText(pid);
    var info := name + "." + digits;
    var lastDot := LastIndexOf(info, '.');
    assert info[|name|] == '.';
    assert forall k :: |name| < k < |info| ==> info[k] == digits[k - |name| - 1];
    assert lastDot == |name|;
    assert info[..lastDot] == name;
    assert info[lastDot + 1..] == digits;
    AtoiDecimalText(pid);
  }

  /** The first loop of extractFilePathSimple: the first field from index i
      on that starts with `/`, or "" when there is none. */
  function FirstRooted(fields: seq<string>, i: nat): (r: string)
    ensures r == "" || HasPrefix(r, "/")
    ensures r == "" <==> forall j :: i <= j < |fields| ==> !HasPrefix(fields[j], "/")
    decreases |fields| - i
  {
    if i >= |fields| then ""
    else if HasPrefix(fields[i], "/") then fields[i]
    else FirstRooted(fields, i + 1)
  }

  /** A field that holds what looks like the tail of a truncated path. */
  predicate LooksTruncated(field: string) {
    Contains(field, "/Volumes/") || Contains(field, "Library/") || Contains(field, "/Users/")
  }

  /** Puts back the root of a truncated path, restoring the capital letter the
      trace dropped for the four stems it knows. The field itself is kept
      whole after what is restored. */
  function RestoreRoot(field: string): (r: string)
    ensures |r| > 0 && r[0] == '/' && HasSuffix(r, field) && |r| <= |field| + 2
    ensures (!HasPrefix(field, "ystem/") && !HasPrefix(field, "olumes/") &&
             !HasPrefix(field, "ibrary/") && !HasPrefix(field, "sers/")) ==> r == "/" + field
  {
    if HasPrefix(field, "ystem/") then "/S" + field
    else if HasPrefix(field, "olumes/") then "/V" + field
    else if HasPrefix(field, "ibrary/") then "/L" + field
    else if HasPrefix(field, "sers/") then "/U" + field
    else "/" + field
  }

  lemma RestoreSystem(field: string)
    requires HasPrefix(field, "ystem/")
    ensures RestoreRoot(field) == "/System/" + field[6..]
  {
    PrefixSplit(field, "ystem/");
  }

  lemma RestoreVolumes(field: string)
    requires HasPrefix(field, "olumes/")
    ensures RestoreRoot(field) == "/Volumes/" + field[7..]
  {
    PrefixSplit(field, "olumes/");
    FirstCharBlocksPrefix(field, "ystem/");
  }

  lemma RestoreLibrary(field: string)
    requires HasPrefix(field, "ibrary/")
    ensures RestoreRoot(field) == "/Library/" + field[7..]
  {
    PrefixSplit(field, "ibrary/");
    FirstCharBlocksPrefix(field, "ystem/");
    FirstCharBlocksPrefix(field, "olumes/");
  }

  lemma RestoreUsers(field: string)
    requires HasPrefix(field, "sers/")
    ensures RestoreRoot(field) == "/Users/" + field[5..]
  {
    PrefixSplit(field, "sers/");
    FirstCharBlocksPrefix(field, "ystem/");
    FirstCharBlocksPrefix(field, "olumes/");
    FirstCharBlocksPrefix(field, "ibrary/");
  }

  /** The four stems whose capital letter the trace drops come back whole:
      ystem/ to /System/, olumes/ to /Volumes/, ibrary/ to /Library/ and
      sers/ to /Users/. */
  lemma RestoreRootStems(field: string)
    ensures HasPrefix(field, "ystem/") ==> RestoreRoot(field) == "/System/" + field[6..]
    ensures HasPrefix(field, "olumes/") ==> RestoreRoot(field) == "/Volumes/" + field[7..]
    ensures HasPrefix(field, "ibrary/") ==> RestoreRoot(field) == "/Library/" + field[7..]
    ensures HasPrefix(field, "sers/") ==> RestoreRoot(field) == "/Users/" + field[5..]
  {
    if HasPrefix(field, "ystem/") {
      RestoreSystem(field);
    }
    if HasPrefix(field, "olumes/") {
      RestoreVolumes(field);
    }
    if HasPrefix(field, "ibrary/") {
      RestoreLibrary(field);
    }
    if HasPrefix(field, "sers/") {
      RestoreUsers(field);
    }
  }

  /** The second loop of extractFilePathSimple: the first field after index
      0 (and from index i on) that looks truncated, repaired; "" when there is
      none. */
  function FirstTruncated(fields: seq<string>, i: nat): (r: string)
    ensures r == "" || r[0] == '/'
    ensures r == "" <==> forall j :: i <= j < |fields| && 0 < j ==> !LooksTruncated(fields[j])
    decreases |fields| - i
  {
    if i >= |fields| then ""
    else if i > 0 && LooksTruncated(fields[i]) then RestoreRoot(fields[i])
    else FirstTruncated(fields, i + 1)
  }

  /** extractFilePathSimple: a path that starts with `/`, or "" for none. */
  function ExtractFilePath(fields: seq<string>): (r: string)
    ensures r == "" || r[0] == '/'
  {
    var rooted := FirstRooted(fields, 0);
    if rooted != "" then rooted else FirstTruncated(fields, 0)
  }

  lemma {:induction false} FirstRootedFrom(fields: seq<string>, i: nat, k: nat)
    requires i <= k < |fields| && HasPrefix(fields[k], "/")
    requires forall j :: i <= j < k ==> !HasPrefix(fields[j], "/")
    ensures FirstRooted(fields, i) == fields[k]
    decreases k - i
  {
    if i < k {
      FirstRootedFrom(fields, i + 1, k);
    }
  }

  /** When some field starts with `/`, the first such field is the path,
      unchanged. */
  lemma FirstRootedFieldIsPath(fields: seq<string>, k: nat)
    requires k < |fields| && HasPrefix(fields[k], "/")
    requires forall j :: 0 <= j < k ==> !HasPrefix(fields[j], "/")
    ensures ExtractFilePath(fields) == fields[k]
  {
    FirstRootedFrom(fields, 0, k);
  }

  lemma {:induction false} FirstTruncatedFrom(fields: seq<string>, i: nat, k: nat)
    requires i <= k < |fields| && 0 < k && LooksTruncated(fields[k])
    requires forall j :: i <= j < k && 0 < j ==> !LooksTruncated(fields[j])
    ensures FirstTruncated(fields, i) == RestoreRoot(fields[k])
    decreases k - i
  {
    if i < k {
      assert !(i > 0 && LooksTruncated(fields[i]));
      assert FirstTruncated(fields, i) == FirstTruncated(fields, i + 1);
      FirstTruncatedFrom(fields, i + 1, k);
    } else {
      assert i > 0 && LooksTruncated(fields[i]);
    }
  }

  /** When no field starts with `/`, the first field after the first one that
      looks truncated is repaired into the path. */
  lemma TruncatedPathIsRepaired(fields: seq<string>, k: nat)
    requires forall j :: 0 <= j < |fields| ==> !HasPrefix(fields[j], "/")
    requires 0 < k < |fields| && LooksTruncated(fields[k])
    requires forall j :: 0 < j < k ==> !LooksTruncated(fields[j])
    ensures ExtractFilePath(fields) == RestoreRoot(fields[k])
  {
    FirstTruncatedFrom(fields, 0, k);
  }

  /** parseFsUsageLine after the line has been split into fields: the
      operation check, the process, the path and the filters. */
  function RecordOf(fields: seq<string>, f: FilterState, now: int): (r: Option<FileAccess>)
    ensures |fields| < 4 ==> r == None
    ensures r.Some? <==>
      && |fields| >= 4
      && IsReadWriteOperation(fields[1])
      && ShouldTrackProcess(f, ParseProcessInfo(fields[|fields| - 1]).name)
      && ExtractFilePath(fields) != ""
      && ShouldTrackFile(f, ExtractFilePath(fields))
    ensures r.Some? ==>
      var a := r.value;
      && |fields| >= 4
      && a.operation == fields[1] && IsReadWriteOperation(a.operation)
      && ProcessInfo(a.processName, a.pid) == ParseProcessInfo(fields[|fields| - 1])
      && a.filePath == ExtractFilePath(fields) && a.filePath != "" && a.filePath[0] == '/'
      && ShouldTrackProcess(f, a.processName) && ShouldTrackFile(f, a.filePath)
      && a.timestamp == now && a.id == 0 && a.createdAt == 0
  {
    if |fields| < 4 then None
    else
      var operation := fields[1];
      if !IsReadWriteOperation(operation) then None
      else
        var info := ParseProcessInfo(fields[|fields| - 1]);
        if !ShouldTrackProcess(f, info.name) then None
        else
          var filePath := ExtractFilePath(fields);
          if filePath == "" then None
          else if !ShouldTrackFile(f, filePath) then None
          else Some(FileAccess(0, 0, now, info.name, info.pid, filePath, operation))
  }

  /** parseFsUsageLine, with the filter state and the clock reading passed in. */
  function ParseFsUsageLine(line: string, f: FilterState, now: int): (r: Option<FileAccess>)
    ensures '/' !in line ==> r == None
    ensures '/' in line ==> r == RecordOf(Fields(line), f, now)
  {
    ContainsChar(line, '/');
    if !Contains(line, "/") then None
    else RecordOf(Fields(line), f, now)
  }

  /** Fields with a recognised operation and a field starting with `/` give,
      with no filters set, a record carrying exactly that operation and that
      path, unless the path is on the static ignore lists. */
  lemma WellFormedFieldsParsed(fields: seq<string>, k: nat, now: int)
    requires |fields| >= 4 && IsReadWriteOperation(fields[1])
    requires k < |fields| && HasPrefix(fields[k], "/")
    requires forall j :: 0 <= j < k ==> !HasPrefix(fields[j], "/")
    requires ShouldTrackFile(NoFilters, fields[k])
    ensures
      var info := ParseProcessInfo(fields[|fields| - 1]);
      RecordOf(fields, NoFilters, now) ==
        Some(FileAccess(0, 0, now, info.name, info.pid, fields[k], fields[1]))
  {
    FirstRootedFieldIsPath(fields, k);
  }

  /** A line with at least four fields, a recognised operation and a field
      starting with `/` yields, with no filters set, a record carrying exactly
      that operation and that path, unless the path is on the static ignore
      lists. */
  lemma WellFormedLineParsed(line: string, fields: seq<string>, k: nat, now: int)
    requires fields == Fields(line)
    requires |fields| >= 4 && IsReadWriteOperation(fields[1])
    requires k < |fields| && HasPrefix(fields[k], "/")
    requires forall j :: 0 <= j < k ==> !HasPrefix(fields[j], "/")
    requires ShouldTrackFile(NoFilters, fields[k])
    ensures ParseFsUsageLine(line, NoFilters, now) ==
      Some(FileAccess(0, 0, now, ParseProcessInfo(fields[|fields| - 1]).name,
                      ParseProcessInfo(fields[|fields| - 1]).pid, fields[k], fields[1]))
  {
    assert '/' in line by {
      PrefixChar(fields[k], '/');
      FieldCharsInLine(line, k, 0);
    }
    WellFormedFieldsParsed(fields, k, now);
  }

  /** fs_usage pads its columns: a line whose words are separated by
      whitespace of any width parses, with no filters set, to the record its
      words describe. */
  lemma SpacedLineParsed(lead: string, ws: seq<string>, gaps: seq<string>, k: nat, now: int)
    requires AllSpace(lead) && |gaps| == |ws|
    requires forall j :: 0 <= j < |ws| ==> IsWord(ws[j]) && AllSpace(gaps[j])
    requires forall j :: 0 <= j < |ws| - 1 ==> gaps[j] != []
    requires |ws| >= 4 && IsReadWriteOperation(ws[1])
    requires k < |ws| && HasPrefix(ws[k], "/")
    requires forall j :: 0 <= j < k ==> !HasPrefix(ws[j], "/")
    requires ShouldTrackFile(NoFilters, ws[k])
    ensures ParseFsUsageLine(lead + Spaced(ws, gaps), NoFilters, now) ==
      Some(FileAccess(0, 0, now, ParseProcessInfo(ws[|ws| - 1]).name,
                      ParseProcessInfo(ws[|ws| - 1]).pid, ws[k], ws[1]))
  {
    FieldsOfSpaced(lead, ws, gaps);
    WellFormedLineParsed(lead + Spaced(ws, gaps), ws, k, now);
  }

  /** Printable ASCII other than the space is never whitespace. */
  lemma VisibleWord(w: string)
    requires w != [] && forall k :: 0 <= k < |w| ==> '!' <= w[k] <= '~'
    ensures IsWord(w)
  {
  }

  /** A line of the shape fs_usage prints: time, operation, descriptor,
      path, process, that is "12:00:00 write F=3 /Users/a/doc.txt myapp.123",
      written as its words with a single space between them. */
  const ExampleText: string :=
    "12:00:00" + " " + "write" + " " + "F=3" + " " + "/Users/a/doc.txt" + " " + "myapp.123"

  const ExampleWords: seq<string> := ["12:00:00", "write", "F=3", "/Users/a/doc.txt", "myapp.123"]

  lemma ExampleWordsAreWords()
    ensures forall k :: 0 <= k < |ExampleWords| ==> IsWord(ExampleWords[k])
  {
    VisibleWord("12:00:00");
    VisibleWord("write");
    VisibleWord("F=3");
    VisibleWord("/Users/a/doc.txt");
    VisibleWord("myapp.123");
  }

  /** Joining a word in front of at least one more. */
  lemma JoinCons(w: string, ws: seq<string>)
    requires ws != []
    ensures Join([w] + ws, " ") == w + " " + Join(ws, " ")
  {
    assert ([w] + ws)[1..] == ws;
  }

  /** The worked example line is its words joined by single spaces. */
  lemma ExampleJoin()
    ensures Join(ExampleWords, " ") == ExampleText
  {
    var words := ExampleWords;
    assert words == ["12:00:00"] + (["write"] + (["F=3"] + (["/Users/a/doc.txt"] + ["myapp.123"])));
    JoinCons("/Users/a/doc.txt", ["myapp.123"]);
    JoinCons("F=3", ["/Users/a/doc.txt"] + ["myapp.123"]);
    JoinCons("write", ["F=3"] + (["/Users/a/doc.txt"] + ["myapp.123"]));
    JoinCons("12:00:00", ["write"] + (["F=3"] + (["/Users/a/doc.txt"] + ["myapp.123"])));
  }

  lemma ExampleProcess()
    ensures ParseProcessInfo("myapp.123") == ProcessInfo("myapp", 123)
  {
    assert DecimalText(1) == "1";
    assert DecimalText(12) == "12";
    assert DecimalText(123) == "123";
    ProcessInfoRoundTrip("myapp", 123);
    assert "myapp" + "." + "123" == "myapp.123";
  }

  lemma ExamplePathTracked()
    ensures ShouldTrackFile(NoFilters, "/Users/a/doc.txt")
  {
    var path := "/Users/a/doc.txt";
    forall k | 0 <= k < |IgnoredPrefixes|
      ensures !HasPrefix(path, IgnoredPrefixes[k])
    {
      var p := IgnoredPrefixes[k];
      assert |p| >= 2 && p[1] != 'U';
      if |p| <= |path| {
        assert path[..|p|][1] == 'U';
      }
    }
    forall k | 0 <= k < |IgnoredSuffixes|
      ensures !HasSuffix(path, IgnoredSuffixes[k])
    {
      var x := IgnoredSuffixes[k];
      assert |x| >= 2 && x[|x| - 2] != 'x';
      if |x| <= |path| {
        assert path[|path| - |x|..][|x| - 2] == 'x';
      }
    }
  }

  lemma ExamplePathFirst(line: string)
    requires Fields(line) == ExampleWords
    ensures forall j :: 0 <= j < 3 ==> !HasPrefix(Fields(line)[j], "/")
    ensures HasPrefix(Fields(line)[3], "/")
  {
    assert "12:00:00"[0] != '/' && "write"[0] != '/' && "F=3"[0] != '/';
  }

  /** Any line whose words are the example's parses to the record they
      describe. */
  lemma ExampleWordsParsed(line: string, now: int)
    requires Fields(line) == ExampleWords
    ensures ParseFsUsageLine(line, NoFilters, now) ==
      Some(FileAccess(0, 0, now, ParseProcessInfo("myapp.123").name, ParseProcessInfo("myapp.123").pid,
                      "/Users/a/doc.txt", "write"))
  {
    ExamplePathFirst(line);
    ExamplePathTracked();
    assert IsReadWriteOperation("write");
    WellFormedLineParsed(line, ExampleWords, 3, now);
  }

  /** The worked example: a write by process 123 of "myapp" to
      /Users/a/doc.txt. */
  lemma ExampleLine(now: int)
    ensures ParseFsUsageLine(ExampleText, NoFilters, now)
         == Some(FileAccess(0, 0, now, "myapp", 123, "/Users/a/doc.txt", "write"))
  {
    ExampleJoin();
    ExampleWordsAreWords();
    FieldsOfJoin(ExampleWords);
    ExampleWordsParsed(ExampleText, now);
    ExampleProcess();
  }
}
