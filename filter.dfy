/** The filter stage: the process, include and exclude patterns of a
    monitoring session, and the fixed lists of paths that are never kept. */
module Filter {

  import opened Text
  import opened Wildcard

  /** The three patterns a session is started with; an empty pattern means
      "no constraint". */
  datatype FilterState = FilterState(includePattern: string, excludePattern: string, processPattern: string)

  const NoFilters: FilterState := FilterState("", "", "")

  /** System, cache, log and temporary directories. */
  const IgnoredPrefixes: seq<string> := [
    "/dev/",
    "/usr/share/",
    "/private/var/folders/",
    "/System/Library/",
    "/Library/Caches/",
    "/Library/Logs/",
    "/var/log/",
    "/var/db/",
    "/private/tmp/",
    "/tmp/",
    "/Library/Apple/",
    "/Library/PrivilegedHelperTools/",
    "/Applications/Xcode.app/Contents/"
  ]

  /** Temporary, cache, swap and metadata file endings. */
  const IgnoredSuffixes: seq<string> := [
    ".tmp",
    ".temp",
    ".cache",
    ".swap",
    ".swp",
    ".DS_Store",
    ".localized",
    ".git"
  ]

  /** shouldTrackProcess: an empty process pattern admits every process. */
  function ShouldTrackProcess(f: FilterState, processName: string): (r: bool)
    ensures f.processPattern == "" ==> r
    ensures f.processPattern != "" ==> (r <==> MatchWildcard(processName, f.processPattern))
  {
    f.processPattern == "" || MatchWildcard(processName, f.processPattern)
  }

  /** The prefix loop of shouldTrackFile: does path start with one of them? */
  function HasAnyPrefix(path: string, prefixes: seq<string>): (r: bool)
    ensures r <==> exists k :: 0 <= k < |prefixes| && HasPrefix(path, prefixes[k])
  {
    if prefixes == [] then false
    else if HasPrefix(path, prefixes[0]) then true
    else
      var r := HasAnyPrefix(path, prefixes[1..]);
      assert forall k :: 1 <= k < |prefixes| ==> prefixes[k] == prefixes[1..][k - 1];
      r
  }

  /** The suffix loop of shouldTrackFile: does path end with one of them? */
  function HasAnySuffix(path: string, suffixes: seq<string>): (r: bool)
    ensures r <==> exists k :: 0 <= k < |suffixes| && HasSuffix(path, suffixes[k])
  {
    if suffixes == [] then false
    else if HasSuffix(path, suffixes[0]) then true
    else
      var r := HasAnySuffix(path, suffixes[1..]);
      assert forall k :: 1 <= k < |suffixes| ==> suffixes[k] == suffixes[1..][k - 1];
      r
  }

  /** shouldTrackFile: the include pattern must match, the exclude pattern
      must not, and no ignored prefix or suffix may apply. */
  function ShouldTrackFile(f: FilterState, path: string): (r: bool)
    ensures r <==>
      && (f.includePattern == "" || MatchWildcard(path, f.includePattern))
      && !(f.excludePattern != "" && MatchWildcard(path, f.excludePattern))
      && (forall k :: 0 <= k < |IgnoredPrefixes| ==> !HasPrefix(path, IgnoredPrefixes[k]))
      && (forall k :: 0 <= k < |IgnoredSuffixes| ==> !HasSuffix(path, IgnoredSuffixes[k]))
  {
    if f.includePattern != "" && !MatchWildcard(path, f.includePattern) then false
    else if f.excludePattern != "" && MatchWildcard(path, f.excludePattern) then false
    else if HasAnyPrefix(path, IgnoredPrefixes) then false
    else !HasAnySuffix(path, IgnoredSuffixes)
  }

  /** The static lists win over every pattern. */
  lemma IgnoredPathsNeverTracked(f: FilterState, path: string, k: nat)
    requires (k < |IgnoredPrefixes| && HasPrefix(path, IgnoredPrefixes[k]))
          || (k < |IgnoredSuffixes| && HasSuffix(path, IgnoredSuffixes[k]))
    ensures !ShouldTrackFile(f, path)
  {
  }

  /** A path matched by both patterns is dropped: exclude wins over include. */
  lemma ExcludeWinsOverInclude(f: FilterState, path: string)
    requires f.includePattern != "" && f.excludePattern != ""
    requires MatchWildcard(path, f.includePattern) && MatchWildcard(path, f.excludePattern)
    ensures !ShouldTrackFile(f, path)
  {
  }

  /** With no include and no exclude pattern only the static lists decide. */
  lemma NoPatternsOnlyStaticLists(f: FilterState, path: string)
    requires f.includePattern == "" && f.excludePattern == ""
    ensures ShouldTrackFile(f, path) <==>
      !HasAnyPrefix(path, IgnoredPrefixes) && !HasAnySuffix(path, IgnoredSuffixes)
  {
  }
}
