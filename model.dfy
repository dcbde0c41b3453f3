/** The records the store keeps and reports, and the cap a new store starts
    with. Times are whole milliseconds. */
module Model {

  /** One observed file operation. `id` and `createdAt` are filled in by the
      store; a freshly parsed record carries zero in both. */
  datatype FileAccess = FileAccess(
    id: nat,
    createdAt: int,
    timestamp: int,
    processName: string,
    pid: int,
    filePath: string,
    operation: string)

  /** How many stored records one process accounts for. */
  datatype FileAccessSummary = FileAccessSummary(processName: string, count: nat)

  const DefaultMaxRecords: int := 10000

  /** The cap NewMemoryStore gives a store asked for `maxRecords`: a
      non-positive request falls back to the default, so the cap is always
      positive. */
  function InitialMaxRecords(maxRecords: int): (cap: int)
    ensures cap > 0
    ensures maxRecords > 0 ==> cap == maxRecords
    ensures maxRecords <= 0 ==> cap == DefaultMaxRecords
  {
    if maxRecords <= 0 then DefaultMaxRecords else maxRecords
  }
}
