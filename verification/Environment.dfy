/** Status codes of the staging interface, and the outcomes of the calls it cannot control. */
module Environment {
  import opened Words

  datatype Code =
    | Success
    | BadArgument
    | AlreadyStaged
    | OpenFailed
    | IoError
    | FormatError
    | MissingModule
    | CrcError
    | OutOfMemory
    | NoSource

  type Path = string

  /**
    One choice for everything that can go wrong in one call: which paths open
    and what they hold, which allocations and which reads succeed.  Payload
    buffers and payload reads are told apart by module id.
   */
  datatype Env = Env(
    files: map<Path, seq<byte>>,
    pathAlloc: bool,
    seekEnd: bool,
    headerRead: bool,
    tableAlloc: bool,
    entriesAlloc: bool,
    tableRead: bool,
    stagedAlloc: bool,
    badAllocs: set<nat>,
    badReads: set<nat>)
  {
    /** Everything but opening succeeds. */
    predicate Calm() {
      pathAlloc && seekEnd && headerRead && tableAlloc && entriesAlloc && tableRead && stagedAlloc
      && badAllocs == {} && badReads == {}
    }
  }
}
