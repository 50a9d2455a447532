/**
  What every staging call answers: the steps it takes laid out one after the
  other, each with the error it would report, and what a success has read.
 */
module StagingOutcomes {
  import opened ImageConstants
  import opened Wrappers
  import opened Words
  import opened Crc32
  import opened Environment
  import opened Requirements
  import opened StagingSpec
  import opened StagingInvariant
  import opened StagedImages
  import opened ByteFormat
  import F = ImageFormat
  import P = ImageParser

  /** Something that can go wrong, and how it is reported. */
  datatype Step = Step(fails: bool, code: Code)

  /** The call reports the first step that fails. */
  function Outcome(steps: seq<Step>): Code {
    if steps == [] then Success else if steps[0].fails then steps[0].code else Outcome(steps[1..])
  }

  lemma {:induction false} OutcomeAppend(a: seq<Step>, b: seq<Step>)
    requires forall i :: 0 <= i < |a| ==> a[i].code != Success
    ensures Outcome(a + b) == if Outcome(a) == Success then Outcome(b) else Outcome(a)
  {
    if a == [] {
      assert a + b == b;
    } else {
      assert (a + b)[1..] == a[1..] + b;
      OutcomeAppend(a[1..], b);
    }
  }

  // ---- the steps ----

  /** Row k of the file is the module's. */
  ghost predicate ModuleAt(f: seq<byte>, k: nat, id: nat)
    requires Loadable(f)
  {
    k < ReadLe(f, 16) && Id(f, k) == id
  }

  ghost predicate Listed(f: seq<byte>, id: nat)
    requires Loadable(f)
  {
    exists k: nat :: ModuleAt(f, k, id)
  }

  function Payload(f: seq<byte>, k: nat): seq<byte>
    requires 44 + 20 * (k + 1) <= |f| && Offset(f, k) + Size(f, k) <= |f|
  {
    f[Offset(f, k)..Offset(f, k) + Size(f, k)]
  }

  ghost predicate Undamaged(f: seq<byte>, id: nat)
    requires Loadable(f)
  {
    forall k: nat :: ModuleAt(f, k, id) ==> Crc(Payload(f, k)) == Sum(f, k)
  }

  /** Opening and reading header and table. */
  ghost function FileSteps(path: Path, env: Env): seq<Step> {
    var f := if path in env.files then env.files[path] else [];
    [Step(path !in env.files, OpenFailed),
     Step(!env.seekEnd, IoError),
     Step(|f| < 44 || |f| > 0xffff_ffff, FormatError),
     Step(!env.headerRead, IoError),
     Step(!HeaderRight(f), FormatError),
     Step(!env.tableAlloc || !env.entriesAlloc, OutOfMemory),
     Step(!env.tableRead, IoError),
     Step(!Loadable(f), FormatError),
     Step(!env.stagedAlloc, OutOfMemory)]
  }

  /** One module. */
  ghost function ModuleSteps(f: seq<byte>, id: nat, env: Env): seq<Step>
    requires Loadable(f)
  {
    [Step(!Listed(f, id), MissingModule),
     Step(id in env.badAllocs, OutOfMemory),
     Step(id in env.badReads, IoError),
     Step(!Undamaged(f, id), CrcError)]
  }

  /** The modules up to id n, in ascending order. */
  ghost function ModulesSteps(f: seq<byte>, ids: set<nat>, n: nat, env: Env): seq<Step>
    requires Loadable(f)
  {
    if n == 0 then []
    else ModulesSteps(f, ids, n - 1, env) + if n in ids then ModuleSteps(f, n, env) else []
  }

  ghost function FetchSteps(path: Path, mask: bv32, env: Env): seq<Step> {
    FileSteps(path, env) +
    if path in env.files && Loadable(env.files[path]) then ModulesSteps(env.files[path], Expand(mask), 128, env) else []
  }

  // ---- loading ----

  lemma TableRow(f: seq<byte>, k: nat)
    requires Loadable(f) && k < ReadLe(f, 16)
    ensures P.Accepts(f) && |P.EntriesOf(f)| == ReadLe(f, 16)
    ensures P.EntriesOf(f)[k] == F.Entry(Id(f, k), Offset(f, k), Size(f, k), Sum(f, k), Flags(f, k))
  {
    hide ReadLe, F.ReadEntry;
    AcceptsLoadable(f);
    Unpacks(f, k);
  }

  /** Finding a module is finding its row. */
  lemma FindsRow(f: seq<byte>, id: nat)
    requires Loadable(f)
    ensures P.Accepts(f) && (FindEntry(P.EntriesOf(f), id).Some? <==> Listed(f, id))
    ensures forall k: nat :: ModuleAt(f, k, id) ==>
      FindEntry(P.EntriesOf(f), id) == Some(F.Entry(Id(f, k), Offset(f, k), Size(f, k), Sum(f, k), Flags(f, k)))
  {
    hide ReadLe, F.ReadEntry, F.ReadHeader, F.RawEntries, FindEntry, Loadable, P.HeaderGood, P.EntryGood;
    AcceptsLoadable(f);
    var es := P.EntriesOf(f);
    CountIs(f);
    forall k: nat | k < |es|
      ensures es[k] == F.Entry(Id(f, k), Offset(f, k), Size(f, k), Sum(f, k), Flags(f, k))
    {
      TableRow(f, k);
    }
    FoundIsEntry(es, id);
    forall k: nat | ModuleAt(f, k, id)
      ensures FindEntry(es, id) == Some(F.Entry(Id(f, k), Offset(f, k), Size(f, k), Sum(f, k), Flags(f, k)))
    {
      FindDistinct(es, k);
    }
    if FindEntry(es, id).Some? {
      var k: nat :| k < |es| && es[k] == FindEntry(es, id).value;
      assert ModuleAt(f, k, id);
    }
  }

  lemma CountIs(f: seq<byte>)
    requires Loadable(f)
    ensures P.Accepts(f) && |P.EntriesOf(f)| == ReadLe(f, 16) && 44 + 20 * ReadLe(f, 16) <= |f|
  {
    hide ReadLe, F.ReadEntry;
    AcceptsLoadable(f);
  }

  /** The slot is filled with the bytes its row points at. */
  ghost predicate FilledFrom(x: Slot, f: seq<byte>, id: nat)
    requires Loadable(f)
  {
    exists k: nat :: ModuleAt(f, k, id) && x == Slot(id, Some(Payload(f, k)), Size(f, k))
  }

  lemma LoadOneOutcome(f: seq<byte>, id: nat, env: Env)
    requires Loadable(f) && P.Accepts(f)
    ensures match LoadOne(f, P.EntriesOf(f), id, env)
            case Err(c) => Outcome(ModuleSteps(f, id, env)) == c != Success
            case Ok(x) => Outcome(ModuleSteps(f, id, env)) == Success && FilledFrom(x, f, id)
  {
    hide ReadLe, F.ReadEntry, F.ReadHeader, F.RawEntries, FindEntry, Loadable, P.EntriesOf, P.Accepts, Crc;
    FindsRow(f, id);
    if Listed(f, id) {
      var k: nat :| ModuleAt(f, k, id);
      RowIsInside(f, k);
    }
    FourMore(ModuleSteps(f, id, env));
  }

  lemma OneMore(s: seq<Step>)
    requires s != []
    ensures Outcome(s) == if s[0].fails then s[0].code else Outcome(s[1..])
  {
  }

  lemma FourMore(s: seq<Step>)
    requires |s| >= 4
    ensures Outcome(s) == if s[0].fails then s[0].code
                          else if s[1].fails then s[1].code
                          else if s[2].fails then s[2].code
                          else if s[3].fails then s[3].code else Outcome(s[4..])
  {
    hide Outcome;
    OneMore(s);
    OneMore(s[1..]);
    OneMore(s[2..]);
    OneMore(s[3..]);
    assert s[1..][1..] == s[2..] && s[2..][1..] == s[3..] && s[3..][1..] == s[4..];
  }

  lemma RowIsInside(f: seq<byte>, k: nat)
    requires Loadable(f) && k < ReadLe(f, 16)
    ensures Offset(f, k) + Size(f, k) <= |f|
  {
    hide ReadLe;
    assert RowInside(f, k);
  }

  lemma {:induction false} ModulesCodes(f: seq<byte>, ids: set<nat>, n: nat, env: Env)
    requires Loadable(f)
    ensures forall i :: 0 <= i < |ModulesSteps(f, ids, n, env)| ==> ModulesSteps(f, ids, n, env)[i].code != Success
  {
    hide Loadable, Listed, Undamaged;
    if n != 0 {
      ModulesCodes(f, ids, n - 1, env);
    }
  }

  lemma {:induction false} LoadAllOutcome(f: seq<byte>, es: seq<F.Entry>, ids: set<nat>, n: nat, env: Env)
    requires Loadable(f) && P.Accepts(f) && es == P.EntriesOf(f)
    ensures match LoadAll(f, es, Wanted(ids, n), env)
            case Err(c) => Outcome(ModulesSteps(f, ids, n, env)) == c != Success
            case Ok(slots) =>
              && Outcome(ModulesSteps(f, ids, n, env)) == Success && |slots| == |Wanted(ids, n)|
              && forall i :: 0 <= i < |slots| ==> FilledFrom(slots[i], f, Wanted(ids, n)[i])
  {
    hide Loadable, P.Accepts, P.HeaderGood, F.RawEntries, F.ReadHeader, LoadOne, ModuleSteps, FilledFrom, LoadAll,
      Outcome;
    if n == 0 {
      NothingWanted(f, es, ids, env);
    } else {
      LoadAllOutcome(f, es, ids, n - 1, env);
      if n in ids {
        ModulesCodes(f, ids, n - 1, env);
        OutcomeAppend(ModulesSteps(f, ids, n - 1, env), ModuleSteps(f, n, env));
        LoadOneOutcome(f, n, env);
        LoadAllStep(f, es, Wanted(ids, n - 1), n, env);
      } else {
        assert Wanted(ids, n) == Wanted(ids, n - 1);
        assert ModulesSteps(f, ids, n, env) == ModulesSteps(f, ids, n - 1, env);
      }
    }
  }

  lemma NothingWanted(f: seq<byte>, es: seq<F.Entry>, ids: set<nat>, env: Env)
    requires Loadable(f)
    ensures LoadAll(f, es, Wanted(ids, 0), env) == Ok([])
    ensures Outcome(ModulesSteps(f, ids, 0, env)) == Success
  {
    hide Loadable;
  }

  // ---- fetching ----

  lemma NineSteps(path: Path, env: Env)
    ensures var s := FileSteps(path, env);
            && (forall i :: 0 <= i < |s| ==> s[i].code != Success)
            && Outcome(s) == if s[0].fails then OpenFailed
                             else if s[1].fails then IoError
                             else if s[2].fails then FormatError
                             else if s[3].fails then IoError
                             else if s[4].fails then FormatError
                             else if s[5].fails then OutOfMemory
                             else if s[6].fails then IoError
                             else if s[7].fails then FormatError
                             else if s[8].fails then OutOfMemory
                             else Success
  {
    hide Loadable, HeaderRight;
    var s := FileSteps(path, env);
    FourMore(s);
    FourMore(s[4..]);
    OneMore(s[8..]);
  }

  /** What a successful call has read: one slot for each requested id in ascending order, filled from its row. */
  ghost predicate Fetched(slots: seq<Slot>, f: seq<byte>, mask: bv32)
    requires Loadable(f)
  {
    && |slots| == |Wanted(Expand(mask), MAX_ENTRIES)|
    && forall i :: 0 <= i < |slots| ==> FilledFrom(slots[i], f, Wanted(Expand(mask), MAX_ENTRIES)[i])
  }

  lemma FetchOutcome(path: Path, mask: bv32, env: Env)
    ensures match Fetch(path, mask, env)
            case Err(c) => Outcome(FetchSteps(path, mask, env)) == c != Success
            case Ok(slots) =>
              && Outcome(FetchSteps(path, mask, env)) == Success
              && path in env.files && Loadable(env.files[path]) && Fetched(slots, env.files[path], mask)
  {
    hide Loadable, HeaderRight, P.EntriesOf, P.Accepts, P.HeaderGood, F.ReadHeader, LoadAll, Wanted, Expand,
      ModulesSteps, FilledFrom, Outcome;
    NineSteps(path, env);
    if path in env.files {
      var f := env.files[path];
      AcceptsLoadable(f);
      HeaderIsRight(f);
      if Loadable(f) {
        RightFirst(f);
        LoadAllOutcome(f, P.EntriesOf(f), Expand(mask), 128, env);
        OutcomeAppend(FileSteps(path, env), ModulesSteps(f, Expand(mask), 128, env));
      } else {
        OutcomeAppend(FileSteps(path, env), []);
      }
    } else {
      OutcomeAppend(FileSteps(path, env), []);
    }
  }

  lemma RightFirst(f: seq<byte>)
    requires Loadable(f)
    ensures HeaderRight(f)
  {
  }

  // ---- the calls ----

  predicate BadArguments(mask: bv32) {
    mask == 0 || mask & 0xfff0_0000 != 0
  }

  lemma BadArgumentsAre(mask: bv32)
    ensures BadMask(mask) <==> BadArguments(mask)
  {
    assert !KNOWN_MASK == 0xfff0_0000;
  }

  /** The state after a success: what has been read, with its number and its bytes, and where it came from. */
  ghost predicate StagedFrom(t: State, path: Path, mask: bv32, env: Env) {
    && path in env.files && Loadable(env.files[path]) && t.slots.Some? && Fetched(t.slots.value, env.files[path], mask)
    && t.capacity == t.count == |t.slots.value| && t.bytes == Bytes(t.slots.value)
    && t.path == Some(path) && t.last == mask
  }

  lemma {:induction false} StepsFirst(a: seq<Step>, path: Path, mask: bv32, env: Env)
    requires forall i :: 0 <= i < |a| ==> a[i].code != Success
    ensures Outcome(a + FetchSteps(path, mask, env)) ==
            if Outcome(a) != Success then Outcome(a)
            else match Fetch(path, mask, env) case Err(c) => c case Ok(_) => Success
  {
    hide FetchSteps, Fetch, Outcome;
    OutcomeAppend(a, FetchSteps(path, mask, env));
    FetchOutcome(path, mask, env);
  }

  lemma ThreeSteps(a: Step, b: Step, c: Step)
    ensures Outcome([a, b, c]) == if a.fails then a.code else if b.fails then b.code else if c.fails then c.code
                                  else Success
  {
    OneMore([a, b, c]);
    OneMore([b, c]);
    OneMore([c]);
    assert [a, b, c][1..] == [b, c] && [b, c][1..] == [c] && [c][1..] == [];
  }

  /** Staging from a given path; nothing has changed unless it succeeds. */
  lemma StageOutcome(s: State, path: Option<Path>, mask: bv32, env: Env)
    requires Inv(s)
    ensures var (t, c) := Stage(s, path, mask, env);
            && c == Outcome([Step(path.None? || BadArguments(mask), BadArgument),
                             Step(s.slots.Some?, AlreadyStaged),
                             Step(!env.pathAlloc, OutOfMemory)]
                            + FetchSteps(if path.Some? then path.value else "", mask, env))
            && if c == Success then path.Some? && StagedFrom(t, path.value, mask, env) else t == s
  {
    hide Fetch, Wanted, Expand, BadMask, Bytes, FetchSteps, Outcome, Fetched, Loadable, SlotsOk, BadArguments;
    var p := if path.Some? then path.value else "";
    BadArgumentsAre(mask);
    ThreeSteps(Step(path.None? || BadArguments(mask), BadArgument), Step(s.slots.Some?, AlreadyStaged),
               Step(!env.pathAlloc, OutOfMemory));
    StepsFirst([Step(path.None? || BadArguments(mask), BadArgument), Step(s.slots.Some?, AlreadyStaged),
                Step(!env.pathAlloc, OutOfMemory)], p, mask, env);
    FetchOutcome(p, mask, env);
    if s.slots.None? && !BadMask(mask) {
      SomethingWanted(mask);
    }
  }

  /** Restaging, from the remembered path and with any mask. */
  lemma RestageOutcome(s: State, mask: bv32, env: Env)
    requires Inv(s)
    ensures var (t, c) := Restage(s, mask, env);
            && c == Outcome([Step(BadArguments(mask), BadArgument),
                             Step(s.path.None?, NoSource),
                             Step(s.slots.Some?, AlreadyStaged)]
                            + FetchSteps(if s.path.Some? then s.path.value else "", mask, env))
            && if c == Success then s.path.Some? && StagedFrom(t, s.path.value, mask, env) else t == s
  {
    hide Fetch, Wanted, Expand, BadMask, Bytes, FetchSteps, Outcome, Fetched, Loadable, SlotsOk, BadArguments;
    var p := if s.path.Some? then s.path.value else "";
    BadArgumentsAre(mask);
    ThreeSteps(Step(BadArguments(mask), BadArgument), Step(s.path.None?, NoSource),
               Step(s.slots.Some?, AlreadyStaged));
    StepsFirst([Step(BadArguments(mask), BadArgument), Step(s.path.None?, NoSource),
                Step(s.slots.Some?, AlreadyStaged)], p, mask, env);
    FetchOutcome(p, mask, env);
    if s.slots.None? && !BadMask(mask) {
      SomethingWanted(mask);
    }
  }

  /** Restaging the last request is restaging with the remembered mask; that is always acceptable. */
  lemma RestageLastOutcome(s: State, env: Env)
    requires Inv(s)
    ensures var (t, c) := RestageLast(s, env);
            && c == Outcome([Step(s.path.None?, NoSource), Step(s.slots.Some?, AlreadyStaged)]
                            + FetchSteps(if s.path.Some? then s.path.value else "", s.last, env))
            && if c == Success then s.path.Some? && StagedFrom(t, s.path.value, s.last, env) else t == s
  {
    hide Fetch, Wanted, Expand, Unknown, Bytes, FetchSteps, Outcome, StagedFrom, SlotsOk, BadArguments, Restage;
    var p := if s.path.Some? then s.path.value else "";
    var two := [Step(s.path.None?, NoSource), Step(s.slots.Some?, AlreadyStaged)];
    var steps := two + FetchSteps(p, s.last, env);
    OneMore(steps);
    assert steps[0] == two[0];
    if s.path.Some? {
      BadArgumentsAre(s.last);
      RestageOutcome(s, s.last, env);
      var all := [Step(BadArguments(s.last), BadArgument), Step(s.path.None?, NoSource),
                  Step(s.slots.Some?, AlreadyStaged)] + FetchSteps(p, s.last, env);
      OneMore(all);
      assert all[1..] == steps;
    }
  }
}
