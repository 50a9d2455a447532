/**
  Whole runs of the staging interface: every reachable state keeps the
  invariant, a failing call changes nothing, and what restaging works from is
  determined by the history.
 */
module StagingRuns {
  import opened ImageConstants
  import opened Wrappers
  import opened Words
  import opened Environment
  import opened Requirements
  import opened StagingSpec
  import opened StagingInvariant
  import opened Stager
  import F = ImageFormat
  import P = ImageParser

  /** Executing a module is, for this state, releasing it. */
  datatype Op =
    | DoStage(path: Option<Path>, mask: bv32)
    | DoRestage(mask: bv32)
    | DoRestageLast
    | DoDiscard
    | DoForget
    | DoRelease(id: nat)

  datatype Event = Event(op: Op, env: Env)

  ghost function Step(s: State, e: Event): (State, Code) {
    match e.op
    case DoStage(path, mask) => StagingSpec.Stage(s, path, mask, e.env)
    case DoRestage(mask) => StagingSpec.Restage(s, mask, e.env)
    case DoRestageLast => StagingSpec.RestageLast(s, e.env)
    case DoDiscard => (Discard(s), Success)
    case DoForget => (Forget(s), Success)
    case DoRelease(id) => (Release(s, id), Success)
  }

  ghost function Run(s: State, run: seq<Event>): State {
    if run == [] then s else Step(Run(s, run[..|run| - 1]), run[|run| - 1]).0
  }

  // ---- the invariant over runs ----

  lemma StepKeepsInv(s: State, e: Event)
    requires Inv(s)
    ensures Inv(Step(s, e).0)
  {
    hide Inv, StagingSpec.Stage, StagingSpec.Restage, Release;
    match e.op
    case DoStage(path, mask) => StageKeepsInv(s, path, mask, e.env);
    case DoRestage(mask) => RestageKeepsInv(s, mask, e.env);
    case DoRestageLast => RestageKeepsInv(s, s.last, e.env);
    case DoDiscard => VoidsKeepInv(s);
    case DoForget => VoidsKeepInv(s);
    case DoRelease(id) => ReleaseKeepsInv(s, id);
  }

  lemma VoidsKeepInv(s: State)
    requires Inv(s)
    ensures Inv(Discard(s)) && Inv(Forget(s))
  {
    assert !Unknown(0);
  }

  /** Counters, sizes, ids and the remembered source are consistent in every reachable state. */
  lemma {:induction false} InvEverywhere(run: seq<Event>)
    ensures Inv(Run(INITIAL, run))
  {
    hide Inv, Step;
    if run == [] {
      assert Inv(INITIAL) by { InitialInv(); }
    } else {
      InvEverywhere(run[..|run| - 1]);
      StepKeepsInv(Run(INITIAL, run[..|run| - 1]), run[|run| - 1]);
    }
  }

  lemma InitialInv()
    ensures Inv(INITIAL)
  {
    assert !Unknown(0);
  }

  // ---- failing calls ----

  /** A call that reports an error has changed none of the six globals. */
  lemma FailureAtomic(s: State, e: Event)
    requires Step(s, e).1 != Success
    ensures Step(s, e).0 == s
  {
    hide Fetch, Release;
  }

  // ---- what is remembered ----

  ghost predicate Staging(op: Op) {
    op.DoStage? || op.DoRestage? || op.DoRestageLast?
  }

  ghost function CodeAt(run: seq<Event>, i: nat): Code
    requires i < |run|
  {
    Step(Run(INITIAL, run[..i]), run[i]).1
  }

  /** Event i stages successfully. */
  ghost predicate Stages(run: seq<Event>, i: nat) {
    i < |run| && Staging(run[i].op) && CodeAt(run, i) == Success
  }

  /** Event i stages successfully from a path it was given. */
  ghost predicate Sources(run: seq<Event>, i: nat) {
    Stages(run, i) && run[i].op.DoStage?
  }

  ghost predicate Forgets(run: seq<Event>, i: nat) {
    i < |run| && run[i].op.DoForget?
  }

  /** The mask event i works with. */
  ghost function MaskAt(run: seq<Event>, i: nat): bv32
    requires i < |run|
  {
    match run[i].op
    case DoStage(_, mask) => mask
    case DoRestage(mask) => mask
    case _ => Run(INITIAL, run[..i]).last
  }

  /** One step's effect on the remembered source. */
  lemma SourceStep(s: State, e: Event)
    ensures var (t, c) := Step(s, e);
            && t.path == (if e.op.DoForget? then None else if e.op.DoStage? && c == Success then e.op.path else s.path)
            && t.last == (if e.op.DoForget? then 0
                          else if e.op.DoStage? && c == Success then e.op.mask
                          else if e.op.DoRestage? && c == Success then e.op.mask else s.last)
            && (Staging(e.op) && c == Success ==> t.path.Some? && t.last != 0)
  {
    hide Fetch, Unknown, Bytes, Wanted, Expand, FindLive;
  }

  /** Event i set the source and nothing has replaced or forgotten it since. */
  ghost predicate LastSource(run: seq<Event>, i: nat) {
    Sources(run, i) && forall j: nat :: i < j < |run| ==> !Sources(run, j) && !Forgets(run, j)
  }

  /** And the source it set is p. */
  ghost predicate LastSourceIs(run: seq<Event>, i: nat, p: Path) {
    LastSource(run, i) && run[i].op.path == Some(p)
  }

  ghost predicate LastRequest(run: seq<Event>, i: nat) {
    Stages(run, i) && forall j: nat :: i < j < |run| ==> !Stages(run, j) && !Forgets(run, j)
  }

  ghost predicate LastRequestIs(run: seq<Event>, i: nat, mask: bv32) {
    LastRequest(run, i) && MaskAt(run, i) == mask
  }

  lemma {:induction false} PrefixAgrees(run: seq<Event>, i: nat)
    requires run != [] && i < |run| - 1
    ensures var before := run[..|run| - 1];
            && (Stages(before, i) <==> Stages(run, i)) && (Sources(before, i) <==> Sources(run, i))
            && (Forgets(before, i) <==> Forgets(run, i)) && MaskAt(before, i) == MaskAt(run, i)
  {
    hide Step, Run;
    assert run[..|run| - 1][..i] == run[..i];
  }

  lemma {:induction false} LastStep(run: seq<Event>, i: nat)
    requires run != []
    ensures var n := |run| - 1; var before := run[..n];
            && (LastSource(run, i) <==>
                if i < n then LastSource(before, i) && !Sources(run, n) && !Forgets(run, n)
                else i == n && Sources(run, n))
            && (LastRequest(run, i) <==>
                if i < n then LastRequest(before, i) && !Stages(run, n) && !Forgets(run, n)
                else i == n && Stages(run, n))
  {
    hide CodeAt, MaskAt;
    var n := |run| - 1;
    var before := run[..n];
    forall j: nat | j < n
      ensures (Stages(before, j) <==> Stages(run, j)) && (Sources(before, j) <==> Sources(run, j))
      ensures Forgets(before, j) <==> Forgets(run, j)
    {
      PrefixAgrees(run, j);
    }
  }

  lemma {:induction false} RunStep(run: seq<Event>)
    requires run != []
    ensures var n := |run| - 1; Run(INITIAL, run) == Step(Run(INITIAL, run[..n]), run[n]).0
    ensures var n := |run| - 1;
            Stages(run, n) <==> Staging(run[n].op) && Step(Run(INITIAL, run[..n]), run[n]).1 == Success
    ensures var n := |run| - 1;
            MaskAt(run, n) == match run[n].op
                              case DoStage(_, mask) => mask
                              case DoRestage(mask) => mask
                              case _ => Run(INITIAL, run[..n]).last
  {
    hide Step;
  }

  /**
    The remembered path is the one of the last successful stage that no forget
    has followed; nothing is remembered exactly when there is none.
   */
  lemma {:induction false} RememberedPath(run: seq<Event>)
    ensures match Run(INITIAL, run).path
            case None => forall i: nat :: !LastSource(run, i)
            case Some(p) => exists i: nat :: LastSourceIs(run, i, p)
  {
    hide Step, Stages, LastSource, MaskAt, Run;
    if run == [] {
      EmptyHistory();
    } else {
      var n := |run| - 1;
      RunStep(run);
      RememberedPath(run[..n]);
      SourceStep(Run(INITIAL, run[..n]), run[n]);
      forall i: nat
        ensures LastSource(run, i) <==>
                if i < n then LastSource(run[..n], i) && !Sources(run, n) && !Forgets(run, n)
                else i == n && Sources(run, n)
      {
        LastStep(run, i);
      }
      if Sources(run, n) {
        assert LastSourceIs(run, n, Run(INITIAL, run).path.value);
      } else if !Forgets(run, n) && Run(INITIAL, run[..n]).path.Some? {
        var p := Run(INITIAL, run[..n]).path.value;
        var i: nat :| LastSourceIs(run[..n], i, p);
        LastInRange(run[..n], i);
        assert LastSourceIs(run, i, p);
      }
    }
  }

  lemma EmptyHistory()
    ensures Run(INITIAL, []) == INITIAL && forall i: nat :: !LastSource([], i) && !LastRequest([], i)
  {
  }

  lemma {:induction false} LastInRange(run: seq<Event>, i: nat)
    requires LastSource(run, i) || LastRequest(run, i)
    ensures i < |run| && (LastSource(run, i) ==> run[i].op.DoStage?)
  {
  }

  /** The remembered mask is the one of the last successful stage or restage that no forget has followed. */
  lemma {:induction false} RememberedMask(run: seq<Event>)
    ensures var m := Run(INITIAL, run).last;
            if m == 0 then forall i: nat :: !LastRequest(run, i)
            else exists i: nat :: LastRequestIs(run, i, m)
  {
    hide Step, Stages, LastRequest, MaskAt, Run;
    if run == [] {
      EmptyHistory();
    } else {
      var n := |run| - 1;
      var before := run[..n];
      RunStep(run);
      RememberedMask(before);
      SourceStep(Run(INITIAL, before), run[n]);
      forall i: nat
        ensures LastRequest(run, i) <==>
                if i < n then LastRequest(before, i) && !Stages(run, n) && !Forgets(run, n)
                else i == n && Stages(run, n)
      {
        LastStep(run, i);
      }
      if Stages(run, n) {
        assert LastRequestIs(run, n, Run(INITIAL, run).last);
      } else if !Forgets(run, n) && Run(INITIAL, before).last != 0 {
        var i: nat :| LastRequestIs(before, i, Run(INITIAL, before).last);
        LastInRange(before, i);
        PrefixAgrees(run, i);
        assert LastRequestIs(run, i, Run(INITIAL, run).last);
      }
    }
  }

  // ---- restaging reproduces ----

  lemma {:induction false} LoadAllCalm(file: seq<byte>, es: seq<F.Entry>, ids: seq<nat>, env: Env, calm: Env)
    requires LoadAll(file, es, ids, env).Ok? && calm.Calm()
    ensures LoadAll(file, es, ids, calm) == LoadAll(file, es, ids, env)
  {
    if ids != [] {
      LoadAllCalm(file, es, ids[..|ids| - 1], env, calm);
      OneCalm(file, es, ids[|ids| - 1], env, calm);
    }
  }

  lemma OneCalm(file: seq<byte>, es: seq<F.Entry>, id: nat, env: Env, calm: Env)
    requires LoadOne(file, es, id, env).Ok? && calm.Calm()
    ensures LoadOne(file, es, id, calm) == LoadOne(file, es, id, env)
  {
  }

  /** What was fetched once is fetched again from the same file when nothing gets in the way. */
  lemma FetchCalm(path: Path, mask: bv32, env: Env, calm: Env)
    requires Fetch(path, mask, env).Ok? && calm.Calm()
    requires path in calm.files && calm.files[path] == env.files[path]
    ensures Fetch(path, mask, calm) == Fetch(path, mask, env)
  {
    hide LoadAll, Expand, Wanted, P.Accepts, P.EntriesOf;
    var file := env.files[path];
    LoadAllCalm(file, P.Parse(file, env).value, Wanted(Expand(mask), MAX_ENTRIES), env, calm);
  }

  /** A successful staging call determines its outcome by the source it leaves remembered. */
  lemma StagedFrom(s: State, e: Event)
    requires Inv(s) && Staging(e.op) && Step(s, e).1 == Success
    ensures var t := Step(s, e).0;
            && t.path.Some? && !BadMask(t.last) && Fetch(t.path.value, t.last, e.env).Ok?
            && var slots := Fetch(t.path.value, t.last, e.env).value;
               t == State(Some(slots), |slots|, |slots|, Bytes(slots), t.path, t.last)
  {
    hide Fetch, SlotsOk, Live, Bytes, Wanted, Expand, Unknown;
    match e.op
    case DoStage(path, mask) => FetchErrs(path.value, mask, e.env);
    case DoRestage(mask) => FetchErrs(s.path.value, mask, e.env);
    case DoRestageLast => FetchErrs(s.path.value, s.last, e.env);
  }

  lemma {:induction false} SourceKept(run: seq<Event>, i: nat)
    requires LastRequest(run, i)
    ensures Run(INITIAL, run).path == Run(INITIAL, run[..i + 1]).path &&
            Run(INITIAL, run).last == Run(INITIAL, run[..i + 1]).last
  {
    hide Step, Stages, LastRequest, MaskAt, Run;
    LastInRange(run, i);
    var n := |run| - 1;
    LastStep(run, i);
    if i < n {
      RunStep(run);
      SourceStep(Run(INITIAL, run[..n]), run[n]);
      SourceKept(run[..n], i);
      assert run[..n][..i + 1] == run[..i + 1];
    } else {
      assert run[..i + 1] == run;
    }
  }

  /**
    Once everything staged has been consumed or discarded, restaging the last
    request from an unchanged image brings back exactly the state the last
    successful staging call left: ids, sizes, bytes and counters.
   */
  lemma {:induction false} RestageReproduces(run: seq<Event>, i: nat, calm: Env)
    requires LastRequest(run, i) && Run(INITIAL, run).slots.None? && calm.Calm()
    requires var p := Run(INITIAL, run).path;
             p.Some? ==> p.value in calm.files && p.value in run[i].env.files &&
                         calm.files[p.value] == run[i].env.files[p.value]
    ensures StagingSpec.RestageLast(Run(INITIAL, run), calm) == (Run(INITIAL, run[..i + 1]), Success)
  {
    hide Step, Run, LastRequest, Fetch, Bytes, Wanted, Expand, Unknown;
    LastInRange(run, i);
    SourceKept(run, i);
    InvEverywhere(run);
    InvEverywhere(run[..i]);
    IsStages(run, i);
    var s, t := Run(INITIAL, run), Run(INITIAL, run[..i + 1]);
    StagedFrom(Run(INITIAL, run[..i]), run[i]);
    FetchCalm(t.path.value, t.last, run[i].env, calm);
    SomethingWanted(t.last);
  }

  lemma {:induction false} IsStages(run: seq<Event>, i: nat)
    requires LastRequest(run, i)
    ensures i < |run| && Staging(run[i].op) && Step(Run(INITIAL, run[..i]), run[i]).1 == Success
    ensures Run(INITIAL, run[..i + 1]) == Step(Run(INITIAL, run[..i]), run[i]).0
  {
    hide Step;
    assert run[..i + 1][..i] == run[..i];
  }

  // ---- the interface in place over a run ----

  /** One call. */
  method Perform(stager: Stager, e: Event) returns (code: Code)
    requires stager.Valid()
    modifies stager, stager.heap, stager.modules
    ensures stager.Valid()
    ensures (stager.Abs(), code) == Step(old(stager.Abs()), e)
    ensures stager.modules == old(stager.modules) || stager.modules == null || fresh(stager.modules)
  {
    hide StagingSpec.Stage, StagingSpec.Restage, StagingSpec.RestageLast, Release;
    code := Success;
    match e.op
    case DoStage(path, mask) => code := stager.Stage(path, mask, e.env);
    case DoRestage(mask) => code := stager.Restage(mask, e.env);
    case DoRestageLast => code := stager.RestageLast(e.env);
    case DoDiscard => stager.Discard();
    case DoForget => stager.Forget();
    case DoRelease(id) => stager.Release(id);
  }

  /**
    The interface in place follows every run from its start, and Valid says of
    each state on the way that exactly the staging array, its filled buffers
    and the remembered path are live and no file is open.
   */
  method Follow(run: seq<Event>) returns (stager: Stager)
    ensures fresh(stager) && stager.Valid() && stager.Abs() == Run(INITIAL, run)
  {
    hide Step;
    stager := new Stager();
    for i := 0 to |run|
      invariant fresh(stager) && fresh(stager.heap) && (stager.modules != null ==> fresh(stager.modules))
      invariant stager.Valid() && stager.Abs() == Run(INITIAL, run[..i])
    {
      assert run[..i + 1][..i] == run[..i];
      var _ := Perform(stager, run[i]);
    }
    assert run[..|run|] == run;
  }
}
