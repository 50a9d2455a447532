/**
  Whole sessions: calls of the staging interface, of the init functions and of
  the deinit functions in any order, from a fresh start.  A module is executed
  on what the last successful staging call put there, and again only after a
  new one and, unless it had left (-1, -1), after it has been unloaded.
 */
module Sessions {
  import opened Wrappers
  import opened Environment
  import opened Requirements
  import opened DriverTable
  import opened Drivers
  import opened DriverRuns
  import opened Unloading
  import opened StagingSpec
  import opened StagingInvariant
  import R = StagingRuns
  import S = Stager
  import L = DriverLoader

  /**
    A call of the staging interface, of an init function with what the system
    answers during it, or of a deinit function.
   */
  datatype Op = Manage(event: R.Event) | Bring(call: Call, world: World) | Drop(driver: Driver, deps: bool)

  ghost function Next(s: Sys, op: Op): Sys {
    match op
    case Manage(e) => s.(staging := R.Step(s.staging, e).0)
    case Bring(call, world) => Init(s, call, world).0
    case Drop(d, deps) => Deinit(s, d, deps)
  }

  ghost function Session(ops: seq<Op>): Sys {
    if ops == [] then Fresh(INITIAL) else Next(Session(ops[..|ops| - 1]), ops[|ops| - 1])
  }

  /** The op is a staging call that succeeds in the given state. */
  ghost predicate Restocks(s: State, op: Op) {
    op.Manage? && R.Staging(op.event.op) && R.Step(s, op.event).1 == Success
  }

  ghost predicate RestockAt(ops: seq<Op>, n: nat) {
    n < |ops| && Restocks(Session(ops[..n]).staging, ops[n])
  }

  /** The staging state the last successful staging call has left. */
  ghost function Held(ops: seq<Op>): State {
    if ops == [] then INITIAL
    else
      var n := |ops| - 1;
      if RestockAt(ops, n) then Session(ops).staging else Held(ops[..n])
  }

  /** How much had been executed or asked for at each successful staging call. */
  ghost function Restockings(ops: seq<Op>): set<nat> {
    if ops == [] then {}
    else
      var n := |ops| - 1;
      Restockings(ops[..n]) + if RestockAt(ops, n) then {|Session(ops[..n]).trace|} else {}
  }

  /** Op n unloads the module. */
  ghost predicate DropsAt(ops: seq<Op>, n: nat, id: nat) {
    && n < |ops| && ops[n].Drop? && id in Unloads(ops[n].driver, ops[n].deps)
    && CheckUnload(Session(ops[..n]).VarsOf(id))
  }

  /** Which modules have been unloaded, and how much had been executed or asked for then. */
  ghost function Unloadings(ops: seq<Op>): set<(nat, nat)> {
    if ops == [] then {}
    else
      var n := |ops| - 1;
      Unloadings(ops[..n]) +
      if ops[n].Drop? then
        set id | id in Unloads(ops[n].driver, ops[n].deps) && DropsAt(ops, n, id) :: (id, |Session(ops[..n]).trace|)
      else {}
  }

  // ---- what holds after every op, given what is held and the places of stagings and unloadings ----

  ghost predicate RanAt(trace: seq<Event>, t: nat, id: nat) {
    t < |trace| && trace[t].Ran? && trace[t].id == id
  }

  ghost predicate MarkBetween(marks: set<nat>, t: nat, u: nat) {
    exists m :: m in marks && t < m <= u
  }

  ghost predicate DropBetween(drops: set<(nat, nat)>, id: nat, t: nat, u: nat) {
    exists m: nat :: (id, m) in drops && t < m <= u
  }

  /** The execution left (-1, -1), or the module has been unloaded since. */
  ghost predicate Over(trace: seq<Event>, drops: set<(nat, nat)>, id: nat, t: nat, u: nat)
    requires RanAt(trace, t, id)
  {
    trace[t].outcome == UNSET || DropBetween(drops, id, t, u)
  }

  /** A module that can be loaded has all its executions over. */
  ghost predicate VarsFollow(s: Sys, drops: set<(nat, nat)>, id: nat) {
    CheckLoad(s.VarsOf(id)) ==> forall t: nat :: RanAt(s.trace, t, id) ==> Over(s.trace, drops, id, t, |s.trace|)
  }

  /** What is staged is what is held, or has gone. */
  ghost predicate StockFollows(s: Sys, held: State, id: nat) {
    GetStaged(s.staging, id) == None || GetStaged(s.staging, id) == GetStaged(held, id)
  }

  /** A module that has run and is staged again has been staged anew since. */
  ghost predicate StockIsNew(s: Sys, marks: set<nat>, id: nat) {
    GetStaged(s.staging, id).Some? ==> forall t: nat :: RanAt(s.trace, t, id) ==> MarkBetween(marks, t, |s.trace|)
  }

  /** Of two executions of a module the first is over and a staging call has succeeded before the second. */
  ghost predicate Again(trace: seq<Event>, marks: set<nat>, drops: set<(nat, nat)>, id: nat) {
    forall t: nat, u: nat :: t < u && RanAt(trace, t, id) && RanAt(trace, u, id) ==>
      Over(trace, drops, id, t, u) && MarkBetween(marks, t, u)
  }

  ghost predicate KeptFor(s: Sys, held: State, marks: set<nat>, drops: set<(nat, nat)>, id: nat) {
    VarsFollow(s, drops, id) && StockFollows(s, held, id) && StockIsNew(s, marks, id) &&
      Again(s.trace, marks, drops, id)
  }

  ghost predicate Kept(s: Sys, held: State, marks: set<nat>, drops: set<(nat, nat)>) {
    Inv(s.staging) && forall id :: KeptFor(s, held, marks, drops, id)
  }

  // ---- one execution ----

  lemma Later(marks: set<nat>, t: nat, u: nat)
    requires MarkBetween(marks, t, u)
    ensures MarkBetween(marks, t, u + 1)
  {
    var m :| m in marks && t < m <= u;
  }

  lemma {:induction false} OverLater(s: seq<Event>, e: Event, drops: set<(nat, nat)>, id: nat, t: nat, u: nat)
    requires RanAt(s, t, id) && Over(s, drops, id, t, u)
    ensures RanAt(s + [e], t, id) && Over(s + [e], drops, id, t, u) && Over(s + [e], drops, id, t, u + 1)
  {
    if DropBetween(drops, id, t, u) {
      var m: nat :| (id, m) in drops && t < m <= u;
      assert DropBetween(drops, id, t, u + 1);
    }
  }

  /** Whatever happens next, what has been said of the places so far stays so. */
  lemma {:induction false} AgainLater(s: seq<Event>, e: Event, marks: set<nat>, drops: set<(nat, nat)>, id: nat)
    requires Again(s, marks, drops, id)
    ensures forall t: nat, u: nat :: t < u < |s| && RanAt(s + [e], t, id) && RanAt(s + [e], u, id) ==>
              Over(s + [e], drops, id, t, u) && MarkBetween(marks, t, u)
  {
    hide MarkBetween, Over;
    forall t: nat, u: nat | t < u < |s| && RanAt(s + [e], t, id) && RanAt(s + [e], u, id)
      ensures Over(s + [e], drops, id, t, u) && MarkBetween(marks, t, u)
    {
      assert RanAt(s, t, id) && RanAt(s, u, id);
      OverLater(s, e, drops, id, t, u);
    }
  }

  lemma MissKeeps(s: Sys, held: State, marks: set<nat>, drops: set<(nat, nat)>, id: nat, w: World, other: nat)
    requires CheckLoad(s.VarsOf(id)) && GetStaged(s.staging, id).None? && KeptFor(s, held, marks, drops, other)
    ensures KeptFor(Exec(s, id, w), held, marks, drops, other)
  {
    hide GetStaged, MarkBetween, Over;
    var after := Exec(s, id, w);
    AgainLater(s.trace, Missed(id), marks, drops, other);
    forall t: nat | RanAt(after.trace, t, other)
      ensures t < |s.trace| && RanAt(s.trace, t, other)
      ensures CheckLoad(after.VarsOf(other)) ==> Over(after.trace, drops, other, t, |after.trace|)
      ensures GetStaged(after.staging, other).Some? ==> MarkBetween(marks, t, |after.trace|)
    {
      assert RanAt(s.trace, t, other);
      if CheckLoad(after.VarsOf(other)) {
        OverLater(s.trace, Missed(id), drops, other, t, |s.trace|);
      }
      if GetStaged(after.staging, other).Some? {
        Later(marks, t, |s.trace|);
      }
    }
  }

  lemma RanKeeps(s: Sys, held: State, marks: set<nat>, drops: set<(nat, nat)>, id: nat, w: World, other: nat)
    requires Inv(s.staging) && CheckLoad(s.VarsOf(id)) && GetStaged(s.staging, id).Some?
    requires KeptFor(s, held, marks, drops, id) && KeptFor(s, held, marks, drops, other)
    ensures KeptFor(Exec(s, id, w), held, marks, drops, other)
  {
    hide GetStaged, Release, Inv, MarkBetween, DropBetween;
    var e := Ran(id, GetStaged(s.staging, id).value, w.Outcome(id));
    var after := Exec(s, id, w);
    ReleaseGets(s.staging, id, other);
    AgainLater(s.trace, e, marks, drops, other);
    forall t: nat | t < |s.trace| && RanAt(after.trace, t, other)
      ensures RanAt(s.trace, t, other)
      ensures CheckLoad(s.VarsOf(other)) ==>
              Over(after.trace, drops, other, t, |s.trace|) && Over(after.trace, drops, other, t, |after.trace|)
      ensures GetStaged(s.staging, other).Some? ==>
              MarkBetween(marks, t, |s.trace|) && MarkBetween(marks, t, |after.trace|)
    {
      assert RanAt(s.trace, t, other);
      if CheckLoad(s.VarsOf(other)) {
        OverLater(s.trace, e, drops, other, t, |s.trace|);
      }
      if GetStaged(s.staging, other).Some? {
        Later(marks, t, |s.trace|);
      }
    }
  }

  lemma ExecKeeps(s: Sys, held: State, marks: set<nat>, drops: set<(nat, nat)>, id: nat, w: World)
    requires Kept(s, held, marks, drops) && CheckLoad(s.VarsOf(id))
    ensures Kept(Exec(s, id, w), held, marks, drops)
  {
    hide GetStaged, Release, Inv, KeptFor;
    forall other
      ensures KeptFor(Exec(s, id, w), held, marks, drops, other)
    {
      if GetStaged(s.staging, id).None? {
        MissKeeps(s, held, marks, drops, id, w, other);
      } else {
        RanKeeps(s, held, marks, drops, id, w, other);
      }
    }
    ReleaseKeepsInv(s.staging, id);
  }

  /** Executions from place n on are on what is held. */
  ghost predicate OnHeld(trace: seq<Event>, n: nat, held: State) {
    forall t :: n <= t < |trace| && trace[t].Ran? ==> GetStaged(held, trace[t].id) == Some(trace[t].data)
  }

  /** An init call keeps all that, and what it executes is what is held; the trace only grows. */
  lemma {:induction false} ActsKeep(
          s: Sys, acts: seq<Act>, done: int, w: World, held: State, marks: set<nat>, drops: set<(nat, nat)>, n: nat)
    requires Kept(s, held, marks, drops) && n <= |s.trace| && OnHeld(s.trace, n, held)
    ensures var t := RunActs(s, acts, done, w).0;
            Kept(t, held, marks, drops) && s.trace <= t.trace && OnHeld(t.trace, n, held)
    decreases |acts|
  {
    hide Kept, GetStaged, Release;
    if acts != [] {
      var t := Perform(s, acts[0], w).0;
      if acts[0].Load? && CheckLoad(s.VarsOf(acts[0].id)) {
        ExecKeeps(s, held, marks, drops, acts[0].id, w);
        FollowsAt(s, held, marks, drops, acts[0].id);
      }
      ActsKeep(t, acts[1..], done, w, held, marks, drops, n);
    }
  }

  lemma FollowsAt(s: Sys, held: State, marks: set<nat>, drops: set<(nat, nat)>, id: nat)
    requires Kept(s, held, marks, drops)
    ensures StockFollows(s, held, id)
  {
    hide Inv, VarsFollow, StockFollows, StockIsNew, Again;
    assert KeptFor(s, held, marks, drops, id);
  }

  // ---- one call of the staging interface ----

  /** Unless it stages successfully, such a call takes away some of what is staged or nothing. */
  lemma ManageTakes(s: State, e: R.Event, id: nat)
    requires Inv(s) && !Restocks(s, Manage(e))
    ensures var t := R.Step(s, e).0; GetStaged(t, id) == None || GetStaged(t, id) == GetStaged(s, id)
  {
    hide Fetch, Release, GetStaged, Inv, R.Step;
    if R.Staging(e.op) {
      R.FailureAtomic(s, e);
    } else {
      TakesAway(s, e, id);
    }
  }

  lemma TakesAway(s: State, e: R.Event, id: nat)
    requires Inv(s) && !R.Staging(e.op)
    ensures var t := R.Step(s, e).0; GetStaged(t, id) == None || GetStaged(t, id) == GetStaged(s, id)
  {
    hide Release, Inv, FindLive;
    match e.op
    case DoDiscard => NothingStaged(Discard(s), id);
    case DoForget =>
    case DoRelease(x) => ReleaseGets(s, x, id);
    case _ => assert false;
  }

  lemma ManageKeeps(s: Sys, held: State, marks: set<nat>, drops: set<(nat, nat)>, e: R.Event)
    requires Kept(s, held, marks, drops) && !Restocks(s.staging, Manage(e))
    ensures Kept(Next(s, Manage(e)), held, marks, drops)
  {
    hide GetStaged, R.Step, Inv, Again, Restocks, Over, MarkBetween;
    var t := Next(s, Manage(e));
    R.StepKeepsInv(s.staging, e);
    forall id
      ensures KeptFor(t, held, marks, drops, id)
    {
      assert KeptFor(s, held, marks, drops, id);
      ManageTakes(s.staging, e, id);
    }
  }

  /** After a successful staging call everything staged is new. */
  lemma RestockKeeps(s: Sys, held: State, marks: set<nat>, drops: set<(nat, nat)>, e: R.Event)
    requires Kept(s, held, marks, drops) && Restocks(s.staging, Manage(e))
    ensures var t := Next(s, Manage(e)); Kept(t, t.staging, marks + {|t.trace|}, drops)
  {
    hide GetStaged, R.Step, Inv, Over;
    var t := Next(s, Manage(e));
    var more := marks + {|t.trace|};
    R.StepKeepsInv(s.staging, e);
    forall id
      ensures KeptFor(t, t.staging, more, drops, id)
    {
      assert KeptFor(s, held, marks, drops, id);
      assert |t.trace| in more;
      forall x: nat, y: nat | x < y && RanAt(t.trace, x, id) && RanAt(t.trace, y, id)
        ensures Over(t.trace, drops, id, x, y) && MarkBetween(more, x, y)
      {
        var m :| m in marks && x < m <= y;
        assert m in more;
      }
    }
  }

  // ---- one deinit call ----

  /** More unloadings change nothing that has been said. */
  lemma {:induction false} OverMore(trace: seq<Event>, drops: set<(nat, nat)>, more: set<(nat, nat)>, id: nat, t: nat,
          u: nat)
    requires drops <= more && RanAt(trace, t, id) && Over(trace, drops, id, t, u)
    ensures Over(trace, more, id, t, u)
  {
    if DropBetween(drops, id, t, u) {
      var m: nat :| (id, m) in drops && t < m <= u;
      assert (id, m) in more;
    }
  }

  lemma DropKeeps(
          s: Sys, held: State, marks: set<nat>, drops: set<(nat, nat)>, d: Driver, deps: bool, more: set<(nat, nat)>)
    requires Kept(s, held, marks, drops) && drops <= more
    requires forall id :: id in Unloads(d, deps) && CheckUnload(s.VarsOf(id)) ==> (id, |s.trace|) in more
    ensures Kept(Deinit(s, d, deps), held, marks, more)
  {
    hide GetStaged, Inv, Unloads, UnloadAll, Over, MarkBetween;
    var t := Deinit(s, d, deps);
    forall id
      ensures KeptFor(t, held, marks, more, id)
    {
      assert KeptFor(s, held, marks, drops, id);
      UnloadAllIs(s, Unloads(d, deps), id);
      DropKeepsAgain(s.trace, marks, drops, more, id);
      forall x: nat | CheckLoad(t.VarsOf(id)) && RanAt(s.trace, x, id)
        ensures Over(s.trace, more, id, x, |s.trace|)
      {
        if CheckLoad(s.VarsOf(id)) {
          OverMore(s.trace, drops, more, id, x, |s.trace|);
        } else {
          JustDropped(s.trace, more, id, x);
        }
      }
    }
    UnloadAllIs(s, Unloads(d, deps), 0);
  }

  lemma {:induction false} JustDropped(trace: seq<Event>, more: set<(nat, nat)>, id: nat, x: nat)
    requires RanAt(trace, x, id) && (id, |trace|) in more
    ensures Over(trace, more, id, x, |trace|)
  {
  }

  lemma {:induction false} DropKeepsAgain(
          trace: seq<Event>, marks: set<nat>, drops: set<(nat, nat)>, more: set<(nat, nat)>, id: nat)
    requires drops <= more && Again(trace, marks, drops, id)
    ensures Again(trace, marks, more, id)
  {
    hide Over, MarkBetween;
    forall t: nat, u: nat | t < u && RanAt(trace, t, id) && RanAt(trace, u, id)
      ensures Over(trace, more, id, t, u)
    {
      OverMore(trace, drops, more, id, t, u);
    }
  }

  // ---- over a session ----

  lemma FreshKept()
    ensures Kept(Fresh(INITIAL), INITIAL, {}, {})
  {
    hide GetStaged, Inv;
    R.InitialInv();
  }

  lemma {:induction false} StepOf(ops: seq<Op>)
    requires ops != []
    ensures var n := |ops| - 1; Session(ops) == Next(Session(ops[..n]), ops[n])
    ensures var n := |ops| - 1; RestockAt(ops, n) <==> Restocks(Session(ops[..n]).staging, ops[n])
  {
    hide Next, Restocks;
  }

  lemma NothingYet(s: Sys, held: State)
    ensures OnHeld(s.trace, |s.trace|, held)
  {
  }

  lemma {:induction false} SessionKept(ops: seq<Op>)
    ensures Kept(Session(ops), Held(ops), Restockings(ops), Unloadings(ops))
  {
    hide Kept, RunActs, Program, R.Step, Restocks, Unloads, UnloadAll, CheckUnload;
    if ops == [] {
      FreshKept();
    } else {
      var n := |ops| - 1;
      var front := ops[..n];
      var s, held, marks, drops := Session(front), Held(front), Restockings(front), Unloadings(front);
      SessionKept(front);
      StepOf(ops);
      assert marks + {} == marks && drops + {} == drops;
      match ops[n]
      case Manage(e) =>
        if Restocks(s.staging, ops[n]) {
          RestockKeeps(s, held, marks, drops, e);
        } else {
          ManageKeeps(s, held, marks, drops, e);
        }
      case Bring(call, world) =>
        NotRestock(s.staging, ops[n]);
        NothingYet(s, held);
        ActsKeep(s, Program(call), Done(call.driver), world, held, marks, drops, |s.trace|);
      case Drop(d, deps) =>
        NotRestock(s.staging, ops[n]);
        forall id | id in Unloads(d, deps) && CheckUnload(s.VarsOf(id))
          ensures (id, |s.trace|) in Unloadings(ops)
        {
          assert DropsAt(ops, n, id);
        }
        DropKeeps(s, held, marks, drops, d, deps, Unloadings(ops));
    }
  }

  lemma NotRestock(s: State, op: Op)
    requires !op.Manage?
    ensures !Restocks(s, op)
  {
  }

  /** Every mark is the place of a successful staging call. */
  ghost predicate RestockedBetween(ops: seq<Op>, t: nat, u: nat) {
    exists n: nat :: RestockedAt(ops, n, t, u)
  }

  ghost predicate RestockedAt(ops: seq<Op>, n: nat, t: nat, u: nat) {
    RestockAt(ops, n) && t < |Session(ops[..n]).trace| <= u
  }

  lemma {:induction false} MarkIsRestock(ops: seq<Op>, m: nat) returns (n: nat)
    requires m in Restockings(ops)
    ensures RestockAt(ops, n) && |Session(ops[..n]).trace| == m
  {
    hide Session, Restocks;
    n := |ops| - 1;
    if m in Restockings(ops[..n]) {
      var last := n;
      n := MarkIsRestock(ops[..last], m);
      assert ops[..last][..n] == ops[..n];
    }
  }

  /** And every recorded unloading that of a deinit call. */
  ghost predicate UnloadedBetween(ops: seq<Op>, id: nat, t: nat, u: nat) {
    exists n: nat :: UnloadedAt(ops, n, id, t, u)
  }

  ghost predicate UnloadedAt(ops: seq<Op>, n: nat, id: nat, t: nat, u: nat) {
    DropsAt(ops, n, id) && t < |Session(ops[..n]).trace| <= u
  }

  lemma {:induction false} UnloadingIsDrop(ops: seq<Op>, id: nat, m: nat) returns (n: nat)
    requires (id, m) in Unloadings(ops)
    ensures DropsAt(ops, n, id) && |Session(ops[..n]).trace| == m
  {
    hide Session, Unloads, CheckUnload;
    n := |ops| - 1;
    if (id, m) in Unloadings(ops[..n]) {
      var last := n;
      n := UnloadingIsDrop(ops[..last], id, m);
      assert ops[..last][..n] == ops[..n];
    }
  }

  /**
    No module is executed twice in a session unless its first execution left
    (-1, -1) or a deinit call has unloaded it in between, and a staging call has
    succeeded in between.
   */
  lemma {:induction false} ExecutedAgain(ops: seq<Op>, t: nat, u: nat)
    requires var trace := Session(ops).trace;
             t < u && u < |trace| && trace[t].Ran? && trace[u].Ran? && trace[t].id == trace[u].id
    ensures var trace := Session(ops).trace;
            && (trace[t].outcome == UNSET || UnloadedBetween(ops, trace[t].id, t, u))
            && RestockedBetween(ops, t, u)
  {
    hide Session, Restocks, Inv, VarsFollow, StockFollows, StockIsNew, Restockings, Unloadings, DropsAt;
    SessionKept(ops);
    var trace := Session(ops).trace;
    var id := trace[t].id;
    assert KeptFor(Session(ops), Held(ops), Restockings(ops), Unloadings(ops), id);
    assert RanAt(trace, t, id) && RanAt(trace, u, id);
    assert Over(trace, Unloadings(ops), id, t, u);
    var m :| m in Restockings(ops) && t < m <= u;
    var n := MarkIsRestock(ops, m);
    assert RestockedAt(ops, n, t, u);
    if trace[t].outcome != UNSET {
      var k: nat :| (id, k) in Unloadings(ops) && t < k <= u;
      var j := UnloadingIsDrop(ops, id, k);
      assert UnloadedAt(ops, j, id, t, u);
    }
  }

  /** A stuck module is neither removable nor to be loaded. */
  lemma StuckStays(v: Vars)
    requires Stuck(v)
    ensures !CheckUnload(v) && !CheckLoad(v)
  {
  }

  /** No event from place n on is about the module. */
  ghost predicate Quiet(trace: seq<Event>, n: nat, id: nat) {
    forall t :: n <= t < |trace| ==> trace[t].id != id
  }

  lemma {:induction false} ActsQuiet(s: Sys, acts: seq<Act>, done: int, w: World, n: nat, id: nat)
    requires !CheckLoad(s.VarsOf(id)) && Quiet(s.trace, n, id)
    ensures var t := RunActs(s, acts, done, w).0; t.VarsOf(id) == s.VarsOf(id) && Quiet(t.trace, n, id)
    decreases |acts|
  {
    hide GetStaged, Release;
    if acts != [] {
      ActsQuiet(Perform(s, acts[0], w).0, acts[1..], done, w, n, id);
    }
  }

  /**
    Once an execution has left a module stuck, with result 1 or a negative id
    other than -1, no sequence of staging, init and deinit calls executes it,
    asks for it or changes its variables again.
   */
  lemma {:induction false} StuckForever(ops: seq<Op>, n: nat, id: nat)
    requires n <= |ops| && Stuck(Session(ops[..n]).VarsOf(id))
    ensures Session(ops).VarsOf(id) == Session(ops[..n]).VarsOf(id)
    ensures Quiet(Session(ops).trace, |Session(ops[..n]).trace|, id)
  {
    hide Session, RunActs, Program, R.Step, Unloads, UnloadAll, CheckUnload, CheckLoad, Stuck;
    if n == |ops| {
      assert ops[..n] == ops;
    } else {
      var last := |ops| - 1;
      var s := Session(ops[..last]);
      assert ops[..last][..n] == ops[..n];
      StuckForever(ops[..last], n, id);
      StepOf(ops);
      StuckStays(s.VarsOf(id));
      match ops[last]
      case Manage(_) =>
      case Bring(call, world) =>
        ActsQuiet(s, Program(call), Done(call.driver), world, |Session(ops[..n]).trace|, id);
      case Drop(d, deps) => UnloadAllIs(s, Unloads(d, deps), id);
    }
  }

  /** Place t of the trace was added by op n. */
  ghost predicate AddedBy(ops: seq<Op>, n: nat, t: nat) {
    n < |ops| && |Session(ops[..n]).trace| <= t < |Session(ops[..n + 1]).trace|
  }

  /** And it was executed on what the last successful staging call before op n had left staged. */
  ghost predicate ExecutedOn(ops: seq<Op>, n: nat, t: nat, e: Event)
    requires e.Ran?
  {
    AddedBy(ops, n, t) && GetStaged(Held(ops[..n]), e.id) == Some(e.data)
  }

  /** Every execution of a session is on the bytes the last successful staging call before it holds for the module. */
  lemma {:induction false} ExecutedOnHeld(ops: seq<Op>, t: nat)
    requires t < |Session(ops).trace| && Session(ops).trace[t].Ran?
    ensures exists n: nat :: ExecutedOn(ops, n, t, Session(ops).trace[t])
  {
    hide Kept, RunActs, Program, R.Step, Restocks, Held, GetStaged, Session, Unloads, UnloadAll;
    if ops == [] {
      assert false by {
        NoTrace();
      }
    } else {
      var n := |ops| - 1;
      var s, held := Session(ops[..n]), Held(ops[..n]);
      StepOf(ops);
      SessionKept(ops[..n]);
      assert ops[..n + 1] == ops;
      if ops[n].Bring? {
        NothingYet(s, held);
        ActsKeep(s, Program(ops[n].call), Done(ops[n].call.driver), ops[n].world, held, Restockings(ops[..n]),
                 Unloadings(ops[..n]), |s.trace|);
      }
      if ops[n].Drop? {
        UnloadAllIs(s, Unloads(ops[n].driver, ops[n].deps), 0);
      }
      if t < |s.trace| {
        ExecutedOnHeld(ops[..n], t);
        var k: nat :| ExecutedOn(ops[..n], k, t, s.trace[t]);
        assert ops[..n][..k] == ops[..k] && ops[..n][..k + 1] == ops[..k + 1];
        assert ExecutedOn(ops, k, t, Session(ops).trace[t]);
      } else {
        assert ExecutedOn(ops, n, t, Session(ops).trace[t]);
      }
    }
  }

  lemma NoTrace()
    ensures Session([]).trace == []
  {
  }

  // ---- in place ----

  /**
    A session in place follows its specification, and Valid says that all along
    exactly the staging array, its filled buffers and the remembered path are
    live and no file is open.
   */
  method Follow(ops: seq<Op>) returns (loader: L.Loader)
    ensures fresh(loader) && loader.Valid() && loader.Abs() == Session(ops)
  {
    hide R.Step, Init, Inv, Unloads, UnloadAll;
    var stager := new S.Stager();
    loader := new L.Loader(stager);
    for i := 0 to |ops|
      invariant fresh(loader) && fresh(loader.stager) && fresh(loader.stager.heap)
      invariant loader.stager.modules != null ==> fresh(loader.stager.modules)
      invariant loader.Valid() && loader.Abs() == Session(ops[..i])
    {
      assert ops[..i + 1][..i] == ops[..i];
      match ops[i]
      case Manage(e) => var _ := R.Perform(loader.stager, e);
      case Bring(call, world) => var _ := loader.Init(call, world);
      case Drop(d, deps) => loader.Deinit(d, deps);
    }
    assert ops[..|ops|] == ops;
  }
}
