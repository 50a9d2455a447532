/**
  The load-once protocol: a pair of variables per module guards its execution,
  and executing it consumes its staged buffer.
 */
module Drivers {
  import opened Wrappers
  import opened Words
  import opened Requirements
  import opened DriverTable
  import opened StagingSpec

  /** The id and result variables of a module. */
  datatype Vars = Vars(id: int, ret: int)

  const UNSET := Vars(-1, -1)

  /** CHECK_IRX_LOAD */
  predicate CheckLoad(v: Vars) {
    v.id == -1 && v.ret == -1
  }

  /** CHECK_IRX_ERR */
  predicate CheckErr(v: Vars) {
    v.id < 0 || v.ret == 1
  }

  /** What the system answers during one call: what executing each module yields and which tests fail. */
  datatype World = World(outcomes: map<nat, Vars>, fails: set<Test>)
  {
    function Outcome(id: nat): Vars {
      if id in outcomes then outcomes[id] else UNSET
    }
  }

  /** An execution with the bytes executed, or a request for a module that is not staged. */
  datatype Event = Ran(id: nat, data: seq<byte>, outcome: Vars) | Missed(id: nat)

  /** The variables of all modules, the staging state, and what has been executed so far. */
  datatype Sys = Sys(vars: map<nat, Vars>, staging: State, trace: seq<Event>)
  {
    function VarsOf(id: nat): Vars {
      if id in vars then vars[id] else UNSET
    }
  }

  function Fresh(staging: State): Sys {
    Sys(map[], staging, [])
  }

  /** ps2_irx_exec with its results stored; a module that is not staged leaves the result variable alone. */
  function Exec(s: Sys, id: nat, w: World): Sys {
    match GetStaged(s.staging, id)
    case None => Sys(s.vars[id := Vars(-1, s.VarsOf(id).ret)], s.staging, s.trace + [Missed(id)])
    case Some(data) =>
      Sys(s.vars[id := w.Outcome(id)], Release(s.staging, id), s.trace + [Ran(id, data, w.Outcome(id))])
  }

  /** One act, and whether the initialisation goes on. */
  function Perform(s: Sys, a: Act, w: World): (Sys, bool) {
    match a
    case Check(test, _) => (s, test !in w.fails)
    case Load(id, _) =>
      if CheckLoad(s.VarsOf(id)) then
        var t := Exec(s, id, w);
        (t, !CheckErr(t.VarsOf(id)))
      else (s, true)
  }

  function RunActs(s: Sys, acts: seq<Act>, done: int, w: World): (Sys, int)
    decreases |acts|
  {
    if acts == [] then (s, done)
    else
      var (t, ok) := Perform(s, acts[0], w);
      if ok then RunActs(t, acts[1..], done, w) else (t, acts[0].err)
  }

  function Init(s: Sys, c: Call, w: World): (Sys, int) {
    RunActs(s, Program(c), Done(c.driver), w)
  }

  // ---- sequences of acts ----

  lemma {:induction false} RunActsAppend(s: Sys, a: seq<Act>, b: seq<Act>, done: int, w: World)
    requires forall x :: x in a ==> x.err < 0
    requires done >= 0
    ensures var (t, c) := RunActs(s, a, done, w);
            RunActs(s, a + b, done, w) == if c < 0 then (t, c) else RunActs(t, b, done, w)
    decreases |a|
  {
    hide Perform;
    if a == [] {
      assert a + b == b;
    } else {
      assert (a + b)[1..] == a[1..] + b;
      RunActsAppend(Perform(s, a[0], w).0, a[1..], b, done, w);
    }
  }

  /** A dependency's failure is reported under the caller's status and otherwise alike. */
  lemma {:induction false} RunActsUnder(s: Sys, acts: seq<Act>, err: int, done: int, own: int, w: World)
    requires err < 0 <= done && 0 <= own
    requires forall x :: x in acts ==> x.err < 0
    ensures var (t, c) := RunActs(s, acts, own, w);
            RunActs(s, Under(acts, err), done, w) == (t, if c < 0 then err else done)
    decreases |acts|
  {
    hide Exec;
    if acts != [] {
      RunActsUnder(Perform(s, acts[0], w).0, acts[1..], err, done, own, w);
    }
  }

  lemma ErrsNegative(d: Driver)
    ensures forall x :: x in Own(d) ==> x.err < 0
    ensures forall n :: n in Needs(d) ==> n.err < 0
    ensures Done(d) >= 0
  {
    hide Own, Needs;
    forall x | x in Own(d)
      ensures x.err < 0
    {
      var i :| 0 <= i < |Own(d)| && Own(d)[i] == x;
      StepNegative(d, i);
    }
    forall n | n in Needs(d)
      ensures n.err < 0
    {
      var k :| 0 <= k < |Needs(d)| && Needs(d)[k] == n;
      NeedNegative(d, k);
    }
  }

  lemma StepNegative(d: Driver, i: nat)
    requires i < |Own(d)|
    ensures Own(d)[i].err < 0
  {
  }

  lemma NeedNegative(d: Driver, k: nat)
    requires k < |Needs(d)|
    ensures Needs(d)[k].err < 0
  {
  }

  lemma {:induction false} DependencyErrs(needs: seq<Need>)
    requires forall n :: n in needs ==> n.err < 0
    ensures forall x :: x in Dependencies(needs) ==> x.err < 0
  {
    if needs != [] {
      DependencyErrs(needs[1..]);
    }
  }

  /** Every failure is reported by a negative status, so success can be told from it. */
  lemma ProgramErrs(c: Call)
    ensures forall x :: x in Program(c) ==> x.err < 0
  {
    hide Own, Needs, Dependencies;
    ErrsNegative(c.driver);
    DependencyErrs(Needs(c.driver));
  }
}
