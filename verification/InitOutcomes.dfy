/**
  What one init call does, in closed form: how far it gets, what it reports,
  which modules it has executed on the way and what that leaves.  The statuses
  and results are the numbers of the headers.
 */
module InitOutcomes {
  import opened Wrappers
  import opened Words
  import opened Requirements
  import opened DriverTable
  import opened Drivers
  import opened DriverRuns
  import opened StagingSpec
  import opened StagingInvariant

  // ---- the closed form ----

  /** Loading the module is still to be tried, and would fail. */
  predicate LoadFails(s: Sys, id: nat, w: World) {
    s.VarsOf(id) == Vars(-1, -1) &&
      (GetStaged(s.staging, id) == None || w.Outcome(id).id < 0 || w.Outcome(id).ret == 1)
  }

  /** The act ends the call. */
  predicate Ends(s: Sys, a: Act, w: World) {
    match a
    case Check(test, _) => test in w.fails
    case Load(id, _) => LoadFails(s, id, w)
  }

  /** How many of the acts are taken: all up to the first that ends the call. */
  function Reached(s: Sys, acts: seq<Act>, w: World): (n: nat)
    ensures n <= |acts|
  {
    if acts == [] then 0 else if Ends(s, acts[0], w) then 1 else 1 + Reached(s, acts[1..], w)
  }

  /** What is reported: the failure of that act, or success. */
  function Reported(s: Sys, acts: seq<Act>, done: int, w: World): int {
    if acts == [] then done else if Ends(s, acts[0], w) then acts[0].err else Reported(s, acts[1..], done, w)
  }

  /** The modules asked for, each at most once; those in seen have been. */
  function Asked(s: Sys, acts: seq<Act>, w: World, seen: set<nat>): seq<Event> {
    if acts == [] then []
    else if acts[0].Load? && acts[0].id !in seen && s.VarsOf(acts[0].id) == Vars(-1, -1) then
      [Ask(s, acts[0].id, w)] + Asked(s, acts[1..], w, seen + {acts[0].id})
    else Asked(s, acts[1..], w, seen)
  }

  function Ask(s: Sys, id: nat, w: World): Event {
    match GetStaged(s.staging, id) case None => Missed(id) case Some(data) => Ran(id, data, w.Outcome(id))
  }

  /** A module's variables once those in ids have been tried. */
  function VarsAfter(s: Sys, ids: set<nat>, w: World, id: nat): Vars {
    if id in ids && s.VarsOf(id) == Vars(-1, -1) && GetStaged(s.staging, id).Some? then w.Outcome(id) else s.VarsOf(id)
  }

  /** What is then staged for it. */
  function StockAfter(s: Sys, ids: set<nat>, id: nat): Option<seq<byte>> {
    if id in ids && s.VarsOf(id) == Vars(-1, -1) then None else GetStaged(s.staging, id)
  }

  /**
    One execution, whatever the variables hold: a staged module leaves what the
    system answers and is gone, one that is not staged sets the id to -1 and
    leaves the result alone; no other module is touched.
   */
  lemma ExecExactly(s: Sys, id: nat, w: World, x: nat)
    requires Inv(s.staging)
    ensures var t := Exec(s, id, w);
            && t.trace == s.trace + [Ask(s, id, w)]
            && t.VarsOf(x) == (if x != id then s.VarsOf(x)
                               else if GetStaged(s.staging, id).Some? then w.Outcome(id)
                               else Vars(-1, s.VarsOf(id).ret))
            && GetStaged(t.staging, x) == if x == id then None else GetStaged(s.staging, x)
  {
    hide GetStaged, Release, Inv;
    ReleaseGets(s.staging, id, x);
  }

  /** t has been reached from s after trying the modules in ids, all of them well. */
  ghost predicate Midway(s: Sys, t: Sys, w: World, ids: set<nat>) {
    && Inv(t.staging)
    && forall id ::
         && t.VarsOf(id) == VarsAfter(s, ids, w, id) && GetStaged(t.staging, id) == StockAfter(s, ids, id)
         && (id in ids ==> !LoadFails(s, id, w))
  }

  lemma MidwayLoad(s: Sys, t: Sys, w: World, ids: set<nat>, id: nat)
    requires Midway(s, t, w, ids) && CheckLoad(t.VarsOf(id))
    ensures id !in ids && s.VarsOf(id) == Vars(-1, -1) && GetStaged(t.staging, id) == GetStaged(s.staging, id)
    ensures CheckErr(Exec(t, id, w).VarsOf(id)) <==> LoadFails(s, id, w)
    ensures Exec(t, id, w).trace == t.trace + [Ask(s, id, w)] && Inv(Exec(t, id, w).staging)
    ensures forall x :: Exec(t, id, w).VarsOf(x) == VarsAfter(s, ids + {id}, w, x)
    ensures forall x :: GetStaged(Exec(t, id, w).staging, x) == StockAfter(s, ids + {id}, x)
  {
    hide GetStaged, Release, Inv;
    ReleaseKeepsInv(t.staging, id);
    assert t.VarsOf(id) == VarsAfter(s, ids, w, id) && GetStaged(t.staging, id) == StockAfter(s, ids, id);
    forall x
      ensures Exec(t, id, w).VarsOf(x) == VarsAfter(s, ids + {id}, w, x)
    {
      assert t.VarsOf(x) == VarsAfter(s, ids, w, x);
    }
    forall x
      ensures GetStaged(Exec(t, id, w).staging, x) == StockAfter(s, ids + {id}, x)
    {
      ReleaseGets(t.staging, id, x);
    }
  }

  lemma MidwayFacts(s: Sys, t: Sys, w: World, ids: set<nat>)
    requires Midway(s, t, w, ids)
    ensures forall id ::
      t.VarsOf(id) == VarsAfter(s, ids, w, id) && GetStaged(t.staging, id) == StockAfter(s, ids, id)
  {
  }

  lemma MidwayNext(s: Sys, t: Sys, w: World, ids: set<nat>, id: nat)
    requires Midway(s, t, w, ids) && CheckLoad(t.VarsOf(id)) && !LoadFails(s, id, w)
    ensures Midway(s, Exec(t, id, w), w, ids + {id})
  {
    hide Exec, VarsAfter, StockAfter, GetStaged, Inv, LoadFails;
    MidwayLoad(s, t, w, ids, id);
  }

  lemma MidwayPast(s: Sys, t: Sys, w: World, ids: set<nat>, id: nat)
    requires Midway(s, t, w, ids) && !CheckLoad(t.VarsOf(id))
    ensures !LoadFails(s, id, w) && (id in ids || s.VarsOf(id) != Vars(-1, -1))
  {
    hide GetStaged, Inv;
  }

  lemma PastIsNothing(s: Sys, ids: set<nat>, id: nat, w: World, more: set<nat>)
    requires id in ids || s.VarsOf(id) != Vars(-1, -1)
    ensures forall x :: VarsAfter(s, ids + {id} + more, w, x) == VarsAfter(s, ids + more, w, x)
    ensures forall x :: StockAfter(s, ids + {id} + more, x) == StockAfter(s, ids + more, x)
  {
    hide GetStaged;
  }

  lemma {:induction false} ActsExactly(s: Sys, t: Sys, acts: seq<Act>, done: int, w: World, ids: set<nat>)
    requires Midway(s, t, w, ids)
    ensures var (u, status) := RunActs(t, acts, done, w);
            var n := Reached(s, acts, w);
            && status == Reported(s, acts, done, w) && u.trace == t.trace + Asked(s, acts[..n], w, ids)
            && forall id ::
                 && u.VarsOf(id) == VarsAfter(s, ids + Loads(acts[..n]), w, id)
                 && GetStaged(u.staging, id) == StockAfter(s, ids + Loads(acts[..n]), id)
    decreases |acts|
  {
    hide Exec, Midway, LoadFails, VarsAfter, StockAfter, GetStaged, Ask, Loads;
    MidwayFacts(s, t, w, ids);
    if acts == [] {
      NoLoads();
      assert acts[..0] == [] && ids + {} == ids;
    } else {
      var a, n := acts[0], Reached(s, acts, w);
      FirstOf(acts, n);
      if a.Check? {
        if !Ends(s, a, w) {
          ActsExactly(s, t, acts[1..], done, w, ids);
        }
        assert ids + Loads(acts[..n]) == ids + Loads(acts[1..][..n - 1]);
        assert n == 1 ==> ids + Loads(acts[..n]) == ids;
      } else if CheckLoad(t.VarsOf(a.id)) {
        MidwayLoad(s, t, w, ids, a.id);
        assert ids + Loads(acts[..n]) == ids + {a.id} + Loads(acts[1..][..n - 1]);
        assert n == 1 ==> ids + Loads(acts[..n]) == ids + {a.id};
        if !Ends(s, a, w) {
          MidwayNext(s, t, w, ids, a.id);
          ActsExactly(s, Exec(t, a.id, w), acts[1..], done, w, ids + {a.id});
        }
      } else {
        MidwayPast(s, t, w, ids, a.id);
        ActsExactly(s, t, acts[1..], done, w, ids);
        PastIsNothing(s, ids, a.id, w, Loads(acts[1..][..n - 1]));
        assert ids + Loads(acts[..n]) == ids + {a.id} + Loads(acts[1..][..n - 1]);
      }
    }
  }

  lemma NoLoads()
    ensures Loads([]) == {}
  {
  }

  lemma {:induction false} FirstOf(acts: seq<Act>, n: nat)
    requires 0 < n <= |acts|
    ensures acts[..n] != [] && acts[..n][0] == acts[0] && acts[..n][1..] == acts[1..][..n - 1]
    ensures Loads(acts[..n]) == (if acts[0].Load? then {acts[0].id} else {}) + Loads(acts[1..][..n - 1])
    ensures n == 1 ==> acts[1..][..n - 1] == [] && Loads(acts[1..][..n - 1]) == {}
  {
    assert acts[..n][1..] == acts[1..][..n - 1];
  }

  /**
    The exact effect of an init call in any consistent state: its status, the
    modules it has asked for in their order, and every variable and staged
    module afterwards.
   */
  lemma InitExactly(s: Sys, c: Call, w: World)
    requires Inv(s.staging)
    ensures var (t, status) := Init(s, c, w);
            var acts := Program(c);
            var taken := acts[..Reached(s, acts, w)];
            && status == Reported(s, acts, Done(c.driver), w)
            && t.trace == s.trace + Asked(s, taken, w, {})
            && forall id ::
                 && t.VarsOf(id) == VarsAfter(s, Loads(taken), w, id)
                 && GetStaged(t.staging, id) == StockAfter(s, Loads(taken), id)
  {
    hide RunActs, Program, Loads, GetStaged, Inv, Reached, Reported, Asked, Done;
    var acts := Program(c);
    StartsMidway(s, w);
    ActsExactly(s, s, acts, Done(c.driver), w, {});
    assert {} + Loads(acts[..Reached(s, acts, w)]) == Loads(acts[..Reached(s, acts, w)]);
  }

  lemma StartsMidway(s: Sys, w: World)
    requires Inv(s.staging)
    ensures Midway(s, s, w, {})
  {
    hide GetStaged, Inv;
  }

  // ---- success ----

  lemma {:induction false} ReportedIs(s: Sys, acts: seq<Act>, done: int, w: World)
    requires done >= 0 && forall a :: a in acts ==> a.err < 0
    ensures Reported(s, acts, done, w) == done <==> forall i :: 0 <= i < |acts| ==> !Ends(s, acts[i], w)
    ensures Reported(s, acts, done, w) >= 0 <==> Reported(s, acts, done, w) == done
  {
    hide Ends;
    if acts != [] {
      ReportedIs(s, acts[1..], done, w);
      assert forall i :: 0 < i < |acts| ==> acts[i] == acts[1..][i - 1];
      assert forall i :: 0 <= i < |acts[1..]| ==> acts[1..][i] == acts[i + 1];
    }
  }

  lemma {:induction false} LoadsAt(acts: seq<Act>, id: nat)
    ensures id in Loads(acts) <==> exists i :: 0 <= i < |acts| && acts[i].Load? && acts[i].id == id
  {
    if acts != [] {
      LoadsAt(acts[1..], id);
      assert forall i :: 0 < i < |acts| ==> acts[i] == acts[1..][i - 1];
      assert forall i :: 0 <= i < |acts[1..]| ==> acts[1..][i] == acts[i + 1];
    }
  }

  /** The call comes to the test, unless something ends it before. */
  predicate HasTest(c: Call, test: Test) {
    exists i :: 0 <= i < |Program(c)| && Program(c)[i].Check? && Program(c)[i].test == test
  }

  /**
    In any state: an init call succeeds exactly if none of its tests fails and
    every module still to be tried is staged and starts with an id that is not
    negative and a result other than 1.
   */
  lemma InitSucceeds(s: Sys, c: Call, w: World)
    requires Inv(s.staging)
    ensures Init(s, c, w).1 >= 0 <==>
            && (forall test :: HasTest(c, test) ==> test !in w.fails)
            && forall id :: id in Loads(Program(c)) && s.VarsOf(id) == Vars(-1, -1) ==>
                 GetStaged(s.staging, id).Some? && w.Outcome(id).id >= 0 && w.Outcome(id).ret != 1
    ensures Init(s, c, w).1 >= 0 ==> Init(s, c, w).1 == if c.driver == Memcard || c.driver == Usb then 1 else 0
  {
    hide RunActs, Program, Loads, GetStaged, Inv, Reported;
    var acts := Program(c);
    InitExactly(s, c, w);
    ProgramErrs(c);
    ReportedIs(s, acts, Done(c.driver), w);
    forall id
      ensures id in Loads(acts) <==> exists i :: 0 <= i < |acts| && acts[i].Load? && acts[i].id == id
    {
      LoadsAt(acts, id);
    }
    if Init(s, c, w).1 >= 0 {
      forall test | HasTest(c, test)
        ensures test !in w.fails
      {
        var i :| 0 <= i < |acts| && acts[i].Check? && acts[i].test == test;
        assert !Ends(s, acts[i], w);
      }
      forall id | id in Loads(acts)
        ensures !LoadFails(s, id, w)
      {
        var i :| 0 <= i < |acts| && acts[i].Load? && acts[i].id == id;
        assert !Ends(s, acts[i], w);
      }
    }
    if && (forall test :: HasTest(c, test) ==> test !in w.fails)
       && forall id :: id in Loads(acts) ==> !LoadFails(s, id, w)
    {
      forall i | 0 <= i < |acts|
        ensures !Ends(s, acts[i], w)
      {
        assert acts[i].Check? ==> HasTest(c, acts[i].test);
        assert acts[i].Load? ==> acts[i].id in Loads(acts);
      }
    }
  }

  /** In particular a success means that what has been tried has started. */
  lemma SuccessMeansStarted(s: Sys, c: Call, w: World, id: nat)
    requires Inv(s.staging) && Init(s, c, w).1 >= 0 && id in Loads(Program(c)) && s.VarsOf(id) == Vars(-1, -1)
    ensures w.Outcome(id).id >= 0 && w.Outcome(id).ret != 1 && Init(s, c, w).0.VarsOf(id) == w.Outcome(id)
  {
    hide RunActs, Program, Loads, GetStaged, Inv, Reported;
    InitSucceeds(s, c, w);
    ProgramErrs(c);
    ActsSucceed(s, Program(c), Done(c.driver), w);
  }
}
