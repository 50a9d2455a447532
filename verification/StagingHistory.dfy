/**
  What is staged after a run of calls, told from the run alone, and what can be
  said of every state a run reaches.
 */
module StagingHistory {
  import opened Wrappers
  import opened Words
  import opened Environment
  import opened Requirements
  import opened StagingSpec
  import opened StagingRuns
  import opened DriverRuns
  import opened Reloading

  /** The call takes the module away. */
  ghost predicate Takes(op: StagingRuns.Op, id: nat) {
    op.DoDiscard? || (op.DoRelease? && op.id == id)
  }

  /** Event i staged the module, and nothing after it has staged anew or taken the module away. */
  ghost predicate StockedAt(run: seq<StagingRuns.Event>, i: nat, id: nat) {
    && Stages(run, i) && id in Expand(MaskAt(run, i))
    && forall j: nat :: i < j < |run| ==> !Stages(run, j) && !Takes(run[j].op, id)
  }

  /** And the bytes are those the event loaded. */
  ghost predicate StockedWith(run: seq<StagingRuns.Event>, i: nat, id: nat, data: seq<byte>) {
    StockedAt(run, i, id) && GetStaged(Run(INITIAL, run[..i + 1]), id) == Some(data)
  }

  /** What one step does to the module. */
  lemma StepStock(s: State, e: StagingRuns.Event, id: nat)
    requires Inv(s)
    ensures var (t, c) := StagingRuns.Step(s, e);
            if Staging(e.op) && c == Success then GetStaged(t, id).Some? <==> id in Expand(t.last)
            else if Takes(e.op, id) then GetStaged(t, id) == None
            else GetStaged(t, id) == GetStaged(s, id)
  {
    hide Inv, Expand, Release, GetStaged, StagingSpec.Stage, StagingSpec.Restage, StagingSpec.RestageLast;
    if Staging(e.op) {
      if StagingRuns.Step(s, e).1 == Success {
        StepStages(s, e, id);
      } else {
        FailureAtomic(s, e);
      }
    } else {
      match e.op
      case DoDiscard => NothingStaged(Discard(s), id);
      case DoForget => ForgetKeeps(s, id);
      case DoRelease(other) => ReleaseGets(s, other, id);
    }
  }

  lemma ForgetKeeps(s: State, id: nat)
    ensures GetStaged(Forget(s), id) == GetStaged(s, id)
  {
  }

  lemma {:induction false} StockStep(run: seq<StagingRuns.Event>, i: nat, id: nat)
    requires run != []
    ensures var n := |run| - 1;
            StockedAt(run, i, id) <==>
            if i < n then StockedAt(run[..n], i, id) && !Stages(run, n) && !Takes(run[n].op, id)
            else i == n && Stages(run, n) && id in Expand(MaskAt(run, n))
  {
    hide Stages, MaskAt, Expand, Takes;
    var n := |run| - 1;
    forall j: nat | j < n
      ensures Stages(run[..n], j) <==> Stages(run, j)
      ensures MaskAt(run[..n], j) == MaskAt(run, j)
    {
      PrefixAgrees(run, j);
    }
    InRange(run, i);
    InRange(run[..n], i);
  }

  lemma {:induction false} InRange(run: seq<StagingRuns.Event>, i: nat)
    ensures Stages(run, i) ==> i < |run|
  {
    hide CodeAt;
  }

  /** The mask that a success leaves remembered is the one the event works with. */
  lemma {:induction false} MaskLeft(run: seq<StagingRuns.Event>)
    requires run != [] && Stages(run, |run| - 1)
    ensures Run(INITIAL, run).last == MaskAt(run, |run| - 1)
  {
    hide StagingRuns.Step;
    var n := |run| - 1;
    RunStep(run);
    SourceStep(Run(INITIAL, run[..n]), run[n]);
  }

  /**
    A module is staged after a run exactly if some event has staged it and
    nothing since has staged anew or taken it away, and it holds the bytes that
    event has loaded.  Forgetting the source and failing calls take nothing.
   */
  lemma {:induction false} StockOfRun(run: seq<StagingRuns.Event>, id: nat)
    ensures match GetStaged(Run(INITIAL, run), id)
            case None => forall i: nat :: !StockedAt(run, i, id)
            case Some(data) => exists i: nat :: StockedWith(run, i, id, data)
  {
    hide Run, Stages, MaskAt, GetStaged, Expand, Takes, StockedAt, StagingRuns.Step;
    if run == [] {
      EmptyRun(id);
    } else {
      var n := |run| - 1;
      var front := run[..n];
      RunStep(run);
      InvEverywhere(front);
      StepStock(Run(INITIAL, front), run[n], id);
      StockOfRun(front, id);
      if Stages(run, n) {
        MaskLeft(run);
      }
      forall i: nat
        ensures StockedAt(run, i, id) <==>
                if i < n then StockedAt(front, i, id) && !Stages(run, n) && !Takes(run[n].op, id)
                else i == n && Stages(run, n) && id in Expand(MaskAt(run, n))
      {
        StockStep(run, i, id);
      }
      if GetStaged(Run(INITIAL, run), id).Some? {
        var data := GetStaged(Run(INITIAL, run), id).value;
        assert run[..n + 1] == run;
        if Stages(run, n) {
          assert StockedWith(run, n, id, data);
        } else {
          var i: nat :| StockedWith(front, i, id, data);
          StockedInRange(front, i, id);
          assert front[..i + 1] == run[..i + 1];
          assert StockedWith(run, i, id, data);
        }
      }
    }
  }

  lemma EmptyRun(id: nat)
    ensures GetStaged(Run(INITIAL, []), id) == None && forall i: nat :: !StockedAt([], i, id)
  {
  }

  lemma {:induction false} StockedInRange(run: seq<StagingRuns.Event>, i: nat, id: nat)
    requires StockedAt(run, i, id)
    ensures i < |run|
  {
    hide CodeAt;
  }

  // ---- every reachable state ----

  /** The number of modules that are still there. */
  function Filled(slots: seq<Slot>): nat {
    |set i | 0 <= i < |slots| && slots[i].data.Some?|
  }

  lemma {:induction false} LiveCounts(slots: seq<Slot>)
    ensures Live(slots) == Filled(slots)
  {
    if slots != [] {
      var n := |slots| - 1;
      LiveCounts(slots[..n]);
      var all, front := set i | 0 <= i < |slots| && slots[i].data.Some?,
          set i | 0 <= i < n && slots[..n][i].data.Some?;
      assert all == front + if slots[n].data.Some? then {n} else {};
    }
  }

  /**
    Every reachable state: the array, the capacity and the two counters vanish
    together; the count is the number of filled slots, ids ascend between 1 and
    128, a filled slot has its data's size and that is not zero, an empty one
    has size zero; and path and mask are remembered together.
   */
  lemma {:induction false} EveryState(run: seq<StagingRuns.Event>)
    ensures var s := Run(INITIAL, run);
            && (s.slots.None? <==> s.capacity == 0) && (s.slots.None? <==> s.count == 0)
            && (s.slots.None? <==> s.bytes == 0) && (s.path.None? <==> s.last == 0) && s.last & 0xfff0_0000 == 0
            && (s.slots.Some? ==>
                var slots := s.slots.value;
                && s.capacity == |slots| && s.count == Filled(slots) && s.bytes == Bytes(slots)
                && (forall i :: 0 <= i < |slots| ==>
                      1 <= slots[i].id <= 128 &&
                        match slots[i].data case None => slots[i].size == 0 case Some(d) => slots[i].size == |d| > 0)
                && forall i, j :: 0 <= i < j < |slots| ==> slots[i].id < slots[j].id)
  {
    hide Run, Bytes, Live;
    InvEverywhere(run);
    var s := Run(INITIAL, run);
    assert !KNOWN_MASK == 0xfff0_0000;
    if s.slots.Some? {
      LiveCounts(s.slots.value);
      LivesWeigh(s.slots.value);
    }
  }

  /** Filled slots have bytes. */
  lemma {:induction false} LivesWeigh(slots: seq<Slot>)
    requires forall i :: 0 <= i < |slots| ==> SlotOk(slots[i])
    ensures Bytes(slots) >= Live(slots)
  {
    hide SlotOk;
    if slots != [] {
      var n := |slots| - 1;
      LivesWeigh(slots[..n]);
      Weighs(slots[n]);
    }
  }

  lemma Weighs(x: Slot)
    requires SlotOk(x)
    ensures x.size >= if x.data.Some? then 1 else 0
  {
  }

  /** The byte counter is a sum over the slots. */
  lemma {:induction false} BytesAdd(a: seq<Slot>, b: seq<Slot>)
    ensures Bytes(a + b) == Bytes(a) + Bytes(b)
    ensures forall x :: Bytes([x]) == x.size
  {
    forall x
      ensures Bytes([x]) == x.size
    {
      assert [x][..0] == [];
    }
    if b == [] {
      assert a + b == a;
    } else {
      assert (a + b)[..|a + b| - 1] == a + b[..|b| - 1];
      BytesAdd(a, b[..|b| - 1]);
    }
  }
}
