/**
  In which order a run without mishaps executes the modules, and that for the
  file system initialisations module by module.
 */
module LoadOrder {
  import opened Wrappers
  import opened DriverTable
  import opened Drivers
  import opened DriverRuns
  import opened DriverCoverage
  import opened BootCoverage
  import opened InitOutcomes
  import opened StagingSpec

  /** The modules of a list in its order, each once and none of those in seen. */
  function Order(acts: seq<Act>, seen: set<nat>): seq<nat> {
    if acts == [] then []
    else if acts[0].Load? && acts[0].id !in seen then [acts[0].id] + Order(acts[1..], seen + {acts[0].id})
    else Order(acts[1..], seen)
  }

  /** Those of a list of calls. */
  function OrderOf(calls: seq<Call>): seq<nat> {
    if calls == [] then []
    else OrderOf(calls[..|calls| - 1]) + Order(Program(calls[|calls| - 1]), LoadsOf(calls[..|calls| - 1]))
  }

  /** The modules a trace is about, in its order. */
  function Ids(trace: seq<Event>): (ids: seq<nat>)
    ensures |ids| == |trace|
  {
    seq(|trace|, (i: int) requires 0 <= i < |trace| => trace[i].id)
  }

  lemma IdsAppend(a: seq<Event>, b: seq<Event>)
    ensures Ids(a + b) == Ids(a) + Ids(b)
  {
  }

  /** Every module so far untried is staged, and the others are those in settled. */
  ghost predicate Settled(s: Sys, ids: set<nat>, settled: set<nat>) {
    forall id :: id in ids ==> (s.VarsOf(id) != Vars(-1, -1) <==> id in settled)
  }

  lemma {:induction false} AskedInOrder(s: Sys, acts: seq<Act>, w: World, seen: set<nat>, settled: set<nat>)
    requires Settled(s, Loads(acts), settled)
    ensures Ids(Asked(s, acts, w, seen)) == Order(acts, settled + seen)
    decreases |acts|
  {
    hide GetStaged;
    if acts != [] {
      LoadsTail(acts);
      if acts[0].Load? && acts[0].id !in seen && s.VarsOf(acts[0].id) == Vars(-1, -1) {
        var id := acts[0].id;
        AskedInOrder(s, acts[1..], w, seen + {id}, settled);
        IdsAppend([Ask(s, id, w)], Asked(s, acts[1..], w, seen + {id}));
        assert settled + (seen + {id}) == settled + seen + {id};
        assert Ids([Ask(s, id, w)]) == [id];
      } else {
        AskedInOrder(s, acts[1..], w, seen, settled);
      }
    }
  }

  /** Nothing has been asked for in vain. */
  ghost predicate AllRan(trace: seq<Event>) {
    forall i :: 0 <= i < |trace| ==> trace[i].Ran?
  }

  lemma {:induction false} AskedRan(s: Sys, acts: seq<Act>, w: World, seen: set<nat>, ids: set<nat>)
    requires Loads(acts) <= ids && forall id :: id in ids ==> Fine(s, id)
    ensures AllRan(Asked(s, acts, w, seen))
    decreases |acts|
  {
    hide GetStaged;
    if acts != [] {
      LoadsTail(acts);
      if acts[0].Load? && acts[0].id !in seen && s.VarsOf(acts[0].id) == Vars(-1, -1) {
        assert Fine(s, acts[0].id);
        AskedRan(s, acts[1..], w, seen + {acts[0].id}, ids);
      } else {
        AskedRan(s, acts[1..], w, seen, ids);
      }
    }
  }

  lemma LoadsTail(acts: seq<Act>)
    requires acts != []
    ensures Loads(acts) == (if acts[0].Load? then {acts[0].id} else {}) + Loads(acts[1..])
  {
  }

  lemma {:induction false} AllReached(s: Sys, acts: seq<Act>, w: World, ids: set<nat>)
    requires Smooth(w, ids) && Loads(acts) <= ids && forall id :: id in ids ==> Fine(s, id)
    ensures Reached(s, acts, w) == |acts|
    decreases |acts|
  {
    hide GetStaged;
    if acts != [] {
      LoadsTail(acts);
      assert acts[0].Load? ==> Fine(s, acts[0].id);
      AllReached(s, acts[1..], w, ids);
    }
  }

  lemma {:induction false} LoadsOfSnoc(calls: seq<Call>)
    requires calls != []
    ensures LoadsOf(calls) == LoadsOf(calls[..|calls| - 1]) + Loads(Program(calls[|calls| - 1]))
  {
    hide Program;
    var n := |calls| - 1;
    assert calls == calls[..n] + [calls[n]];
    LoadsOfAppend(calls[..n], [calls[n]]);
    LoadsOfHead(calls[n]);
  }

  /** The calls of a run. */
  function CallsOf(turns: seq<Turn>): (calls: seq<Call>)
    ensures |calls| == |turns|
  {
    seq(|turns|, (i: int) requires 0 <= i < |turns| => turns[i].call)
  }

  /** One more call. */
  lemma SmoothCall(s: Sys, c: Call, w: World, ids: set<nat>, settled: set<nat>)
    requires Inv(s.staging) && Loads(Program(c)) <= ids && Smooth(w, ids) && Settled(s, ids, settled)
    requires forall id :: id in ids ==> Fine(s, id)
    ensures var t := Init(s, c, w).0;
            && Ids(t.trace) == Ids(s.trace) + Order(Program(c), settled)
            && Settled(t, ids, settled + Loads(Program(c)))
            && (AllRan(s.trace) ==> AllRan(t.trace))
  {
    hide RunActs, Program, Loads, GetStaged, Inv, Order;
    var acts := Program(c);
    InitExactly(s, c, w);
    AllReached(s, acts, w, ids);
    assert acts[..|acts|] == acts;
    AskedInOrder(s, acts, w, {}, settled);
    AskedRan(s, acts, w, {}, ids);
    assert settled + {} == settled;
    IdsAppend(s.trace, Asked(s, acts, w, {}));
    var t := Init(s, c, w).0;
    forall id | id in ids
      ensures t.VarsOf(id) != Vars(-1, -1) <==> id in settled + Loads(acts)
    {
      assert t.VarsOf(id) == VarsAfter(s, Loads(acts), w, id) && Fine(s, id);
    }
  }

  /**
    A run of calls without mishaps over a staging that covers them executes the
    modules in the order in which the calls list them, each where it comes first.
   */
  lemma {:induction false} SmoothOrder(staged: State, turns: seq<Turn>, ids: set<nat>)
    requires Inv(staged) && forall id :: id in ids ==> GetStaged(staged, id).Some?
    requires forall i :: 0 <= i < |turns| ==> Loads(Program(turns[i].call)) <= ids && Smooth(turns[i].world, ids)
    ensures var t := RunTurns(Fresh(staged), turns);
            && Ids(t.trace) == OrderOf(CallsOf(turns)) && Settled(t, ids, LoadsOf(CallsOf(turns))) && AllRan(t.trace)
  {
    hide RunActs, Program, Loads, GetStaged, Inv, Order, Smooth, Settled, LoadsOf;
    if turns == [] {
      NothingRun(staged, ids);
    } else {
      var n := |turns| - 1;
      var front := turns[..n];
      SmoothOrder(staged, front, ids);
      assert CallsOf(turns)[..n] == CallsOf(front);
      LoadsOfSnoc(CallsOf(turns));
      FreshFine(staged, ids);
      TurnsSmooth(Fresh(staged), front, ids);
      SmoothCall(RunTurns(Fresh(staged), front), turns[n].call, turns[n].world, ids, LoadsOf(CallsOf(front)));
    }
  }

  lemma FreshFine(staged: State, ids: set<nat>)
    requires forall id :: id in ids ==> GetStaged(staged, id).Some?
    ensures forall id :: id in ids ==> Fine(Fresh(staged), id)
  {
    hide GetStaged;
  }

  lemma {:induction false} NothingRun(staged: State, ids: set<nat>)
    ensures var t := RunTurns(Fresh(staged), []);
            Ids(t.trace) == OrderOf(CallsOf([])) && Settled(t, ids, LoadsOf(CallsOf([]))) && AllRan(t.trace)
  {
    assert CallsOf([]) == [];
  }
}
