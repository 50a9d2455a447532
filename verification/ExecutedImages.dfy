/** From the packer to execution: what the drivers run is what was packed. */
module ExecutedImages {
  import opened ImageConstants
  import opened Wrappers
  import opened Words
  import opened Environment
  import opened Requirements
  import opened StagingSpec
  import opened StagingInvariant
  import opened StagedImages
  import opened Layout
  import opened PackedImages
  import opened Drivers
  import opened DriverRuns
  import opened DriverCoverage
  import M = Manifest

  /** The bytes are the payload packed for the module. */
  ghost predicate PackedAs(m: seq<M.Entry>, ps: seq<seq<byte>>, k: nat, id: nat, data: seq<byte>)
    requires |m| == |ps|
  {
    Names(m, k, id) && data == ps[k]
  }

  lemma StagedPayload(t: State, m: seq<M.Entry>, ps: seq<seq<byte>>, path: Path, mask: bv32, id: nat, k: nat)
    requires StagesPacked(t, m, ps, path, mask) && GetStaged(t, id).Some? && Names(m, k, id)
    requires forall i :: 0 <= i < |t.slots.value| ==> t.slots.value[i].id == Wanted(Expand(mask), MAX_ENTRIES)[i]
    ensures PackedAs(m, ps, k, id, GetStaged(t, id).value)
  {
    hide Wanted, Expand, Bytes, FindLive;
    var i := FindLive(t.slots.value, id);
    assert Names(m, k, Wanted(Expand(mask), MAX_ENTRIES)[i]);
  }

  /** Only what the mask wants is staged, each under its own id. */
  lemma StagedIds(s: State, path: Path, mask: bv32, env: Env)
    requires Stage(s, Some(path), mask, env).1 == Success
    ensures var t, ids := Stage(s, Some(path), mask, env).0, Wanted(Expand(mask), MAX_ENTRIES);
            t.slots.Some? && |t.slots.value| == |ids| && forall i :: 0 <= i < |ids| ==> t.slots.value[i].id == ids[i]
  {
    hide Fetch, SlotsOk, Live, Bytes, Wanted, Expand, Unknown;
    FetchErrs(path, mask, env);
    FetchedSlots(path, mask, env);
  }

  /**
    Pack, stage, initialise: in every run of init calls over a staged packed
    image each module is executed at most once, and on exactly the bytes that
    were packed for it.
   */
  lemma {:induction false} PackThenExecute(m: seq<M.Entry>, ps: seq<seq<byte>>, s: State, path: Path, mask: bv32,
          env: Env, turns: seq<Turn>)
    requires Packable(m, ps) && Fits(m, ps) && Inv(s) && s.slots.None? && !BadMask(mask)
    requires env.Calm() && path in env.files && env.files[path] == ImageOf(m, ps)
    requires forall id :: id in Expand(mask) ==> Named(m, id)
    ensures var trace := RunTurns(Fresh(Stage(s, Some(path), mask, env).0), turns).trace;
            && |m| == |ps| && AtMostOnce(trace)
            && forall i :: 0 <= i < |trace| && trace[i].Ran? ==>
                 exists k: nat :: PackedAs(m, ps, k, trace[i].id, trace[i].data)
  {
    hide ImageOf, Expand, Fits, Stage, Inv, Named, RunTurns, GetStaged, BadMask, MissesExplained, PackedAs, AtMostOnce;
    PackThenStage(m, ps, s, path, mask, env);
    StageKeepsInv(s, Some(path), mask, env);
    var t := Stage(s, Some(path), mask, env).0;
    LoadOnce(t, turns);
    StagedIds(s, path, mask, env);
    var trace := RunTurns(Fresh(t), turns).trace;
    forall i | 0 <= i < |trace| && trace[i].Ran?
      ensures exists k: nat :: PackedAs(m, ps, k, trace[i].id, trace[i].data)
    {
      StagedWithin(s, Some(path), mask, env, trace[i].id);
      var k := NamedAt(m, trace[i].id);
      StagedPayload(t, m, ps, path, mask, trace[i].id, k);
    }
  }

  lemma NamedAt(m: seq<M.Entry>, id: nat) returns (k: nat)
    requires Named(m, id)
    ensures Names(m, k, id)
  {
    k :| Names(m, k, id);
  }
}
