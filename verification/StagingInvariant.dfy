/**
  The staging invariant is kept by every call, which also makes the clamps in
  the release path idle.
 */
module StagingInvariant {
  import opened ImageConstants
  import opened Wrappers
  import opened Words
  import opened Environment
  import opened Requirements
  import opened StagingSpec
  import F = ImageFormat
  import P = ImageParser

  // ---- freshly loaded slots ----

  lemma {:induction false} WantedAscends(ids: set<nat>, n: nat)
    ensures forall i :: 0 <= i < |Wanted(ids, n)| ==> 1 <= Wanted(ids, n)[i] <= n && Wanted(ids, n)[i] in ids
    ensures forall i, j :: 0 <= i < j < |Wanted(ids, n)| ==> Wanted(ids, n)[i] < Wanted(ids, n)[j]
    ensures forall id :: id in ids && 1 <= id <= n ==> id in Wanted(ids, n)
  {
    if n > 0 {
      WantedAscends(ids, n - 1);
    }
  }

  lemma {:induction false} FoundIsEntry(es: seq<F.Entry>, id: nat)
    ensures FindEntry(es, id).Some? ==> FindEntry(es, id).value in es && FindEntry(es, id).value.id == id
    ensures FindEntry(es, id).None? ==> forall i :: 0 <= i < |es| ==> es[i].id != id
  {
    if es != [] {
      FoundIsEntry(es[1..], id);
      assert forall i :: 0 < i < |es| ==> es[i] == es[1..][i - 1];
    }
  }

  /** A successful load is, slot by slot, the successful loads of the ids. */
  lemma {:induction false} LoadedSlots(file: seq<byte>, es: seq<F.Entry>, ids: seq<nat>, env: Env)
    requires LoadAll(file, es, ids, env).Ok?
    ensures |LoadAll(file, es, ids, env).value| == |ids|
    ensures forall i :: 0 <= i < |ids| ==> LoadOne(file, es, ids[i], env) == Ok(LoadAll(file, es, ids, env).value[i])
  {
    hide LoadOne;
    if ids != [] {
      var n := |ids| - 1;
      LoadedSlots(file, es, ids[..n], env);
      assert forall i :: 0 <= i < n ==> ids[..n][i] == ids[i];
    }
  }

  lemma OneSlotOk(file: seq<byte>, es: seq<F.Entry>, id: nat, env: Env)
    requires LoadOne(file, es, id, env).Ok? && 1 <= id <= MAX_ENTRIES
    requires forall e :: e in es ==> e.size != 0
    ensures var x := LoadOne(file, es, id, env).value; x.id == id && SlotOk(x) && x.data.Some?
  {
    FoundIsEntry(es, id);
  }

  lemma {:induction false} AllLive(slots: seq<Slot>)
    requires forall i :: 0 <= i < |slots| ==> slots[i].data.Some?
    ensures Live(slots) == |slots|
  {
    if slots != [] {
      AllLive(slots[..|slots| - 1]);
    }
  }

  lemma FetchedSlots(path: Path, mask: bv32, env: Env)
    requires Fetch(path, mask, env).Ok?
    ensures var slots, ids := Fetch(path, mask, env).value, Wanted(Expand(mask), MAX_ENTRIES);
            && SlotsOk(slots) && Live(slots) == |slots| == |ids|
            && forall i :: 0 <= i < |ids| ==> slots[i].id == ids[i] && slots[i].data.Some?
  {
    hide LoadAll, LoadOne, Wanted, Expand, P.EntryGood, SlotOk;
    var file := env.files[path];
    var es := P.Parse(file, env).value;
    var ids := Wanted(Expand(mask), MAX_ENTRIES);
    var slots := LoadAll(file, es, ids, env).value;
    WantedAscends(Expand(mask), MAX_ENTRIES);
    LoadedSlots(file, es, ids, env);
    forall i | 0 <= i < |ids|
      ensures slots[i].id == ids[i] && SlotOk(slots[i]) && slots[i].data.Some?
    {
      SizesPositive(file, env);
      OneSlotOk(file, es, ids[i], env);
    }
    AllLive(slots);
  }

  lemma {:induction false} LoadErrs(file: seq<byte>, es: seq<F.Entry>, ids: seq<nat>, env: Env)
    ensures LoadAll(file, es, ids, env) != Err(Success)
  {
    if ids != [] {
      LoadErrs(file, es, ids[..|ids| - 1], env);
    }
  }

  /** A failed fetch reports an error. */
  lemma FetchErrs(path: Path, mask: bv32, env: Env)
    ensures Fetch(path, mask, env) != Err(Success)
  {
    hide LoadAll, Wanted, Expand;
    if path in env.files && HEADER_SIZE <= |env.files[path]| && P.Parse(env.files[path], env).Ok? {
      LoadErrs(env.files[path], P.Parse(env.files[path], env).value, Wanted(Expand(mask), MAX_ENTRIES), env);
    }
  }

  lemma SizesPositive(file: seq<byte>, env: Env)
    requires |file| >= HEADER_SIZE && P.Parse(file, env).Ok?
    ensures forall e :: e in P.Parse(file, env).value ==> e.size != 0
  {
  }

  lemma {:induction false} WantedNotEmpty(ids: set<nat>, id: nat, n: nat)
    requires id in ids && 1 <= id <= n
    ensures Wanted(ids, n) != []
  {
    if id < n {
      WantedNotEmpty(ids, id, n - 1);
    }
  }

  /** The source's test for an empty request never fires on a mask that passed the mask test. */
  lemma SomethingWanted(mask: bv32)
    requires !BadMask(mask)
    ensures Wanted(Expand(mask), MAX_ENTRIES) != []
  {
    hide Expand;
    ExpandNonEmpty(mask);
    ExpandInRange(mask);
    var id :| id in Expand(mask);
    WantedNotEmpty(Expand(mask), id, MAX_ENTRIES);
  }

  // ---- staging calls ----

  lemma StageFromPathKeepsInv(s: State, path: Path, mask: bv32, env: Env)
    requires Inv(s)
    ensures var (t, c) := StageFromPath(s, path, mask, env);
            t.path == s.path && t.last == s.last && Inv(t) && (c != Success ==> t == s)
  {
    hide Fetch, SlotsOk, Unknown;
    if Fetch(path, mask, env).Ok? {
      FetchedSlots(path, mask, env);
    }
  }

  lemma StageKeepsInv(s: State, path: Option<Path>, mask: bv32, env: Env)
    requires Inv(s)
    ensures Inv(Stage(s, path, mask, env).0)
  {
    hide StageFromPath, SlotsOk;
    if path.Some? {
      StageFromPathKeepsInv(s, path.value, mask, env);
    }
  }

  lemma RestageKeepsInv(s: State, mask: bv32, env: Env)
    requires Inv(s)
    ensures Inv(Restage(s, mask, env).0)
  {
    hide StageFromPath, SlotsOk;
    if s.path.Some? {
      StageFromPathKeepsInv(s, s.path.value, mask, env);
    }
  }

  // ---- releasing ----

  lemma {:induction false} LiveAfter(slots: seq<Slot>, k: nat)
    requires k < |slots| && slots[k].data.Some?
    ensures var after := slots[k := Slot(slots[k].id, None, 0)];
            Live(after) == Live(slots) - 1 && Bytes(after) == Bytes(slots) - slots[k].size
    ensures Live(slots) > 0 && Bytes(slots) >= slots[k].size
  {
    var n := |slots| - 1;
    var dead := Slot(slots[k].id, None, 0);
    if k < n {
      LiveAfter(slots[..n], k);
      assert slots[k := dead][..n] == slots[..n][k := dead];
    } else {
      assert slots[k := dead][..n] == slots[..n];
    }
  }

  /** Whenever release finds a module, the counters are large enough for the plain subtractions. */
  lemma ClampsIdle(s: State, id: nat)
    requires Inv(s)
    ensures var slots := SlotsOf(s); var k := FindLive(slots, id);
            k < |slots| ==> s.count > 0 && s.bytes >= slots[k].size
  {
    var slots := SlotsOf(s);
    var k := FindLive(slots, id);
    if k < |slots| {
      LiveAfter(slots, k);
    }
  }

  lemma ReleaseKeepsInv(s: State, id: nat)
    requires Inv(s)
    ensures Inv(Release(s, id))
  {
    hide SlotOk, Unknown;
    var slots := SlotsOf(s);
    var k := FindLive(slots, id);
    if k < |slots| {
      LiveAfter(slots, k);
      var after := slots[k := Slot(slots[k].id, None, 0)];
      assert SlotOk(Slot(slots[k].id, None, 0)) by {
        DeadSlotOk(slots[k]);
      }
      assert SlotsOk(after);
    }
  }

  lemma DeadSlotOk(x: Slot)
    requires SlotOk(x)
    ensures SlotOk(Slot(x.id, None, 0))
  {
  }
}
