/**
  Packing and then staging: which modules come out of a packed image, and when
  a packed image cannot be staged at all.
 */
module StagedImages {
  import opened ImageConstants
  import opened Wrappers
  import opened Words
  import opened Crc32
  import opened Environment
  import opened Requirements
  import opened StagingSpec
  import opened StagingInvariant
  import opened Layout
  import opened PackedImages
  import F = ImageFormat
  import M = Manifest
  import P = ImageParser
  import V = Validator

  // ---- about loading ----

  lemma {:induction false} FindDistinct(es: seq<F.Entry>, k: nat)
    requires k < |es| && P.DistinctIds(es)
    ensures FindEntry(es, es[k].id) == Some(es[k])
  {
    if k > 0 {
      assert es[0].id != es[k].id;
      assert P.DistinctIds(es[1..]);
      FindDistinct(es[1..], k - 1);
    }
  }

  /** Loading depends on the image only through the single loads. */
  lemma {:induction false} LoadAllAgrees(f: seq<byte>, es: seq<F.Entry>, g: seq<byte>, fs: seq<F.Entry>,
          ids: seq<nat>, env: Env, other: Env)
    requires forall i :: 0 <= i < |ids| ==> LoadOne(f, es, ids[i], env) == LoadOne(g, fs, ids[i], other)
    ensures LoadAll(f, es, ids, env) == LoadAll(g, fs, ids, other)
  {
    hide LoadOne;
    if ids != [] {
      LoadAllAgrees(f, es, g, fs, ids[..|ids| - 1], env, other);
    }
  }

  /** When every single load succeeds, so does the whole. */
  lemma {:induction false} LoadAllSucceeds(f: seq<byte>, es: seq<F.Entry>, ids: seq<nat>, env: Env)
    requires forall i :: 0 <= i < |ids| ==> LoadOne(f, es, ids[i], env).Ok?
    ensures LoadAll(f, es, ids, env).Ok?
  {
    hide LoadOne;
    if ids != [] {
      LoadAllSucceeds(f, es, ids[..|ids| - 1], env);
    }
  }

  /** The first single failure is the failure of the whole. */
  lemma {:induction false} LoadAllFails(f: seq<byte>, es: seq<F.Entry>, ids: seq<nat>, k: nat, env: Env)
    requires k < |ids| && LoadOne(f, es, ids[k], env).Err?
    requires forall i :: 0 <= i < k ==> LoadOne(f, es, ids[i], env).Ok?
    ensures LoadAll(f, es, ids, env) == Err(LoadOne(f, es, ids[k], env).error)
  {
    hide LoadOne;
    var n := |ids| - 1;
    if k < n {
      LoadAllFails(f, es, ids[..n], k, env);
    } else {
      LoadAllSucceeds(f, es, ids[..n], env);
    }
  }

  // ---- packed images ----

  /** Entry k of the manifest has the id. */
  ghost predicate Names(m: seq<M.Entry>, k: nat, id: nat) {
    k < |m| && m[k].id == id
  }

  /** Some entry has it. */
  ghost predicate Named(m: seq<M.Entry>, id: nat) {
    exists k: nat :: Names(m, k, id)
  }

  /** es is a table over image that names the manifest's modules and points at their payloads. */
  ghost predicate Holds(image: seq<byte>, es: seq<F.Entry>, m: seq<M.Entry>, ps: seq<seq<byte>>) {
    && |es| == |m| == |ps| && P.DistinctIds(es)
    && forall k :: 0 <= k < |m| ==>
         es[k].id == m[k].id && es[k].size == |ps[k]| && es[k].crc == Crc(ps[k]) && PointsAt(image, es[k], ps[k])
  }

  ghost predicate PointsAt(image: seq<byte>, e: F.Entry, p: seq<byte>) {
    e.offset + e.size <= |image| && image[e.offset..e.offset + e.size] == p
  }

  /** What the runtime reads from a packed image once nothing gets in the way. */
  lemma PackedTable(m: seq<M.Entry>, ps: seq<seq<byte>>) returns (es: seq<F.Entry>)
    requires Packable(m, ps) && Fits(m, ps)
    ensures HEADER_SIZE <= |ImageOf(m, ps)| < LIMIT && P.Accepts(ImageOf(m, ps)) && es == P.EntriesOf(ImageOf(m, ps))
    ensures Holds(ImageOf(m, ps), es, m, ps) && V.Ascending(es)
  {
    hide ImageOf, P.HeaderGood, F.ReadHeader, Crc, Cursor, Start, F.RawEntries, V.Judge, V.HeaderMatches, HeaderFor,
      Entries, P.EntryGood, OnBoundary, M.EntryOk;
    PackedParses(m, ps);
    PackedValidates(m, ps);
    V.AcceptedParses(m, ImageOf(m, ps));
    FrontReads(m, ps);
    es := P.EntriesOf(ImageOf(m, ps));
  }

  lemma LoadHeld(image: seq<byte>, es: seq<F.Entry>, m: seq<M.Entry>, ps: seq<seq<byte>>, k: nat, env: Env)
    requires Holds(image, es, m, ps) && k < |m| && env.Calm()
    ensures LoadOne(image, es, m[k].id, env) == Ok(Slot(m[k].id, Some(ps[k]), |ps[k]|))
  {
    hide Crc, FindEntry;
    FindDistinct(es, k);
  }

  lemma LoadMissing(image: seq<byte>, es: seq<F.Entry>, m: seq<M.Entry>, ps: seq<seq<byte>>, id: nat, env: Env)
    requires Holds(image, es, m, ps) && !Named(m, id)
    ensures LoadOne(image, es, id, env) == Err(MissingModule)
  {
    hide Crc, FindEntry;
    forall i | 0 <= i < |es|
      ensures es[i].id != id
    {
      assert !Names(m, i, id);
    }
    NotFound(es, id);
  }

  lemma {:induction false} NotFound(es: seq<F.Entry>, id: nat)
    requires forall i :: 0 <= i < |es| ==> es[i].id != id
    ensures FindEntry(es, id).None?
  {
    if es != [] {
      NotFound(es[1..], id);
    }
  }

  lemma LoadHeldOrMissing(image: seq<byte>, es: seq<F.Entry>, m: seq<M.Entry>, ps: seq<seq<byte>>, id: nat, env: Env)
    requires Holds(image, es, m, ps) && env.Calm()
    ensures LoadOne(image, es, id, env).Ok? || LoadOne(image, es, id, env) == Err(MissingModule)
  {
    hide Holds, LoadOne;
    if k: nat :| Names(m, k, id) {
      LoadHeld(image, es, m, ps, k, env);
    } else {
      LoadMissing(image, es, m, ps, id, env);
    }
  }

  /** In a calm environment fetching is loading the wanted modules one by one. */
  lemma FetchIsLoad(file: seq<byte>, path: Path, mask: bv32, env: Env)
    requires HEADER_SIZE <= |file| < LIMIT && P.Accepts(file)
    requires env.Calm() && path in env.files && env.files[path] == file
    ensures Fetch(path, mask, env) == LoadAll(file, P.EntriesOf(file), Wanted(Expand(mask), MAX_ENTRIES), env)
  {
    hide LoadAll, Wanted, Expand, P.EntriesGood, F.ReadHeader, P.HeaderGood;
  }

  /** The loaded slots, one for each wanted id. */
  lemma LoadWanted(image: seq<byte>, es: seq<F.Entry>, m: seq<M.Entry>, ps: seq<seq<byte>>, ids: seq<nat>, env: Env)
    requires Holds(image, es, m, ps) && env.Calm()
    requires forall i :: 0 <= i < |ids| ==> Named(m, ids[i])
    ensures LoadAll(image, es, ids, env).Ok? && HoldsPayloads(LoadAll(image, es, ids, env).value, ids, m, ps)
  {
    hide LoadOne, LoadAll;
    forall i, k: nat | 0 <= i < |ids| && Names(m, k, ids[i])
      ensures LoadOne(image, es, ids[i], env) == Ok(Slot(ids[i], Some(ps[k]), |ps[k]|))
    {
      LoadHeld(image, es, m, ps, k, env);
    }
    forall i | 0 <= i < |ids|
      ensures LoadOne(image, es, ids[i], env).Ok?
    {
      var k: nat :| Names(m, k, ids[i]);
    }
    LoadAllSucceeds(image, es, ids, env);
    LoadedSlots(image, es, ids, env);
  }

  /** The state after staging the given slots from a path. */
  ghost predicate StagedAs(t: State, slots: seq<Slot>, path: Path, mask: bv32) {
    t == State(Some(slots), |slots|, |slots|, Bytes(slots), Some(path), mask)
  }

  lemma StageFetched(s: State, path: Path, mask: bv32, env: Env)
    requires Inv(s) && s.slots.None? && !BadMask(mask) && env.pathAlloc
    ensures match Fetch(path, mask, env)
            case Ok(slots) =>
              Stage(s, Some(path), mask, env).1 == Success &&
                StagedAs(Stage(s, Some(path), mask, env).0, slots, path, mask)
            case Err(c) => Stage(s, Some(path), mask, env) == (s, c)
  {
    hide Fetch, Wanted, Expand, Unknown, Bytes;
    SomethingWanted(mask);
    FetchErrs(path, mask, env);
  }

  /** Restaging is staging from the remembered path, whatever mask was remembered with it. */
  lemma RestageFetched(s: State, path: Path, mask: bv32, env: Env)
    requires Inv(s) && s.slots.None? && s.path == Some(path) && !BadMask(mask)
    ensures Restage(s, mask, env) ==
            match Fetch(path, mask, env)
            case Ok(slots) => (State(Some(slots), |slots|, |slots|, Bytes(slots), Some(path), mask), Success)
            case Err(c) => (s, c)
  {
    hide Fetch, Wanted, Expand, Unknown, Bytes;
    SomethingWanted(mask);
    FetchErrs(path, mask, env);
  }

  /** Staged is exactly what the mask wants, byte for byte as packed. */
  ghost predicate StagesPacked(t: State, m: seq<M.Entry>, ps: seq<seq<byte>>, path: Path, mask: bv32) {
    && |m| == |ps| && t.slots.Some? && StagedAs(t, t.slots.value, path, mask)
    && HoldsPayloads(t.slots.value, Wanted(Expand(mask), MAX_ENTRIES), m, ps)
  }

  ghost predicate HoldsPayloads(slots: seq<Slot>, ids: seq<nat>, m: seq<M.Entry>, ps: seq<seq<byte>>)
    requires |m| == |ps|
  {
    && |slots| == |ids|
    && forall i, k: nat :: 0 <= i < |ids| && Names(m, k, ids[i]) ==> slots[i] == Slot(ids[i], Some(ps[k]), |ps[k]|)
  }

  /** Fetching from a packed image in a calm environment. */
  lemma FetchPacked(m: seq<M.Entry>, ps: seq<seq<byte>>, path: Path, mask: bv32, env: Env)
    requires Packable(m, ps) && Fits(m, ps)
    requires env.Calm() && path in env.files && env.files[path] == ImageOf(m, ps)
    requires forall id :: id in Expand(mask) ==> Named(m, id)
    ensures |m| == |ps| && Fetch(path, mask, env).Ok?
    ensures HoldsPayloads(Fetch(path, mask, env).value, Wanted(Expand(mask), MAX_ENTRIES), m, ps)
  {
    hide ImageOf, P.EntriesOf, P.Accepts, LoadAll, Wanted, Expand, Fetch, Fits, Holds, Named;
    var es := PackedTable(m, ps);
    var ids := Wanted(Expand(mask), MAX_ENTRIES);
    FetchIsLoad(ImageOf(m, ps), path, mask, env);
    WantedAscends(Expand(mask), MAX_ENTRIES);
    forall i | 0 <= i < |ids|
      ensures Named(m, ids[i])
    {
      assert ids[i] in Expand(mask);
    }
    LoadWanted(ImageOf(m, ps), es, m, ps, ids, env);
  }

  /**
    Pack then stage: in a calm environment every acceptable mask whose modules
    are all in the manifest stages exactly them, byte for byte as packed.
   */
  lemma PackThenStage(m: seq<M.Entry>, ps: seq<seq<byte>>, s: State, path: Path, mask: bv32, env: Env)
    requires Packable(m, ps) && Fits(m, ps) && Inv(s) && s.slots.None? && !BadMask(mask)
    requires env.Calm() && path in env.files && env.files[path] == ImageOf(m, ps)
    requires forall id :: id in Expand(mask) ==> Named(m, id)
    ensures var (t, c) := Stage(s, Some(path), mask, env);
            c == Success && StagesPacked(t, m, ps, path, mask)
  {
    hide ImageOf, Wanted, Expand, Fetch, Fits, StagingSpec.Stage, Inv, BadMask, Named, HoldsPayloads;
    FetchPacked(m, ps, path, mask, env);
    StageFetched(s, path, mask, env);
  }

  /** Restaging after that does the same for any such mask, asked for before or not. */
  lemma PackThenRestage(m: seq<M.Entry>, ps: seq<seq<byte>>, s: State, path: Path, mask: bv32, env: Env)
    requires Packable(m, ps) && Fits(m, ps) && Inv(s) && s.slots.None? && s.path == Some(path) && !BadMask(mask)
    requires env.Calm() && path in env.files && env.files[path] == ImageOf(m, ps)
    requires forall id :: id in Expand(mask) ==> Named(m, id)
    ensures var (t, c) := Restage(s, mask, env);
            c == Success && StagesPacked(t, m, ps, path, mask)
  {
    hide ImageOf, Wanted, Expand, Fetch, Fits, StagingSpec.Restage, Inv, BadMask, Named, HoldsPayloads;
    FetchPacked(m, ps, path, mask, env);
    RestageFetched(s, path, mask, env);
  }

  lemma {:induction false} FirstMissing(f: seq<byte>, es: seq<F.Entry>, ids: seq<nat>, k: nat, env: Env)
    requires k < |ids| && LoadOne(f, es, ids[k], env) == Err(MissingModule)
    requires forall i :: 0 <= i < |ids| ==>
             LoadOne(f, es, ids[i], env).Ok? || LoadOne(f, es, ids[i], env) == Err(MissingModule)
    ensures LoadAll(f, es, ids, env) == Err(MissingModule)
  {
    hide LoadOne, LoadAll;
    if forall i :: 0 <= i < k ==> LoadOne(f, es, ids[i], env).Ok? {
      LoadAllFails(f, es, ids, k, env);
    } else {
      var i :| 0 <= i < k && !LoadOne(f, es, ids[i], env).Ok?;
      FirstMissing(f, es, ids, i, env);
    }
  }

  /** A wanted module that is not in the manifest is reported missing. */
  lemma PackThenStageMissing(m: seq<M.Entry>, ps: seq<seq<byte>>, path: Path, mask: bv32, env: Env, id: nat)
    requires Packable(m, ps) && Fits(m, ps)
    requires env.Calm() && path in env.files && env.files[path] == ImageOf(m, ps)
    requires id in Expand(mask) && !Named(m, id)
    ensures Fetch(path, mask, env) == Err(MissingModule)
  {
    hide ImageOf, P.EntriesOf, P.Accepts, LoadOne, LoadAll, Wanted, Expand, Fetch, Fits, Holds;
    var es := PackedTable(m, ps);
    var ids := Wanted(Expand(mask), MAX_ENTRIES);
    FetchIsLoad(ImageOf(m, ps), path, mask, env);
    ExpandInRange(mask);
    WantedAscends(Expand(mask), MAX_ENTRIES);
    LoadMissing(ImageOf(m, ps), es, m, ps, id, env);
    forall i | 0 <= i < |ids|
      ensures LoadOne(ImageOf(m, ps), es, ids[i], env).Ok? ||
              LoadOne(ImageOf(m, ps), es, ids[i], env) == Err(MissingModule)
    {
      LoadHeldOrMissing(ImageOf(m, ps), es, m, ps, ids[i], env);
    }
    var i :| 0 <= i < |ids| && ids[i] == id;
    FirstMissing(ImageOf(m, ps), es, ids, i, env);
  }

  lemma {:induction false} NoFormatError(f: seq<byte>, es: seq<F.Entry>, ids: seq<nat>, env: Env)
    ensures LoadAll(f, es, ids, env) != Err(FormatError)
  {
    if ids != [] {
      NoFormatError(f, es, ids[..|ids| - 1], env);
    }
  }

  /**
    A packed image whose aligned total leaves 32 bits never stages: the packer
    reports success, the runtime a format error.  So a packed image is loadable
    exactly when the total fits.
   */
  lemma LoadableIffFits(m: seq<M.Entry>, ps: seq<seq<byte>>, path: Path, mask: bv32, env: Env)
    requires Packable(m, ps) && env.Calm() && path in env.files && env.files[path] == ImageOf(m, ps)
    ensures Fetch(path, mask, env) == Err(FormatError) <==> !Fits(m, ps)
  {
    hide ImageOf, Cursor, Start, ReadAll, Expand, Wanted, P.Accepts, P.EntriesOf, Holds;
    if Fits(m, ps) {
      var es := PackedTable(m, ps);
      FetchIsLoad(ImageOf(m, ps), path, mask, env);
      NoFormatError(ImageOf(m, ps), es, Wanted(Expand(mask), MAX_ENTRIES), env);
    } else {
      TooLong(m, ps);
    }
  }

  lemma TooLong(m: seq<M.Entry>, ps: seq<seq<byte>>)
    requires Packable(m, ps)
    ensures Fits(m, ps) <==> |ImageOf(m, ps)| < LIMIT
  {
    ImageLength(m, ps);
  }
}
