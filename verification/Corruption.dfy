/**
  End to end: what staging does with a packed image that has been damaged
  inside one payload.
 */
module Corruption {
  import opened ImageConstants
  import opened Wrappers
  import opened Words
  import opened Crc32
  import opened Environment
  import opened Requirements
  import opened StagingSpec
  import opened StagingInvariant
  import opened Layout
  import opened PackedImages
  import opened StagedImages
  import F = ImageFormat
  import M = Manifest
  import P = ImageParser
  import V = Validator

  /** g is f with some bits changed, all within 32 consecutive ones inside the bytes lo..hi. */
  ghost predicate Damaged(f: seq<byte>, g: seq<byte>, from: nat, to: nat, lo: nat, hi: nat) {
    && |f| == |g| && f != g && lo <= hi <= |f|
    && 8 * lo <= from <= to <= 8 * hi && to <= from + 32
    && BitsOf(f)[..from] == BitsOf(g)[..from] && BitsOf(f)[to..] == BitsOf(g)[to..]
  }

  lemma BitsOfParts(f: seq<byte>, lo: nat, hi: nat)
    requires lo <= hi <= |f|
    ensures BitsOf(f)[..8 * lo] == BitsOf(f[..lo])
    ensures BitsOf(f)[8 * lo..8 * hi] == BitsOf(f[lo..hi])
    ensures BitsOf(f)[8 * hi..] == BitsOf(f[hi..])
  {
    hide BitsOf;
    var a, b, c := f[..lo], f[lo..hi], f[hi..];
    ThreePieces(f, lo, hi);
    BitsOfThree(a, b, c);
    CutThree(BitsOf(f), BitsOf(a), BitsOf(b), BitsOf(c), 8 * lo, 8 * hi);
  }

  lemma BitsOfThree(a: seq<byte>, b: seq<byte>, c: seq<byte>)
    ensures BitsOf((a + b) + c) == (BitsOf(a) + BitsOf(b)) + BitsOf(c)
  {
    hide BitsOf;
    BitsOfAppend(a + b, c);
    BitsOfAppend(a, b);
  }

  lemma ThreePieces(f: seq<byte>, lo: nat, hi: nat)
    requires lo <= hi <= |f|
    ensures f == (f[..lo] + f[lo..hi]) + f[hi..]
  {
  }

  lemma CutThree<T>(x: seq<T>, a: seq<T>, b: seq<T>, c: seq<T>, i: nat, j: nat)
    requires x == (a + b) + c && i == |a| && j == |a| + |b|
    ensures x[..i] == a && x[i..j] == b && x[j..] == c
  {
  }

  lemma DropSlice<T>(x: seq<T>, n: nat, i: nat, j: nat)
    requires n <= i <= j <= |x|
    ensures x[n..][i - n..j - n] == x[i..j]
  {
    var a, b := x[n..][i - n..j - n], x[i..j];
    assert |a| == |b| && forall k :: 0 <= k < |a| ==> a[k] == x[n + (i - n + k)] == b[k];
  }

  lemma SubBits(x: seq<bool>, y: seq<bool>, n: nat, i: nat, j: nat)
    requires |x| == |y| && i <= j <= |x| && n <= |x|
    ensures x[..n] == y[..n] && j <= n ==> x[i..j] == y[i..j]
    ensures x[n..] == y[n..] && n <= i ==> x[i..j] == y[i..j]
  {
    if x[..n] == y[..n] && j <= n {
      assert x[i..j] == x[..n][i..j] && y[i..j] == y[..n][i..j];
    }
    if x[n..] == y[n..] && n <= i {
      DropSlice(x, n, i, j);
      DropSlice(y, n, i, j);
    }
  }

  /** Damage stays inside its range and shows in the CRC of that range. */
  lemma DamageShows(f: seq<byte>, g: seq<byte>, from: nat, to: nat, lo: nat, hi: nat)
    requires Damaged(f, g, from, to, lo, hi)
    ensures f[..lo] == g[..lo] && f[hi..] == g[hi..] && Crc(f[lo..hi]) != Crc(g[lo..hi])
  {
    hide BitsOf, Crc;
    var x, y := BitsOf(f), BitsOf(g);
    BitsOfParts(f, lo, hi);
    BitsOfParts(g, lo, hi);
    SubBits(x, y, from, 0, 8 * lo);
    SubBits(x, y, to, 8 * hi, |x|);
    BitsOfInjective(f[..lo], g[..lo]);
    BitsOfInjective(f[hi..], g[hi..]);
    var c, d := f[lo..hi], g[lo..hi];
    assert f == (f[..lo] + c) + f[hi..] && g == (f[..lo] + d) + f[hi..];
    SubBits(x, y, from, 8 * lo, from);
    SubBits(x, y, to, to, 8 * hi);
    Slices(x, 8 * lo, from, to, 8 * hi);
    Slices(y, 8 * lo, from, to, 8 * hi);
    BurstDetected(c, d, from - 8 * lo, to - 8 * lo);
  }

  lemma Slices(x: seq<bool>, a: nat, b: nat, c: nat, d: nat)
    requires a <= b <= c <= d <= |x|
    ensures x[a..d][..b - a] == x[a..b] && x[a..d][c - a..] == x[c..d]
  {
  }

  /** The special case of four consecutive bytes. */
  lemma FourBytesDamage(f: seq<byte>, g: seq<byte>, a: nat, b: nat, lo: nat, hi: nat)
    requires |f| == |g| && f != g && lo <= a <= b <= hi <= |f| && b <= a + 4
    requires f[..a] == g[..a] && f[b..] == g[b..]
    ensures Damaged(f, g, 8 * a, 8 * b, lo, hi)
  {
    hide BitsOf;
    BitsOfParts(f, a, b);
    BitsOfParts(g, a, b);
  }

  // ---- what the runtime reads from the damaged image ----

  lemma ReadSame(f: seq<byte>, g: seq<byte>, n: nat, at: nat)
    requires n <= |f| && n <= |g| && f[..n] == g[..n]
    ensures at + 4 <= n ==> ReadLe(f, at) == ReadLe(g, at)
  {
    if at + 4 <= n {
      assert forall i :: 0 <= i < n ==> f[i] == f[..n][i] == g[i];
    }
  }

  lemma ReadEntrySame(f: seq<byte>, g: seq<byte>, n: nat, at: nat)
    requires n <= |f| && n <= |g| && f[..n] == g[..n] && at + ENTRY_SIZE <= n
    ensures F.ReadEntry(f, at) == F.ReadEntry(g, at)
  {
    hide ReadLe;
    ReadSame(f, g, n, at);
    ReadSame(f, g, n, at + 4);
    ReadSame(f, g, n, at + 8);
    ReadSame(f, g, n, at + 12);
    ReadSame(f, g, n, at + 16);
  }

  lemma ReadHeaderSame(f: seq<byte>, g: seq<byte>, n: nat)
    requires HEADER_SIZE <= n <= |f| && n <= |g| && f[..n] == g[..n]
    ensures F.ReadHeader(f) == F.ReadHeader(g) && f[..8] == g[..8]
  {
    hide ReadLe;
    assert f[..8] == f[..n][..8] && g[..8] == g[..n][..8];
    ReadSame(f, g, n, 8);
    ReadSame(f, g, n, 12);
    ReadSame(f, g, n, 16);
    ReadSame(f, g, n, 20);
    ReadSame(f, g, n, 24);
    ReadSame(f, g, n, 28);
    ReadSame(f, g, n, 32);
    ReadSame(f, g, n, 36);
    ReadSame(f, g, n, 40);
  }

  /** Header and table come from the front of the file. */
  lemma FrontDecides(f: seq<byte>, g: seq<byte>, n: nat)
    requires |f| == |g| && HEADER_SIZE <= n <= |f| && f[..n] == g[..n]
    requires P.Accepts(f) && F.EntryAt(F.ReadHeader(f).count) <= n
    ensures P.Accepts(g) && P.EntriesOf(g) == P.EntriesOf(f)
  {
    hide F.ReadEntry, F.ReadHeader, P.EntriesGood;
    ReadHeaderSame(f, g, n);
    var count := F.ReadHeader(f).count;
    forall i | 0 <= i < count
      ensures F.ReadEntry(f, F.EntryAt(i)) == F.ReadEntry(g, F.EntryAt(i))
    {
      ReadEntrySame(f, g, n, F.EntryAt(i));
    }
    F.RawEntriesAre(g, F.RawEntries(f, count));
  }

  lemma OutsideSame(f: seq<byte>, g: seq<byte>, lo: nat, hi: nat, i: nat, j: nat)
    requires |f| == |g| && lo <= hi <= |f| && i <= j <= |f| && f[..lo] == g[..lo] && f[hi..] == g[hi..]
    requires j <= lo || hi <= i
    ensures f[i..j] == g[i..j]
  {
    if j <= lo {
      assert f[i..j] == f[..lo][i..j] && g[i..j] == g[..lo][i..j];
    } else {
      DropSlice(f, hi, i, j);
      DropSlice(g, hi, i, j);
    }
  }

  /** A packed image, its table, and a damaged copy of it. */
  ghost predicate Scene(f: seq<byte>, es: seq<F.Entry>, m: seq<M.Entry>, ps: seq<seq<byte>>, g: seq<byte>, k: nat) {
    && Holds(f, es, m, ps) && V.Ascending(es) && k < |m| && |f| == |g|
    && var (lo, hi) := (es[k].offset, es[k].offset + es[k].size);
       f[..lo] == g[..lo] && f[hi..] == g[hi..] && Crc(f[lo..hi]) != Crc(g[lo..hi])
  }

  lemma DamagedLoad(f: seq<byte>, es: seq<F.Entry>, m: seq<M.Entry>, ps: seq<seq<byte>>, g: seq<byte>, k: nat, env: Env)
    requires Scene(f, es, m, ps, g, k)
    ensures LoadOne(g, es, m[k].id, env).Err?
    ensures env.Calm() ==> LoadOne(g, es, m[k].id, env) == Err(CrcError)
  {
    hide Crc, FindEntry;
    FindDistinct(es, k);
  }

  lemma OtherLoad(f: seq<byte>, es: seq<F.Entry>, m: seq<M.Entry>, ps: seq<seq<byte>>, g: seq<byte>, k: nat, id: nat,
          env: Env, other: Env)
    requires Scene(f, es, m, ps, g, k) && id != m[k].id
    requires other == env.(files := other.files)
    ensures LoadOne(g, es, id, other) == LoadOne(f, es, id, env)
  {
    hide Crc, FindEntry;
    FoundIsEntry(es, id);
    if FindEntry(es, id).Some? {
      var e := FindEntry(es, id).value;
      var j :| 0 <= j < |es| && es[j] == e;
      assert PointsAt(f, es[j], ps[j]) && PointsAt(f, es[k], ps[k]);
      OutsideSame(f, g, es[k].offset, es[k].offset + es[k].size, e.offset, e.offset + e.size);
    }
  }

  /** The scene of a damaged packed image, and that the runtime reads the same table from it. */
  lemma SetScene(m: seq<M.Entry>, ps: seq<seq<byte>>, g: seq<byte>, k: nat, from: nat, to: nat)
    returns (es: seq<F.Entry>)
    requires Packable(m, ps) && Fits(m, ps) && k < |m|
    requires var e := EntryFor(Start(|m|), m, ps, k);
             Damaged(ImageOf(m, ps), g, from, to, e.offset, e.offset + e.size)
    ensures HEADER_SIZE <= |g| == |ImageOf(m, ps)| < LIMIT && P.Accepts(ImageOf(m, ps)) && P.Accepts(g)
    ensures es == P.EntriesOf(ImageOf(m, ps)) == P.EntriesOf(g)
    ensures Scene(ImageOf(m, ps), es, m, ps, g, k)
  {
    hide ImageOf, Crc, BitsOf, P.Accepts, P.EntriesOf, Holds, Start, EntryFor, Damaged, V.Ascending, Fits, F.ReadHeader;
    es := PackedTable(m, ps);
    TableIs(m, ps, es, k);
    DamagedScene(ImageOf(m, ps), es, m, ps, g, k, from, to);
    FrontDecides(ImageOf(m, ps), g, es[k].offset);
  }

  lemma DamagedScene(f: seq<byte>, es: seq<F.Entry>, m: seq<M.Entry>, ps: seq<seq<byte>>, g: seq<byte>, k: nat,
          from: nat, to: nat)
    requires Holds(f, es, m, ps) && V.Ascending(es) && k < |m|
    requires Damaged(f, g, from, to, es[k].offset, es[k].offset + es[k].size)
    ensures Scene(f, es, m, ps, g, k) && es[k].offset <= |f|
  {
    hide Crc, Damaged, V.Ascending;
    DamageLengths(f, g, from, to, es[k].offset, es[k].offset + es[k].size);
    DamageShows(f, g, from, to, es[k].offset, es[k].offset + es[k].size);
  }

  lemma DamageLengths(f: seq<byte>, g: seq<byte>, from: nat, to: nat, lo: nat, hi: nat)
    requires Damaged(f, g, from, to, lo, hi)
    ensures |f| == |g| && lo <= hi <= |f|
  {
  }

  lemma TableIs(m: seq<M.Entry>, ps: seq<seq<byte>>, es: seq<F.Entry>, k: nat)
    requires Packable(m, ps) && Fits(m, ps) && k < |m| && P.Accepts(ImageOf(m, ps)) && es == P.EntriesOf(ImageOf(m, ps))
    ensures |es| == |m| && es[k] == EntryFor(Start(|m|), m, ps, k)
    ensures HEADER_SIZE <= F.EntryAt(F.ReadHeader(ImageOf(m, ps)).count) <= es[k].offset
  {
    hide ImageOf, Cursor, Cursor32, Crc, F.ReadHeader, Padding, Wrap;
    FrontReads(m, ps);
    OffsetsFit(m, ps, k);
    StartIs(|m|);
  }

  // ---- the theorems ----

  /** The same environment with another image under the path. */
  function Swapped(env: Env, path: Path, g: seq<byte>): Env {
    env.(files := env.files[path := g])
  }

  /**
    A request that does not include the damaged module is answered from the
    damaged image exactly as from the original, whatever else happens.
   */
  lemma OthersUnaffected(m: seq<M.Entry>, ps: seq<seq<byte>>, g: seq<byte>, k: nat, from: nat, to: nat, path: Path,
          mask: bv32, env: Env)
    requires Packable(m, ps) && Fits(m, ps) && k < |m|
    requires var e := EntryFor(Start(|m|), m, ps, k);
             Damaged(ImageOf(m, ps), g, from, to, e.offset, e.offset + e.size)
    requires path in env.files && env.files[path] == ImageOf(m, ps)
    requires m[k].id !in Expand(mask)
    ensures Fetch(path, mask, Swapped(env, path, g)) == Fetch(path, mask, env)
  {
    hide ImageOf, Damaged, EntryFor, Start, Scene, P.Accepts, P.EntriesOf, LoadAll, LoadOne, Expand, Wanted,
      F.ReadHeader, P.HeaderGood;
    var es := SetScene(m, ps, g, k, from, to);
    var f, ids, other := ImageOf(m, ps), Wanted(Expand(mask), MAX_ENTRIES), Swapped(env, path, g);
    WantedAscends(Expand(mask), MAX_ENTRIES);
    forall i | 0 <= i < |ids|
      ensures LoadOne(g, es, ids[i], other) == LoadOne(f, es, ids[i], env)
    {
      assert ids[i] in Expand(mask);
      OtherLoad(f, es, m, ps, g, k, ids[i], env, other);
    }
    LoadAllAgrees(g, es, f, es, ids, other, env);
    ReadFrom(f, Expand(mask), env);
    ReadFrom(g, Expand(mask), other);
  }

  /** Reading an acceptable image. */
  lemma ReadFrom(file: seq<byte>, ids: set<nat>, env: Env)
    requires P.Accepts(file)
    ensures ReadAll(file, ids, env) ==
            if !env.headerRead then Err(IoError)
            else if !env.tableAlloc || !env.entriesAlloc then Err(OutOfMemory)
            else if !env.tableRead then Err(IoError)
            else if !env.stagedAlloc then Err(OutOfMemory)
            else LoadAll(file, P.EntriesOf(file), Wanted(ids, MAX_ENTRIES), env)
  {
    hide LoadAll, Wanted, F.ReadHeader, P.HeaderGood, P.EntriesGood;
  }

  /** A request that includes the damaged module never succeeds. */
  lemma DamageNeverStages(m: seq<M.Entry>, ps: seq<seq<byte>>, g: seq<byte>, k: nat, from: nat, to: nat, path: Path,
          mask: bv32, env: Env)
    requires Packable(m, ps) && Fits(m, ps) && k < |m|
    requires var e := EntryFor(Start(|m|), m, ps, k);
             Damaged(ImageOf(m, ps), g, from, to, e.offset, e.offset + e.size)
    requires path in env.files && env.files[path] == g
    requires m[k].id in Expand(mask)
    ensures Fetch(path, mask, env).Err?
  {
    hide ImageOf, Damaged, EntryFor, Start, Scene, P.Accepts, P.EntriesOf, LoadAll, LoadOne, Expand, Wanted,
      F.ReadHeader, P.HeaderGood;
    var es := SetScene(m, ps, g, k, from, to);
    var ids := Wanted(Expand(mask), MAX_ENTRIES);
    ExpandInRange(mask);
    WantedAscends(Expand(mask), MAX_ENTRIES);
    DamagedLoad(ImageOf(m, ps), es, m, ps, g, k, env);
    ReadFrom(g, Expand(mask), env);
    var i :| 0 <= i < |ids| && ids[i] == m[k].id;
    if LoadAll(g, es, ids, env).Ok? {
      LoadedSlots(g, es, ids, env);
    }
  }

  /**
    When everything else goes well and all requested modules are in the
    manifest, the request that includes the damaged module reports the CRC
    error and leaves all six globals as they were.
   */
  lemma DamageReported(m: seq<M.Entry>, ps: seq<seq<byte>>, g: seq<byte>, k: nat, from: nat, to: nat, s: State,
          path: Path, mask: bv32, env: Env)
    requires Packable(m, ps) && Fits(m, ps) && k < |m|
    requires var e := EntryFor(Start(|m|), m, ps, k);
             Damaged(ImageOf(m, ps), g, from, to, e.offset, e.offset + e.size)
    requires env.Calm() && path in env.files && env.files[path] == g
    requires m[k].id in Expand(mask) && forall id :: id in Expand(mask) ==> Named(m, id)
    requires Inv(s) && s.slots.None? && !BadMask(mask)
    ensures Stage(s, Some(path), mask, env) == (s, CrcError)
  {
    hide ImageOf, Damaged, EntryFor, Start, Scene, P.Accepts, P.EntriesOf, LoadAll, LoadOne, Expand, Wanted,
      F.ReadHeader, P.HeaderGood, Holds, Fetch, StagingSpec.Stage, Named, Inv, BadMask;
    var es := SetScene(m, ps, g, k, from, to);
    var f, ids := ImageOf(m, ps), Wanted(Expand(mask), MAX_ENTRIES);
    ExpandInRange(mask);
    WantedAscends(Expand(mask), MAX_ENTRIES);
    DamagedLoad(f, es, m, ps, g, k, env);
    forall i | 0 <= i < |ids| && ids[i] != m[k].id
      ensures LoadOne(g, es, ids[i], env).Ok?
    {
      assert ids[i] in Expand(mask);
      OtherLoad(f, es, m, ps, g, k, ids[i], env, env);
      OthersLoad(f, es, m, ps, g, k, ids[i], env);
    }
    var i :| 0 <= i < |ids| && ids[i] == m[k].id;
    LoadAllFails(g, es, ids, i, env);
    FetchIsLoad(g, path, mask, env);
    StageFetched(s, path, mask, env);
  }

  lemma OthersLoad(f: seq<byte>, es: seq<F.Entry>, m: seq<M.Entry>, ps: seq<seq<byte>>, g: seq<byte>, k: nat, id: nat,
          env: Env)
    requires Scene(f, es, m, ps, g, k) && Named(m, id) && env.Calm()
    ensures LoadOne(f, es, id, env).Ok?
  {
    hide Holds, LoadOne;
    var j: nat :| Names(m, j, id);
    LoadHeld(f, es, m, ps, j, env);
  }
}
