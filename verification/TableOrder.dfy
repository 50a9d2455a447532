/**
  The order of the entry table does not matter to the runtime: two images that
  differ only in it are accepted alike and stage alike.
 */
module TableOrder {
  import opened ImageConstants
  import opened Wrappers
  import opened Words
  import opened Environment
  import opened Requirements
  import opened StagingSpec
  import opened StagingInvariant
  import opened StagedImages
  import F = ImageFormat
  import P = ImageParser

  /** The same entries, as often, in any order. */
  ghost predicate Permuted(es: seq<F.Entry>, fs: seq<F.Entry>) {
    multiset(es) == multiset(fs)
  }

  lemma {:induction false} Occurs(es: seq<F.Entry>, x: F.Entry)
    requires forall i :: 0 <= i < |es| ==> es[i] != x
    ensures multiset(es)[x] == 0
  {
  }

  /** Among distinct ids no entry occurs twice. */
  lemma {:induction false} OnceOnly(es: seq<F.Entry>, x: F.Entry)
    requires P.DistinctIds(es)
    ensures multiset(es)[x] <= 1
  {
    if es != [] {
      var n := |es| - 1;
      assert es == es[..n] + [es[n]];
      assert P.DistinctIds(es[..n]);
      OnceOnly(es[..n], x);
      if es[n] == x {
        assert forall i :: 0 <= i < n ==> es[i].id != es[n].id;
        Occurs(es[..n], x);
      }
    }
  }

  lemma TwiceIn(es: seq<F.Entry>, i: nat, j: nat)
    requires i < j < |es| && es[i] == es[j]
    ensures multiset(es)[es[i]] >= 2
  {
    assert es == es[..j] + es[j..];
    assert es[..j][i] == es[i] && es[j..][0] == es[j];
    assert multiset(es) == multiset(es[..j]) + multiset(es[j..]);
    assert es[i] in multiset(es[..j]) && es[i] in multiset(es[j..]);
  }

  lemma Member(es: seq<F.Entry>, fs: seq<F.Entry>, x: F.Entry)
    requires Permuted(es, fs)
    ensures x in es <==> x in fs
  {
    assert x in es <==> x in multiset(es);
    assert x in fs <==> x in multiset(fs);
  }

  lemma DistinctPermuted(es: seq<F.Entry>, fs: seq<F.Entry>)
    requires Permuted(es, fs) && P.DistinctIds(es)
    ensures P.DistinctIds(fs)
  {
    forall i, j | 0 <= j < i < |fs|
      ensures fs[j].id != fs[i].id
    {
      if fs[j].id == fs[i].id {
        Member(es, fs, fs[i]);
        Member(es, fs, fs[j]);
        SameIdSameEntry(es, fs[j], fs[i]);
        TwiceIn(fs, j, i);
        OnceOnly(es, fs[j]);
      }
    }
  }

  lemma SameIdSameEntry(es: seq<F.Entry>, x: F.Entry, y: F.Entry)
    requires P.DistinctIds(es) && x in es && y in es && x.id == y.id
    ensures x == y
  {
    var i :| 0 <= i < |es| && es[i] == x;
    var j :| 0 <= j < |es| && es[j] == y;
  }

  lemma GoodPermuted(es: seq<F.Entry>, fs: seq<F.Entry>, payloadOffset: nat, fileSize: nat)
    requires Permuted(es, fs) && P.EntriesGood(es, payloadOffset, fileSize)
    ensures P.EntriesGood(fs, payloadOffset, fileSize)
  {
    hide P.EntryGood;
    DistinctPermuted(es, fs);
    forall i | 0 <= i < |fs|
      ensures P.EntryGood(fs[i], payloadOffset, fileSize)
    {
      Member(es, fs, fs[i]);
    }
  }

  lemma FindPermuted(es: seq<F.Entry>, fs: seq<F.Entry>, id: nat)
    requires Permuted(es, fs) && P.DistinctIds(es)
    ensures FindEntry(fs, id) == FindEntry(es, id)
  {
    DistinctPermuted(es, fs);
    FoundIsEntry(es, id);
    FoundIsEntry(fs, id);
    match FindEntry(es, id)
    case Some(e) =>
      Member(es, fs, e);
      var k :| 0 <= k < |fs| && fs[k] == e;
      FindDistinct(fs, k);
    case None =>
      if FindEntry(fs, id).Some? {
        Member(es, fs, FindEntry(fs, id).value);
      }
  }

  /** Two images that agree except for the order of the table. */
  ghost predicate Reordered(f: seq<byte>, g: seq<byte>) {
    && HEADER_SIZE <= |f| == |g| && f[..HEADER_SIZE] == g[..HEADER_SIZE]
    && var n := F.ReadHeader(f).count;
       F.EntryAt(n) <= |f| ==>
         && f[F.EntryAt(n)..] == g[F.EntryAt(n)..]
         && Permuted(F.RawEntries(f, n), F.RawEntries(g, n))
  }

  lemma HeadersAgree(f: seq<byte>, g: seq<byte>)
    requires Reordered(f, g)
    ensures F.ReadHeader(f) == F.ReadHeader(g) && f[..8] == g[..8]
  {
    P.HeaderOnly(f);
    P.HeaderOnly(g);
  }

  lemma AcceptedAlike(f: seq<byte>, g: seq<byte>)
    requires Reordered(f, g) && P.Accepts(f)
    ensures P.Accepts(g) && Permuted(P.EntriesOf(f), P.EntriesOf(g))
  {
    hide F.ReadHeader, F.RawEntries, P.EntriesGood;
    HeadersAgree(f, g);
    var h := F.ReadHeader(f);
    GoodPermuted(F.RawEntries(f, h.count), F.RawEntries(g, h.count), h.payloadOffset, |f|);
  }

  lemma ReorderedBack(f: seq<byte>, g: seq<byte>)
    requires Reordered(f, g)
    ensures Reordered(g, f)
  {
    hide F.ReadHeader, F.RawEntries;
    HeadersAgree(f, g);
  }

  lemma LoadAlike(f: seq<byte>, g: seq<byte>, id: nat, env: Env)
    requires Reordered(f, g) && P.Accepts(f) && P.Accepts(g)
    ensures LoadOne(g, P.EntriesOf(g), id, env) == LoadOne(f, P.EntriesOf(f), id, env)
  {
    hide F.ReadHeader, F.RawEntries, FindEntry, P.HeaderGood;
    AcceptedAlike(f, g);
    var es := P.EntriesOf(f);
    FindPermuted(es, P.EntriesOf(g), id);
    FoundIsEntry(es, id);
    if FindEntry(es, id).Some? {
      var e := FindEntry(es, id).value;
      var n := F.EntryAt(F.ReadHeader(f).count);
      BeyondTable(f, e);
      TailSlice(f, g, n, e.offset, e.offset + e.size);
    }
  }

  lemma BeyondTable(f: seq<byte>, e: F.Entry)
    requires P.Accepts(f) && e in P.EntriesOf(f)
    ensures F.EntryAt(F.ReadHeader(f).count) <= e.offset && e.offset + e.size <= |f|
  {
    hide F.ReadHeader, F.RawEntries;
  }

  lemma TailSlice(f: seq<byte>, g: seq<byte>, n: nat, i: nat, j: nat)
    requires |f| == |g| && n <= i <= j <= |f| && f[n..] == g[n..]
    ensures f[i..j] == g[i..j]
  {
    assert forall k :: n <= k < |f| ==> f[k] == f[n..][k - n] == g[n..][k - n] == g[k];
  }

  /**
    Reordering the table changes nothing: every request, under every choice of
    failures, is answered alike.
   */
  lemma OrderIrrelevant(f: seq<byte>, g: seq<byte>, path: Path, mask: bv32, env: Env, other: Env)
    requires Reordered(f, g)
    requires path in env.files && env.files[path] == f && path in other.files && other.files[path] == g
    requires other == env.(files := other.files)
    ensures Fetch(path, mask, other) == Fetch(path, mask, env)
  {
    hide F.ReadHeader, F.RawEntries, LoadAll, LoadOne, Expand, Wanted, P.HeaderGood, P.EntriesGood, P.EntriesOf,
      P.Accepts;
    HeadersAgree(f, g);
    ReorderedBack(f, g);
    if P.Accepts(f) {
      AcceptedAlike(f, g);
      LoadAllAlike(f, g, Wanted(Expand(mask), MAX_ENTRIES), env, other);
    } else if P.Accepts(g) {
      AcceptedAlike(g, f);
    }
  }

  lemma LoadAllAlike(f: seq<byte>, g: seq<byte>, ids: seq<nat>, env: Env, other: Env)
    requires Reordered(f, g) && P.Accepts(f) && P.Accepts(g) && other == env.(files := other.files)
    ensures LoadAll(g, P.EntriesOf(g), ids, other) == LoadAll(f, P.EntriesOf(f), ids, env)
  {
    hide LoadAll, LoadOne, F.ReadHeader, F.RawEntries, P.HeaderGood, P.EntriesGood, Permuted;
    var es, fs := P.EntriesOf(f), P.EntriesOf(g);
    forall i | 0 <= i < |ids|
      ensures LoadOne(g, fs, ids[i], other) == LoadOne(f, es, ids[i], env)
    {
      LoadAlike(f, g, ids[i], env);
      FilesUnused(g, fs, ids[i], env, other);
    }
    LoadAllAgrees(g, fs, f, es, ids, other, env);
  }

  lemma FilesUnused(g: seq<byte>, es: seq<F.Entry>, id: nat, env: Env, other: Env)
    requires other == env.(files := other.files)
    ensures LoadOne(g, es, id, other) == LoadOne(g, es, id, env)
  {
  }
}
