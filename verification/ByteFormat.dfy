/**
  The container format byte by byte, in plain numbers: what the packer writes,
  and what exactly the runtime parser and the validator take.
 */
module ByteFormat {
  import opened Words
  import opened Crc32
  import opened Layout
  import opened PackedImages
  import F = ImageFormat
  import M = Manifest
  import P = ImageParser
  import V = Validator

  // ---- the fields of a file ----

  /** Everything in a header that does not depend on the modules but for their number n. */
  predicate HeadIs(f: seq<byte>, n: nat)
    requires |f| >= 44
  {
    && f[..8] == [80, 83, 50, 73, 82, 88, 48, 49]
    && ReadLe(f, 8) == 1 && ReadLe(f, 12) == 44 && ReadLe(f, 16) == n && ReadLe(f, 20) == 20 && ReadLe(f, 24) == 44
    && ReadLe(f, 32) == |f| && ReadLe(f, 36) == 0
  }

  /** Where the payloads start. */
  function Base(f: seq<byte>): u32
    requires |f| >= 44
  {
    ReadLe(f, 28)
  }

  function Id(f: seq<byte>, k: nat): u32
    requires 44 + 20 * (k + 1) <= |f|
  {
    ReadLe(f, 44 + 20 * k)
  }

  function Offset(f: seq<byte>, k: nat): u32
    requires 44 + 20 * (k + 1) <= |f|
  {
    ReadLe(f, 48 + 20 * k)
  }

  function Size(f: seq<byte>, k: nat): u32
    requires 44 + 20 * (k + 1) <= |f|
  {
    ReadLe(f, 52 + 20 * k)
  }

  function Sum(f: seq<byte>, k: nat): u32
    requires 44 + 20 * (k + 1) <= |f|
  {
    ReadLe(f, 56 + 20 * k)
  }

  function Flags(f: seq<byte>, k: nat): u32
    requires 44 + 20 * (k + 1) <= |f|
  {
    ReadLe(f, 60 + 20 * k)
  }

  /** Where module k - 1 ends, and the payload area starts for the first one. */
  function EndBefore(f: seq<byte>, k: nat): nat
    requires 44 + 20 * k <= |f|
  {
    if k == 0 then Base(f) else Offset(f, k - 1) + Size(f, k - 1)
  }

  /** A non-empty, unflagged, aligned payload inside the payload area. */
  predicate RowInside(f: seq<byte>, k: nat)
    requires 44 + 20 * (k + 1) <= |f|
  {
    Size(f, k) != 0 && Flags(f, k) == 0 && Base(f) <= Offset(f, k) && Offset(f, k) % 16 == 0
    && Offset(f, k) + Size(f, k) <= |f|
  }

  lemma Unpacks(f: seq<byte>, k: nat)
    requires 44 + 20 * (k + 1) <= |f|
    ensures F.ReadEntry(f, F.EntryAt(k)) == F.Entry(Id(f, k), Offset(f, k), Size(f, k), Sum(f, k), Flags(f, k))
  {
    hide ReadLe;
  }

  // ---- the runtime parser ----

  /** The header is one the runtime accepts. */
  predicate HeaderRight(f: seq<byte>) {
    && |f| >= 44
    && var n := ReadLe(f, 16);
       HeadIs(f, n) && 1 <= n <= 128 && 44 + 20 * n <= Base(f) <= |f| && Base(f) % 16 == 0
  }

  /** The whole file is. */
  ghost predicate Loadable(f: seq<byte>) {
    && HeaderRight(f)
    && var n := ReadLe(f, 16);
       && (forall k :: 0 <= k < n ==> Id(f, k) != 0 && RowInside(f, k))
       && forall j, k :: 0 <= j < k < n ==> Id(f, j) != Id(f, k)
  }

  lemma HeaderIsRight(f: seq<byte>)
    ensures |f| >= 44 && f[..8] == F.MAGIC && P.HeaderGood(F.ReadHeader(f), |f|) <==> HeaderRight(f)
  {
    hide ReadLe;
  }

  lemma AcceptsLoadable(f: seq<byte>)
    ensures P.Accepts(f) <==> Loadable(f)
  {
    hide ReadLe;
    if |f| >= 44 {
      var n := ReadLe(f, 16);
      if 44 + 20 * n <= |f| {
        forall k | 0 <= k < n
          ensures F.RawEntries(f, n)[k] ==
                  F.Entry(Id(f, k), Offset(f, k), Size(f, k), Sum(f, k), Flags(f, k))
        {
          Unpacks(f, k);
        }
      }
    }
  }

  // ---- the validator ----

  /** What the validator wants of a file before it looks at the entries. */
  predicate FrontFor(f: seq<byte>, m: seq<M.Entry>) {
    && 44 + 20 * |m| <= |f| < 0x1_0000_0000
    && HeadIs(f, |m|) && ReadLe(f, 40) == Crc(M.Stream(m)) && 44 + 20 * |m| <= Base(f) && Base(f) % 16 == 0
  }

  /** Entry k is the manifest's, inside the file behind the entry before it, with the right CRC. */
  predicate RowFor(f: seq<byte>, m: seq<M.Entry>, k: nat)
    requires k < |m| && 44 + 20 * |m| <= |f|
  {
    && Id(f, k) == m[k].id && RowInside(f, k) && EndBefore(f, k) <= Offset(f, k)
    && Crc(f[Offset(f, k)..Offset(f, k) + Size(f, k)]) == Sum(f, k)
  }

  /** Entry k passes for the manifest's although it starts beyond the end of the file. */
  predicate RowBeyond(f: seq<byte>, m: seq<M.Entry>, k: nat)
    requires k < |m| && 44 + 20 * |m| <= |f|
  {
    && Id(f, k) == m[k].id && Size(f, k) != 0 && Flags(f, k) == 0 && Offset(f, k) % 16 == 0
    && Base(f) <= Offset(f, k) && EndBefore(f, k) <= Offset(f, k)
    && |f| < Offset(f, k) && Offset(f, k) + Size(f, k) <= 0x1_0000_0000 + |f|
  }

  lemma FrontIsMatch(m: seq<M.Entry>, f: seq<byte>)
    ensures V.FrontMatches(m, f) <==> FrontFor(f, m)
  {
    hide ReadLe;
  }

  /** The table, and the validator's predicates on it, in numbers. */
  lemma RowsAre(m: seq<M.Entry>, f: seq<byte>, k: nat)
    requires k < |m| && V.FrontMatches(m, f)
    ensures var es := F.RawEntries(f, |m|);
            && (V.Vouched(es[k], m[k].id, f, Base(f)) && V.PreviousEnd(es, 0, Base(f), k) <= es[k].offset <==>
                RowFor(f, m, k))
            && (V.Escapes(es[k], m[k].id, Base(f), V.PreviousEnd(es, 0, Base(f), k), |f|) <==> RowBeyond(f, m, k))
  {
    hide ReadLe, Crc, M.Fingerprint;
    Unpacks(f, k);
    if k > 0 {
      Unpacks(f, k - 1);
    }
  }

  /** What the validator accepts, byte by byte. */
  lemma ValidatorAccepts(m: seq<M.Entry>, f: seq<byte>)
    ensures V.Judge(m, f) == V.Accepted <==>
            FrontFor(f, m) && forall k :: 0 <= k < |m| ==> RowFor(f, m, k)
  {
    hide ReadLe, Crc, F.ReadHeader, F.RawEntries, V.Vouched, V.JudgeFrom, FrontFor, RowFor, RowBeyond;
    FrontIsMatch(m, f);
    if V.FrontMatches(m, f) {
      var es := F.RawEntries(f, |m|);
      V.RawDecoded(m, f);
      BaseIs(f);
      V.LoopVerdict(m, f, Base(f), 0, Base(f), es);
      forall k | 0 <= k < |m|
        ensures V.Vouched(es[k], m[k].id, f, Base(f)) && V.PreviousEnd(es, 0, Base(f), k) <= es[k].offset <==>
                RowFor(f, m, k)
      {
        RowsAre(m, f, k);
      }
    }
  }

  lemma BaseIs(f: seq<byte>)
    requires |f| >= 44
    ensures F.ReadHeader(f).payloadOffset == Base(f)
  {
  }

  /** And for which files it goes on to read beyond their end. */
  lemma ValidatorLeaves(m: seq<M.Entry>, f: seq<byte>)
    ensures V.Judge(m, f) == V.PastTheEnd <==>
            FrontFor(f, m) &&
              exists k :: 0 <= k < |m| && RowBeyond(f, m, k) && forall j :: 0 <= j < k ==> RowFor(f, m, j)
  {
    hide ReadLe, Crc, F.ReadHeader, F.RawEntries, V.Vouched, V.Escapes, V.JudgeFrom, FrontFor, RowFor, RowBeyond,
      V.PreviousEnd;
    FrontIsMatch(m, f);
    if V.FrontMatches(m, f) {
      var es := F.RawEntries(f, |m|);
      V.RawDecoded(m, f);
      BaseIs(f);
      V.PastTheEndExactly(m, f);
      forall k | 0 <= k < |m|
        ensures V.Vouched(es[k], m[k].id, f, Base(f)) && V.PreviousEnd(es, 0, Base(f), k) <= es[k].offset <==>
                RowFor(f, m, k)
        ensures V.Escapes(es[k], m[k].id, Base(f), V.PreviousEnd(es, 0, Base(f), k), |f|) <==> RowBeyond(f, m, k)
      {
        RowsAre(m, f, k);
      }
      if k: nat :| V.Overruns(es, m, f, Base(f), 0, Base(f), k) {
        assert RowBeyond(f, m, k) && forall j :: 0 <= j < k ==> RowFor(f, m, j);
      }
      if k: nat :| k < |m| && RowBeyond(f, m, k) && forall j :: 0 <= j < k ==> RowFor(f, m, j) {
        assert V.Overruns(es, m, f, Base(f), 0, Base(f), k);
      }
    }
  }

  /**
    An image packed from one manifest is valid against another exactly when it
    fits, the ids are the same in the same order, and so are the fingerprints.
   */
  lemma PackedAgainst(m: seq<M.Entry>, n: seq<M.Entry>, ps: seq<seq<byte>>)
    requires Packable(n, ps)
    ensures V.Judge(m, ImageOf(n, ps)) == V.Accepted <==>
            && Fits(n, ps) && |m| == |n| && Crc(M.Stream(m)) == Crc(M.Stream(n))
            && forall k :: 0 <= k < |m| ==> m[k].id == n[k].id
  {
    hide ReadLe, Crc, ImageOf, Cursor, V.Judge, FrontFor, RowFor, HeadIs;
    var f := ImageOf(n, ps);
    ValidatorAccepts(m, f);
    ValidatorAccepts(n, f);
    PackedValidates(n, ps);
    PackedLength(n, ps);
    SameFront(f, m, n);
    forall k | 0 <= k < |m| == |n| && 44 + 20 * |m| <= |f|
      ensures RowFor(f, m, k) ==> m[k].id == Id(f, k)
      ensures m[k].id == n[k].id ==> (RowFor(f, m, k) <==> RowFor(f, n, k))
    {
      SameRow(f, m, n, k);
    }
    forall k | 0 <= k < |n| && 44 + 20 * |n| <= |f|
      ensures RowFor(f, n, k) ==> n[k].id == Id(f, k)
    {
      SameRow(f, n, n, k);
    }
  }

  lemma SameFront(f: seq<byte>, m: seq<M.Entry>, n: seq<M.Entry>)
    ensures FrontFor(f, m) ==> 44 + 20 * |m| <= |f| < 0x1_0000_0000
    ensures FrontFor(f, m) && FrontFor(f, n) ==> |m| == |n| && Crc(M.Stream(m)) == Crc(M.Stream(n))
    ensures |m| == |n| && Crc(M.Stream(m)) == Crc(M.Stream(n)) ==> (FrontFor(f, m) <==> FrontFor(f, n))
  {
    hide ReadLe, Crc;
  }

  lemma SameRow(f: seq<byte>, m: seq<M.Entry>, n: seq<M.Entry>, k: nat)
    requires k < |m| == |n| && 44 + 20 * |m| <= |f|
    ensures RowFor(f, m, k) ==> m[k].id == Id(f, k)
    ensures m[k].id == n[k].id ==> (RowFor(f, m, k) <==> RowFor(f, n, k))
  {
    hide ReadLe, Crc, RowInside;
  }

  lemma PackedLength(m: seq<M.Entry>, ps: seq<seq<byte>>)
    requires Packable(m, ps)
    ensures Fits(m, ps) <==> |ImageOf(m, ps)| < 0x1_0000_0000
  {
    hide ImageOf, Cursor;
    ImageLength(m, ps);
  }

  // ---- the packer ----

  ghost predicate ZerosOnly(f: seq<byte>, i: nat, j: nat) {
    i <= j <= |f| && forall x :: i <= x < j ==> f[x] == 0
  }

  /** j is the first multiple of 16 from i on, and zeros fill what lies between. */
  ghost predicate PaddedTo(f: seq<byte>, i: nat, j: nat) {
    i <= j < i + 16 && j % 16 == 0 && ZerosOnly(f, i, j)
  }

  /** Row and payload of module k. */
  ghost predicate RowOf(f: seq<byte>, m: seq<M.Entry>, ps: seq<seq<byte>>, k: nat)
    requires k < |m| == |ps| && 44 + 20 * |m| <= |f|
  {
    && Id(f, k) == m[k].id && Size(f, k) == |ps[k]| && Sum(f, k) == Crc(ps[k]) && Flags(f, k) == 0
    && PaddedTo(f, EndBefore(f, k), Offset(f, k))
    && Offset(f, k) + Size(f, k) <= |f| && f[Offset(f, k)..Offset(f, k) + Size(f, k)] == ps[k]
  }

  /** The file holds the manifest's modules, byte by byte. */
  ghost predicate Packed(f: seq<byte>, m: seq<M.Entry>, ps: seq<seq<byte>>)
    requires |m| == |ps|
  {
    && 44 + 20 * |m| <= |f| < 0x1_0000_0000
    && HeadIs(f, |m|) && ReadLe(f, 40) == Crc(M.Stream(m)) && PaddedTo(f, 44 + 20 * |m|, Base(f))
    && (forall k :: 0 <= k < |m| ==> RowOf(f, m, ps, k))
    && PaddedTo(f, EndBefore(f, |m|), |f|)
  }

  lemma PackedFront(m: seq<M.Entry>, ps: seq<seq<byte>>)
    requires Packable(m, ps) && Fits(m, ps)
    ensures var f := ImageOf(m, ps);
            && 44 + 20 * |m| <= |f| < 0x1_0000_0000
            && HeadIs(f, |m|) && ReadLe(f, 40) == Crc(M.Stream(m)) && PaddedTo(f, 44 + 20 * |m|, Base(f))
            && Base(f) == Start(|m|)
            && forall k :: 0 <= k < |m| ==>
                 F.Entry(Id(f, k), Offset(f, k), Size(f, k), Sum(f, k), Flags(f, k)) == EntryFor(Start(|m|), m, ps, k)
  {
    hide ReadLe, Crc, ImageOf, Cursor, Cursor32, EntryFor, Start, Body, F.RawEntries;
    var f := ImageOf(m, ps);
    FrontReads(m, ps);
    StartIs(|m|);
    BaseIs(f);
    ImageLength(m, ps);
    forall k | 0 <= k < |m|
      ensures F.Entry(Id(f, k), Offset(f, k), Size(f, k), Sum(f, k), Flags(f, k)) == EntryFor(Start(|m|), m, ps, k)
    {
      EntryReads(m, ps, k);
      Unpacks(f, k);
    }
    TablePadding(m, ps);
  }

  /** Zeros between the table and the payload area. */
  lemma TablePadding(m: seq<M.Entry>, ps: seq<seq<byte>>)
    requires |m| == |ps| <= 128
    ensures ZerosOnly(ImageOf(m, ps), 44 + 20 * |m|, Start(|m|))
  {
    hide Crc, Cursor, Cursor32, Start, Body, F.HeaderBytes, F.Table, HeaderFor, Entries, Padding;
    ImageLength(m, ps);
    StartIs(|m|);
    var front := F.HeaderBytes(HeaderFor(m, ps)) + F.Table(Entries(Start(|m|), m, ps));
    PadsBehind(front, Padding(F.EntryAt(|m|)), Body(ps));
  }

  lemma PadsBehind(a: seq<byte>, n: nat, b: seq<byte>)
    ensures ZerosOnly(a + Zeros(n) + b, |a|, |a| + n)
  {
  }

  lemma PayloadRow(m: seq<M.Entry>, ps: seq<seq<byte>>, k: nat)
    requires Packable(m, ps) && Fits(m, ps) && k < |m|
    ensures var f := ImageOf(m, ps);
            && 44 + 20 * |m| <= |f| && RowOf(f, m, ps, k)
            && (k + 1 == |m| ==> PaddedTo(f, EndBefore(f, |m|), |f|))
  {
    hide ReadLe, Crc, ImageOf, Cursor, Cursor32, Start, Padding, Wrap, ZerosOnly, EntryFor, HeadIs, PaddedTo, HeaderFor;
    var f := ImageOf(m, ps);
    PackedFront(m, ps);
    PayloadAt(m, ps, k);
    if k > 0 {
      PayloadAt(m, ps, k - 1);
      GapPadded(f, EndBefore(f, k), Offset(f, k));
    } else {
      FirstOffset(m, ps);
      StartIs(|m|);
      NoGap(f, Base(f));
    }
    EntryIs(m, ps, k);
    if k + 1 == |m| {
      ImageLength(m, ps);
      BodyLength(Start(|m|), ps);
      GapPadded(f, EndBefore(f, |m|), |f|);
    }
  }

  lemma EntryIs(m: seq<M.Entry>, ps: seq<seq<byte>>, k: nat)
    requires k < |m| == |ps| <= 128
    ensures var e := EntryFor(Start(|m|), m, ps, k); e.id == m[k].id && e.crc == Crc(ps[k]) && e.flags == 0
  {
    hide Crc, Start;
  }

  lemma GapPadded(f: seq<byte>, i: nat, j: nat)
    requires i <= j < i + 16 && j <= |f| && OnBoundary(j) && f[i..j] == Zeros(j - i)
    ensures PaddedTo(f, i, j)
  {
    SliceOfZeros(f, i, j);
  }

  lemma NoGap(f: seq<byte>, i: nat)
    requires i <= |f| && OnBoundary(i)
    ensures PaddedTo(f, i, i)
  {
  }

  lemma FirstOffset(m: seq<M.Entry>, ps: seq<seq<byte>>)
    requires 0 < |m| == |ps| <= 128
    ensures EntryFor(Start(|m|), m, ps, 0).offset == Start(|m|)
  {
    hide Crc;
    assert ps[..0] == [];
  }

  lemma SliceOfZeros(f: seq<byte>, i: nat, j: nat)
    requires i <= j <= |f| && f[i..j] == Zeros(j - i)
    ensures ZerosOnly(f, i, j)
  {
    assert forall x :: i <= x < j ==> f[x] == f[i..j][x - i];
  }

  /** What the packer writes is as described. */
  lemma PackerWrites(m: seq<M.Entry>, ps: seq<seq<byte>>)
    requires Packable(m, ps) && Fits(m, ps)
    ensures Packed(ImageOf(m, ps), m, ps)
  {
    hide ReadLe, Crc, ImageOf, Cursor, Cursor32, Start, HeadIs, PaddedTo, RowOf, EntryFor;
    PackedFront(m, ps);
    forall k | 0 <= k < |m|
      ensures RowOf(ImageOf(m, ps), m, ps, k)
    {
      PayloadRow(m, ps, k);
    }
    PayloadRow(m, ps, |m| - 1);
  }

  // ---- the description leaves no choice ----

  lemma FirstBoundary(i: nat, j: nat)
    requires i <= j < i + 16 && j % 16 == 0
    ensures j == Aligned(i)
  {
  }

  /** The row of module k, from the description of the whole. */
  lemma RowAt(f: seq<byte>, m: seq<M.Entry>, ps: seq<seq<byte>>, k: nat)
    requires k < |m| == |ps| && Packed(f, m, ps)
    ensures 44 + 20 * |m| <= |f| && RowOf(f, m, ps, k)
  {
    hide RowOf;
  }

  lemma {:induction false} OffsetIs(f: seq<byte>, m: seq<M.Entry>, ps: seq<seq<byte>>, k: nat)
    requires |m| == |ps| && k < |m| && Packed(f, m, ps)
    ensures Base(f) == Start(|m|) && Offset(f, k) == Cursor(Start(|m|), ps[..k])
  {
    hide ReadLe, Crc, HeadIs, ZerosOnly, Aligned, Cursor;
    FirstBoundary(44 + 20 * |m|, Base(f));
    assert RowOf(f, m, ps, k);
    FirstBoundary(EndBefore(f, k), Offset(f, k));
    if k == 0 {
      FirstBoundary(Base(f), Base(f));
      CursorOfNone(Start(|m|), ps);
    } else {
      OffsetIs(f, m, ps, k - 1);
      assert RowOf(f, m, ps, k - 1);
      CursorOfMore(Start(|m|), ps, k);
    }
  }

  lemma CursorOfNone(start: nat, ps: seq<seq<byte>>)
    ensures Cursor(start, ps[..0]) == start
  {
  }

  lemma CursorOfMore(start: nat, ps: seq<seq<byte>>, k: nat)
    requires 0 < k <= |ps|
    ensures Cursor(start, ps[..k]) == Aligned(Cursor(start, ps[..k - 1]) + |ps[k - 1]|)
  {
    assert ps[..k][..k - 1] == ps[..k - 1];
  }

  /** A file that is as described is as long as the exact cursor says, so the total fits. */
  lemma LengthIs(f: seq<byte>, m: seq<M.Entry>, ps: seq<seq<byte>>)
    requires Packable(m, ps) && Packed(f, m, ps)
    ensures |f| == Cursor(Start(|m|), ps)
  {
    hide ReadLe, Crc, HeadIs, ZerosOnly, Aligned, Cursor;
    var n := |m|;
    OffsetIs(f, m, ps, n - 1);
    assert RowOf(f, m, ps, n - 1);
    FirstBoundary(EndBefore(f, n), |f|);
    CursorOfMore(Start(n), ps, n);
    assert ps[..n] == ps;
  }

  lemma Extend(f: seq<byte>, g: seq<byte>, i: nat, j: nat)
    requires i <= j <= |f| && j <= |g| && f[..i] == g[..i] && f[i..j] == g[i..j]
    ensures f[..j] == g[..j]
  {
    assert f[..j] == f[..i] + f[i..j] && g[..j] == g[..i] + g[i..j];
  }

  lemma ExtendZeros(f: seq<byte>, g: seq<byte>, i: nat, j: nat)
    requires ZerosOnly(f, i, j) && ZerosOnly(g, i, j) && f[..i] == g[..i]
    ensures f[..j] == g[..j]
  {
    assert f[i..j] == g[i..j];
    Extend(f, g, i, j);
  }

  lemma ExtendWord(f: seq<byte>, g: seq<byte>, at: nat)
    requires at + 4 <= |f| && at + 4 <= |g| && f[..at] == g[..at] && ReadLe(f, at) == ReadLe(g, at)
    ensures f[..at + 4] == g[..at + 4]
  {
    hide ReadLe, Le;
    ReadAt(f, at, ReadLe(f, at));
    ReadAt(g, at, ReadLe(f, at));
    Extend(f, g, at, at + 4);
  }

  lemma SameHead(f: seq<byte>, g: seq<byte>, n: nat)
    requires 44 <= |f| == |g| && HeadIs(f, n) && HeadIs(g, n) && ReadLe(f, 40) == ReadLe(g, 40) && Base(f) == Base(g)
    ensures f[..44] == g[..44]
  {
    hide ReadLe;
    ExtendWord(f, g, 8);
    ExtendWord(f, g, 12);
    ExtendWord(f, g, 16);
    ExtendWord(f, g, 20);
    ExtendWord(f, g, 24);
    ExtendWord(f, g, 28);
    ExtendWord(f, g, 32);
    ExtendWord(f, g, 36);
    ExtendWord(f, g, 40);
  }

  lemma {:induction false} SameRows(f: seq<byte>, g: seq<byte>, m: seq<M.Entry>, ps: seq<seq<byte>>, k: nat)
    requires |m| == |ps| && k <= |m| && Packed(f, m, ps) && Packed(g, m, ps) && |f| == |g|
    ensures f[..44 + 20 * k] == g[..44 + 20 * k]
  {
    hide ReadLe, Crc, PaddedTo, Packed, Cursor, Start;
    if k == 0 {
      SameBase(f, g, m, ps);
      SameHead(f, g, |m|);
    } else {
      SameRows(f, g, m, ps, k - 1);
      RowAt(f, m, ps, k - 1);
      RowAt(g, m, ps, k - 1);
      OffsetIs(f, m, ps, k - 1);
      OffsetIs(g, m, ps, k - 1);
      var at := 44 + 20 * (k - 1);
      ExtendWord(f, g, at);
      ExtendWord(f, g, at + 4);
      ExtendWord(f, g, at + 8);
      ExtendWord(f, g, at + 12);
      ExtendWord(f, g, at + 16);
    }
  }

  lemma SameBase(f: seq<byte>, g: seq<byte>, m: seq<M.Entry>, ps: seq<seq<byte>>)
    requires |m| == |ps| && Packed(f, m, ps) && Packed(g, m, ps)
    ensures |f| >= 44 && |g| >= 44 && Base(f) == Base(g)
    ensures HeadIs(f, |m|) && HeadIs(g, |m|) && ReadLe(f, 40) == ReadLe(g, 40)
    ensures 44 + 20 * |m| <= |f| && PaddedTo(f, 44 + 20 * |m|, Base(f)) && PaddedTo(g, 44 + 20 * |m|, Base(g))
  {
    hide ReadLe, Crc, HeadIs, ZerosOnly, RowOf;
    FirstBoundary(44 + 20 * |m|, Base(f));
    FirstBoundary(44 + 20 * |m|, Base(g));
  }

  lemma {:induction false} SamePayloads(f: seq<byte>, g: seq<byte>, m: seq<M.Entry>, ps: seq<seq<byte>>, k: nat)
    requires |m| == |ps| && k <= |m| && Packed(f, m, ps) && Packed(g, m, ps) && |f| == |g|
    ensures EndBefore(f, k) == EndBefore(g, k) <= |f| && f[..EndBefore(f, k)] == g[..EndBefore(f, k)]
  {
    hide ReadLe, Crc, HeadIs, ZerosOnly, Packed, Cursor, Start;
    if k == 0 {
      SameBase(f, g, m, ps);
      SameRows(f, g, m, ps, |m|);
      ZerosFit(f, 44 + 20 * |m|, Base(f));
      ExtendZeros(f, g, 44 + 20 * |m|, Base(f));
    } else {
      SamePayloads(f, g, m, ps, k - 1);
      RowAt(f, m, ps, k - 1);
      RowAt(g, m, ps, k - 1);
      OffsetIs(f, m, ps, k - 1);
      OffsetIs(g, m, ps, k - 1);
      var i, j := EndBefore(f, k - 1), Offset(f, k - 1);
      ExtendZeros(f, g, i, j);
      Extend(f, g, j, j + |ps[k - 1]|);
    }
  }

  lemma ZerosFit(f: seq<byte>, i: nat, j: nat)
    requires ZerosOnly(f, i, j)
    ensures j <= |f|
  {
  }

  /**
    A file is as described exactly when it is the packed image and its total
    fits: the description leaves the packer no choice of any byte.
   */
  lemma PackedExactly(f: seq<byte>, m: seq<M.Entry>, ps: seq<seq<byte>>)
    requires Packable(m, ps)
    ensures Packed(f, m, ps) <==> Fits(m, ps) && f == ImageOf(m, ps)
  {
    hide Packed, ImageOf, Cursor, Start, EndBefore;
    if Fits(m, ps) {
      PackerWrites(m, ps);
    }
    if Packed(f, m, ps) {
      LengthIs(f, m, ps);
      LengthBelow(f, m, ps);
      var g := ImageOf(m, ps);
      PackerWrites(m, ps);
      LengthIs(g, m, ps);
      SamePayloads(f, g, m, ps, |m|);
      SameEnd(f, g, m, ps);
    }
  }

  lemma LengthBelow(f: seq<byte>, m: seq<M.Entry>, ps: seq<seq<byte>>)
    requires |m| == |ps| && Packed(f, m, ps)
    ensures 44 + 20 * |m| <= |f| < 0x1_0000_0000
  {
  }

  lemma SameEnd(f: seq<byte>, g: seq<byte>, m: seq<M.Entry>, ps: seq<seq<byte>>)
    requires |m| == |ps| && Packed(f, m, ps) && Packed(g, m, ps) && |f| == |g|
    requires EndBefore(f, |m|) == EndBefore(g, |m|) <= |f| && f[..EndBefore(f, |m|)] == g[..EndBefore(f, |m|)]
    ensures f == g
  {
    hide ReadLe, Crc, HeadIs, ZerosOnly;
    ExtendZeros(f, g, EndBefore(f, |m|), |f|);
    assert f[..|f|] == f && g[..|g|] == g;
  }
}
