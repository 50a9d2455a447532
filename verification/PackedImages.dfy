/**
  What the packer writes against what the two readers accept.
 */
module PackedImages {
  import opened Words
  import opened Crc32
  import opened ImageFormat
  import opened Layout
  import M = Manifest
  import P = ImageParser
  import V = Validator

  /** A manifest and the payload of each of its entries. */
  ghost predicate Packable(m: seq<M.Entry>, ps: seq<seq<byte>>) {
    M.Valid(m) && |m| == |ps| && Sized(ps)
  }

  /** The aligned total fits 32 bits. */
  ghost predicate Fits(m: seq<M.Entry>, ps: seq<seq<byte>>) {
    Cursor(Start(|m|), ps) < LIMIT
  }

  lemma HeaderFirst(m: seq<M.Entry>, ps: seq<seq<byte>>)
    requires Packable(m, ps)
    ensures var h, es := HeaderFor(m, ps), Entries(Start(|m|), m, ps);
            var rest := Zeros(Padding(EntryAt(|m|))) + Body(ps);
            && ImageOf(m, ps) == HeaderBytes(h) + (Table(es) + rest)
            && ImageOf(m, ps) == HeaderBytes(h) + Table(es) + rest
  {
    hide HeaderBytes, Table, Entries, HeaderFor, Padding, Body;
    Reassociate(HeaderBytes(HeaderFor(m, ps)), Table(Entries(Start(|m|), m, ps)), Zeros(Padding(EntryAt(|m|))),
                Body(ps));
  }

  lemma Reassociate(a: seq<byte>, b: seq<byte>, c: seq<byte>, d: seq<byte>)
    ensures (a + b + c) + d == a + (b + (c + d)) == a + b + (c + d)
  {
  }

  /** Header and table read back as they were meant. */
  lemma FrontReads(m: seq<M.Entry>, ps: seq<seq<byte>>)
    requires Packable(m, ps) && Fits(m, ps)
    ensures |ImageOf(m, ps)| < LIMIT && EntryAt(|m|) <= Start(|m|) <= |ImageOf(m, ps)|
    ensures ImageOf(m, ps)[..8] == MAGIC && ReadHeader(ImageOf(m, ps)) == HeaderFor(m, ps)
    ensures V.HeaderMatches(HeaderFor(m, ps), m, |ImageOf(m, ps)|)
    ensures RawEntries(ImageOf(m, ps), |m|) == Entries(Start(|m|), m, ps)
  {
    hide HeaderBytes, Table, Entries, Padding, Body, ImageOf, Start, Cursor32, Wrap, RawEntries, ReadHeader,
      M.Fingerprint;
    ImageLength(m, ps);
    StartIs(|m|);
    CursorMonotone(Start(|m|), ps, 0);
    WrapSmall(|ImageOf(m, ps)|);
    HeaderFirst(m, ps);
    var es := Entries(Start(|m|), m, ps);
    var rest := Zeros(Padding(EntryAt(|m|))) + Body(ps);
    HeaderRoundTrip(HeaderFor(m, ps), Table(es) + rest);
    TableRoundTrip(HeaderBytes(HeaderFor(m, ps)), es, rest);
  }

  lemma EntryReads(m: seq<M.Entry>, ps: seq<seq<byte>>, k: nat)
    requires Packable(m, ps) && Fits(m, ps) && k < |m|
    ensures EntryAt(|m|) <= |ImageOf(m, ps)| && ReadEntry(ImageOf(m, ps), EntryAt(k)) == EntryFor(Start(|m|), m, ps, k)
  {
    hide ReadEntry, ImageOf, Start, EntryFor;
    FrontReads(m, ps);
    assert RawEntries(ImageOf(m, ps), |m|)[k] == Entries(Start(|m|), m, ps)[k];
  }

  function EndOf(e: Entry): int {
    e.offset + e.size
  }

  lemma PassesWhenInside(e: Entry, start: u32, previousEnd: u32, size: u32)
    requires P.InBounds(e, start, size) && (previousEnd == start || previousEnd <= e.offset)
    ensures V.EntryPasses(e, start, previousEnd, size) && Add32(e.offset, e.size) == EndOf(e) <= size
  {
  }

  /** Entry i of a packed image, with its payload, is where and what the validator expects. */
  lemma EntryInPlace(m: seq<M.Entry>, ps: seq<seq<byte>>, i: nat)
    requires Packable(m, ps) && Fits(m, ps) && i < |m|
    ensures var image, e := ImageOf(m, ps), EntryFor(Start(|m|), m, ps, i);
            && e.id == m[i].id && P.InBounds(e, Start(|m|), |image|)
            && Crc(image[e.offset..e.offset + e.size]) == e.crc
            && (i > 0 ==> EndOf(EntryFor(Start(|m|), m, ps, i - 1)) <= e.offset)
  {
    hide ImageOf, Start, Cursor32, Cursor, Padding, Crc, Wrap, OnBoundary;
    StartIs(|m|);
    PayloadAt(m, ps, i);
    if i > 0 {
      PayloadAt(m, ps, i - 1);
    }
  }

  lemma {:induction false} PackedTail(m: seq<M.Entry>, ps: seq<seq<byte>>, i: nat, start: u32, previousEnd: u32)
    requires Packable(m, ps) && Fits(m, ps) && i <= |m| && start == Start(|m|)
    requires previousEnd == if i == 0 then start else EndOf(EntryFor(start, m, ps, i - 1))
    requires EntryAt(|m|) <= |ImageOf(m, ps)| < LIMIT
    ensures V.JudgeFrom(m, ImageOf(m, ps), start, i, previousEnd) == V.Accepted
    decreases |m| - i
  {
    hide ImageOf, Start, EntryFor, ReadEntry, Crc, V.EntryPasses, Wrap, Add32, P.InBounds, OnBoundary;
    if i < |m| {
      EntryInPlace(m, ps, i);
      EntryReads(m, ps, i);
      var e := EntryFor(start, m, ps, i);
      PassesWhenInside(e, start, previousEnd, |ImageOf(m, ps)|);
      PackedTail(m, ps, i + 1, start, Add32(e.offset, e.size));
    }
  }

  /** The validator accepts what the packer wrote from the same manifest, exactly when the total fits. */
  lemma PackedValidates(m: seq<M.Entry>, ps: seq<seq<byte>>)
    requires Packable(m, ps)
    ensures V.Judge(m, ImageOf(m, ps)) == V.Accepted <==> Fits(m, ps)
  {
    hide ImageOf, Start, Cursor, Cursor32, ReadHeader, V.HeaderMatches, V.JudgeFrom, M.Fingerprint;
    ImageLength(m, ps);
    if Fits(m, ps) {
      FrontReads(m, ps);
      StartIs(|m|);
      PackedTail(m, ps, 0, Start(|m|), Start(|m|));
    }
  }

  /**
    The runtime parser reads back every id, offset, size and CRC, and each
    recorded range holds the packed payload byte for byte.
   */
  lemma PackedParses(m: seq<M.Entry>, ps: seq<seq<byte>>)
    requires Packable(m, ps) && Fits(m, ps)
    ensures P.Accepts(ImageOf(m, ps)) && |P.EntriesOf(ImageOf(m, ps))| == |m|
    ensures forall k :: 0 <= k < |m| ==>
      var e := P.EntriesOf(ImageOf(m, ps))[k];
      && e == Entry(m[k].id, e.offset, |ps[k]|, Crc(ps[k]), 0) && e.offset == Cursor(Start(|m|), ps[..k])
      && e.offset + e.size <= |ImageOf(m, ps)| && ImageOf(m, ps)[e.offset..e.offset + e.size] == ps[k]
  {
    hide ImageOf, Start, Cursor, Cursor32, ReadHeader, V.HeaderMatches, V.Judge, M.Fingerprint, RawEntries, Crc,
      Padding, Wrap;
    PackedValidates(m, ps);
    V.AcceptedParses(m, ImageOf(m, ps));
    FrontReads(m, ps);
    forall k | 0 <= k < |m|
      ensures var e := P.EntriesOf(ImageOf(m, ps))[k];
              && e == Entry(m[k].id, e.offset, |ps[k]|, Crc(ps[k]), 0) && e.offset == Cursor(Start(|m|), ps[..k])
              && e.offset + e.size <= |ImageOf(m, ps)| && ImageOf(m, ps)[e.offset..e.offset + e.size] == ps[k]
    {
      PayloadAt(m, ps, k);
      OffsetsFit(m, ps, k);
      assert P.EntriesOf(ImageOf(m, ps))[k] == EntryFor(Start(|m|), m, ps, k);
    }
  }

  /**
    The packer's own size test lets a wrap through: this payload passes it, the
    cursor aligns to zero, and the image that results is not a loadable one.
   */
  lemma GuardMissesWrap(m: seq<M.Entry>, p: seq<byte>)
    requires |m| == 1 && |p| == 0xffff_ffbf
    ensures |p| <= LIMIT - 1 - Cursor32(Start(1), [])
    ensures Cursor32(Start(1), [p]) == 0 && !Fits(m, [p])
  {
    hide Wrap, AlignUp;
    assert Start(1) == 64;
    OneCursor(64, p);
    assert Padding(0x1_0000_0000 - 1) == 1;
    CursorWraps(64, [p]);
    WrapShift(0, 1);
    WrapSmall(0);
  }

  lemma OneCursor(start: u32, p: seq<byte>)
    ensures Cursor(start, [p]) == Aligned(start + |p|) && Cursor32(start, []) == start
  {
    assert [p][..0] == [];
  }
}
