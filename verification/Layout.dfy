/**
  Where the packer puts things: the same cursor in exact and in 32-bit
  arithmetic, and the image it means to write.
 */
module Layout {
  import opened ImageConstants
  import opened Words
  import opened Crc32
  import opened ImageFormat
  import M = Manifest

  /** Payload sizes as read_file admits them. */
  ghost predicate Sized(ps: seq<seq<byte>>) {
    forall i :: 0 <= i < |ps| ==> 0 < |ps[i]| < LIMIT
  }

  /** First payload byte of an image with n entries. */
  function Start(n: nat): nat {
    Aligned(EntryAt(n))
  }

  /** Where the next payload goes after ps, in exact arithmetic. */
  function Cursor(start: nat, ps: seq<seq<byte>>): nat {
    if ps == [] then start else Aligned(Cursor(start, ps[..|ps| - 1]) + |ps[|ps| - 1]|)
  }

  /** The packer's cursor, whose additions wrap. */
  function Cursor32(start: u32, ps: seq<seq<byte>>): u32 {
    if ps == [] then start
    else AlignUp(Add32(Cursor32(start, ps[..|ps| - 1]), Wrap(|ps[|ps| - 1]|)))
  }

  function Body(ps: seq<seq<byte>>): seq<byte> {
    if ps == [] then []
    else
      var p := ps[|ps| - 1];
      Body(ps[..|ps| - 1]) + (p + Zeros(Padding(|p|)))
  }

  function EntryFor(start: u32, m: seq<M.Entry>, ps: seq<seq<byte>>, i: nat): Entry
    requires i < |m| == |ps|
  {
    Entry(m[i].id, Cursor32(start, ps[..i]), Wrap(|ps[i]|), Crc(ps[i]), 0)
  }

  function Entries(start: u32, m: seq<M.Entry>, ps: seq<seq<byte>>): (es: seq<Entry>)
    requires |m| == |ps|
    ensures |es| == |m|
  {
    seq(|m|, (i: int) requires 0 <= i < |m| => EntryFor(start, m, ps, i))
  }

  function HeaderFor(m: seq<M.Entry>, ps: seq<seq<byte>>): Header
    requires |m| == |ps| <= MAX_ENTRIES
  {
    Header(VERSION, HEADER_SIZE, |m|, ENTRY_SIZE, HEADER_SIZE, Start(|m|), Cursor32(Start(|m|), ps), 0,
           M.Fingerprint(m))
  }

  /** Everything before the first payload. */
  function Front(m: seq<M.Entry>, ps: seq<seq<byte>>): seq<byte>
    requires |m| == |ps| <= MAX_ENTRIES
  {
    HeaderBytes(HeaderFor(m, ps)) + Table(Entries(Start(|m|), m, ps)) + Zeros(Padding(EntryAt(|m|)))
  }

  function ImageOf(m: seq<M.Entry>, ps: seq<seq<byte>>): seq<byte>
    requires |m| == |ps| <= MAX_ENTRIES
  {
    Front(m, ps) + Body(ps)
  }

  // ---- exact and wrapping cursors ----

  lemma WrapShift(x: int, q: int)
    ensures Wrap(x + 0x1_0000_0000 * q) == Wrap(x)
  {
  }

  lemma BoundaryShift(x: nat, q: int)
    requires x + 16 * q >= 0
    ensures Padding(x + 16 * q) == Padding(x)
  {
    assert (x + 16 * q) % 16 == x % 16;
  }

  lemma WrapSmall(x: int)
    ensures Wrap(x) == x - 0x1_0000_0000 * (x / 0x1_0000_0000)
    ensures 0 <= x < LIMIT ==> Wrap(x) == x
  {
  }

  lemma PaddingMod(c: nat, s: nat)
    ensures Padding(Wrap(c + s)) == Padding(c + s)
    ensures OnBoundary(c) ==> Padding(c + s) == Padding(s)
  {
    WrapSmall(c + s);
    BoundaryShift(c + s, -0x1000_0000 * ((c + s) / 0x1_0000_0000));
    BoundaryShift(s, c / 16);
  }

  lemma WrapSums(c: nat, s: nat, p: nat)
    ensures Wrap(Wrap(c + s) + p) == Wrap(c + s + p)
    ensures Add32(Wrap(c), Wrap(s)) == Wrap(c + s)
  {
    hide Wrap;
    WrapSmall(c + s);
    WrapSmall(c);
    WrapSmall(s);
    WrapShift(c + s + p, -((c + s) / 0x1_0000_0000));
    WrapShift(c + s, -(c / 0x1_0000_0000) - s / 0x1_0000_0000);
  }

  /** The packer's cursor is the exact one modulo 2^32, wraps included. */
  lemma {:induction false} CursorWraps(start: nat, ps: seq<seq<byte>>)
    requires start < LIMIT
    ensures Cursor32(start, ps) == Wrap(Cursor(start, ps))
  {
    hide Padding, OnBoundary, Wrap, AlignUp, Add32;
    WrapSmall(start);
    if ps != [] {
      var n := |ps| - 1;
      var c, s := Cursor(start, ps[..n]), |ps[n]|;
      CursorWraps(start, ps[..n]);
      WrapSums(c, s, Padding(c + s));
      AlignUpWraps(Wrap(c + s));
      PaddingMod(c, s);
    }
  }

  lemma StartIs(n: nat)
    requires n <= MAX_ENTRIES
    ensures OnBoundary(Start(n)) && EntryAt(n) <= Start(n) < EntryAt(n) + ALIGNMENT && Start(n) < 3000
  {
  }

  lemma {:induction false} BodyLength(start: nat, ps: seq<seq<byte>>)
    requires OnBoundary(start)
    ensures start + |Body(ps)| == Cursor(start, ps) && OnBoundary(Cursor(start, ps))
  {
    hide Padding, OnBoundary, Wrap, AlignUp;
    if ps != [] {
      var n := |ps| - 1;
      BodyLength(start, ps[..n]);
      PaddingMod(Cursor(start, ps[..n]), |ps[n]|);
    }
  }

  lemma CursorStep(start: nat, ps: seq<seq<byte>>, k: nat)
    requires OnBoundary(start) && k < |ps|
    ensures Cursor(start, ps[..k + 1]) == Cursor(start, ps[..k]) + |ps[k]| + Padding(|ps[k]|)
  {
    hide Padding, OnBoundary, Wrap, AlignUp;
    assert ps[..k + 1][..k] == ps[..k];
    BodyLength(start, ps[..k]);
    PaddingMod(Cursor(start, ps[..k]), |ps[k]|);
  }

  lemma {:induction false} CursorMonotone(start: nat, ps: seq<seq<byte>>, k: nat)
    requires OnBoundary(start) && k <= |ps|
    ensures start <= Cursor(start, ps[..k]) <= Cursor(start, ps)
    decreases |ps| - k
  {
    hide Padding, OnBoundary, Wrap, AlignUp;
    if k == |ps| {
      assert ps[..k] == ps;
      BodyLength(start, ps);
    } else {
      CursorStep(start, ps, k);
      CursorMonotone(start, ps, k + 1);
      BodyLength(start, ps[..k]);
    }
  }

  /** The image's real length is the exact cursor, also when the packer's own cursor has wrapped. */
  lemma ImageLength(m: seq<M.Entry>, ps: seq<seq<byte>>)
    requires |m| == |ps| <= MAX_ENTRIES
    ensures |Front(m, ps)| == Start(|m|) && OnBoundary(Start(|m|))
    ensures |ImageOf(m, ps)| == Cursor(Start(|m|), ps)
    ensures Wrap(|ImageOf(m, ps)|) == Cursor32(Start(|m|), ps)
  {
    hide Padding, OnBoundary, Wrap, AlignUp, Cursor, Cursor32, Body;
    assert EntryAt(|m|) + Padding(EntryAt(|m|)) == Start(|m|);
    BodyLength(Start(|m|), ps);
    CursorWraps(Start(|m|), ps);
  }

  // ---- where payloads and gaps lie ----

  /** A payload and its zero padding stand at a place. */
  ghost predicate Placed(s: seq<byte>, at: nat, p: seq<byte>) {
    && at + |p| + Padding(|p|) <= |s|
    && s[at..at + |p|] == p
    && s[at + |p|..at + |p| + Padding(|p|)] == Zeros(Padding(|p|))
  }

  lemma PlacedBefore(a: seq<byte>, b: seq<byte>, at: nat, p: seq<byte>)
    requires Placed(a, at, p)
    ensures Placed(a + b, at, p)
  {
    var mid, end := at + |p|, at + |p| + Padding(|p|);
    assert (a + b)[at..mid] == a[at..mid] && (a + b)[mid..end] == a[mid..end];
  }

  lemma PlacedAfter(a: seq<byte>, b: seq<byte>, at: nat, p: seq<byte>)
    requires Placed(b, at, p)
    ensures Placed(a + b, |a| + at, p)
  {
    var mid, end := at + |p|, at + |p| + Padding(|p|);
    assert (a + b)[|a| + at..|a| + mid] == b[at..mid] && (a + b)[|a| + mid..|a| + end] == b[mid..end];
  }

  lemma PlacedAlone(p: seq<byte>)
    ensures Placed(p + Zeros(Padding(|p|)), 0, p)
  {
  }

  lemma {:induction false} BodyAt(ps: seq<seq<byte>>, k: nat)
    requires k < |ps|
    ensures Placed(Body(ps), |Body(ps[..k])|, ps[k])
  {
    hide Placed;
    var n := |ps| - 1;
    var front, last := Body(ps[..n]), ps[n] + Zeros(Padding(|ps[n]|));
    if k < n {
      assert ps[..n][..k] == ps[..k];
      BodyAt(ps[..n], k);
      PlacedBefore(front, last, |Body(ps[..k])|, ps[k]);
    } else {
      PlacedAlone(ps[n]);
      PlacedAfter(front, last, 0, ps[n]);
    }
  }

  /** Payload k of the image stands at its exact cursor. */
  lemma ImagePlaces(m: seq<M.Entry>, ps: seq<seq<byte>>, k: nat)
    requires |m| == |ps| <= MAX_ENTRIES && k < |ps|
    ensures Placed(ImageOf(m, ps), Cursor(Start(|m|), ps[..k]), ps[k])
  {
    hide Padding, OnBoundary, Wrap, AlignUp, Cursor, Body, Front, Placed, Start;
    ImageLength(m, ps);
    BodyLength(Start(|m|), ps[..k]);
    BodyAt(ps, k);
    PlacedAfter(Front(m, ps), Body(ps), |Body(ps[..k])|, ps[k]);
  }

  /** While the total fits, recorded offsets are exact, ordered and aligned. */
  lemma OffsetsFit(m: seq<M.Entry>, ps: seq<seq<byte>>, k: nat)
    requires |m| == |ps| <= MAX_ENTRIES && Sized(ps) && k < |ps|
    requires Cursor(Start(|m|), ps) < LIMIT
    ensures var e := EntryFor(Start(|m|), m, ps, k);
            && e.size == |ps[k]| && e.offset == Cursor(Start(|m|), ps[..k])
            && OnBoundary(e.offset) && Start(|m|) <= e.offset
            && e.offset + e.size + Padding(e.size) == Cursor(Start(|m|), ps[..k + 1]) <= Cursor(Start(|m|), ps)
  {
    hide Padding, OnBoundary, Wrap, AlignUp, Cursor, Cursor32, Start, Crc;
    var start := Start(|m|);
    StartIs(|m|);
    BodyLength(start, ps[..k]);
    CursorStep(start, ps, k);
    CursorMonotone(start, ps, k);
    CursorMonotone(start, ps, k + 1);
    CursorWraps(start, ps[..k]);
    WrapSmall(Cursor(start, ps[..k]));
    WrapSmall(|ps[k]|);
  }

  /**
    When the aligned total fits 32 bits the file is as long as its header says,
    every payload stands at its recorded offset, and what separates it from the
    next one (or the end) is fewer than sixteen zeros.
   */
  lemma PayloadAt(m: seq<M.Entry>, ps: seq<seq<byte>>, k: nat)
    requires |m| == |ps| <= MAX_ENTRIES && Sized(ps) && k < |ps|
    requires Cursor(Start(|m|), ps) < LIMIT
    ensures var image, e := ImageOf(m, ps), EntryFor(Start(|m|), m, ps, k);
            var next := if k + 1 < |ps| then EntryFor(Start(|m|), m, ps, k + 1).offset else |image|;
            && |image| == HeaderFor(m, ps).fileSize
            && e.size == |ps[k]| && OnBoundary(e.offset) && Start(|m|) <= e.offset
            && e.offset + e.size <= next < e.offset + e.size + ALIGNMENT && next <= |image|
            && image[e.offset..e.offset + e.size] == ps[k]
            && image[e.offset + e.size..next] == Zeros(next - (e.offset + e.size))
  {
    hide Padding, OnBoundary, Wrap, AlignUp, Cursor, Cursor32, Body, Front, ImageOf, Start, Crc, EntryFor;
    ImageLength(m, ps);
    WrapSmall(|ImageOf(m, ps)|);
    ImagePlaces(m, ps, k);
    OffsetsFit(m, ps, k);
    if k + 1 == |ps| {
      assert ps[..k + 1] == ps;
    } else {
      OffsetsFit(m, ps, k + 1);
    }
  }
}
