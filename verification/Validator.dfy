/**
  validate_image_internal: the host's check of an image against the manifest,
  entry by entry in manifest order.
 */
module Validator {
  import opened ImageConstants
  import opened Words
  import opened Crc32
  import opened ImageFormat
  import opened ManifestText
  import opened Wrappers
  import P = ImageParser
  import M = Manifest

  /**
    PastTheEnd is not a result of the C code: it marks an image for which the
    code would compute a CRC over bytes beyond the file it has read.
   */
  datatype Verdict = Accepted | Rejected | PastTheEnd

  predicate HeaderMatches(h: Header, m: seq<M.Entry>, size: nat) {
    && h.version == VERSION && h.headerSize == HEADER_SIZE && h.entrySize == ENTRY_SIZE && h.tableOffset == HEADER_SIZE
    && h.flags == 0 && h.count == |m| && h.fileSize == size && h.manifestCrc == M.Fingerprint(m)
    && EntryAt(|m|) <= size && EntryAt(|m|) <= h.payloadOffset && OnBoundary(h.payloadOffset)
  }

  /** The tests on one entry; the last subtraction is not guarded and wraps when the offset is beyond the file. */
  predicate EntryPasses(e: Entry, payloadOffset: u32, previousEnd: u32, size: u32) {
    !(e.size == 0 || e.flags != 0 || e.offset < payloadOffset || e.offset % 16 != 0 || e.offset < previousEnd
      || e.size > Sub32(size, e.offset))
  }

  /** Entries i and later, given where entry i - 1 ended. */
  function JudgeFrom(m: seq<M.Entry>, image: seq<byte>, payloadOffset: u32, i: nat, previousEnd: u32): Verdict
    requires i <= |m| && EntryAt(|m|) <= |image| < LIMIT
    decreases |m| - i
  {
    if i == |m| then Accepted
    else
      var e := ReadEntry(image, EntryAt(i));
      if e.id != m[i].id || !EntryPasses(e, payloadOffset, previousEnd, |image|) then Rejected
      else if e.offset + e.size > |image| then PastTheEnd
      else if Crc(image[e.offset..e.offset + e.size]) != e.crc then Rejected
      else JudgeFrom(m, image, payloadOffset, i + 1, Add32(e.offset, e.size))
  }

  function Judge(m: seq<M.Entry>, image: seq<byte>): Verdict {
    if !(HEADER_SIZE <= |image| < LIMIT) || image[..8] != MAGIC then Rejected
    else if !HeaderMatches(ReadHeader(image), m, |image|) then Rejected
    else JudgeFrom(m, image, ReadHeader(image).payloadOffset, 0, ReadHeader(image).payloadOffset)
  }

  /** content is what can be read of the image file, None if it cannot be opened or not read to its end. */
  method ValidateImage(manifestFile: TextFile, content: Option<seq<byte>>) returns (r: Verdict)
    ensures r == match Load(manifestFile)
                 case None => Rejected
                 case Some(m) => if content.None? then Rejected else Judge(m, content.value)
  {
    hide ReadHeader, ReadEntry, EntryPasses, Update, Load, M.Fingerprint;
    var manifest := LoadManifest(manifestFile);
    if manifest.None? {
      return Rejected;
    }
    var (m, manifestCrc) := manifest.value;
    if content.None? {
      return Rejected;
    }
    var image := content.value;
    if |image| >= LIMIT || |image| < HEADER_SIZE {
      return Rejected;
    }
    var size: u32 := |image|;
    if image[..8] != MAGIC {
      return Rejected;
    }
    var h := ReadHeader(image);
    if h.version != VERSION || h.headerSize != HEADER_SIZE || h.entrySize != ENTRY_SIZE || h.tableOffset != HEADER_SIZE
       || h.flags != 0 {
      return Rejected;
    }
    if h.count != |m| || h.fileSize != size || h.manifestCrc != manifestCrc {
      return Rejected;
    }
    P.TableEnd(h.count);
    var tableEnd := Add32(h.tableOffset, Mul32(h.count, h.entrySize));
    if h.count > (0xffff_ffff - h.tableOffset) / h.entrySize || tableEnd > size || h.payloadOffset < tableEnd
       || h.payloadOffset % 16 != 0 {
      return Rejected;
    }
    var previousEnd := h.payloadOffset;
    for i := 0 to |m|
      invariant JudgeFrom(m, image, h.payloadOffset, i, previousEnd) == Judge(m, image)
    {
      var e := ReadEntry(image, EntryAt(i));
      if e.id != m[i].id || !EntryPasses(e, h.payloadOffset, previousEnd, size) {
        return Rejected;
      }
      if e.offset + e.size > size {
        return PastTheEnd;
      }
      var crc := UpdateLoop(0, image[e.offset..e.offset + e.size]);
      if crc != e.crc {
        return Rejected;
      }
      previousEnd := Add32(e.offset, e.size);
    }
    r := Accepted;
  }

  // ---- entries in order ----

  /** Ascending, pairwise disjoint payload ranges. */
  ghost predicate Ascending(es: seq<Entry>) {
    forall i, j :: 0 <= i < j < |es| ==> es[i].offset + es[i].size <= es[j].offset
  }

  ghost predicate Matches(es: seq<Entry>, m: seq<M.Entry>, image: seq<byte>) {
    && |es| == |m|
    && forall i :: 0 <= i < |m| ==>
         && es[i].id == m[i].id && es[i].offset + es[i].size <= |image|
         && Crc(image[es[i].offset..es[i].offset + es[i].size]) == es[i].crc
  }

  /** What the loop has established of entry k once the image is accepted. */
  ghost predicate Vouched(e: Entry, id: u32, image: seq<byte>, payloadOffset: u32) {
    && e.id == id && P.InBounds(e, payloadOffset, |image|)
    && Crc(image[e.offset..e.offset + e.size]) == e.crc
  }

  /** es is the image's table. */
  ghost predicate Decoded(es: seq<Entry>, m: seq<M.Entry>, image: seq<byte>) {
    && |es| == |m| && EntryAt(|m|) <= |image| < LIMIT
    && forall k :: 0 <= k < |m| ==> es[k] == ReadEntry(image, EntryAt(k))
  }

  // ---- the loop's verdict, exactly ----

  /** Where the entry before k ended. */
  function PreviousEnd(es: seq<Entry>, i: nat, previousEnd: u32, k: nat): int
    requires i <= k <= |es|
  {
    if k == i then previousEnd else es[k - 1].offset + es[k - 1].size
  }

  /** Entries i up to k are as they should be, one after the other. */
  ghost predicate Sound(es: seq<Entry>, m: seq<M.Entry>, image: seq<byte>, payloadOffset: u32, i: nat,
          previousEnd: u32, k: nat)
    requires i <= k <= |es| == |m|
  {
    forall j :: i <= j < k ==>
      Vouched(es[j], m[j].id, image, payloadOffset) && PreviousEnd(es, i, previousEnd, j) <= es[j].offset
  }

  /**
    An entry beyond the end of the file that the tests let through: everything
    but its offset is in order, and offset and size together wrap no further
    than into the file.
   */
  predicate Escapes(e: Entry, id: u32, payloadOffset: u32, previousEnd: int, size: nat) {
    && e.id == id && e.size != 0 && e.flags == 0 && OnBoundary(e.offset)
    && payloadOffset <= e.offset && previousEnd <= e.offset
    && size < e.offset && e.offset + e.size <= LIMIT + size
  }

  /** Entry k is the one at which the loop leaves the file. */
  ghost predicate Overruns(es: seq<Entry>, m: seq<M.Entry>, image: seq<byte>, payloadOffset: u32, i: nat,
          previousEnd: u32, k: nat)
    requires |es| == |m|
  {
    && i <= k < |m| && Sound(es, m, image, payloadOffset, i, previousEnd, k)
    && Escapes(es[k], m[k].id, payloadOffset, PreviousEnd(es, i, previousEnd, k), |image|)
  }

  /** One entry: it escapes, or lies inside in order, exactly as the loop finds. */
  lemma OneEntry(e: Entry, id: u32, image: seq<byte>, payloadOffset: u32, previousEnd: u32)
    requires |image| < LIMIT
    ensures e.id == id && EntryPasses(e, payloadOffset, previousEnd, |image|) && e.offset + e.size > |image| <==>
            Escapes(e, id, payloadOffset, previousEnd, |image|)
    ensures Vouched(e, id, image, payloadOffset) && previousEnd <= e.offset <==>
            && e.id == id && EntryPasses(e, payloadOffset, previousEnd, |image|) && e.offset + e.size <= |image|
            && Crc(image[e.offset..e.offset + e.size]) == e.crc
  {
    hide Crc;
  }

  /** Soundness from i is soundness of entry i and from the next one on. */
  lemma SoundStep(es: seq<Entry>, m: seq<M.Entry>, image: seq<byte>, payloadOffset: u32, i: nat, previousEnd: u32,
          k: nat)
    requires i < k <= |es| == |m| && es[i].offset + es[i].size < LIMIT
    ensures Sound(es, m, image, payloadOffset, i, previousEnd, k) <==>
            && Vouched(es[i], m[i].id, image, payloadOffset) && previousEnd <= es[i].offset
            && Sound(es, m, image, payloadOffset, i + 1, es[i].offset + es[i].size, k)
  {
    hide Vouched;
    var end := es[i].offset + es[i].size;
    assert forall j :: i < j < k ==> PreviousEnd(es, i, previousEnd, j) == PreviousEnd(es, i + 1, end, j);
  }

  lemma OverrunsStep(es: seq<Entry>, m: seq<M.Entry>, image: seq<byte>, payloadOffset: u32, i: nat, previousEnd: u32,
          k: nat)
    requires |es| == |m| && i < k && i < |m| && |image| < LIMIT
    ensures Overruns(es, m, image, payloadOffset, i, previousEnd, k) <==>
            && Vouched(es[i], m[i].id, image, payloadOffset) && previousEnd <= es[i].offset
            && es[i].offset + es[i].size < LIMIT
            && Overruns(es, m, image, payloadOffset, i + 1, es[i].offset + es[i].size, k)
  {
    hide Escapes, Sound, Crc;
    if k < |m| {
      if es[i].offset + es[i].size < LIMIT {
        SoundStep(es, m, image, payloadOffset, i, previousEnd, k);
      } else if Sound(es, m, image, payloadOffset, i, previousEnd, k) {
        FirstSound(es, m, image, payloadOffset, i, previousEnd, k);
      }
    }
  }

  lemma FirstSound(es: seq<Entry>, m: seq<M.Entry>, image: seq<byte>, payloadOffset: u32, i: nat, previousEnd: u32,
          k: nat)
    requires i < k <= |es| == |m| && Sound(es, m, image, payloadOffset, i, previousEnd, k)
    ensures Vouched(es[i], m[i].id, image, payloadOffset) && previousEnd <= es[i].offset
  {
    hide Vouched;
  }

  /** Some entry is where the loop leaves the file. */
  ghost predicate Leaves(es: seq<Entry>, m: seq<M.Entry>, image: seq<byte>, payloadOffset: u32, i: nat,
          previousEnd: u32)
    requires |es| == |m|
  {
    exists k: nat :: Overruns(es, m, image, payloadOffset, i, previousEnd, k)
  }

  lemma LeavesStep(es: seq<Entry>, m: seq<M.Entry>, image: seq<byte>, payloadOffset: u32, i: nat, previousEnd: u32)
    requires |es| == |m| && i < |m| && |image| < LIMIT
    ensures Leaves(es, m, image, payloadOffset, i, previousEnd) <==>
            || Escapes(es[i], m[i].id, payloadOffset, previousEnd, |image|)
            || (&& Vouched(es[i], m[i].id, image, payloadOffset) && previousEnd <= es[i].offset
                && es[i].offset + es[i].size < LIMIT
                && Leaves(es, m, image, payloadOffset, i + 1, es[i].offset + es[i].size))
  {
    hide Vouched, Escapes, Overruns;
    assert Overruns(es, m, image, payloadOffset, i, previousEnd, i) <==>
           Escapes(es[i], m[i].id, payloadOffset, previousEnd, |image|) by {
      AtOnce(es, m, image, payloadOffset, i, previousEnd);
    }
    forall k: nat
      ensures Overruns(es, m, image, payloadOffset, i, previousEnd, k) ==> i <= k
    {
      NotBefore(es, m, image, payloadOffset, i, previousEnd, k);
      if i < k {
        OverrunsStep(es, m, image, payloadOffset, i, previousEnd, k);
      }
    }
    if k: nat :| Overruns(es, m, image, payloadOffset, i, previousEnd, k) {
      if i < k {
        OverrunsStep(es, m, image, payloadOffset, i, previousEnd, k);
      }
    }
    var end, next := es[i].offset + es[i].size, i + 1;
    if end < LIMIT {
      if k: nat :| Overruns(es, m, image, payloadOffset, next, end, k) {
        NotBefore(es, m, image, payloadOffset, next, end, k);
        OverrunsStep(es, m, image, payloadOffset, i, previousEnd, k);
      }
    }
  }

  lemma AtOnce(es: seq<Entry>, m: seq<M.Entry>, image: seq<byte>, payloadOffset: u32, i: nat, previousEnd: u32)
    requires |es| == |m| && i < |m|
    ensures Overruns(es, m, image, payloadOffset, i, previousEnd, i) <==>
            Escapes(es[i], m[i].id, payloadOffset, previousEnd, |image|)
  {
    hide Escapes, Vouched;
  }

  lemma NotBefore(es: seq<Entry>, m: seq<M.Entry>, image: seq<byte>, payloadOffset: u32, i: nat, previousEnd: u32,
          k: nat)
    requires |es| == |m|
    ensures Overruns(es, m, image, payloadOffset, i, previousEnd, k) ==> i <= k
  {
    hide Escapes, Sound;
  }

  /**
    The loop from entry i on: it accepts exactly when all entries are in order,
    and it leaves the file exactly when some entry escapes after none but sound
    ones.
   */
  lemma {:induction false} LoopVerdict(m: seq<M.Entry>, image: seq<byte>, payloadOffset: u32, i: nat,
          previousEnd: u32, es: seq<Entry>)
    requires Decoded(es, m, image) && i <= |m|
    ensures JudgeFrom(m, image, payloadOffset, i, previousEnd) == Accepted <==>
            Sound(es, m, image, payloadOffset, i, previousEnd, |m|)
    ensures JudgeFrom(m, image, payloadOffset, i, previousEnd) == PastTheEnd <==>
            Leaves(es, m, image, payloadOffset, i, previousEnd)
    decreases |m| - i
  {
    hide ReadEntry, Crc, EntryPasses, Wrap, Escapes, Sound, Leaves, Vouched;
    if i == |m| {
      NoneLeft(es, m, image, payloadOffset, i, previousEnd);
    } else {
      var e := es[i];
      OneEntry(e, m[i].id, image, payloadOffset, previousEnd);
      LeavesStep(es, m, image, payloadOffset, i, previousEnd);
      if e.offset + e.size < LIMIT {
        SoundStep(es, m, image, payloadOffset, i, previousEnd, |m|);
        NoWrap(e);
        LoopVerdict(m, image, payloadOffset, i + 1, e.offset + e.size, es);
      } else if Sound(es, m, image, payloadOffset, i, previousEnd, |m|) {
        FirstSound(es, m, image, payloadOffset, i, previousEnd, |m|);
      }
    }
  }

  lemma NoWrap(e: Entry)
    requires e.offset + e.size < LIMIT
    ensures Add32(e.offset, e.size) == e.offset + e.size
  {
  }

  lemma NoneLeft(es: seq<Entry>, m: seq<M.Entry>, image: seq<byte>, payloadOffset: u32, i: nat, previousEnd: u32)
    requires i == |es| == |m|
    ensures Sound(es, m, image, payloadOffset, i, previousEnd, |m|) &&
            !Leaves(es, m, image, payloadOffset, i, previousEnd)
  {
  }

  // ---- what acceptance means ----

  /** Everything up to the entries. */
  predicate FrontMatches(m: seq<M.Entry>, image: seq<byte>) {
    HEADER_SIZE <= |image| < LIMIT && image[..8] == MAGIC && HeaderMatches(ReadHeader(image), m, |image|)
  }

  ghost predicate AllInBounds(es: seq<Entry>, payloadOffset: nat, size: nat) {
    forall k :: 0 <= k < |es| ==> P.InBounds(es[k], payloadOffset, size)
  }

  /** In order one after the other is pairwise ascending. */
  lemma {:induction false} SoundAscends(es: seq<Entry>, m: seq<M.Entry>, image: seq<byte>, payloadOffset: u32, i: nat,
          j: nat)
    requires i < j < |es| == |m| && Sound(es, m, image, payloadOffset, 0, payloadOffset, |m|)
    ensures es[i].offset + es[i].size <= es[j].offset
  {
    hide Vouched;
    assert PreviousEnd(es, 0, payloadOffset, j) <= es[j].offset;
    if i < j - 1 {
      SoundAscends(es, m, image, payloadOffset, i, j - 1);
    }
  }

  lemma SoundIsMatching(es: seq<Entry>, m: seq<M.Entry>, image: seq<byte>, payloadOffset: u32)
    requires |es| == |m|
    ensures Sound(es, m, image, payloadOffset, 0, payloadOffset, |m|) <==>
            Matches(es, m, image) && AllInBounds(es, payloadOffset, |image|) && Ascending(es)
  {
    hide Crc, P.InBounds, Vouched;
    forall k | 0 <= k < |m|
      ensures Vouched(es[k], m[k].id, image, payloadOffset) <==>
              && es[k].id == m[k].id && P.InBounds(es[k], payloadOffset, |image|)
              && es[k].offset + es[k].size <= |image|
              && Crc(image[es[k].offset..es[k].offset + es[k].size]) == es[k].crc
      ensures P.InBounds(es[k], payloadOffset, |image|) ==> payloadOffset <= es[k].offset
    {
      VouchedIs(es[k], m[k].id, image, payloadOffset);
    }
    if Sound(es, m, image, payloadOffset, 0, payloadOffset, |m|) {
      forall i, j | 0 <= i < j < |es|
        ensures es[i].offset + es[i].size <= es[j].offset
      {
        SoundAscends(es, m, image, payloadOffset, i, j);
      }
    }
  }

  lemma VouchedIs(e: Entry, id: u32, image: seq<byte>, payloadOffset: u32)
    ensures Vouched(e, id, image, payloadOffset) <==>
            && e.id == id && P.InBounds(e, payloadOffset, |image|) && e.offset + e.size <= |image|
            && Crc(image[e.offset..e.offset + e.size]) == e.crc
    ensures P.InBounds(e, payloadOffset, |image|) ==> payloadOffset <= e.offset
  {
    hide Crc;
  }

  /**
    The validator accepts exactly the images whose header matches, whose entries
    carry the manifest's ids in its order over ascending disjoint aligned ranges
    inside the payload area, and whose CRCs are right.
   */
  lemma AcceptedExactly(m: seq<M.Entry>, image: seq<byte>)
    ensures Judge(m, image) == Accepted <==>
            && FrontMatches(m, image)
            && var es := RawEntries(image, |m|);
               Matches(es, m, image) && AllInBounds(es, ReadHeader(image).payloadOffset, |image|) && Ascending(es)
  {
    hide ReadEntry, ReadHeader, Crc, M.Fingerprint, RawEntries, Sound, Leaves, JudgeFrom, AllInBounds, Matches,
      Ascending;
    if FrontMatches(m, image) {
      var h, es := ReadHeader(image), RawEntries(image, |m|);
      RawDecoded(m, image);
      LoopVerdict(m, image, h.payloadOffset, 0, h.payloadOffset, es);
      SoundIsMatching(es, m, image, h.payloadOffset);
    }
  }

  /**
    An image the validator accepts is one the runtime parser accepts, with the
    manifest's ids in the manifest's order over ascending disjoint payloads
    whose CRCs are right.
   */
  lemma AcceptedParses(m: seq<M.Entry>, image: seq<byte>)
    requires M.Valid(m) && Judge(m, image) == Accepted
    ensures P.Accepts(image)
    ensures Matches(P.EntriesOf(image), m, image) && Ascending(P.EntriesOf(image))
  {
    hide ReadEntry, ReadHeader, Crc, M.Fingerprint, RawEntries, Judge;
    AcceptedExactly(m, image);
    FirstInBounds(m, image);
  }

  lemma FirstInBounds(m: seq<M.Entry>, image: seq<byte>)
    requires m != [] && FrontMatches(m, image)
    requires AllInBounds(RawEntries(image, |m|), ReadHeader(image).payloadOffset, |image|)
    ensures ReadHeader(image).payloadOffset <= |image|
  {
    hide ReadEntry, ReadHeader, M.Fingerprint, RawEntries;
    assert P.InBounds(RawEntries(image, |m|)[0], ReadHeader(image).payloadOffset, |image|);
  }

  lemma RawDecoded(m: seq<M.Entry>, image: seq<byte>)
    requires EntryAt(|m|) <= |image| < LIMIT
    ensures Decoded(RawEntries(image, |m|), m, image)
  {
    hide ReadEntry;
  }

  // ---- the unguarded subtraction ----

  /** An entry that passes the tests lies inside the file exactly when its offset does. */
  lemma PassesInside(e: Entry, payloadOffset: u32, previousEnd: u32, size: u32)
    requires EntryPasses(e, payloadOffset, previousEnd, size)
    ensures e.offset + e.size <= size <==> e.offset <= size
  {
  }

  /**
    The validator computes a CRC over bytes beyond the file exactly when the
    header matches and some entry that is otherwise in order, after entries that
    are altogether so, has its offset beyond the end and a size that wraps no
    further than into the file.
   */
  lemma PastTheEndExactly(m: seq<M.Entry>, image: seq<byte>)
    ensures Judge(m, image) == PastTheEnd <==>
            && FrontMatches(m, image)
            && var po := ReadHeader(image).payloadOffset;
               exists k: nat :: Overruns(RawEntries(image, |m|), m, image, po, 0, po, k)
  {
    hide ReadEntry, ReadHeader, Crc, M.Fingerprint, RawEntries, Sound, JudgeFrom, Overruns;
    if FrontMatches(m, image) {
      var h, es := ReadHeader(image), RawEntries(image, |m|);
      RawDecoded(m, image);
      LoopVerdict(m, image, h.payloadOffset, 0, h.payloadOffset, es);
    }
  }

  /** In particular only for an image with an offset beyond its end. */
  lemma PastTheEndNeedsOffset(m: seq<M.Entry>, image: seq<byte>)
    requires Judge(m, image) == PastTheEnd
    ensures FrontMatches(m, image) && exists k :: 0 <= k < |m| && RawEntries(image, |m|)[k].offset > |image|
  {
    hide ReadEntry, ReadHeader, Crc, M.Fingerprint, RawEntries, Sound, Judge;
    PastTheEndExactly(m, image);
    var po := ReadHeader(image).payloadOffset;
    var k: nat :| Overruns(RawEntries(image, |m|), m, image, po, 0, po, k);
  }

  /** And some such entries do get that far: here the wrapped difference is 80. */
  lemma OffsetBeyondFile(e: M.Entry)
    ensures var h := Header(VERSION, HEADER_SIZE, 1, ENTRY_SIZE, HEADER_SIZE, 64, 64, 0, M.Fingerprint([e]));
            var image := HeaderBytes(h) + EntryBytes(Entry(e.id, 0xffff_fff0, 1, 0, 0));
            Judge([e], image) == PastTheEnd
  {
    hide HeaderBytes, EntryBytes, M.Fingerprint, ReadHeader, ReadEntry, Crc;
    var h := Header(VERSION, HEADER_SIZE, 1, ENTRY_SIZE, HEADER_SIZE, 64, 64, 0, M.Fingerprint([e]));
    var entry := Entry(e.id, 0xffff_fff0, 1, 0, 0);
    var image := HeaderBytes(h) + EntryBytes(entry);
    HeaderRoundTrip(h, EntryBytes(entry));
    assert image[44..64] == EntryBytes(entry);
    EntryRoundTrip(image, 44, entry);
    assert EntryAt(0) == 44 && [e][0] == e;
  }
}
