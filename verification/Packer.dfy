/**
  pack_image: lays out the payloads with a wrapping cursor, then writes header,
  table, padding and payloads to a file that may refuse any write.
 */
module Packer {
  import opened ImageConstants
  import opened Wrappers
  import opened Words
  import opened Crc32
  import opened ImageFormat
  import opened Layout
  import opened ManifestText
  import M = Manifest

  const PATH_MAX: nat := 1024
  const SLASH: byte := 47

  // ---- inputs ----

  function PayloadPath(directory: seq<byte>, filename: seq<byte>): seq<byte> {
    directory + (if directory != [] && directory[|directory| - 1] == SLASH then [] else [SLASH]) + filename
  }

  /** The payload of one entry, if its path fits the buffer and names a non-empty file under 4 GiB. */
  function Payload(directory: seq<byte>, files: map<seq<byte>, seq<byte>>, e: M.Entry): Option<seq<byte>> {
    var path := PayloadPath(directory, e.filename);
    if |path| >= PATH_MAX || path !in files || files[path] == [] || |files[path]| >= LIMIT then None
    else Some(files[path])
  }

  /** The layout loop: every payload, unless one is missing or the unaligned sum leaves 32 bits. */
  function Gather(start: u32, directory: seq<byte>, files: map<seq<byte>, seq<byte>>, m: seq<M.Entry>)
    : (r: Option<seq<seq<byte>>>)
    ensures r.Some? ==> |r.value| == |m| && Sized(r.value)
  {
    if m == [] then Some([])
    else
      var n := |m| - 1;
      match Gather(start, directory, files, m[..n])
      case None => None
      case Some(ps) =>
        match Payload(directory, files, m[n])
        case None => None
        case Some(p) => if |p| > LIMIT - 1 - Cursor32(start, ps) then None else Some(ps + [p])
  }

  /** Everything pack_image reads before it creates the output. */
  function Inputs(manifest: TextFile, directory: seq<byte>, files: map<seq<byte>, seq<byte>>)
    : (r: Option<(seq<M.Entry>, seq<seq<byte>>)>)
    ensures r.Some? ==> M.Valid(r.value.0) && |r.value.0| == |r.value.1| && Sized(r.value.1)
  {
    match Load(manifest)
    case None => None
    case Some(m) =>
      LoadedIsValid(manifest);
      match Gather(Start(|m|), directory, files, m)
      case None => None
      case Some(ps) => Some((m, ps))
  }

  // ---- the output file ----

  class Output {
    var data: seq<byte>
    const room: nat    // bytes the medium accepts
    const closes: bool // whether closing succeeds

    ghost predicate Valid()
      reads this
    {
      |data| <= room
    }

    constructor (room: nat, closes: bool)
      ensures Valid() && data == [] && this.room == room && this.closes == closes
    {
      data, this.room, this.closes := [], room, closes;
    }

    method Write(chunk: seq<byte>) returns (ok: bool)
      requires Valid()
      modifies this
      ensures Valid()
      ensures ok <==> |old(data)| + |chunk| <= room
      ensures ok ==> data == old(data) + chunk
    {
      ok := |data| + |chunk| <= room;
      data := data + if ok then chunk else chunk[..room - |data|];
    }

    /** Zeros go out in chunks of at most 64. */
    method WriteZeros(count: u32) returns (ok: bool)
      requires Valid()
      modifies this
      ensures Valid()
      ensures ok <==> |old(data)| + count <= room
      ensures ok ==> data == old(data) + Zeros(count)
    {
      var left := count;
      while left > 0
        invariant 0 <= left <= count && Valid()
        invariant data == old(data) + Zeros(count - left)
      {
        var chunk := if left > 64 then 64 else left;
        ok := Write(Zeros(chunk));
        if !ok {
          return;
        }
        ZerosAppend(count - left, chunk);
        left := left - chunk;
      }
      ok := true;
    }
  }

  // ---- buffers filled in place ----

  method FillHeader(h: Header) returns (header: array<byte>)
    ensures fresh(header) && header[..] == HeaderBytes(h)
  {
    header := new byte[44](_ => 0);
    forall i | 0 <= i < 8 {
      header[i] := MAGIC[i];
    }
    assert header[..8] == MAGIC;
    WriteLe(header, 8, h.version);
    WriteLe(header, 12, h.headerSize);
    WriteLe(header, 16, h.count);
    WriteLe(header, 20, h.entrySize);
    WriteLe(header, 24, h.tableOffset);
    WriteLe(header, 28, h.payloadOffset);
    WriteLe(header, 32, h.fileSize);
    WriteLe(header, 36, h.flags);
    WriteLe(header, 40, h.manifestCrc);
    assert header[..] == header[..44];
  }

  method FillEntry(e: Entry) returns (entry: array<byte>)
    ensures fresh(entry) && entry[..] == EntryBytes(e)
  {
    entry := new byte[20](_ => 0);
    assert entry[..0] == [];
    WriteLe(entry, 0, e.id);
    WriteLe(entry, 4, e.offset);
    WriteLe(entry, 8, e.size);
    WriteLe(entry, 12, e.crc);
    WriteLe(entry, 16, e.flags);
    assert entry[..] == entry[..20];
  }

  // ---- layout ----

  datatype Piece = Piece(data: seq<byte>, size: u32, crc: u32, offset: u32)

  /** What the layout loop records for payload i. */
  function PieceFor(start: u32, ps: seq<seq<byte>>, i: nat): Piece
    requires i < |ps|
  {
    Piece(ps[i], Wrap(|ps[i]|), Crc(ps[i]), Cursor32(start, ps[..i]))
  }

  lemma GatherStep(start: u32, directory: seq<byte>, files: map<seq<byte>, seq<byte>>, m: seq<M.Entry>, i: nat)
    requires i < |m|
    ensures Gather(start, directory, files, m[..i + 1]) ==
            match Gather(start, directory, files, m[..i])
            case None => None
            case Some(ps) =>
              match Payload(directory, files, m[i])
              case None => None
              case Some(p) => if |p| > LIMIT - 1 - Cursor32(start, ps) then None else Some(ps + [p])
  {
    hide Payload, Cursor32;
    assert m[..i + 1][..i] == m[..i];
  }

  lemma {:induction false} GatherFails(start: u32, directory: seq<byte>, files: map<seq<byte>, seq<byte>>,
          m: seq<M.Entry>, i: nat)
    requires i <= |m| && Gather(start, directory, files, m[..i]).None?
    ensures Gather(start, directory, files, m).None?
    decreases |m| - i
  {
    hide Payload, Cursor32, Gather;
    if i == |m| {
      assert m[..i] == m;
    } else {
      GatherStep(start, directory, files, m, i);
      GatherFails(start, directory, files, m, i + 1);
    }
  }

  lemma PiecesStay(start: u32, ps: seq<seq<byte>>, p: seq<byte>)
    ensures forall k :: 0 <= k < |ps| ==> PieceFor(start, ps + [p], k) == PieceFor(start, ps, k)
    ensures PieceFor(start, ps + [p], |ps|) == Piece(p, Wrap(|p|), Crc(p), Cursor32(start, ps))
    ensures Cursor32(start, ps + [p]) == AlignUp(Add32(Cursor32(start, ps), Wrap(|p|)))
  {
    hide Wrap, Crc, AlignUp, Add32;
    var next := ps + [p];
    assert next[..|ps|] == ps && forall k :: 0 <= k <= |ps| ==> next[..k] == ps[..k];
  }

  method LayOut(start: u32, directory: seq<byte>, files: map<seq<byte>, seq<byte>>, m: seq<M.Entry>)
    returns (r: Option<array<Piece>>, cursor: u32, ghost ps: seq<seq<byte>>)
    requires |m| <= MAX_ENTRIES
    ensures r.Some? <==> Gather(start, directory, files, m).Some?
    ensures r.Some? ==>
              && fresh(r.value) && r.value.Length == MAX_ENTRIES
              && Gather(start, directory, files, m) == Some(ps) && cursor == Cursor32(start, ps)
              && forall i :: 0 <= i < |m| ==> r.value[i] == PieceFor(start, ps, i)
  {
    hide PieceFor, Cursor32, Payload, Gather, AlignUp, Add32, Wrap, Crc, Update;
    var payloads := new Piece[MAX_ENTRIES](_ => Piece([], 0, 0, 0));
    cursor, ps := start, [];
    assert Gather(start, directory, files, m[..0]) == Some([]) && Cursor32(start, []) == start by {
      NothingGathered(start, directory, files, m);
    }
    for i := 0 to |m|
      invariant Gather(start, directory, files, m[..i]) == Some(ps) && |ps| == i
      invariant cursor == Cursor32(start, ps)
      invariant forall k :: 0 <= k < i ==> payloads[k] == PieceFor(start, ps, k)
    {
      GatherStep(start, directory, files, m, i);
      var payload := Payload(directory, files, m[i]);
      if payload.None? {
        GatherFails(start, directory, files, m, i + 1);
        r := None;
        return;
      }
      var data := payload.value;
      SizeOfPayload(directory, files, m[i]);
      var size: u32 := |data|;
      var crc := UpdateLoop(0, data);
      payloads[i] := Piece(data, size, crc, cursor);
      if size > LIMIT - 1 - cursor {
        GatherFails(start, directory, files, m, i + 1);
        r := None;
        return;
      }
      cursor := AlignUp(Add32(cursor, size));
      PiecesStay(start, ps, data);
      ps := ps + [data];
    }
    assert m[..|m|] == m;
    r := Some(payloads);
  }

  lemma NothingGathered(start: u32, directory: seq<byte>, files: map<seq<byte>, seq<byte>>, m: seq<M.Entry>)
    ensures Gather(start, directory, files, m[..0]) == Some([]) && Cursor32(start, []) == start
  {
  }

  lemma SizeOfPayload(directory: seq<byte>, files: map<seq<byte>, seq<byte>>, e: M.Entry)
    requires Payload(directory, files, e).Some?
    ensures var p := Payload(directory, files, e).value; |p| < LIMIT && Wrap(|p|) == |p| && Crc(p) == Update(0, p)
  {
  }

  // ---- writing ----

  lemma EntriesStep(start: u32, m: seq<M.Entry>, ps: seq<seq<byte>>, i: nat)
    requires i < |m| == |ps|
    ensures Table(Entries(start, m, ps)[..i + 1]) ==
            Table(Entries(start, m, ps)[..i]) + EntryBytes(EntryFor(start, m, ps, i))
  {
    var es := Entries(start, m, ps);
    assert es[..i + 1][..i] == es[..i];
  }

  lemma BodyStep(ps: seq<seq<byte>>, i: nat)
    requires i < |ps|
    ensures Body(ps[..i + 1]) == Body(ps[..i]) + (ps[i] + Zeros(Padding(|ps[i]|)))
  {
    assert ps[..i + 1][..i] == ps[..i];
  }

  method WriteTable(out: Output, m: seq<M.Entry>, ghost start: u32, ghost ps: seq<seq<byte>>, payloads: array<Piece>)
    returns (ok: bool)
    requires out.Valid() && |m| == |ps| <= payloads.Length
    requires forall i :: 0 <= i < |m| ==> payloads[i] == PieceFor(start, ps, i)
    modifies out
    ensures out.Valid()
    ensures ok <==> |old(out.data)| + |Table(Entries(start, m, ps))| <= out.room
    ensures ok ==> out.data == old(out.data) + Table(Entries(start, m, ps))
  {
    hide Table, Crc, Cursor32, Wrap, EntryBytes, Entries;
    ghost var es := Entries(start, m, ps);
    NothingTabled(es);
    for i := 0 to |m|
      invariant out.Valid()
      invariant out.data == old(out.data) + Table(es[..i])
    {
      var entry := FillEntry(Entry(m[i].id, payloads[i].offset, payloads[i].size, payloads[i].crc, 0));
      EntriesStep(start, m, ps, i);
      ok := out.Write(entry[..]);
      if !ok {
        return;
      }
    }
    assert es[..|m|] == es;
    ok := true;
  }

  lemma NothingTabled(es: seq<Entry>)
    ensures Table(es[..0]) == []
  {
  }

  lemma PaddingOf(start: u32, ps: seq<seq<byte>>, i: nat)
    requires i < |ps| && OnBoundary(start)
    ensures var end := Add32(Cursor32(start, ps[..i]), Wrap(|ps[i]|));
            Sub32(AlignUp(end), end) == Padding(|ps[i]|)
  {
    hide Padding, OnBoundary, Wrap, AlignUp, Add32, Sub32;
    var c, s := Cursor(start, ps[..i]), |ps[i]|;
    CursorWraps(start, ps[..i]);
    BodyLength(start, ps[..i]);
    WrapSums(c, s, 0);
    AlignUpWraps(Wrap(c + s));
    PaddingMod(c, s);
  }

  lemma {:induction false} BodyGrows(ps: seq<seq<byte>>, i: nat)
    requires i <= |ps|
    ensures |Body(ps[..i])| <= |Body(ps)|
  {
    if i == |ps| {
      assert ps[..i] == ps;
    } else {
      assert ps[..|ps| - 1][..i] == ps[..i];
      BodyGrows(ps[..|ps| - 1], i);
    }
  }

  method WriteBody(out: Output, ghost start: u32, ghost ps: seq<seq<byte>>, payloads: array<Piece>, n: nat)
    returns (ok: bool)
    requires out.Valid() && n == |ps| <= payloads.Length && OnBoundary(start) && Sized(ps)
    requires forall i :: 0 <= i < n ==> payloads[i] == PieceFor(start, ps, i)
    modifies out
    ensures out.Valid()
    ensures ok <==> |old(out.data)| + |Body(ps)| <= out.room
    ensures ok ==> out.data == old(out.data) + Body(ps)
  {
    hide Body, Crc, Cursor32, Padding, Wrap, OnBoundary, AlignUp, Add32, Sub32;
    NothingBefore(ps);
    for i := 0 to n
      invariant out.Valid()
      invariant out.data == old(out.data) + Body(ps[..i])
    {
      var end := Add32(payloads[i].offset, payloads[i].size);
      var alignedEnd := AlignUp(end);
      PaddingOf(start, ps, i);
      BodyStep(ps, i);
      BodyGrows(ps, i + 1);
      ghost var before := out.data;
      ok := out.Write(payloads[i].data);
      if ok {
        ok := out.WriteZeros(Sub32(alignedEnd, end));
      }
      if !ok {
        return;
      }
    }
    assert ps[..n] == ps;
    ok := true;
  }

  lemma NothingBefore(ps: seq<seq<byte>>)
    ensures Body(ps[..0]) == []
  {
  }

  /** The whole command; the result is its exit status, and created is the file it could create, if any. */
  method PackImage(manifest: TextFile, directory: seq<byte>, files: map<seq<byte>, seq<byte>>, created: Output?)
    returns (status: int)
    requires created != null ==> created.Valid() && created.data == []
    modifies created
    ensures status == 0 || status == 1
    ensures status == 0 <==>
            && created != null && created.closes && Inputs(manifest, directory, files).Some?
            && var (m, ps) := Inputs(manifest, directory, files).value;
               |ImageOf(m, ps)| <= created.room
    ensures status == 0 ==>
              var (m, ps) := Inputs(manifest, directory, files).value;
              created.data == ImageOf(m, ps)
    ensures created != null && Inputs(manifest, directory, files).None? ==> created.data == []
  {
    hide Load, M.Fingerprint, Gather, HeaderBytes, Table, Body, Cursor32, Padding, Wrap, AlignUp, OnBoundary, Add32,
      Sub32, Mul32;
    var loaded := LoadManifest(manifest);
    if loaded.None? {
      return 1;
    }
    var (m, manifestCrc) := loaded.value;
    // The source's test that the table size fits 32 bits cannot fail for 128 entries.
    StartInWords(|m|);
    var tableEnd := Add32(HEADER_SIZE, Mul32(|m|, ENTRY_SIZE));
    var payloadOffset := AlignUp(tableEnd);
    var payloads, fileSize, ps := LayOut(payloadOffset, directory, files, m);
    if payloads.None? || created == null {
      return 1;
    }
    var header := FillHeader(Header(VERSION, HEADER_SIZE, |m|, ENTRY_SIZE, HEADER_SIZE, payloadOffset, fileSize, 0,
                  manifestCrc));
    var ok := created.Write(header[..]);
    if ok {
      ok := WriteTable(created, m, payloadOffset, ps, payloads.value);
    }
    if ok {
      ok := created.WriteZeros(Sub32(payloadOffset, tableEnd));
    }
    if ok {
      ok := WriteBody(created, payloadOffset, ps, payloads.value, |m|);
    }
    status := if ok && created.closes then 0 else 1;
  }

  lemma StartInWords(n: nat)
    requires n <= MAX_ENTRIES
    ensures var tableEnd := Add32(HEADER_SIZE, Mul32(n, ENTRY_SIZE));
            && tableEnd == EntryAt(n) && AlignUp(tableEnd) == Start(n)
            && Sub32(AlignUp(tableEnd), tableEnd) == Padding(EntryAt(n))
            && OnBoundary(Start(n))
  {
    hide Wrap, Padding, OnBoundary, AlignUp;
    assert n * ENTRY_SIZE == 20 * n;
    WrapSmall(20 * n);
    WrapSmall(EntryAt(n));
    AlignUpWraps(EntryAt(n));
    StartIs(n);
    WrapSmall(Start(n));
  }
}
