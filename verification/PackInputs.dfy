/**
  Which files the packer takes, said without its loop, and the whole way from
  a directory and a manifest to a validated image.
 */
module PackInputs {
  import opened Wrappers
  import opened Words
  import opened Crc32
  import opened Layout
  import opened PackedImages
  import opened Packer
  import opened ManifestText
  import opened ManifestPrinting
  import opened ByteFormat
  import M = Manifest
  import V = Validator

  /** The file of that name in the directory: one slash in between, unless the directory ends with one. */
  function Joined(directory: seq<byte>, filename: seq<byte>): seq<byte> {
    if directory != [] && directory[|directory| - 1] == 47 then directory + filename else directory + [47] + filename
  }

  /** A file the packer can take. */
  predicate Takes(files: map<seq<byte>, seq<byte>>, path: seq<byte>, p: seq<byte>) {
    |path| <= 1023 && path in files && files[path] == p && 1 <= |p| <= 0xffff_ffff
  }

  /** The payload of an entry is the file of its name in the directory, or there is none. */
  lemma PayloadExactly(directory: seq<byte>, files: map<seq<byte>, seq<byte>>, e: M.Entry, p: seq<byte>)
    ensures Payload(directory, files, e) == Some(p) <==> Takes(files, Joined(directory, e.filename), p)
  {
    var path := Joined(directory, e.filename);
    if directory != [] && directory[|directory| - 1] == 47 {
      assert directory + [] == directory;
    }
    assert PayloadPath(directory, e.filename) == path;
  }

  /** The size test has let every payload through: none, added to its offset, leaves 32 bits. */
  ghost predicate SizesPass(start: u32, ps: seq<seq<byte>>) {
    forall k :: 0 <= k < |ps| ==> Cursor32(start, ps[..k]) + |ps[k]| <= 0xffff_ffff
  }

  /** The payloads are the manifest's, in its order. */
  ghost predicate AllTaken(directory: seq<byte>, files: map<seq<byte>, seq<byte>>, m: seq<M.Entry>,
          ps: seq<seq<byte>>)
  {
    |ps| == |m| && forall k :: 0 <= k < |m| ==> Takes(files, Joined(directory, m[k].filename), ps[k])
  }

  lemma {:induction false} GatherExactly(start: u32, directory: seq<byte>, files: map<seq<byte>, seq<byte>>,
          m: seq<M.Entry>, ps: seq<seq<byte>>)
    ensures Gather(start, directory, files, m) == Some(ps) <==>
            AllTaken(directory, files, m, ps) && SizesPass(start, ps)
  {
    hide Takes, Joined, Payload, Cursor32;
    if m != [] {
      var n := |m| - 1;
      if |ps| == |m| {
        var front := ps[..n];
        assert ps == front + [ps[n]];
        GatherExactly(start, directory, files, m[..n], front);
        PayloadExactly(directory, files, m[n], ps[n]);
        SplitTaken(start, directory, files, m, ps);
      }
    }
  }

  /** Whether all are taken is decided by the last and those before it. */
  lemma SplitTaken(start: u32, directory: seq<byte>, files: map<seq<byte>, seq<byte>>, m: seq<M.Entry>,
          ps: seq<seq<byte>>)
    requires 0 < |m| == |ps|
    ensures var n := |m| - 1;
            && (AllTaken(directory, files, m, ps) <==>
                AllTaken(directory, files, m[..n], ps[..n]) && Takes(files, Joined(directory, m[n].filename), ps[n]))
            && (SizesPass(start, ps) <==>
                SizesPass(start, ps[..n]) && Cursor32(start, ps[..n]) + |ps[n]| <= 0xffff_ffff)
  {
    hide Takes, Joined, Cursor32;
    var n := |m| - 1;
    assert forall k :: 0 <= k <= n ==> ps[..n][..k] == ps[..k];
    assert forall k :: 0 <= k < n ==> ps[..n][k] == ps[k] && m[..n][k] == m[k];
  }

  /**
    The packer gets past its inputs exactly if the manifest loads, the file of
    each entry can be taken and every size test passes; and those files, in the
    manifest's order, are what it packs.
   */
  lemma InputsExactly(manifest: TextFile, directory: seq<byte>, files: map<seq<byte>, seq<byte>>, m: seq<M.Entry>,
          ps: seq<seq<byte>>)
    ensures Inputs(manifest, directory, files) == Some((m, ps)) <==>
            && Load(manifest) == Some(m) && AllTaken(directory, files, m, ps)
            && |m| <= 128 && SizesPass(Start(|m|), ps)
  {
    hide Load, Gather, AllTaken, SizesPass, Start, M.EntryOk;
    if Load(manifest).Some? {
      LoadedIsValid(manifest);
      StartIs(|Load(manifest).value|);
      GatherExactly(Start(|Load(manifest).value|), directory, files, Load(manifest).value, ps);
    }
  }

  /** When the aligned total fits, so does every sum the packer tests. */
  lemma FitPasses(m: seq<M.Entry>, ps: seq<seq<byte>>)
    requires Packable(m, ps) && Fits(m, ps)
    ensures |m| <= 128 && SizesPass(Start(|m|), ps)
  {
    hide Cursor, Cursor32, Start, Crc;
    StartIs(|m|);
    forall k | 0 <= k < |ps|
      ensures Cursor32(Start(|m|), ps[..k]) + |ps[k]| <= 0xffff_ffff
    {
      OffsetsFit(m, ps, k);
      OffsetIsCursor(m, ps, k);
    }
  }

  lemma OffsetIsCursor(m: seq<M.Entry>, ps: seq<seq<byte>>, k: nat)
    requires k < |m| == |ps| <= 128
    ensures EntryFor(Start(|m|), m, ps, k).offset == Cursor32(Start(|m|), ps[..k])
  {
    hide Crc, Cursor32, Start;
  }

  /**
    From the manifest's lines and the files in the directory on: if every entry
    has its file and the total fits, packing reports success, the file is as the
    format says, and validating it against the same manifest succeeds too.
   */
  method PackAndValidate(doc: seq<DocLine>, directory: seq<byte>, files: map<seq<byte>, seq<byte>>,
          ghost ps: seq<seq<byte>>, created: Output)
    returns (status: int, verdict: V.Verdict)
    requires DocOk(doc) && M.Valid(Items(doc)) && AllTaken(directory, files, Items(doc), ps) && Fits(Items(doc), ps)
    requires created.Valid() && created.data == [] && created.closes
    requires |ImageOf(Items(doc), ps)| <= created.room
    modifies created
    ensures status == 0 && verdict == V.Accepted && |Items(doc)| == |ps| && Packed(created.data, Items(doc), ps)
  {
    hide ImageOf, Gather, Inputs, Load, Render, Fits, Packed, V.Judge, SizesPass;
    var manifest := Opened(Render(doc), false);
    PrintThenLoad(doc);
    TakenSized(directory, files, Items(doc), ps);
    FitPasses(Items(doc), ps);
    InputsExactly(manifest, directory, files, Items(doc), ps);
    PackedExactly(ImageOf(Items(doc), ps), Items(doc), ps);
    PackedValidates(Items(doc), ps);
    status := PackImage(manifest, directory, files, created);
    verdict := V.ValidateImage(manifest, Some(created.data));
  }

  lemma TakenSized(directory: seq<byte>, files: map<seq<byte>, seq<byte>>, m: seq<M.Entry>, ps: seq<seq<byte>>)
    requires M.Valid(m) && AllTaken(directory, files, m, ps)
    ensures Packable(m, ps)
  {
    hide Joined, M.EntryOk;
  }
}
