/**
  The packer's size test against what the readers need: when the test passes,
  exactly which images still do not fit, and how they can be told.
 */
module PackGuard {
  import opened Wrappers
  import opened Words
  import opened Layout
  import opened PackedImages
  import opened Packer
  import opened ManifestText
  import opened ManifestPrinting
  import M = Manifest
  import V = Validator

  /** The size test has let every payload through. */
  ghost predicate GuardPasses(start: u32, ps: seq<seq<byte>>) {
    forall k :: 0 <= k < |ps| ==> |ps[k]| <= LIMIT - 1 - Cursor32(start, ps[..k])
  }

  lemma {:induction false} GatherPasses(start: u32, directory: seq<byte>, files: map<seq<byte>, seq<byte>>,
          m: seq<M.Entry>)
    requires Gather(start, directory, files, m).Some?
    ensures GuardPasses(start, Gather(start, directory, files, m).value)
  {
    hide Cursor32, Payload;
    if m != [] {
      var n := |m| - 1;
      GatherPasses(start, directory, files, m[..n]);
      var ps := Gather(start, directory, files, m[..n]).value;
      var all := Gather(start, directory, files, m).value;
      assert all[..n] == ps;
      assert forall k :: 0 <= k < n ==> all[..k] == ps[..k] && all[k] == ps[k];
    }
  }

  /** No offset handed out after the first payload, the file size included, is zero. */
  ghost predicate NoZeroCursor(start: u32, ps: seq<seq<byte>>) {
    forall k :: 1 <= k <= |ps| ==> Cursor32(start, ps[..k]) != 0
  }

  lemma StepFits(c: nat, s: nat)
    requires c + s < LIMIT
    ensures Aligned(c + s) <= LIMIT
  {
  }

  lemma {:induction false} NoZeroFits(start: u32, ps: seq<seq<byte>>)
    requires GuardPasses(start, ps) && NoZeroCursor(start, ps)
    ensures Cursor(start, ps) < LIMIT
  {
    hide Cursor32, Wrap, Aligned;
    if ps != [] {
      var n := |ps| - 1;
      var front := ps[..n];
      assert forall k :: 0 <= k <= n ==> front[..k] == ps[..k];
      NoZeroFits(start, front);
      CursorWraps(start, front);
      CursorWraps(start, ps);
      assert ps[..n + 1] == ps;
      WrapOnce(Cursor(start, front));
      StepFits(Cursor(start, front), |ps[n]|);
      WrapOnce(Cursor(start, ps));
    }
  }

  lemma FitsNoZero(start: u32, ps: seq<seq<byte>>)
    requires start > 0 && OnBoundary(start) && Cursor(start, ps) < LIMIT
    ensures NoZeroCursor(start, ps)
  {
    hide Cursor, Cursor32, Wrap;
    forall k | 1 <= k <= |ps|
      ensures Cursor32(start, ps[..k]) != 0
    {
      CursorMonotone(start, ps, k);
      CursorWraps(start, ps[..k]);
      WrapOnce(Cursor(start, ps[..k]));
    }
  }

  /**
    The packer writes an unusable image exactly when one of the offsets it has
    computed, or the file size, has come out as zero: that is the only way past
    its size test.
   */
  lemma UnusableIffZero(manifest: TextFile, directory: seq<byte>, files: map<seq<byte>, seq<byte>>)
    requires Inputs(manifest, directory, files).Some?
    ensures var (m, ps) := Inputs(manifest, directory, files).value;
            Packable(m, ps) && (Fits(m, ps) <==> NoZeroCursor(Start(|m|), ps))
  {
    hide Gather, Cursor, Cursor32, Start, NoZeroCursor, Load, M.EntryOk;
    var (m, ps) := Inputs(manifest, directory, files).value;
    StartIs(|m|);
    GatherPasses(Start(|m|), directory, files, m);
    if Fits(m, ps) {
      FitsNoZero(Start(|m|), ps);
    }
    if NoZeroCursor(Start(|m|), ps) {
      NoZeroFits(Start(|m|), ps);
    }
  }

  /** For a single module: the image fits up to 80 bytes short of 4 GiB, fifteen sizes fewer than the test admits. */
  lemma SingleModule(e: M.Entry, p: seq<byte>)
    requires M.EntryOk(e) && p != []
    ensures Fits([e], [p]) <==> |p| <= 0xffff_ffb0
    ensures GuardPasses(Start(1), [p]) <==> |p| <= 0xffff_ffbf
  {
    hide M.EntryOk, Cursor, Cursor32;
    assert Start(1) == 64;
    OneCursor(64, p);
    assert [p][..0] == [];
    EightyShort(|p|);
  }

  lemma EightyShort(n: nat)
    ensures Aligned(64 + n) < LIMIT <==> n <= 0xffff_ffb0
  {
  }

  // ---- such an image, from the command's arguments on ----

  lemma OneRow(e: M.Entry)
    requires RowOk(e)
    ensures Load(Opened(Render([Item(e)]), false)) == Some([e])
  {
    var doc := [Item(e)];
    assert doc[1..] == [] && Items(doc) == [e] + Items(doc[1..]) == [e];
    PrintThenLoad(doc);
  }

  lemma OneGathered(start: u32, directory: seq<byte>, e: M.Entry, p: seq<byte>)
    requires |PayloadPath(directory, e.filename)| < PATH_MAX && 0 < |p| <= LIMIT - 1 - start
    ensures Gather(start, directory, map[PayloadPath(directory, e.filename) := p], [e]) == Some([p])
  {
    hide PayloadPath;
    var files := map[PayloadPath(directory, e.filename) := p];
    NothingGathered(start, directory, files, [e]);
    GatherStep(start, directory, files, [e], 0);
    assert [e][..0 + 1] == [e];
    assert [] + [p] == [p];
  }

  /**
    A manifest of one line and a payload of any of the fifteen sizes in between:
    the command takes them, and the image it writes is rejected by the validator
    run with the same manifest.
   */
  lemma UnusableInputs(e: M.Entry, p: seq<byte>, directory: seq<byte>)
    requires RowOk(e) && 0xffff_ffb0 < |p| <= 0xffff_ffbf && |PayloadPath(directory, e.filename)| < PATH_MAX
    ensures Inputs(Opened(Render([Item(e)]), false), directory, map[PayloadPath(directory, e.filename) := p]) ==
            Some(([e], [p]))
    ensures !Fits([e], [p]) && V.Judge([e], ImageOf([e], [p])) == V.Rejected
  {
    hide Load, Gather, Cursor, RowOk, ImageOf, PayloadPath;
    OneRow(e);
    assert Start(1) == 64;
    OneGathered(64, directory, e, p);
    assert M.EntryOk(e) by {
      RowIsEntry(e);
    }
    SingleModule(e, p);
    TooLongToJudge(e, p);
  }

  lemma RowIsEntry(e: M.Entry)
    requires RowOk(e)
    ensures M.EntryOk(e)
  {
  }

  lemma TooLongToJudge(e: M.Entry, p: seq<byte>)
    requires !Fits([e], [p])
    ensures V.Judge([e], ImageOf([e], [p])) == V.Rejected
  {
    hide ImageOf, Cursor;
    ImageLength([e], [p]);
  }

  /** Both commands in turn: packing reports success, validating what was packed does not. */
  method PackThenValidate(e: M.Entry, p: seq<byte>, directory: seq<byte>, created: Output)
    returns (status: int, verdict: V.Verdict)
    requires RowOk(e) && 0xffff_ffb0 < |p| <= 0xffff_ffbf && |PayloadPath(directory, e.filename)| < PATH_MAX
    requires created.Valid() && created.data == [] && created.closes && |ImageOf([e], [p])| <= created.room
    modifies created
    ensures status == 0 && created.data == ImageOf([e], [p]) && verdict == V.Rejected
  {
    hide ImageOf, Gather, RowOk, PayloadPath, Render, Inputs, Load;
    var manifest := Opened(Render([Item(e)]), false);
    UnusableInputs(e, p, directory);
    OneRow(e);
    status := PackImage(manifest, directory, map[PayloadPath(directory, e.filename) := p], created);
    verdict := V.ValidateImage(manifest, Some(created.data));
  }
}
