/**
  One concrete case from end to end: an image with a single one-byte module,
  staged whole and staged damaged.  It shows that the conditions of the general
  statements can be met together.
 */
module SmallestImage {
  import opened Wrappers
  import opened Words
  import opened Crc32
  import opened Environment
  import opened Requirements
  import opened StagingSpec
  import opened StagingRuns
  import opened Layout
  import opened PackedImages
  import opened StagedImages
  import opened Corruption
  import G = PackGuard
  import M = Manifest

  function Calmly(path: Path, image: seq<byte>): (env: Env)
    ensures env.Calm() && path in env.files && env.files[path] == image
  {
    Env(map[path := image], true, true, true, true, true, true, true, {}, {})
  }

  /** The image of one module with one zero byte. */
  lemma OneByteImage(e: M.Entry)
    requires M.EntryOk(e)
    ensures Packable([e], [[0]]) && Fits([e], [[0]])
    ensures Start(1) == 64 && EntryFor(Start(1), [e], [[0]], 0).offset == 64 &&
            EntryFor(Start(1), [e], [[0]], 0).size == 1
    ensures |ImageOf([e], [[0]])| == 80 && ImageOf([e], [[0]])[64..65] == [0]
  {
    hide ImageOf, Cursor, EntryFor, Crc, Wrap, M.EntryOk;
    var m, ps: seq<seq<byte>> := [e], [[0]];
    G.SingleModule(e, [0]);
    OneByteCursor();
    ImageLength(m, ps);
    FirstEntry(e);
    PayloadAt(m, ps, 0);
  }

  lemma OneByteCursor()
    ensures Start(1) == 64 && Cursor(64, [[0]]) == 80
  {
    OneCursor(64, [0]);
  }

  lemma FirstEntry(e: M.Entry)
    ensures EntryFor(64, [e], [[0]], 0).offset == 64 && EntryFor(64, [e], [[0]], 0).size == 1
  {
    hide Crc;
    NoPayloadsBefore([[0]]);
  }

  lemma NoPayloadsBefore(ps: seq<seq<byte>>)
    requires ps != []
    ensures ps[..0] == []
  {
  }

  /** Setting that byte to one is damage within its payload. */
  lemma SetByte(f: seq<byte>) returns (g: seq<byte>)
    requires |f| == 80 && f[64..65] == [0]
    ensures |g| == |f| && Damaged(f, g, 512, 520, 64, 65)
  {
    hide Damaged;
    assert f[64] == f[64..65][0];
    g := f[64 := 1];
    FourBytesDamage(f, g, 64, 65, 64, 65);
  }

  lemma WantsOnly(mask: bv32, id: nat, m: seq<M.Entry>)
    requires Expand(mask) == {id} && |m| == 1 && m[0].id == id
    ensures forall x :: x in Expand(mask) ==> Named(m, x)
  {
    assert Names(m, 0, id);
  }

  lemma CdfsMask()
    ensures Expand(Bit(Cdfs)) == {CDFS} && !BadMask(Bit(Cdfs))
  {
    ExpandBit(Cdfs);
  }

  /** From the initial state the image stages as packed, and the damaged one is refused with the CRC error. */
  lemma StagedWholeAndDamaged(e: M.Entry, path: Path)
    requires M.EntryOk(e) && e.id == CDFS
    ensures exists f, g ::
      && f == ImageOf([e], [[0]]) && |g| == |f|
      && Stage(INITIAL, Some(path), Bit(Cdfs), Calmly(path, f)).1 == Success
      && Stage(INITIAL, Some(path), Bit(Cdfs), Calmly(path, g)) == (INITIAL, CrcError)
  {
    hide ImageOf, EntryFor, Start, Stage, Inv, Fits, Expand, BadMask, Damaged, M.EntryOk, Bit;
    OneByteImage(e);
    var f := ImageOf([e], [[0]]);
    var g := SetByte(f);
    CdfsMask();
    WantsOnly(Bit(Cdfs), CDFS, [e]);
    InitialInv();
    PackThenStage([e], [[0]], INITIAL, path, Bit(Cdfs), Calmly(path, f));
    DamageReported([e], [[0]], g, 0, 512, 520, INITIAL, path, Bit(Cdfs), Calmly(path, g));
  }
}
