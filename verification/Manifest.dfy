/**
  The canonical module list and the fingerprint the packer stores in every
  image header.
 */
module Manifest {
  import opened ImageConstants
  import opened Words
  import opened Crc32

  const MAX_FIELD: nat := 128

  datatype Entry = Entry(id: u32, filename: seq<byte>, symbol: seq<byte>, name: seq<byte>)

  /** A field as the C structure can hold it: a non-empty string with its terminator in 128 bytes. */
  predicate FieldOk(f: seq<byte>) {
    0 < |f| < MAX_FIELD && 0 !in f
  }

  predicate EntryOk(e: Entry) {
    e.id != 0 && FieldOk(e.filename) && FieldOk(e.symbol) && FieldOk(e.name)
  }

  ghost predicate DistinctIds(es: seq<Entry>) {
    forall i, j :: 0 <= i < j < |es| ==> es[i].id != es[j].id
  }

  /** What load_manifest guarantees about the list it returns. */
  ghost predicate Valid(es: seq<Entry>) {
    && 1 <= |es| <= MAX_ENTRIES
    && (forall i :: 0 <= i < |es| ==> EntryOk(es[i]))
    && DistinctIds(es)
  }

  /** The bytes one entry contributes: its id and its three strings with their terminators. */
  function Encode(e: Entry): seq<byte> {
    Le(e.id) + ((e.filename + [0]) + ((e.symbol + [0]) + (e.name + [0])))
  }

  function Stream(es: seq<Entry>): seq<byte> {
    if es == [] then [] else Encode(es[0]) + Stream(es[1..])
  }

  function Fingerprint(es: seq<Entry>): u32 {
    Crc(Stream(es))
  }

  lemma {:induction false} StreamSnoc(es: seq<Entry>, e: Entry)
    ensures Stream(es + [e]) == Stream(es) + Encode(e)
  {
    if es == [] {
      assert es + [e] == [e] && Stream([e]) == Encode(e) + [];
    } else {
      assert (es + [e])[1..] == es[1..] + [e];
      StreamSnoc(es[1..], e);
    }
  }

  /** What one entry contributes, flat. */
  lemma StreamOfOne(e: Entry)
    ensures Stream([e]) == Le(e.id) + e.filename + [0] + e.symbol + [0] + e.name + [0]
  {
    assert [e][1..] == [];
    Flat(Le(e.id), e.filename, e.symbol, e.name, [0]);
  }

  lemma Flat(a: seq<byte>, b: seq<byte>, c: seq<byte>, d: seq<byte>, z: seq<byte>)
    ensures a + ((b + z) + ((c + z) + (d + z))) == a + b + z + c + z + d + z
  {
  }

  /** The entries follow one another. */
  lemma {:induction false} StreamSplits(ds: seq<Entry>, es: seq<Entry>)
    ensures Stream(ds + es) == Stream(ds) + Stream(es)
  {
    hide Encode;
    if ds == [] {
      assert ds + es == es;
    } else {
      assert (ds + es)[1..] == ds[1..] + es;
      StreamSplits(ds[1..], es);
    }
  }

  /** Four updates per entry leave the CRC of the whole stream. */
  method LogicalCrc(es: seq<Entry>) returns (crc: u32)
    ensures crc == Fingerprint(es)
  {
    crc := 0;
    for i := 0 to |es|
      invariant crc == Update(0, Stream(es[..i]))
    {
      var e := es[i];
      ghost var before := Stream(es[..i]);
      crc := UpdateLoop(crc, Le(e.id));
      crc := UpdateLoop(crc, e.filename + [0]);
      crc := UpdateLoop(crc, e.symbol + [0]);
      crc := UpdateLoop(crc, e.name + [0]);
      FourUpdates(before, Le(e.id), e.filename + [0], e.symbol + [0], e.name + [0]);
      assert es[..i + 1] == es[..i] + [e];
      StreamSnoc(es[..i], e);
    }
    assert es[..|es|] == es;
  }

  lemma FourUpdates(s: seq<byte>, a: seq<byte>, b: seq<byte>, c: seq<byte>, d: seq<byte>)
    ensures Update(Update(Update(Update(Update(0, s), a), b), c), d) == Update(0, s + (a + (b + (c + d))))
  {
    UpdateComposes(Update(Update(Update(0, s), a), b), c, d);
    UpdateComposes(Update(Update(0, s), a), b, c + d);
    UpdateComposes(Update(0, s), a, b + (c + d));
    UpdateComposes(0, s, a + (b + (c + d)));
  }

  // ---- unique decoding ----

  /** The first terminator ends the first string. */
  lemma {:induction false} StringThenRest(a: seq<byte>, x: seq<byte>, b: seq<byte>, y: seq<byte>)
    requires 0 !in a && 0 !in b
    requires (a + [0]) + x == (b + [0]) + y
    ensures a == b && x == y
  {
    var s, t := (a + [0]) + x, (b + [0]) + y;
    FirstByte(a);
    FirstByte(b);
    assert s[0] == (a + [0])[0] && t[0] == (b + [0])[0];
    if a == [] {
      assert s[1..] == x && t[1..] == y;
    } else {
      assert s[1..] == (a[1..] + [0]) + x && t[1..] == (b[1..] + [0]) + y;
      StringThenRest(a[1..], x, b[1..], y);
      assert a == [a[0]] + a[1..] && b == [b[0]] + b[1..];
    }
  }

  lemma FirstByte(a: seq<byte>)
    requires 0 !in a
    ensures (a + [0])[0] == 0 <==> a == []
    ensures a != [] ==> (a + [0])[0] == a[0]
  {
  }

  lemma HeadThenRest(a: seq<byte>, x: seq<byte>, b: seq<byte>, y: seq<byte>)
    requires |a| == |b| && a + x == b + y
    ensures a == b && x == y
  {
    assert (a + x)[..|a|] == a && (b + y)[..|a|] == b;
    assert (a + x)[|a|..] == x && (b + y)[|a|..] == y;
  }

  lemma EncodeThenRest(d: Entry, x: seq<byte>, e: Entry, y: seq<byte>)
    requires EntryOk(d) && EntryOk(e)
    requires Encode(d) + x == Encode(e) + y
    ensures d == e && x == y
  {
    Unfold(d, x);
    Unfold(e, y);
    HeadThenRest(Le(d.id), Tail(d, x), Le(e.id), Tail(e, y));
    LeInjective(d.id, e.id);
    StringThenRest(d.filename, (d.symbol + [0]) + ((d.name + [0]) + x),
                   e.filename, (e.symbol + [0]) + ((e.name + [0]) + y));
    StringThenRest(d.symbol, (d.name + [0]) + x, e.symbol, (e.name + [0]) + y);
    StringThenRest(d.name, x, e.name, y);
  }

  function Tail(e: Entry, x: seq<byte>): seq<byte> {
    (e.filename + [0]) + ((e.symbol + [0]) + ((e.name + [0]) + x))
  }

  lemma Unfold(e: Entry, x: seq<byte>)
    ensures Encode(e) + x == Le(e.id) + Tail(e, x)
  {
    var a, b, c, d := Le(e.id), e.filename + [0], e.symbol + [0], e.name + [0];
    assert (c + d) + x == c + (d + x);
    assert (b + (c + d)) + x == b + ((c + d) + x);
    assert (a + (b + (c + d))) + x == a + ((b + (c + d)) + x);
  }

  /** The fingerprinted stream determines the manifest. */
  lemma {:induction false} StreamInjective(ds: seq<Entry>, es: seq<Entry>)
    requires forall i :: 0 <= i < |ds| ==> EntryOk(ds[i])
    requires forall i :: 0 <= i < |es| ==> EntryOk(es[i])
    requires Stream(ds) == Stream(es)
    ensures ds == es
  {
    if ds != [] && es != [] {
      EncodeThenRest(ds[0], Stream(ds[1..]), es[0], Stream(es[1..]));
      StreamInjective(ds[1..], es[1..]);
      assert ds == [ds[0]] + ds[1..] && es == [es[0]] + es[1..];
    }
  }
}
