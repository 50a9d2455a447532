/**
  The version 1 container: a 44-byte header, a table of 20-byte entries, and
  payloads at 16-byte boundaries.
 */
module ImageFormat {
  import opened ImageConstants
  import opened Words

  const MAGIC: seq<byte> := [80, 83, 50, 73, 82, 88, 48, 49] // "PS2IRX01"
  const VERSION: u32 := 1

  /** Where entry i of the table stands; also the end of a table of i entries. */
  function EntryAt(i: nat): nat {
    44 + 20 * i
  }

  datatype Header = Header(version: u32, headerSize: u32, count: u32, entrySize: u32, tableOffset: u32,
                           payloadOffset: u32, fileSize: u32, flags: u32, manifestCrc: u32)

  datatype Entry = Entry(id: u32, offset: u32, size: u32, crc: u32, flags: u32)

  function HeaderBytes(h: Header): (s: seq<byte>)
    ensures |s| == HEADER_SIZE
  {
    MAGIC + Le(h.version) + Le(h.headerSize) + Le(h.count) + Le(h.entrySize) + Le(h.tableOffset)
    + Le(h.payloadOffset) + Le(h.fileSize) + Le(h.flags) + Le(h.manifestCrc)
  }

  function ReadHeader(file: seq<byte>): Header
    requires |file| >= HEADER_SIZE
  {
    Header(ReadLe(file, 8), ReadLe(file, 12), ReadLe(file, 16), ReadLe(file, 20), ReadLe(file, 24),
           ReadLe(file, 28), ReadLe(file, 32), ReadLe(file, 36), ReadLe(file, 40))
  }

  function EntryBytes(e: Entry): (s: seq<byte>)
    ensures |s| == ENTRY_SIZE
  {
    Le(e.id) + Le(e.offset) + Le(e.size) + Le(e.crc) + Le(e.flags)
  }

  function ReadEntry(file: seq<byte>, at: nat): Entry
    requires at + ENTRY_SIZE <= |file|
  {
    Entry(ReadLe(file, at), ReadLe(file, at + 4), ReadLe(file, at + 8), ReadLe(file, at + 12), ReadLe(file, at + 16))
  }

  lemma HeaderRoundTrip(h: Header, rest: seq<byte>)
    ensures var file := HeaderBytes(h) + rest;
            file[..8] == MAGIC && ReadHeader(file) == h
  {
    var file := HeaderBytes(h) + rest;
    assert file[8..12] == Le(h.version);
    assert file[12..16] == Le(h.headerSize);
    assert file[16..20] == Le(h.count);
    assert file[20..24] == Le(h.entrySize);
    assert file[24..28] == Le(h.tableOffset);
    assert file[28..32] == Le(h.payloadOffset);
    assert file[32..36] == Le(h.fileSize);
    assert file[36..40] == Le(h.flags);
    assert file[40..44] == Le(h.manifestCrc);
    ReadAt(file, 8, h.version);
    ReadAt(file, 12, h.headerSize);
    ReadAt(file, 16, h.count);
    ReadAt(file, 20, h.entrySize);
    ReadAt(file, 24, h.tableOffset);
    ReadAt(file, 28, h.payloadOffset);
    ReadAt(file, 32, h.fileSize);
    ReadAt(file, 36, h.flags);
    ReadAt(file, 40, h.manifestCrc);
  }

  /** An entry is what its twenty bytes say, wherever they stand, and the bytes are what the entry says. */
  lemma EntryRoundTrip(file: seq<byte>, at: nat, e: Entry)
    requires at + ENTRY_SIZE <= |file|
    ensures file[at..at + ENTRY_SIZE] == EntryBytes(e) <==> ReadEntry(file, at) == e
  {
    hide Le, ReadLe;
    var w := file[at..at + ENTRY_SIZE];
    ReadAt(file, at, e.id);
    ReadAt(file, at + 4, e.offset);
    ReadAt(file, at + 8, e.size);
    ReadAt(file, at + 12, e.crc);
    ReadAt(file, at + 16, e.flags);
    TwentyBytes(file, at);
    Fifths(w, Le(e.id), Le(e.offset), Le(e.size), Le(e.crc), Le(e.flags));
  }

  lemma TwentyBytes(file: seq<byte>, at: nat)
    requires at + 20 <= |file|
    ensures var w := file[at..at + 20];
            && w[0..4] == file[at..at + 4] && w[4..8] == file[at + 4..at + 8] && w[8..12] == file[at + 8..at + 12]
            && w[12..16] == file[at + 12..at + 16] && w[16..20] == file[at + 16..at + 20]
  {
    SliceOfSlice(file, at, 20, 0, 4);
    SliceOfSlice(file, at, 20, 4, 8);
    SliceOfSlice(file, at, 20, 8, 12);
    SliceOfSlice(file, at, 20, 12, 16);
    SliceOfSlice(file, at, 20, 16, 20);
  }

  lemma SliceOfSlice(file: seq<byte>, at: nat, n: nat, i: nat, j: nat)
    requires at + n <= |file| && i <= j <= n
    ensures file[at..at + n][i..j] == file[at + i..at + j]
  {
    var a, b := file[at..at + n][i..j], file[at + i..at + j];
    assert |a| == |b| && forall k :: 0 <= k < |a| ==> a[k] == file[at + (i + k)] == b[k];
  }

  lemma Fifths(w: seq<byte>, a: seq<byte>, b: seq<byte>, c: seq<byte>, d: seq<byte>, e: seq<byte>)
    requires |w| == 20 && |a| == |b| == |c| == |d| == |e| == 4
    ensures w == a + b + c + d + e <==>
            w[0..4] == a && w[4..8] == b && w[8..12] == c && w[12..16] == d && w[16..20] == e
  {
    assert w == w[0..4] + w[4..8] + w[8..12] + w[12..16] + w[16..20];
    var x := a + b + c + d + e;
    assert x[0..4] == a && x[4..8] == b && x[8..12] == c && x[12..16] == d && x[16..20] == e;
  }

  // ---- the table ----

  function Table(es: seq<Entry>): (s: seq<byte>)
    ensures |s| == 20 * |es|
  {
    if es == [] then [] else Table(es[..|es| - 1]) + EntryBytes(es[|es| - 1])
  }

  lemma {:induction false} TableAt(es: seq<Entry>, i: nat)
    requires i < |es|
    ensures Table(es)[20 * i..20 * (i + 1)] == EntryBytes(es[i])
  {
    hide EntryBytes;
    var n := |es| - 1;
    EndsWith(Table(es[..n]), EntryBytes(es[n]), 20 * i, 20 * (i + 1));
    if i < n {
      TableAt(es[..n], i);
    }
  }

  lemma EndsWith(a: seq<byte>, b: seq<byte>, i: nat, j: nat)
    requires i <= j <= |a| + |b|
    ensures j <= |a| ==> (a + b)[i..j] == a[i..j]
    ensures i == |a| && j == |a| + |b| ==> (a + b)[i..j] == b
  {
  }

  /** The first count entries of the table that starts right after the header. */
  function RawEntries(file: seq<byte>, count: nat): (es: seq<Entry>)
    requires EntryAt(count) <= |file|
    ensures |es| == count
  {
    seq(count, (i: int) requires 0 <= i < count => ReadEntry(file, EntryAt(i)))
  }

  lemma Inside(a: seq<byte>, b: seq<byte>, c: seq<byte>, i: nat, j: nat)
    requires i <= j <= |b|
    ensures (a + b + c)[|a| + i..|a| + j] == b[i..j]
  {
  }

  lemma ReadInside(head: seq<byte>, t: seq<byte>, rest: seq<byte>, at: nat, e: Entry)
    requires |head| == HEADER_SIZE && at + ENTRY_SIZE <= |t| && t[at..at + ENTRY_SIZE] == EntryBytes(e)
    ensures ReadEntry(head + t + rest, HEADER_SIZE + at) == e
  {
    Inside(head, t, rest, at, at + ENTRY_SIZE);
    EntryRoundTrip(head + t + rest, HEADER_SIZE + at, e);
  }

  lemma RawEntriesAre(file: seq<byte>, es: seq<Entry>)
    requires EntryAt(|es|) <= |file|
    requires forall i :: 0 <= i < |es| ==> ReadEntry(file, EntryAt(i)) == es[i]
    ensures RawEntries(file, |es|) == es
  {
  }

  lemma TableRoundTrip(head: seq<byte>, es: seq<Entry>, rest: seq<byte>)
    requires |head| == HEADER_SIZE
    ensures RawEntries(head + Table(es) + rest, |es|) == es
  {
    hide ReadEntry, EntryBytes, Table;
    var t := Table(es);
    var file := head + t + rest;
    forall i | 0 <= i < |es|
      ensures ReadEntry(file, EntryAt(i)) == es[i]
    {
      TableAt(es, i);
      ReadInside(head, t, rest, 20 * i, es[i]);
    }
    RawEntriesAre(file, es);
  }
}
