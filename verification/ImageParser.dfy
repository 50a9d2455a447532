/**
  parse_image_entries: the runtime's reading of header and entry table.
 */
module ImageParser {
  import opened ImageConstants
  import opened Wrappers
  import opened Words
  import opened ImageFormat
  import opened Environment
  import H = Heap

  /** The header tests, in exact arithmetic. */
  predicate HeaderGood(h: Header, fileSize: nat) {
    && h.version == VERSION && h.headerSize == HEADER_SIZE && h.entrySize == ENTRY_SIZE && h.tableOffset == HEADER_SIZE
    && 1 <= h.count <= MAX_ENTRIES && h.flags == 0 && h.fileSize == fileSize
    && EntryAt(h.count) <= fileSize && EntryAt(h.count) <= h.payloadOffset <= fileSize && OnBoundary(h.payloadOffset)
  }

  /** A non-empty, unflagged, aligned payload between the payload area's start and the end of the file. */
  predicate InBounds(e: Entry, payloadOffset: nat, fileSize: nat) {
    e.size != 0 && e.flags == 0 && payloadOffset <= e.offset && OnBoundary(e.offset) && e.offset + e.size <= fileSize
  }

  /** What every accepted entry satisfies; no sum here leaves 32 bits. */
  predicate EntryGood(e: Entry, payloadOffset: nat, fileSize: nat) {
    e.id != 0 && InBounds(e, payloadOffset, fileSize)
  }

  ghost predicate DistinctIds(es: seq<Entry>) {
    forall i, j :: 0 <= j < i < |es| ==> es[j].id != es[i].id
  }

  ghost predicate EntriesGood(es: seq<Entry>, payloadOffset: nat, fileSize: nat) {
    (forall i :: 0 <= i < |es| ==> EntryGood(es[i], payloadOffset, fileSize)) && DistinctIds(es)
  }

  /** A file the parser has nothing against. */
  ghost predicate Accepts(file: seq<byte>) {
    && |file| >= HEADER_SIZE && file[..8] == MAGIC && HeaderGood(ReadHeader(file), |file|)
    && EntriesGood(EntriesOf(file), ReadHeader(file).payloadOffset, |file|)
  }

  ghost function EntriesOf(file: seq<byte>): seq<Entry>
    requires |file| >= HEADER_SIZE && HeaderGood(ReadHeader(file), |file|)
  {
    RawEntries(file, ReadHeader(file).count)
  }

  /** The outcome, failures in the order they are met. */
  ghost function Parse(file: seq<byte>, env: Env): Result<seq<Entry>, Code>
    requires |file| >= HEADER_SIZE
  {
    if !env.headerRead then Err(IoError)
    else if file[..8] != MAGIC || !HeaderGood(ReadHeader(file), |file|) then Err(FormatError)
    else if !env.tableAlloc || !env.entriesAlloc then Err(OutOfMemory)
    else if !env.tableRead then Err(IoError)
    else if Accepts(file) then Ok(EntriesOf(file))
    else Err(FormatError)
  }

  // ---- the tests as the source writes them, in 32-bit arithmetic ----

  method CheckHeader(h: Header, fileSize: u32) returns (good: bool)
    ensures good <==> HeaderGood(h, fileSize)
  {
    if h.version != VERSION || h.headerSize != HEADER_SIZE || h.entrySize != ENTRY_SIZE || h.tableOffset != HEADER_SIZE
       || h.count == 0 || h.count > MAX_ENTRIES || h.flags != 0 || h.fileSize != fileSize {
      return false;
    }
    TableEnd(h.count);
    var tableEnd := Add32(h.tableOffset, Mul32(h.count, h.entrySize));
    if h.count > (0xffff_ffff - h.tableOffset) / h.entrySize || tableEnd > fileSize || h.payloadOffset < tableEnd
       || h.payloadOffset > fileSize || h.payloadOffset % 16 != 0 {
      return false;
    }
    return true;
  }

  lemma TableEnd(count: u32)
    requires count <= MAX_ENTRIES
    ensures Add32(HEADER_SIZE, Mul32(count, ENTRY_SIZE)) == EntryAt(count)
    ensures count <= (0xffff_ffff - HEADER_SIZE) / ENTRY_SIZE
  {
    assert ENTRY_SIZE == 20 && count * ENTRY_SIZE == 20 * count;
  }

  method CheckEntry(e: Entry, payloadOffset: u32, fileSize: u32) returns (good: bool)
    ensures good <==> EntryGood(e, payloadOffset, fileSize)
  {
    good := !(e.id == 0 || e.size == 0 || e.flags != 0 || e.offset < payloadOffset || e.offset > fileSize
              || e.offset % 16 != 0 || e.size > Sub32(fileSize, e.offset));
  }

  const NO_ENTRY := Entry(0, 0, 0, 0, 0)

  /** The loop over the table: decodes entry after entry and stops at the first bad or repeated one. */
  method DecodeEntries(table: H.Buffer<byte>, entries: array<Entry>, payloadOffset: u32, fileSize: u32,
          ghost all: seq<Entry>)
    returns (good: bool)
    requires entries.Length == |all| && |table.data| == 20 * |all|
    requires forall i :: 0 <= i < |all| ==> ReadEntry(table.data, 20 * i) == all[i]
    modifies entries
    ensures good <==> EntriesGood(all, payloadOffset, fileSize)
    ensures good ==> entries[..] == all
  {
    hide ReadEntry;
    for i := 0 to entries.Length
      invariant forall k :: 0 <= k < i ==> entries[k] == all[k] && EntryGood(all[k], payloadOffset, fileSize)
      invariant forall k, l :: 0 <= l < k < i ==> all[l].id != all[k].id
    {
      entries[i] := ReadEntry(table.data, 20 * i);
      assert entries[i] == all[i];
      var fits := CheckEntry(entries[i], payloadOffset, fileSize);
      if !fits {
        return false;
      }
      for j := 0 to i
        invariant forall l :: 0 <= l < j ==> all[l].id != all[i].id
      {
        if entries[j].id == entries[i].id {
          return false;
        }
      }
    }
    return true;
  }

  /**
    Reads the entries of an open image into a fresh array.  On success that
    array is the only block left behind, on failure nothing is.
   */
  method ParseImageEntries(heap: H.Heap, file: H.Stream<byte>, env: Env)
    returns (code: Code, entries: array?<Entry>)
    requires HEADER_SIZE <= |file.content| < LIMIT
    modifies heap
    ensures heap.open == old(heap.open)
    ensures code == Success <==> Parse(file.content, env).Ok?
    ensures code != Success ==> Parse(file.content, env) == Err(code) && heap.live == old(heap.live)
    ensures code == Success ==>
              && entries != null && fresh(entries) && heap.live == old(heap.live) + {entries}
              && Parse(file.content, env) == Ok(entries[..])
  {
    hide HeaderGood, ReadHeader, EntriesGood, ReadEntry, EntryGood;
    entries := null;
    var content := file.content;
    if !env.headerRead {
      return IoError, null;
    }
    var header := content[..HEADER_SIZE];
    HeaderOnly(content);
    if header[..8] != MAGIC {
      return FormatError, null;
    }
    var h := ReadHeader(header);
    var fileSize: u32 := |content|;
    var good := CheckHeader(h, fileSize);
    if !good {
      return FormatError, null;
    }
    GoodCount(h, fileSize);
    var table := heap.Alloc(content[HEADER_SIZE..EntryAt(h.count)], env.tableAlloc);
    entries := heap.Calloc(h.count, NO_ENTRY, env.entriesAlloc);
    if table == null || entries == null {
      heap.Free(table);
      heap.Free(entries);
      return OutOfMemory, null;
    }
    if !env.tableRead {
      heap.Free(table);
      heap.Free(entries);
      return IoError, null;
    }
    ghost var all := EntriesOf(content);
    forall i | 0 <= i < |all|
      ensures ReadEntry(table.data, 20 * i) == all[i]
    {
      RawEntryInTable(content, h.count, i);
    }
    good := DecodeEntries(table, entries, h.payloadOffset, fileSize, all);
    if !good {
      heap.Free(table);
      heap.Free(entries);
      return FormatError, null;
    }
    heap.Free(table);
    code := Success;
  }

  lemma HeaderOnly(content: seq<byte>)
    requires |content| >= HEADER_SIZE
    ensures content[..HEADER_SIZE][..8] == content[..8] && ReadHeader(content[..HEADER_SIZE]) == ReadHeader(content)
  {
    hide ReadLe;
    ReadPrefix(content, HEADER_SIZE, 8);
    ReadPrefix(content, HEADER_SIZE, 12);
    ReadPrefix(content, HEADER_SIZE, 16);
    ReadPrefix(content, HEADER_SIZE, 20);
    ReadPrefix(content, HEADER_SIZE, 24);
    ReadPrefix(content, HEADER_SIZE, 28);
    ReadPrefix(content, HEADER_SIZE, 32);
    ReadPrefix(content, HEADER_SIZE, 36);
    ReadPrefix(content, HEADER_SIZE, 40);
  }

  lemma GoodCount(h: Header, fileSize: nat)
    requires HeaderGood(h, fileSize)
    ensures HEADER_SIZE <= EntryAt(h.count) <= fileSize
  {
  }

  lemma RawEntryInTable(content: seq<byte>, count: nat, i: nat)
    requires EntryAt(count) <= |content| && i < count
    ensures ReadEntry(content[HEADER_SIZE..EntryAt(count)], 20 * i) == RawEntries(content, count)[i]
  {
  }
}
