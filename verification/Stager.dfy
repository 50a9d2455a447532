/**
  The staging interface in place: six globals over heap blocks.  Every public
  method is proved to do what StagingSpec says, to keep the live blocks exactly
  the staging array, its filled buffers and the remembered path, and to leave
  no file open.
 */
module Stager {
  import opened ImageConstants
  import opened Wrappers
  import opened Words
  import opened Crc32
  import opened Environment
  import opened Requirements
  import opened StagingSpec
  import opened StagingInvariant
  import F = ImageFormat
  import P = ImageParser
  import H = Heap

  datatype Module = Module(id: nat, data: H.Buffer?<byte>, size: nat)

  const NO_MODULE := Module(0, null, 0)

  /** The buffers behind the first n modules. */
  ghost function Buffers(ms: seq<Module>): set<H.Buffer<byte>> {
    set i: int | 0 <= i < |ms| && ms[i].data != null :: ms[i].data
  }

  lemma NoBuffers()
    ensures Buffers([]) == {}
  {
  }

  ghost predicate NoSharing(ms: seq<Module>) {
    forall i, j :: 0 <= i < j < |ms| && ms[i].data != null ==> ms[i].data != ms[j].data
  }

  ghost function View(m: Module): Slot
    reads if m.data == null then {} else {m.data}
  {
    Slot(m.id, if m.data == null then None else Some(m.data.data), m.size)
  }

  ghost function Views(ms: seq<Module>): (slots: seq<Slot>)
    reads Buffers(ms)
    ensures |slots| == |ms|
  {
    seq(|ms|, (i: int) requires 0 <= i < |ms| reads Buffers(ms) => View(ms[i]))
  }

  /** find_entry over the array. */
  method FindEntryIn(entries: array<F.Entry>, id: nat) returns (r: Option<F.Entry>)
    ensures r == FindEntry(entries[..], id)
  {
    assert entries[0..] == entries[..];
    for i := 0 to entries.Length
      invariant FindEntry(entries[i..], id) == FindEntry(entries[..], id)
    {
      assert entries[i..][0] == entries[i] && entries[i..][1..] == entries[i + 1..];
      if entries[i].id == id {
        return Some(entries[i]);
      }
    }
    return None;
  }

  /** free_staged_array: every buffer and then the array itself. */
  method FreeStagedArray(heap: H.Heap, modules: array?<Module>, capacity: nat)
    requires modules != null ==>
               && modules.Length == capacity && modules in heap.live && Buffers(modules[..]) <= heap.live
               && NoSharing(modules[..])
    modifies heap
    ensures heap.open == old(heap.open)
    ensures heap.live == old(heap.live) - if modules == null then {} else {modules} + Buffers(modules[..])
  {
    if modules == null {
      return;
    }
    ghost var ms := modules[..];
    for i := 0 to capacity
      invariant modules[..] == ms && heap.open == old(heap.open)
      invariant heap.live == old(heap.live) - Buffers(ms[..i])
    {
      BuffersStep(ms, i);
      heap.Free(modules[i].data);
    }
    assert ms[..capacity] == ms;
    heap.Free(modules);
  }

  lemma BuffersStep(ms: seq<Module>, i: nat)
    requires i < |ms|
    ensures Buffers(ms[..i + 1]) == Buffers(ms[..i]) + if ms[i].data == null then {} else {ms[i].data}
    ensures NoSharing(ms) && ms[i].data != null ==> ms[i].data !in Buffers(ms[..i])
    ensures Buffers(ms[..i + 1]) <= Buffers(ms)
  {
    assert ms[..i + 1] == ms[..i] + [ms[i]];
  }

  /** Module m is what the slot describes. */
  ghost predicate Shows(m: Module, x: Slot)
    reads if m.data == null then {} else {m.data}
  {
    x == View(m)
  }

  /** Counting the marks. */
  method CountRequested(requested: array<bool>, ghost ids: set<nat>) returns (n: nat)
    requires requested.Length == MAX_ENTRIES + 1 && Marked(requested, ids)
    ensures n == |Wanted(ids, MAX_ENTRIES)|
  {
    n := 0;
    for id := 1 to MAX_ENTRIES + 1
      invariant n == |Wanted(ids, id - 1)|
    {
      if requested[id] {
        n := n + 1;
      }
    }
  }

  method TestMark(requested: array<bool>, id: nat, ghost ids: set<nat>) returns (r: bool)
    requires requested.Length == MAX_ENTRIES + 1 && Marked(requested, ids) && id <= MAX_ENTRIES
    ensures r <==> id in ids
  {
    r := requested[id];
  }

  /** One turn of the loading loop up to the check of the CRC; only a loaded buffer stays allocated. */
  method LoadPayload(heap: H.Heap, file: H.Stream<byte>, entries: array<F.Entry>, id: nat, env: Env)
    returns (code: Code, data: H.Buffer?<byte>)
    modifies heap
    ensures heap.open == old(heap.open)
    ensures code == Success ==>
              && data != null && fresh(data) && heap.live == old(heap.live) + {data}
              && LoadOne(file.content, entries[..], id, env) == Ok(Slot(id, Some(data.data), |data.data|))
    ensures code != Success ==>
              heap.live == old(heap.live) && LoadOne(file.content, entries[..], id, env) == Err(code)
  {
    hide FindEntry, Crc;
    data := null;
    var entry := FindEntryIn(entries, id);
    if entry.None? {
      return MissingModule, null;
    }
    var e := entry.value;
    data := heap.Alloc(Zeros(e.size), id !in env.badAllocs);
    if data == null {
      return OutOfMemory, null;
    }
    if id in env.badReads || e.offset + e.size > |file.content| {
      heap.Free(data);
      return IoError, null;
    }
    data.data := file.content[e.offset..e.offset + e.size];
    var crc := BytesLoop(data.data);
    if crc != e.crc {
      heap.Free(data);
      return CrcError, null;
    }
    code := Success;
  }

  lemma Nothing(file: seq<byte>, es: seq<F.Entry>, ids: set<nat>, env: Env)
    ensures Wanted(ids, 0) == [] && LoadAll(file, es, Wanted(ids, 0), env) == Ok([])
  {
  }

  lemma WantedStep(ids: set<nat>, id: nat)
    requires id > 0
    ensures Wanted(ids, id) == if id in ids then Wanted(ids, id - 1) + [id] else Wanted(ids, id - 1)
  {
  }

  lemma AddBuffer(before: seq<Module>, k: nat, m: Module)
    requires k < |before| && before[k].data == null && m.data != null
    requires NoSharing(before) && m.data !in Buffers(before)
    ensures Buffers(before[k := m]) == Buffers(before) + {m.data} && NoSharing(before[k := m])
  {
    var after := before[k := m];
    assert after[k].data == m.data;
    forall i | 0 <= i < |before| && before[i].data != null
      ensures before[i].data in Buffers(after)
    {
      assert after[i] == before[i];
    }
  }

  /**
    The loading loop.  A failure leaves the array with the buffers filled so
    far and nothing else.
   */
  method FillStaged(heap: H.Heap, file: H.Stream<byte>, entries: array<F.Entry>, staged: array<Module>,
          requested: array<bool>, ghost ids: set<nat>, env: Env)
    returns (code: Code, stagedBytes: nat, ghost slots: seq<Slot>)
    requires requested.Length == MAX_ENTRIES + 1 && Marked(requested, ids)
    requires staged.Length == |Wanted(ids, MAX_ENTRIES)|
    requires forall i :: 0 <= i < staged.Length ==> staged[i] == NO_MODULE
    modifies heap, staged
    ensures heap.open == old(heap.open)
    ensures heap.live == old(heap.live) + Buffers(staged[..]) && fresh(Buffers(staged[..])) && NoSharing(staged[..])
    ensures code == Success ==>
              && LoadAll(file.content, entries[..], Wanted(ids, MAX_ENTRIES), env) == Ok(slots)
              && |slots| == staged.Length && stagedBytes == Bytes(slots) && Views(staged[..]) == slots
    ensures code != Success ==> LoadAll(file.content, entries[..], Wanted(ids, MAX_ENTRIES), env) == Err(code)
  {
    hide LoadAll, LoadOne, FindEntry, Crc, Marked, Wanted;
    var index := 0;
    stagedBytes, slots := 0, [];
    Nothing(file.content, entries[..], ids, env);
    for id := 1 to MAX_ENTRIES + 1
      invariant LoadAll(file.content, entries[..], Wanted(ids, id - 1), env) == Ok(slots)
      invariant index == |slots| == |Wanted(ids, id - 1)| <= staged.Length && stagedBytes == Bytes(slots)
      invariant forall i :: 0 <= i < index ==>
                staged[i].data != null && fresh(staged[i].data) && Shows(staged[i], slots[i])
      invariant forall i :: index <= i < staged.Length ==> staged[i] == NO_MODULE
      invariant NoSharing(staged[..]) && fresh(Buffers(staged[..]))
      invariant heap.live == old(heap.live) + Buffers(staged[..]) && heap.open == old(heap.open)
    {
      WantedStep(ids, id);
      var wanted := TestMark(requested, id, ids);
      if wanted {
        LoadAllStep(file.content, entries[..], Wanted(ids, id - 1), id, env);
        WantedGrows(ids, id, MAX_ENTRIES);
        ghost var before := staged[..];
        var data;
        code, data := LoadPayload(heap, file, entries, id, env);
        if code != Success {
          LoadAllSame(file.content, entries[..], ids, id, MAX_ENTRIES, env);
          return;
        }
        staged[index] := Module(id, data, |data.data|);
        AddBuffer(before, index, staged[index]);
        slots := slots + [Slot(id, Some(data.data), |data.data|)];
        stagedBytes := stagedBytes + |data.data|;
        index := index + 1;
      }
    }
    code := Success;
  }

  /** Parsing and loading; on success the staging array and its buffers are the only blocks left behind. */
  method ReadModules(heap: H.Heap, file: H.Stream<byte>, requested: array<bool>, requestedCount: nat,
          ghost ids: set<nat>, env: Env)
    returns (code: Code, staged: array?<Module>, stagedBytes: nat, ghost slots: seq<Slot>)
    requires HEADER_SIZE <= |file.content| < LIMIT
    requires requested.Length == MAX_ENTRIES + 1 && Marked(requested, ids)
    requires requestedCount == |Wanted(ids, MAX_ENTRIES)|
    modifies heap
    ensures heap.open == old(heap.open)
    ensures code != Success ==> ReadAll(file.content, ids, env) == Err(code) && heap.live == old(heap.live)
    ensures code == Success ==>
              && ReadAll(file.content, ids, env) == Ok(slots) && stagedBytes == Bytes(slots)
              && staged != null && fresh(staged) && fresh(Buffers(staged[..])) && NoSharing(staged[..])
              && heap.live == old(heap.live) + {staged} + Buffers(staged[..])
              && staged.Length == requestedCount == |slots| && Views(staged[..]) == slots
  {
    hide P.Parse, LoadAll, Wanted, Marked, Bytes;
    stagedBytes, slots := 0, [];
    var parsed, entries := P.ParseImageEntries(heap, file, env);
    if parsed != Success {
      return parsed, null, 0, [];
    }
    staged := heap.Calloc(requestedCount, NO_MODULE, env.stagedAlloc);
    if staged == null {
      heap.Free(entries);
      return OutOfMemory, null, 0, [];
    }
    code, stagedBytes, slots := FillStaged(heap, file, entries, staged, requested, ids, env);
    heap.Free(entries);
    if code != Success {
      FreeStagedArray(heap, staged, requestedCount);
    }
  }

  class Stager {
    const heap: H.Heap
    var modules: array?<Module> // g_staged_modules
    var capacity: nat           // g_staged_capacity
    var count: nat              // g_staged_count
    var bytes: nat              // g_staged_bytes
    var path: H.Buffer?<char>   // g_image_path
    var last: bv32              // g_last_requirements

    ghost function Modules(): seq<Module>
      reads this, modules
    {
      if modules == null then [] else modules[..]
    }

    /** The blocks the globals own. */
    ghost function Owned(): set<object>
      reads this, modules
    {
      (if modules == null then {} else {modules}) + Buffers(Modules()) + (if path == null then {} else {path})
    }

    /** Where the globals point, and that nothing else is live. */
    ghost predicate Shape()
      reads this, heap, modules
    {
      && heap.live == Owned() && heap.open == {}
      && NoSharing(Modules())
      && |Modules()| == capacity
    }

    ghost function Abs(): State
      reads this, heap, heap.live, modules
      requires Shape()
    {
      State(if modules == null then None else Some(Views(modules[..])), capacity, count, bytes,
            if path == null then None else Some(path.data), last)
    }

    ghost predicate Valid()
      reads this, heap, heap.live, modules
    {
      Shape() && Inv(Abs())
    }

    constructor ()
      ensures Valid() && Abs() == INITIAL && fresh(heap)
    {
      heap := new H.Heap();
      modules, capacity, count, bytes, path, last := null, 0, 0, 0, null, 0;
    }

    /** What a successful staging leaves in the four staging globals. */
    ghost predicate Staged(slots: seq<Slot>)
      reads this, modules, Buffers(Modules())
    {
      && modules != null && Views(modules[..]) == slots
      && capacity == |slots| && count == |slots| && bytes == Bytes(slots)
    }

    /** What stage_from_path answers. */
    ghost function Answer(imagePath: Path, mask: bv32, env: Env): Code
      reads this
    {
      if BadMask(mask) then BadArgument
      else if modules != null || count != 0 then AlreadyStaged
      else if Wanted(Expand(mask), MAX_ENTRIES) == [] then BadArgument
      else match Fetch(imagePath, mask, env) case Err(c) => c case Ok(_) => Success
    }

    /**
      stage_from_path.  It may run while the caller holds further blocks, so its
      effect on the heap is stated relative to what was live before.
     */
    method StageFromPath(imagePath: Path, mask: bv32, env: Env) returns (code: Code)
      requires heap.open == {}
      modifies this, heap
      ensures heap.open == {}
      ensures code == old(Answer(imagePath, mask, env))
      ensures code != Success ==> unchanged(this) && heap.live == old(heap.live)
      ensures code == Success ==>
                && Fetch(imagePath, mask, env).Ok? && Staged(Fetch(imagePath, mask, env).value)
                && path == old(path) && last == old(last)
                && fresh(modules) && fresh(Buffers(Modules())) && NoSharing(Modules())
                && heap.live == old(heap.live) + {modules} + Buffers(Modules())
    {
      hide ReadAll, Expand, Wanted, Unknown, Marked, Buffers, NoSharing, Views, Bytes;
      if BadMask(mask) {
        return BadArgument;
      }
      if modules != null || count != 0 {
        return AlreadyStaged;
      }
      var requested := new bool[MAX_ENTRIES + 1](_ => false);
      ExpandRequirements(mask, requested);
      var requestedCount := CountRequested(requested, Expand(mask));
      if requestedCount == 0 {
        return BadArgument;
      }
      if imagePath !in env.files {
        return OpenFailed;
      }
      var file := heap.Open(env.files[imagePath]);
      if !env.seekEnd {
        heap.Close(file);
        return IoError;
      }
      if |file.content| < HEADER_SIZE || |file.content| >= LIMIT {
        heap.Close(file);
        return FormatError;
      }
      var read, staged, stagedBytes, slots := ReadModules(heap, file, requested, requestedCount, Expand(mask), env);
      heap.Close(file);
      if read != Success {
        return read;
      }
      modules, capacity, count, bytes := staged, requestedCount, requestedCount, stagedBytes;
      code := Success;
    }

    /** ps2_drivers_img_stage; a null path is None. */
    method Stage(imagePath: Option<Path>, mask: bv32, env: Env) returns (code: Code)
      requires Valid()
      modifies this, heap
      ensures Valid()
      ensures (Abs(), code) == StagingSpec.Stage(old(Abs()), imagePath, mask, env)
      ensures modules == old(modules) || fresh(modules)
      ensures code != Success ==> unchanged(this) && heap.live == old(heap.live)
    {
      hide Fetch, SlotsOk, Unknown, Expand, Wanted, Buffers, NoSharing, Views, Bytes, Inv;
      StageKeepsInv(Abs(), imagePath, mask, env);
      NoBuffers();
      if imagePath.None? || BadMask(mask) {
        return BadArgument;
      }
      if modules != null || count != 0 {
        return AlreadyStaged;
      }
      var copy := heap.Alloc(imagePath.value, env.pathAlloc);
      if copy == null {
        return OutOfMemory;
      }
      code := StageFromPath(imagePath.value, mask, env);
      if code != Success {
        heap.Free(copy);
        return;
      }
      heap.Free(path);
      path := copy;
      last := mask;
      Assembled(Fetch(imagePath.value, mask, env).value);
    }

    /** Globals set to what a staging has fetched, with nothing else live, make up the state. */
    lemma Assembled(slots: seq<Slot>)
      requires Staged(slots) && NoSharing(Modules())
      requires heap.live == Owned() && heap.open == {}
      ensures Shape()
      ensures Abs() ==
              State(Some(slots), |slots|, |slots|, Bytes(slots), if path == null then None else Some(path.data), last)
    {
      hide Bytes, Buffers, NoSharing;
    }

    /** ps2_drivers_img_restage */
    method Restage(mask: bv32, env: Env) returns (code: Code)
      requires Valid()
      modifies this, heap
      ensures Valid()
      ensures (Abs(), code) == StagingSpec.Restage(old(Abs()), mask, env)
      ensures modules == old(modules) || fresh(modules)
      ensures code != Success ==> unchanged(this) && heap.live == old(heap.live)
    {
      hide Fetch, SlotsOk, Unknown, Expand, Wanted, Buffers, NoSharing, Views, Bytes, Inv;
      RestageKeepsInv(Abs(), mask, env);
      NoBuffers();
      if BadMask(mask) {
        return BadArgument;
      }
      if path == null {
        return NoSource;
      }
      code := StageFromPath(path.data, mask, env);
      if code == Success {
        last := mask;
        Assembled(Fetch(path.data, mask, env).value);
      }
    }

    /** ps2_drivers_img_restage_last */
    method RestageLast(env: Env) returns (code: Code)
      requires Valid()
      modifies this, heap
      ensures Valid()
      ensures (Abs(), code) == StagingSpec.RestageLast(old(Abs()), env)
      ensures modules == old(modules) || fresh(modules)
      ensures code != Success ==> unchanged(this) && heap.live == old(heap.live)
    {
      if path == null || last == 0 {
        return NoSource;
      }
      code := Restage(last, env);
    }

    /** ps2_drivers_img_discard_staged */
    method Discard()
      requires Valid()
      modifies this, heap
      ensures Valid() && Abs() == StagingSpec.Discard(old(Abs())) && modules == null
    {
      hide SlotsOk, Unknown;
      FreeStagedArray(heap, modules, capacity);
      modules, capacity, count, bytes := null, 0, 0, 0;
    }

    /** ps2_drivers_img_forget_source */
    method Forget()
      requires Valid()
      modifies this, heap
      ensures Valid() && Abs() == StagingSpec.Forget(old(Abs())) && modules == old(modules)
    {
      hide SlotsOk;
      heap.Free(path);
      path, last := null, 0;
    }

    /** ps2_drivers_img_get_staged */
    method GetStaged(id: nat) returns (data: H.Buffer?<byte>, size: nat)
      requires Valid()
      ensures StagingSpec.GetStaged(Abs(), id).None? <==> data == null
      ensures data != null ==>
                data in Buffers(Modules()) && StagingSpec.GetStaged(Abs(), id) == Some(data.data) && size == |data.data|
    {
      hide SlotsOf, Unknown;
      ghost var slots := Views(Modules());
      assert SlotsOf(Abs()) == slots by { SlotsAreViews(); }
      for i := 0 to capacity
        invariant forall k :: 0 <= k < i ==> !(slots[k].id == id && slots[k].data.Some?)
      {
        assert slots[i] == View(modules[i]);
        if modules[i].id == id && modules[i].data != null {
          assert SlotOk(slots[i]);
          return modules[i].data, modules[i].size;
        }
      }
      return null, 0;
    }

    lemma SlotsAreViews()
      requires Shape()
      ensures SlotsOf(Abs()) == Views(Modules())
    {
      assert modules == null ==> Views([]) == [];
    }

    /** ps2_drivers_img_release_staged */
    method Release(id: nat)
      requires Valid()
      modifies this, heap, modules
      ensures Valid() && Abs() == StagingSpec.Release(old(Abs()), id)
      ensures modules == old(modules) || modules == null
    {
      hide SlotsOk, Unknown, Bytes, Buffers, NoSharing, Live, Empty, FindLive;
      SlotsAreViews();
      ReleaseKeepsInv(Abs(), id);
      ClampsIdle(Abs(), id);
      var i := FindSlot(id);
      if i < capacity {
        EmptySlot(i);
      }
      if count == 0 && modules != null {
        DropArray();
      }
    }

    method EmptySlot(i: nat)
      requires Valid() && i < capacity && modules[i].data != null
      modifies this, heap, modules
      ensures Shape() && Abs() == Empty(old(Abs()), i) && modules == old(modules)
      ensures count == Live(Views(Modules()))
    {
      hide SlotsOk, Unknown, Live, Bytes, Buffers, NoSharing, Views;
      ghost var ms, slots := modules[..], Views(modules[..]);
      ViewsAfter(ms, i);
      DropBuffer(ms, i);
      heap.Free(modules[i].data);
      modules[i] := modules[i].(data := null);
      bytes := if bytes >= modules[i].size then bytes - modules[i].size else 0;
      modules[i] := modules[i].(size := 0);
      if count > 0 {
        count := count - 1;
      }
      assert modules[..] == ms[i := Module(ms[i].id, null, 0)];
      ViewsAfter(ms, i);
      LiveAfter(slots, i);
    }

    method DropArray()
      requires Shape() && modules != null && Live(Views(Modules())) == 0
      modifies this, heap
      ensures Shape() && Abs() == StagingSpec.Discard(old(Abs()))
    {
      hide Live, Buffers;
      NoneLive(modules[..]);
      heap.Free(modules);
      modules, capacity, count, bytes := null, 0, 0, 0;
      NoBuffers();
    }

    method FindSlot(id: nat) returns (i: nat)
      requires Valid()
      ensures i == FindLive(Views(Modules()), id) <= capacity
    {
      ghost var slots := Views(Modules());
      i := 0;
      while i < capacity && !(modules[i].id == id && modules[i].data != null)
        invariant i <= capacity
        invariant forall k :: 0 <= k < i ==> !(slots[k].id == id && slots[k].data.Some?)
      {
        assert slots[i] == View(modules[i]);
        i := i + 1;
      }
      assert i < capacity ==> slots[i] == View(modules[i]);
    }
  }

  lemma ViewsAfter(ms: seq<Module>, i: nat)
    requires i < |ms|
    ensures Views(ms)[i] == View(ms[i])
    ensures Views(ms[i := Module(ms[i].id, null, 0)]) == Views(ms)[i := Slot(ms[i].id, None, 0)]
  {
    var after := ms[i := Module(ms[i].id, null, 0)];
    assert View(after[i]) == Slot(ms[i].id, None, 0);
  }

  lemma DropBuffer(ms: seq<Module>, k: nat)
    requires k < |ms| && NoSharing(ms) && ms[k].data != null
    ensures var after := ms[k := Module(ms[k].id, null, 0)];
            Buffers(after) == Buffers(ms) - {ms[k].data} && NoSharing(after)
    ensures ms[k].data in Buffers(ms)
  {
    var after := ms[k := Module(ms[k].id, null, 0)];
    forall i | 0 <= i < |ms| && i != k && ms[i].data != null
      ensures ms[i].data in Buffers(after) && ms[i].data != ms[k].data
    {
      assert after[i] == ms[i];
    }
  }

  lemma {:induction false} NoneLive(ms: seq<Module>)
    requires Live(Views(ms)) == 0
    ensures Buffers(ms) == {}
  {
    if ms != [] {
      var n := |ms| - 1;
      assert Views(ms)[..n] == Views(ms[..n]);
      NoneLive(ms[..n]);
      assert Views(ms)[n] == View(ms[n]);
      BuffersStep(ms, n);
      assert ms[..n + 1] == ms;
    }
  }
}
