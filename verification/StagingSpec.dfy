/**
  The staging interface as a state machine on values: what each call returns
  and what it leaves in the six globals.
 */
module StagingSpec {
  import opened ImageConstants
  import opened Wrappers
  import opened Words
  import opened Crc32
  import opened Environment
  import opened Requirements
  import F = ImageFormat
  import P = ImageParser

  /** A staged module; its data is gone once it has been released. */
  datatype Slot = Slot(id: nat, data: Option<seq<byte>>, size: nat)

  datatype State = State(slots: Option<seq<Slot>>, capacity: nat, count: nat, bytes: nat, path: Option<Path>,
                         last: bv32)

  const INITIAL := State(None, 0, 0, 0, None, 0)

  // ---- loading the payloads ----

  /** The requested ids up to n in ascending order. */
  function Wanted(ids: set<nat>, n: nat): seq<nat> {
    if n == 0 then [] else Wanted(ids, n - 1) + if n in ids then [n] else []
  }

  /** find_entry: the first entry with the id. */
  function FindEntry(es: seq<F.Entry>, id: nat): Option<F.Entry> {
    if es == [] then None else if es[0].id == id then Some(es[0]) else FindEntry(es[1..], id)
  }

  /** Allocating, reading and checking one payload. */
  function LoadOne(file: seq<byte>, es: seq<F.Entry>, id: nat, env: Env): Result<Slot, Code> {
    match FindEntry(es, id)
    case None => Err(MissingModule)
    case Some(e) =>
      if id in env.badAllocs then Err(OutOfMemory)
      else if id in env.badReads || e.offset + e.size > |file| then Err(IoError)
      else
        var data := file[e.offset..e.offset + e.size];
        if Crc(data) != e.crc then Err(CrcError) else Ok(Slot(id, Some(data), e.size))
  }

  /** All payloads in order, or the first failure. */
  function LoadAll(file: seq<byte>, es: seq<F.Entry>, ids: seq<nat>, env: Env): Result<seq<Slot>, Code> {
    if ids == [] then Ok([])
    else
      match LoadAll(file, es, ids[..|ids| - 1], env)
      case Err(c) => Err(c)
      case Ok(slots) =>
        match LoadOne(file, es, ids[|ids| - 1], env)
        case Err(c) => Err(c)
        case Ok(slot) => Ok(slots + [slot])
  }

  /** What can be had from an open image of a proper size. */
  ghost function ReadAll(content: seq<byte>, ids: set<nat>, env: Env): Result<seq<Slot>, Code>
    requires |content| >= HEADER_SIZE
  {
    match P.Parse(content, env)
    case Err(c) => Err(c)
    case Ok(es) => if !env.stagedAlloc then Err(OutOfMemory) else LoadAll(content, es, Wanted(ids, MAX_ENTRIES), env)
  }

  /** Opening, parsing and loading, for a mask that has passed the tests. */
  ghost function Fetch(path: Path, mask: bv32, env: Env): Result<seq<Slot>, Code> {
    if path !in env.files then Err(OpenFailed)
    else if !env.seekEnd then Err(IoError)
    else if !(HEADER_SIZE <= |env.files[path]| < LIMIT) then Err(FormatError)
    else ReadAll(env.files[path], Expand(mask), env)
  }

  lemma LoadAllStep(file: seq<byte>, es: seq<F.Entry>, ids: seq<nat>, id: nat, env: Env)
    ensures LoadAll(file, es, ids + [id], env) ==
            match LoadAll(file, es, ids, env)
            case Err(c) => Err(c)
            case Ok(slots) =>
              match LoadOne(file, es, id, env)
              case Err(c) => Err(c)
              case Ok(slot) => Ok(slots + [slot])
  {
    hide LoadOne;
    assert (ids + [id])[..|ids|] == ids;
  }

  lemma {:induction false} LoadAllSame(file: seq<byte>, es: seq<F.Entry>, ids: set<nat>, n: nat, m: nat, env: Env)
    requires n <= m && LoadAll(file, es, Wanted(ids, n), env).Err?
    ensures LoadAll(file, es, Wanted(ids, m), env) == LoadAll(file, es, Wanted(ids, n), env)
  {
    hide LoadOne, LoadAll;
    if n < m {
      LoadAllSame(file, es, ids, n, m - 1, env);
      LoadAllStep(file, es, Wanted(ids, m - 1), m, env);
      assert Wanted(ids, m - 1) + [] == Wanted(ids, m - 1);
    }
  }

  lemma {:induction false} WantedGrows(ids: set<nat>, n: nat, m: nat)
    requires n <= m
    ensures |Wanted(ids, n)| <= |Wanted(ids, m)|
  {
    if n < m {
      WantedGrows(ids, n, m - 1);
    }
  }

  function Bytes(slots: seq<Slot>): nat {
    if slots == [] then 0 else Bytes(slots[..|slots| - 1]) + slots[|slots| - 1].size
  }

  // ---- the calls ----

  predicate BadMask(mask: bv32) {
    mask == 0 || Unknown(mask)
  }

  ghost function StageFromPath(s: State, path: Path, mask: bv32, env: Env): (State, Code) {
    if BadMask(mask) then (s, BadArgument)
    else if s.slots.Some? || s.count != 0 then (s, AlreadyStaged)
    else if Wanted(Expand(mask), MAX_ENTRIES) == [] then (s, BadArgument)
    else
      match Fetch(path, mask, env)
      case Err(c) => (s, c)
      case Ok(slots) =>
        (s.(slots := Some(slots), capacity := |slots|, count := |slots|, bytes := Bytes(slots)), Success)
  }

  /** path is None for a null pointer. */
  ghost function Stage(s: State, path: Option<Path>, mask: bv32, env: Env): (State, Code) {
    if path.None? || BadMask(mask) then (s, BadArgument)
    else if s.slots.Some? || s.count != 0 then (s, AlreadyStaged)
    else if !env.pathAlloc then (s, OutOfMemory)
    else
      var (t, c) := StageFromPath(s, path.value, mask, env);
      if c == Success then (t.(path := path, last := mask), c) else (s, c)
  }

  ghost function Restage(s: State, mask: bv32, env: Env): (State, Code) {
    if BadMask(mask) then (s, BadArgument)
    else if s.path.None? then (s, NoSource)
    else
      var (t, c) := StageFromPath(s, s.path.value, mask, env);
      if c == Success then (t.(last := mask), c) else (s, c)
  }

  ghost function RestageLast(s: State, env: Env): (State, Code) {
    if s.path.None? || s.last == 0 then (s, NoSource) else Restage(s, s.last, env)
  }

  function Discard(s: State): State {
    s.(slots := None, capacity := 0, count := 0, bytes := 0)
  }

  function Forget(s: State): State {
    s.(path := None, last := 0)
  }

  /** Index of the first slot that still holds data for the id, or the number of slots. */
  function FindLive(slots: seq<Slot>, id: nat): (k: nat)
    ensures k <= |slots|
    ensures k < |slots| ==> slots[k].id == id && slots[k].data.Some?
    ensures forall i :: 0 <= i < k ==> !(slots[i].id == id && slots[i].data.Some?)
  {
    if slots == [] || (slots[0].id == id && slots[0].data.Some?) then 0
    else
      var k := 1 + FindLive(slots[1..], id);
      assert forall i :: 0 < i < |slots| ==> slots[i] == slots[1..][i - 1];
      k
  }

  function SlotsOf(s: State): seq<Slot> {
    match s.slots case None => [] case Some(slots) => slots
  }

  function GetStaged(s: State, id: nat): Option<seq<byte>> {
    var slots := SlotsOf(s);
    var k := FindLive(slots, id);
    if k < |slots| then slots[k].data else None
  }

  /** Slot k gives up its data; the subtractions are clamped at zero as in the source. */
  function Empty(s: State, k: nat): State
    requires k < |SlotsOf(s)|
  {
    var slots := SlotsOf(s);
    State(Some(slots[k := Slot(slots[k].id, None, 0)]), s.capacity,
          if s.count > 0 then s.count - 1 else 0,
          if s.bytes >= slots[k].size then s.bytes - slots[k].size else 0, s.path, s.last)
  }

  function Release(s: State, id: nat): State {
    var k := FindLive(SlotsOf(s), id);
    var t := if k == |SlotsOf(s)| then s else Empty(s, k);
    if t.count == 0 && t.slots.Some? then Discard(t) else t
  }

  // ---- the invariant ----

  function Live(slots: seq<Slot>): nat {
    if slots == [] then 0 else Live(slots[..|slots| - 1]) + if slots[|slots| - 1].data.Some? then 1 else 0
  }

  /** A slot in use holds as many bytes as it says and at least one; a released one says zero. */
  predicate SlotOk(x: Slot) {
    1 <= x.id <= MAX_ENTRIES && match x.data case None => x.size == 0 case Some(d) => x.size == |d| > 0
  }

  ghost predicate SlotsOk(slots: seq<Slot>) {
    && (forall i :: 0 <= i < |slots| ==> SlotOk(slots[i]))
    && (forall i, j :: 0 <= i < j < |slots| ==> slots[i].id < slots[j].id)
  }

  /**
    Counters and sizes agree with the slots, the array exists exactly while
    something is staged, ids ascend, and a path is remembered exactly together
    with an acceptable mask.
   */
  ghost predicate Inv(s: State) {
    && (match s.slots
        case None => s.capacity == 0 && s.count == 0 && s.bytes == 0
        case Some(slots) =>
          SlotsOk(slots) && s.capacity == |slots| && s.count == Live(slots) > 0 && s.bytes == Bytes(slots))
    && (s.path.None? <==> s.last == 0)
    && !Unknown(s.last)
  }
}
