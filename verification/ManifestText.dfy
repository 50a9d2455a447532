/**
  The manifest file: lines fetched into a 512-byte buffer, trimmed, cut at '|'
  by strtok and checked field by field.
 */
module ManifestText {
  import opened ImageConstants
  import opened Wrappers
  import opened Words
  import opened Strtok
  import opened Manifest

  const BUFFER: nat := 512
  const NUL: byte := 0
  const TAB: byte := 9
  const LF: byte := 10
  const CR: byte := 13
  const SPACE: byte := 32
  const HASH: byte := 35
  const PIPE: byte := 124
  const ULONG_LIMIT: nat := 0x1_0000_0000_0000_0000

  // ---- C library pieces ----

  /** How much of a non-empty rest of the file one fgets call takes. */
  function Fgets(text: seq<byte>): (n: nat)
    requires text != []
    ensures 1 <= n <= |text| && n < BUFFER
  {
    var run := Run(text, LF);
    if run + 1 < BUFFER && run < |text| then run + 1
    else if |text| < BUFFER then |text| else BUFFER - 1
  }

  /** The buffer as a C string. */
  function CString(s: seq<byte>): seq<byte> {
    s[..Run(s, NUL)]
  }

  predicate Blank(b: byte) {
    b == SPACE || b == TAB
  }

  predicate LineEnd(b: byte) {
    b == LF || b == CR || Blank(b)
  }

  function TrimStart(s: seq<byte>): seq<byte> {
    if s != [] && Blank(s[0]) then TrimStart(s[1..]) else s
  }

  function TrimEnd(s: seq<byte>): seq<byte> {
    if s != [] && LineEnd(s[|s| - 1]) then TrimEnd(s[..|s| - 1]) else s
  }

  function Trim(s: seq<byte>): seq<byte> {
    TrimEnd(TrimStart(s))
  }

  method TrimLine(line: seq<byte>) returns (r: seq<byte>)
    ensures r == Trim(line)
  {
    var start := 0;
    while start < |line| && Blank(line[start])
      invariant start <= |line|
      invariant TrimStart(line[start..]) == TrimStart(line)
    {
      assert line[start..][1..] == line[start + 1..];
      start := start + 1;
    }
    var s := line[start..];
    var len := |s|;
    assert s[..len] == s;
    while len > 0 && LineEnd(s[len - 1])
      invariant 0 <= len <= |s|
      invariant TrimEnd(s[..len]) == TrimEnd(s)
    {
      assert s[..len][..len - 1] == s[..len - 1];
      len := len - 1;
    }
    r := s[..len];
  }

  predicate Digit(b: byte) {
    48 <= b <= 57
  }

  predicate AllDigits(s: seq<byte>) {
    forall i :: 0 <= i < |s| ==> Digit(s[i])
  }

  predicate IsSpace(b: byte) {
    b == SPACE || 9 <= b <= 13
  }

  function SkipSpace(s: seq<byte>): seq<byte> {
    if s != [] && IsSpace(s[0]) then SkipSpace(s[1..]) else s
  }

  function DigitValue(b: byte): nat
    requires Digit(b)
  {
    b - 48
  }

  function DecValue(s: seq<byte>): nat
    requires AllDigits(s)
  {
    if s == [] then 0 else 10 * DecValue(s[..|s| - 1]) + DigitValue(s[|s| - 1])
  }

  /**
    strtoul in base 10 with the caller's checks: space is skipped, a sign may
    follow, the digits must reach the end and fit 64 bits, a minus sign negates
    in 64-bit arithmetic, and the result must fit 32 bits.
   */
  function ParseU32(text: seq<byte>): Option<u32> {
    var s := SkipSpace(text);
    var negative := s != [] && s[0] == 45;
    var digits := if s != [] && (s[0] == 45 || s[0] == 43) then s[1..] else s;
    if digits == [] || !AllDigits(digits) then None
    else
      var v := DecValue(digits);
      var w := if negative then (ULONG_LIMIT - v) % ULONG_LIMIT else v;
      if v >= ULONG_LIMIT || w >= LIMIT then None else Some(w)
  }

  // ---- loading ----

  /** Whether a field fits its place with its terminator. */
  predicate CopyField(src: seq<byte>) {
    0 < |src| < MAX_FIELD
  }

  datatype LineResult = Skip | Bad | Add(entry: Entry)

  /** What one fetched line does to the entries read so far. */
  function ReadLine(es: seq<Entry>, line: seq<byte>): LineResult {
    var cursor := Trim(CString(line));
    if cursor == [] || cursor[0] == HASH then Skip
    else
      var fields := Tokens(cursor, PIPE);
      if |fields| != 4 || |es| >= MAX_ENTRIES then Bad
      else
        match ParseU32(fields[0])
        case None => Bad
        case Some(id) =>
          if id == 0 || exists i :: 0 <= i < |es| && es[i].id == id then Bad
          else if CopyField(fields[1]) && CopyField(fields[2]) && CopyField(fields[3]) then
            Add(Entry(id, fields[1], fields[2], fields[3]))
          else Bad
  }

  function LoadFrom(es: seq<Entry>, text: seq<byte>): Option<seq<Entry>>
    decreases |text|
  {
    if text == [] then Some(es)
    else
      var n := Fgets(text);
      match ReadLine(es, text[..n])
      case Skip => LoadFrom(es, text[n..])
      case Bad => None
      case Add(e) => LoadFrom(es + [e], text[n..])
  }

  /** A file that cannot be opened, or what it delivers and whether reading ended in an error. */
  datatype TextFile = Unopened | Opened(text: seq<byte>, readError: bool)

  /** The whole loader. */
  function Load(file: TextFile): Option<seq<Entry>> {
    match file
    case Unopened => None
    case Opened(text, readError) =>
      match LoadFrom([], text)
      case None => None
      case Some(es) => if readError || es == [] then None else Some(es)
  }

  // ---- what a loaded manifest is ----

  lemma {:induction false} TokensAvoid<T>(s: seq<T>, d: T, x: T)
    requires x !in s
    ensures forall i :: 0 <= i < |Tokens(s, d)| ==> x !in Tokens(s, d)[i]
    decreases |s|
  {
    SkipAvoids(s, d, x);
    match NextToken(s, d)
    case None =>
    case Some((token, rest)) =>
      TokensAvoid(rest, d, x);
  }

  lemma {:induction false} SkipAvoids<T>(s: seq<T>, d: T, x: T)
    requires x !in s
    ensures x !in SkipDelimiters(s, d)
  {
    if s != [] && s[0] == d {
      SkipAvoids(s[1..], d, x);
    }
  }

  lemma {:induction false} TrimStartAvoids(s: seq<byte>, x: byte)
    requires x !in s
    ensures x !in TrimStart(s)
  {
    if s != [] && Blank(s[0]) {
      TrimStartAvoids(s[1..], x);
    }
  }

  lemma {:induction false} TrimEndAvoids(s: seq<byte>, x: byte)
    requires x !in s
    ensures x !in TrimEnd(s)
  {
    if s != [] && LineEnd(s[|s| - 1]) {
      TrimEndAvoids(s[..|s| - 1], x);
    }
  }

  lemma LineKeepsValid(es: seq<Entry>, line: seq<byte>)
    requires es == [] || Valid(es)
    requires ReadLine(es, line).Add?
    ensures Valid(es + [ReadLine(es, line).entry])
  {
    var s := CString(line);
    TrimStartAvoids(s, NUL);
    TrimEndAvoids(TrimStart(s), NUL);
    TokensAvoid(Trim(s), PIPE, NUL);
  }

  lemma {:induction false} LoadFromKeepsValid(es: seq<Entry>, text: seq<byte>)
    requires es == [] || Valid(es)
    ensures LoadFrom(es, text).Some? ==> LoadFrom(es, text).value == [] || Valid(LoadFrom(es, text).value)
    decreases |text|
  {
    if text != [] {
      var n := Fgets(text);
      match ReadLine(es, text[..n])
      case Skip => LoadFromKeepsValid(es, text[n..]);
      case Bad =>
      case Add(e) =>
        LineKeepsValid(es, text[..n]);
        LoadFromKeepsValid(es + [e], text[n..]);
    }
  }

  /** Whatever the file holds, a manifest that loads has 1..128 entries, distinct non-zero ids and proper fields. */
  lemma LoadedIsValid(file: TextFile)
    requires Load(file).Some?
    ensures Valid(Load(file).value)
  {
    LoadFromKeepsValid([], file.text);
  }

  // ---- the loader's loops ----

  method LoadManifest(file: TextFile) returns (r: Option<(seq<Entry>, u32)>)
    ensures Load(file).None? ==> r == None
    ensures Load(file).Some? ==>
              var es := Load(file).value; r == Some((es, Fingerprint(es))) && Valid(es)
  {
    if file.Unopened? {
      return None;
    }
    var es: seq<Entry> := [];
    var rest := file.text;
    while rest != []
      invariant LoadFrom(es, rest) == LoadFrom([], file.text)
      decreases |rest|
    {
      var n := Fgets(rest);
      var line := TakeLine(es, rest[..n]);
      rest := rest[n..];
      match line
      case Skip =>
      case Bad => return None;
      case Add(e) => es := es + [e];
    }
    if file.readError || es == [] {
      return None;
    }
    LoadedIsValid(file);
    var crc := LogicalCrc(es);
    r := Some((es, crc));
  }

  /** The body of the loading loop. */
  method TakeLine(es: seq<Entry>, line: seq<byte>) returns (r: LineResult)
    ensures r == ReadLine(es, line)
  {
    hide ParseU32, Tokens, Trim, CString;
    var cursor := TrimLine(CString(line));
    if cursor == [] || cursor[0] == HASH {
      return Skip;
    }
    var fields, more := FourFields(cursor);
    if |fields| != 4 || more {
      return Bad;
    }
    if |es| >= MAX_ENTRIES {
      return Bad;
    }
    var id := ParseU32(fields[0]);
    if id.None? || id.value == 0 {
      return Bad;
    }
    for i := 0 to |es|
      invariant forall k :: 0 <= k < i ==> es[k].id != id.value
    {
      if es[i].id == id.value {
        return Bad;
      }
    }
    if CopyField(fields[1]) && CopyField(fields[2]) && CopyField(fields[3]) {
      return Add(Entry(id.value, fields[1], fields[2], fields[3]));
    }
    return Bad;
  }

  /** The strtok loop: at most four tokens are kept, and a fifth is noticed. */
  method FourFields(cursor: seq<byte>) returns (fields: seq<seq<byte>>, more: bool)
    ensures |Tokens(cursor, PIPE)| == 4 <==> |fields| == 4 && !more
    ensures |Tokens(cursor, PIPE)| == 4 ==> fields == Tokens(cursor, PIPE)
  {
    fields := [];
    var token := NextToken(cursor, PIPE);
    ghost var rest := cursor;
    assert fields + Tokens(cursor, PIPE) == Tokens(cursor, PIPE);
    while token.Some? && |fields| < 4
      invariant token == NextToken(rest, PIPE) && |fields| <= 4
      invariant fields + Tokens(rest, PIPE) == Tokens(cursor, PIPE)
      decreases |rest|
    {
      TokensStep(fields, rest, PIPE);
      fields := fields + [token.value.0];
      rest := token.value.1;
      token := NextToken(token.value.1, PIPE);
    }
    TokensStep(fields, rest, PIPE);
    more := token.Some?;
  }
}
