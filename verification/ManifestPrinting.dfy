/**
  A manifest written out in the documented line format, with any comments and
  blank lines in between, is what the loader reads back.
 */
module ManifestPrinting {
  import opened ImageConstants
  import opened Wrappers
  import opened Words
  import opened Strtok
  import opened Manifest
  import opened ManifestText

  // ---- decimal numbers ----

  function Decimal(n: nat): (s: seq<byte>)
    ensures s != [] && forall i :: 0 <= i < |s| ==> Digit(s[i])
  {
    if n < 10 then [48 + n] else Decimal(n / 10) + [48 + n % 10]
  }

  lemma {:induction false} DecimalRoundTrip(n: nat)
    ensures DecValue(Decimal(n)) == n
  {
    if n < 10 {
      assert Decimal(n)[..0] == [];
    } else {
      assert Decimal(n)[..|Decimal(n)| - 1] == Decimal(n / 10);
      DecimalRoundTrip(n / 10);
    }
  }

  function Pow10(k: nat): nat {
    if k == 0 then 1 else 10 * Pow10(k - 1)
  }

  lemma {:induction false} DecimalLength(n: nat, k: nat)
    requires 1 <= k && n < Pow10(k)
    ensures |Decimal(n)| <= k
  {
    if n >= 10 {
      DecimalLength(n / 10, k - 1);
    }
  }

  lemma ParseDecimal(n: u32)
    ensures ParseU32(Decimal(n)) == Some(n)
    ensures |Decimal(n)| <= 10
  {
    DecimalRoundTrip(n);
    assert Digit(Decimal(n)[0]);
    assert Pow10(5) == 100_000;
    assert Pow10(10) == 10 * (10 * (10 * (10 * (10 * Pow10(5)))));
    DecimalLength(n, 10);
  }

  // ---- printing ----

  /** A field the line format can carry. */
  predicate Carried(f: seq<byte>) {
    FieldOk(f) && PIPE !in f && LF !in f
  }

  /** An entry the line format can carry; only the last field meets the end of the line. */
  predicate RowOk(e: Entry) {
    e.id != 0 && Carried(e.filename) && Carried(e.symbol) && Carried(e.name) && !LineEnd(e.name[|e.name| - 1])
  }

  function Row(e: Entry): seq<byte> {
    Join([Decimal(e.id), e.filename, e.symbol, e.name], PIPE)
  }

  datatype DocLine = Remark(text: seq<byte>) | Item(entry: Entry)

  /** A comment or blank line: it fits the buffer and what is left of it is nothing or starts with a hash. */
  predicate RemarkOk(text: seq<byte>) {
    && LF !in text && |text| + 1 < BUFFER
    && (var s := Trim(CString(text + [LF])); s == [] || s[0] == HASH)
  }

  ghost predicate DocOk(doc: seq<DocLine>) {
    forall i :: 0 <= i < |doc| ==> match doc[i] case Remark(t) => RemarkOk(t) case Item(e) => RowOk(e)
  }

  function Body(l: DocLine): seq<byte> {
    match l case Remark(t) => t case Item(e) => Row(e)
  }

  function Render(doc: seq<DocLine>): seq<byte> {
    if doc == [] then [] else (Body(doc[0]) + [LF]) + Render(doc[1..])
  }

  function Items(doc: seq<DocLine>): seq<Entry> {
    if doc == [] then []
    else (match doc[0] case Remark(_) => [] case Item(e) => [e]) + Items(doc[1..])
  }

  lemma FgetsTakesLine(line: seq<byte>, rest: seq<byte>)
    requires LF !in line && |line| + 1 < BUFFER
    ensures var text := (line + [LF]) + rest;
            Fgets(text) == |line| + 1 && text[..|line| + 1] == line + [LF] && text[|line| + 1..] == rest
  {
    assert (line + [LF]) + rest == line + ([LF] + rest);
    RunIs(line, [LF] + rest, LF);
  }

  lemma JoinFour(a: seq<byte>, b: seq<byte>, c: seq<byte>, d: seq<byte>)
    ensures Join([a, b, c, d], PIPE) == a + ([PIPE] + (b + ([PIPE] + (c + ([PIPE] + d)))))
  {
    assert [a, b, c, d] == [a] + [b, c, d] && [b, c, d] == [b] + [c, d] && [c, d] == [c] + [d] && [d] == [d] + [];
    JoinCons(a, [b, c, d], PIPE);
    JoinCons(b, [c, d], PIPE);
    JoinCons(c, [d], PIPE);
    JoinCons(d, [], PIPE);
  }

  /** An entry line always fits the line buffer. */
  lemma RowFits(e: Entry)
    requires RowOk(e)
    ensures LF !in Row(e) && NUL !in Row(e) && |Row(e)| <= 394 < BUFFER - 1
    ensures Digit(Row(e)[0]) && !LineEnd(Row(e)[|Row(e)| - 1])
  {
    hide Join, Decimal, ParseU32;
    JoinFour(Decimal(e.id), e.filename, e.symbol, e.name);
    ParseDecimal(e.id);
    assert LF !in Decimal(e.id) && NUL !in Decimal(e.id);
  }

  lemma CStringOfLine(line: seq<byte>)
    requires NUL !in line
    ensures CString(line + [LF]) == line + [LF]
  {
    assert (line + [LF]) + [] == line + [LF];
    RunIs(line + [LF], [], NUL);
  }

  lemma RowTrims(line: seq<byte>)
    requires line != [] && Digit(line[0]) && !LineEnd(line[|line| - 1])
    ensures Trim(line + [LF]) == line
  {
    var s := line + [LF];
    assert s[0] == line[0] && TrimStart(s) == s;
    assert LineEnd(s[|s| - 1]) && s[..|s| - 1] == line;
    assert TrimEnd(line) == line;
  }

  lemma RowTokens(e: Entry)
    requires RowOk(e)
    ensures Tokens(Row(e), PIPE) == [Decimal(e.id), e.filename, e.symbol, e.name]
  {
    var fields := [Decimal(e.id), e.filename, e.symbol, e.name];
    assert PIPE !in Decimal(e.id);
    TokensOfJoin(fields, PIPE);
  }

  lemma RowReads(es: seq<Entry>, e: Entry)
    requires RowOk(e) && |es| < MAX_ENTRIES
    requires forall i :: 0 <= i < |es| ==> es[i].id != e.id
    ensures ReadLine(es, Row(e) + [LF]) == Add(e)
  {
    RowFits(e);
    CStringOfLine(Row(e));
    RowTrims(Row(e));
    RowTokens(e);
    ParseDecimal(e.id);
  }

  lemma RemarkStep(es: seq<Entry>, text: seq<byte>, rest: seq<byte>)
    requires RemarkOk(text)
    ensures LoadFrom(es, (text + [LF]) + rest) == LoadFrom(es, rest)
  {
    FgetsTakesLine(text, rest);
  }

  lemma RowStep(es: seq<Entry>, e: Entry, rest: seq<byte>)
    requires RowOk(e) && |es| < MAX_ENTRIES
    requires forall i :: 0 <= i < |es| ==> es[i].id != e.id
    ensures LoadFrom(es, (Row(e) + [LF]) + rest) == LoadFrom(es + [e], rest)
  {
    RowFits(e);
    FgetsTakesLine(Row(e), rest);
    RowReads(es, e);
  }

  lemma {:induction false} RenderLoads(es: seq<Entry>, doc: seq<DocLine>)
    requires DocOk(doc) && |es + Items(doc)| <= MAX_ENTRIES && DistinctIds(es + Items(doc))
    ensures LoadFrom(es, Render(doc)) == Some(es + Items(doc))
    decreases |doc|
  {
    if doc == [] {
      assert es + [] == es;
    } else {
      var later := Items(doc[1..]);
      match doc[0]
      case Remark(t) =>
        RemarkStep(es, t, Render(doc[1..]));
        assert [] + later == later;
        RenderLoads(es, doc[1..]);
      case Item(e) =>
        var all := es + Items(doc);
        assert all == (es + [e]) + later;
        assert all[|es|] == e && forall i :: 0 <= i < |es| ==> es[i] == all[i];
        RowStep(es, e, Render(doc[1..]));
        RenderLoads(es + [e], doc[1..]);
    }
  }

  /** The loader reads a printed manifest back, whatever remarks stand between its lines. */
  lemma PrintThenLoad(doc: seq<DocLine>)
    requires DocOk(doc) && Valid(Items(doc))
    ensures Load(Opened(Render(doc), false)) == Some(Items(doc))
  {
    assert [] + Items(doc) == Items(doc);
    RenderLoads([], doc);
  }
}
