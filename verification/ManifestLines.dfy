/**
  The manifest's line format, character by character: which lines are skipped,
  which numbers are taken, and what becomes of a line cut into fields.
 */
module ManifestLines {
  import opened Wrappers
  import opened Words
  import opened Strtok
  import opened Manifest
  import opened ManifestText

  // ---- fetching ----

  /** A fetch takes a whole line, or what is left of the file, or 511 bytes of a longer line. */
  lemma FgetsExactly(text: seq<byte>, n: nat)
    requires text != []
    ensures Fgets(text) == n <==>
            && 1 <= n <= 511 && n <= |text| && 10 !in text[..n - 1]
            && (text[n - 1] == 10 || n == |text| || n == 511)
  {
    var run := Run(text, LF);
    assert forall i :: 0 <= i < run ==> text[i] == text[..run][i];
    var k := Fgets(text);
    assert 10 !in text[..k - 1];
    if 1 <= n <= |text| && 10 !in text[..n - 1] {
      assert forall i :: 0 <= i < n - 1 ==> text[i] == text[..n - 1][i];
    }
  }

  /** The string in the buffer ends before the first zero. */
  lemma CStringIs(s: seq<byte>, rest: seq<byte>)
    requires 0 !in s && (rest == [] || rest[0] == 0)
    ensures CString(s + rest) == s
  {
    RunIs(s, rest, NUL);
  }

  // ---- trimming ----

  predicate Blanks(s: seq<byte>) {
    forall i :: 0 <= i < |s| ==> s[i] in {9, 32}
  }

  predicate Whites(s: seq<byte>) {
    forall i :: 0 <= i < |s| ==> s[i] in {9, 10, 13, 32}
  }

  /** The body starts and ends with something to keep. */
  predicate Kept(body: seq<byte>) {
    body != [] && body[0] !in {9, 32} && body[|body| - 1] !in {9, 10, 13, 32}
  }

  lemma {:induction false} TrimsStart(lead: seq<byte>, s: seq<byte>)
    requires Blanks(lead) && (s != [] ==> s[0] !in {9, 32})
    ensures TrimStart(lead + s) == s
  {
    if lead == [] {
      assert lead + s == s;
    } else {
      assert (lead + s)[1..] == lead[1..] + s;
      TrimsStart(lead[1..], s);
    }
  }

  lemma {:induction false} TrimsEnd(s: seq<byte>, tail: seq<byte>)
    requires Whites(tail) && (s != [] ==> s[|s| - 1] !in {9, 10, 13, 32})
    ensures TrimEnd(s + tail) == s
  {
    if tail == [] {
      assert s + tail == s;
    } else {
      assert (s + tail)[..|s + tail| - 1] == s + tail[..|tail| - 1];
      TrimsEnd(s, tail[..|tail| - 1]);
    }
  }

  lemma Trims(lead: seq<byte>, body: seq<byte>, tail: seq<byte>)
    requires Blanks(lead) && Kept(body) && Whites(tail)
    ensures Trim(lead + body + tail) == body
  {
    assert lead + body + tail == lead + (body + tail);
    TrimsStart(lead, body + tail);
    TrimsEnd(body, tail);
  }

  lemma {:induction false} PartsStart(s: seq<byte>) returns (lead: seq<byte>, rest: seq<byte>)
    ensures s == lead + rest && Blanks(lead) && (rest != [] ==> rest[0] !in {9, 32})
  {
    if s != [] && s[0] in {9, 32} {
      lead, rest := PartsStart(s[1..]);
      assert s == [s[0]] + s[1..];
      lead := [s[0]] + lead;
    } else {
      lead, rest := [], s;
    }
  }

  lemma WhitesSnoc(s: seq<byte>)
    requires s != []
    ensures Whites(s) <==> s[|s| - 1] in {9, 10, 13, 32} && Whites(s[..|s| - 1])
  {
  }

  lemma {:induction false} PartsEnd(s: seq<byte>) returns (body: seq<byte>, tail: seq<byte>)
    ensures s == body + tail && Whites(tail)
    ensures body == [] <==> Whites(s)
    ensures body != [] ==> body[|body| - 1] !in {9, 10, 13, 32}
  {
    if s != [] && s[|s| - 1] in {9, 10, 13, 32} {
      var n := |s| - 1;
      body, tail := PartsEnd(s[..n]);
      tail := tail + [s[n]];
      assert s == s[..n] + [s[n]];
      WhitesSnoc(s);
    } else {
      body, tail := s, [];
    }
  }

  /** Any string is white throughout, or blanks, a body to keep and white space. */
  lemma Parts(s: seq<byte>) returns (lead: seq<byte>, body: seq<byte>, tail: seq<byte>)
    ensures s == lead + body + tail && Blanks(lead) && Whites(tail)
    ensures body == [] <==> Whites(s)
    ensures body != [] ==> Kept(body)
  {
    var rest;
    lead, rest := PartsStart(s);
    body, tail := PartsEnd(rest);
    assert Whites(s) <==> Whites(rest) by {
      assert forall i :: 0 <= i < |rest| ==> rest[i] == s[|lead| + i];
    }
  }

  lemma {:induction false} TrimsWhite(s: seq<byte>)
    requires Whites(s)
    ensures Trim(s) == []
  {
    if s != [] && s[0] in {9, 32} {
      assert s == [s[0]] + s[1..];
      TrimsWhite(s[1..]);
    } else {
      assert [] + s == s;
      TrimsEnd([], s);
    }
  }

  // ---- lines that are skipped ----

  /** A comment: blanks and then a hash. */
  ghost predicate Comment(s: seq<byte>) {
    exists i :: 0 <= i < |s| && s[i] == 35 && Blanks(s[..i])
  }

  /** A line is skipped exactly if nothing but white space or a comment stands before its first zero byte. */
  lemma SkippedExactly(es: seq<Entry>, s: seq<byte>, rest: seq<byte>)
    requires 0 !in s && (rest == [] || rest[0] == 0)
    ensures ReadLine(es, s + rest) == Skip <==> Whites(s) || Comment(s)
  {
    hide Tokens, ParseU32;
    CStringIs(s, rest);
    var lead, body, tail := Parts(s);
    if body == [] {
      TrimsWhite(s);
    } else {
      Trims(lead, body, tail);
      CommentStarts(lead, body, tail);
    }
  }

  lemma CommentStarts(lead: seq<byte>, body: seq<byte>, tail: seq<byte>)
    requires Blanks(lead) && Kept(body)
    ensures Comment(lead + body + tail) <==> body[0] == 35
  {
    var s := lead + body + tail;
    assert s[..|lead|] == lead && s[|lead|] == body[0];
    assert forall j :: 0 <= j < |lead| ==> s[j] == lead[j];
    if i :| 0 <= i < |s| && s[i] == 35 && Blanks(s[..i]) {
      assert forall j :: 0 <= j < i ==> s[..i][j] == s[j];
      assert i == |lead|;
    }
  }

  // ---- lines with fields ----

  /** What becomes of the fields of a line. */
  function Row(es: seq<Entry>, fields: seq<seq<byte>>): LineResult {
    if |fields| != 4 || |es| >= 128 then Bad
    else
      match ParseU32(fields[0])
      case None => Bad
      case Some(id) =>
        if || id == 0 || (exists i :: 0 <= i < |es| && es[i].id == id)
           || |fields[1]| > 127 || |fields[2]| > 127 || |fields[3]| > 127
        then Bad else Add(Entry(id, fields[1], fields[2], fields[3]))
  }

  /** The fields as they stand in the file, with a bar between any two. */
  function Barred(fields: seq<seq<byte>>): seq<byte>
    requires fields != []
  {
    if |fields| == 1 then fields[0] else fields[0] + [124] + Barred(fields[1..])
  }

  lemma {:induction false} BarredIsJoin(fields: seq<seq<byte>>)
    requires fields != []
    ensures Barred(fields) == Join(fields, PIPE)
  {
    if |fields| > 1 {
      BarredIsJoin(fields[1..]);
    }
  }

  /** Fields that are neither empty nor hold a bar or a zero, and whose ends are not trimmed or taken for a comment. */
  ghost predicate Fields(fields: seq<seq<byte>>) {
    && fields != [] && (forall i :: 0 <= i < |fields| ==> fields[i] != [] && 124 !in fields[i] && 0 !in fields[i])
    && fields[0][0] !in {9, 32, 35}
    && var last := fields[|fields| - 1]; last[|last| - 1] !in {9, 10, 13, 32}
  }

  lemma {:induction false} BarredEnds(fields: seq<seq<byte>>)
    requires fields != [] && forall i :: 0 <= i < |fields| ==> fields[i] != [] && 0 !in fields[i]
    ensures var s, last := Barred(fields), fields[|fields| - 1];
            s != [] && s[0] == fields[0][0] && s[|s| - 1] == last[|last| - 1] && 0 !in s
  {
    if |fields| > 1 {
      BarredEnds(fields[1..]);
      JoinedEnds(fields[0], Barred(fields[1..]));
    }
  }

  lemma JoinedEnds(a: seq<byte>, b: seq<byte>)
    requires a != [] && b != [] && 0 !in a && 0 !in b
    ensures var s := a + [124] + b; s != [] && s[0] == a[0] && s[|s| - 1] == b[|b| - 1] && 0 !in s
  {
  }

  /** Whatever white space surrounds them, such fields make an entry for exactly the stated reasons. */
  lemma FieldsRead(es: seq<Entry>, lead: seq<byte>, fields: seq<seq<byte>>, tail: seq<byte>, rest: seq<byte>)
    requires Blanks(lead) && Fields(fields) && Whites(tail) && (rest == [] || rest[0] == 0)
    ensures ReadLine(es, lead + Barred(fields) + tail + rest) == Row(es, fields)
  {
    hide Tokens, ParseU32, Join, Barred;
    var body := Barred(fields);
    BarredEnds(fields);
    BarredIsJoin(fields);
    CStringIs(lead + body + tail, rest);
    Trims(lead, body, tail);
    TokensOfJoin(fields, PIPE);
  }

  // ---- numbers ----

  predicate Digits(s: seq<byte>) {
    s != [] && forall i :: 0 <= i < |s| ==> 48 <= s[i] <= 57
  }

  predicate Spaces(s: seq<byte>) {
    forall i :: 0 <= i < |s| ==> s[i] == 32 || 9 <= s[i] <= 13
  }

  /** White space, a sign or none, and digits. */
  predicate Numeral(text: seq<byte>, space: seq<byte>, sign: seq<byte>, digits: seq<byte>) {
    && text == space + sign + digits && Spaces(space)
    && (sign == [] || sign == [43] || sign == [45]) && Digits(digits)
  }

  lemma {:induction false} SkipsSpace(space: seq<byte>, s: seq<byte>)
    requires Spaces(space)
    requires s != [] ==> s[0] != 32 && !(9 <= s[0] <= 13)
    ensures SkipSpace(space + s) == s
  {
    if space == [] {
      assert space + s == s;
    } else {
      assert (space + s)[1..] == space[1..] + s;
      SkipsSpace(space[1..], s);
    }
  }

  lemma Cons(s: seq<byte>, a: seq<byte>, b: seq<byte>)
    requires s != [] && s[1..] == a + b
    ensures s == ([s[0]] + a) + b
  {
    assert s == [s[0]] + s[1..];
  }

  lemma {:induction false} SpaceBefore(s: seq<byte>) returns (space: seq<byte>)
    ensures s == space + SkipSpace(s)
    ensures Spaces(space)
  {
    hide SkipSpace, Spaces;
    SkipStep(s);
    if s != [] && IsSpace(s[0]) {
      var more := SpaceBefore(s[1..]);
      space := [s[0]] + more;
      Cons(s, more, SkipSpace(s[1..]));
      SpacesCons(s[0], more);
    } else {
      space := [];
      SpacesNone();
    }
  }

  lemma SkipStep(s: seq<byte>)
    ensures SkipSpace(s) == if s != [] && IsSpace(s[0]) then SkipSpace(s[1..]) else s
  {
  }

  lemma SpacesCons(b: byte, s: seq<byte>)
    requires IsSpace(b) && Spaces(s)
    ensures Spaces([b] + s)
  {
  }

  lemma SpacesNone()
    ensures Spaces([])
  {
  }

  /** The sign and the digits are told apart as they stand. */
  lemma Dissected(text: seq<byte>, sign: seq<byte>, digits: seq<byte>)
    requires SkipSpace(text) == sign + digits && (sign == [] || sign == [43] || sign == [45]) && Digits(digits)
    ensures ParseU32(text) ==
            var v := DecValue(digits);
            var w := if sign == [45] then (ULONG_LIMIT - v) % ULONG_LIMIT else v;
            if v >= ULONG_LIMIT || w >= LIMIT then None else Some(w)
  {
    hide DecValue, SkipSpace;
    if sign == [] {
      assert sign + digits == digits;
    } else {
      assert (sign + digits)[1..] == digits && (sign + digits)[0] == sign[0];
    }
  }

  lemma Negated(v: nat)
    requires v < 0x1_0000_0000_0000_0000
    ensures (0x1_0000_0000_0000_0000 - v) % 0x1_0000_0000_0000_0000 == if v == 0 then 0 else 0x1_0000_0000_0000_0000 - v
  {
  }

  /** What a numeral yields: its digits must fit 64 bits, a minus negates in 64 bits, the result must fit 32. */
  lemma NumeralParses(text: seq<byte>, space: seq<byte>, sign: seq<byte>, digits: seq<byte>)
    requires Numeral(text, space, sign, digits)
    ensures ParseU32(text) ==
            var v := DecValue(digits);
            if v > 0xffff_ffff_ffff_ffff then None
            else if sign == [45] && v > 0 then
              if v < 0xffff_ffff_0000_0001 then None else Some(0x1_0000_0000_0000_0000 - v)
            else if v > 0xffff_ffff then None else Some(v)
  {
    hide DecValue, SkipSpace, ParseU32;
    assert text == space + (sign + digits);
    SkipsSpace(space, sign + digits);
    Dissected(text, sign, digits);
    if DecValue(digits) < 0x1_0000_0000_0000_0000 {
      Negated(DecValue(digits));
    }
  }

  lemma OnlyDigits(text: seq<byte>, s: seq<byte>, signed: bool, digits: seq<byte>)
    requires s == SkipSpace(text) && signed == (s != [] && (s[0] == 45 || s[0] == 43))
    requires digits == if signed then s[1..] else s
    requires ParseU32(text).Some?
    ensures digits != [] && forall i :: 0 <= i < |digits| ==> Digit(digits[i])
  {
    hide DecValue, SkipSpace;
  }

  /** Nothing else is a number. */
  lemma ParsesNumerals(text: seq<byte>)
    requires ParseU32(text).Some?
    ensures exists space, sign, digits :: Numeral(text, space, sign, digits)
  {
    hide DecValue, SkipSpace;
    var space := SpaceBefore(text);
    var s := SkipSpace(text);
    var signed := s != [] && (s[0] == 45 || s[0] == 43);
    var digits := if signed then s[1..] else s;
    var sign := if signed then [s[0]] else [];
    OnlyDigits(text, s, signed, digits);
    assert text == space + sign + digits;
    assert Numeral(text, space, sign, digits);
  }

  /** The first digit weighs most. */
  lemma KnownNumber()
    ensures DecValue([52, 50, 57]) == 429
  {
    var s: seq<byte> := [52, 50, 57];
    assert s[..2] == [52, 50] && [52, 50][..1] == [52] && [52][..0] == [];
    assert DecValue([52]) == 4;
    assert DecValue([52, 50]) == 42;
  }

  // ---- files ----

  /** What the loader refuses whatever the lines hold, and that a file without entries is refused. */
  lemma Refused(text: seq<byte>, readError: bool)
    ensures Load(Unopened) == None && Load(Opened(text, true)) == None && Load(Opened([], readError)) == None
    ensures Load(Opened(text, readError)).Some? ==> Load(Opened(text, readError)).value != []
  {
  }

  /** One line at a time: a line is skipped, ends the loading, or adds an entry behind those before it. */
  lemma LineByLine(es: seq<Entry>, line: seq<byte>, rest: seq<byte>)
    requires 10 !in line && |line| <= 510
    ensures LoadFrom(es, line + [10] + rest) ==
            match ReadLine(es, line + [10])
            case Skip => LoadFrom(es, rest)
            case Bad => None
            case Add(e) => LoadFrom(es + [e], rest)
  {
    hide ReadLine, Fgets;
    var text := line + [10] + rest;
    assert text[..|line|] == line && text[|line|] == 10;
    FgetsExactly(text, |line| + 1);
    assert text[..|line| + 1] == line + [10] && text[|line| + 1..] == rest;
  }
}
