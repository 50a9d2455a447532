/**
  How the HDD driver takes its working directory apart: str_split counts the
  pieces it expects, lets strtok find them and checks the two agree;
  getMountInfo puts the pieces together again as the mount arguments.
 */
module MountPath {
  import opened Wrappers
  import opened Strtok

  function Delimiters(s: string, d: char): nat {
    if s == [] then 0 else Delimiters(s[..|s| - 1], d) + if s[|s| - 1] == d then 1 else 0
  }

  /** The number of pieces the counting pass announces. */
  function Slots(s: string, d: char): nat {
    Delimiters(s, d) + if Trailing(s, d) then 0 else 1
  }

  lemma {:induction false} DelimitersAppend(a: string, b: string, d: char)
    ensures Delimiters(a + b, d) == Delimiters(a, d) + Delimiters(b, d)
  {
    if b == [] {
      assert a + b == a;
    } else {
      assert (a + b)[..|a + b| - 1] == a + b[..|b| - 1];
      DelimitersAppend(a, b[..|b| - 1], d);
    }
  }

  lemma {:induction false} NoDelimiters(a: string, d: char)
    requires d !in a
    ensures Delimiters(a, d) == 0
  {
    if a != [] {
      NoDelimiters(a[..|a| - 1], d);
    }
  }

  lemma SlotsAfter(t: string, rest: string, d: char)
    requires d !in t
    ensures Slots(t + ([d] + rest), d) == if rest == [] then 1 else 1 + Slots(rest, d)
    ensures Slots([d] + rest, d) == if rest == [] then 1 else 1 + Slots(rest, d)
    ensures Slots(t, d) == 1
  {
    NoDelimiters(t, d);
    assert Delimiters([d], d) == 1;
    DelimitersAppend([d], rest, d);
    DelimitersAppend(t, [d] + rest, d);
  }

  /**
    The counting pass never announces too few pieces, and announces the right
    number exactly for non-empty strings with no leading and no adjacent
    delimiters.
   */
  lemma {:induction false} CountAgainstTokens(s: string, d: char)
    ensures |Tokens(s, d)| <= Slots(s, d)
    ensures |Tokens(s, d)| == Slots(s, d) <==> Clean(s, d)
    decreases |s|
  {
    if s == [] {
    } else if s[0] == d {
      var rest := s[1..];
      assert s == [d] + rest;
      LeadingDelimiter(rest, d);
      SlotsAfter([], rest, d);
      CountAgainstTokens(rest, d);
    } else {
      var t, rest := Peel(s, d);
      CleanAlone(t, d);
      SlotsAfter(t, rest, d);
      if d !in s {
        LastToken(s, d);
      } else {
        FirstToken(t, rest, d);
        CleanAfter(t, rest, d);
        CountAgainstTokens(rest, d);
      }
    }
  }

  /** What the caller sees: the null-terminated table, no table, or the failed check that ends the program. */
  datatype Split = Pieces(table: array<Option<string>>) | NoMemory | Aborted

  /** The first pass over the string. */
  method CountPieces(s: string, d: char) returns (count: nat)
    ensures count == Slots(s, d)
  {
    count := 0;
    var last: Option<nat> := None;
    for tmp := 0 to |s|
      invariant count == Delimiters(s[..tmp], d)
      invariant last.None? ==> d !in s[..tmp]
      invariant last.Some? ==> last.value < tmp && s[last.value] == d && d !in s[last.value + 1..tmp]
    {
      assert s[..tmp + 1][..tmp] == s[..tmp];
      if d == s[tmp] {
        count := count + 1;
        last := Some(tmp);
      }
    }
    assert s[..|s|] == s;
    // A null pointer compares below every address, so no delimiter at all counts as not trailing.
    if last.None? || last.value < |s| - 1 {
      count := count + 1;
    }
  }

  /** badDups are the pieces whose copy cannot be allocated: the source stores the null pointer it gets. */
  method StrSplit(s: string, d: char, mallocOk: bool, badDups: set<nat>) returns (r: Split)
    ensures r.NoMemory? <==> !mallocOk
    ensures r.Aborted? <==> mallocOk && !Clean(s, d)
    ensures r.Pieces? ==> fresh(r.table) && Holds(r.table, Tokens(s, d), badDups)
  {
    hide Tokens, NextToken, Clean, Slots;
    var count := CountPieces(s, d);
    count := count + 1;
    if !mallocOk {
      return NoMemory;
    }
    CountAgainstTokens(s, d);
    var table := new Option<string>[count](_ => None);
    var idx := 0;
    var next := NextToken(s, d);
    ghost var all, got, rest := Tokens(s, d), [], s;
    assert got + all == all;
    while next.Some?
      invariant next == NextToken(rest, d) && all == got + Tokens(rest, d)
      invariant idx == |got| && |all| <= count - 1 == table.Length - 1
      invariant forall i :: 0 <= i < idx ==> table[i] == if i in badDups then None else Some(got[i])
      decreases |rest|
    {
      TokensStep(got, rest, d);
      assert idx < count; // the check inside the source's loop: it never fires
      table[idx] := if idx in badDups then None else Some(next.value.0);
      idx := idx + 1;
      got, rest := got + [next.value.0], next.value.1;
      next := NextToken(next.value.1, d);
    }
    TokensStep(got, rest, d);
    if idx != count - 1 {
      return Aborted;
    }
    table[idx] := None;
    return Pieces(table);
  }

  /** The table is the given pieces, with nulls for those that could not be copied, and the null that ends them. */
  ghost predicate Holds(table: array<Option<string>>, tokens: seq<string>, badDups: set<nat>)
    reads table
  {
    && table.Length == |tokens| + 1
    && table[|tokens|] == None
    && forall i :: 0 <= i < |tokens| ==> table[i] == if i in badDups then None else Some(tokens[i])
  }

  /** How many of n pieces stand before the first null, from one on. */
  function Kept(n: nat, badDups: set<nat>, from: nat): (k: nat)
    requires from <= n
    ensures from <= k <= n && (k < n ==> k in badDups)
    ensures forall i :: from <= i < k ==> i !in badDups
    decreases n - from
  {
    if from == n || from in badDups then from else Kept(n, badDups, from + 1)
  }

  /** The pieces a reader of the table gets to. */
  function Seen(tokens: seq<string>, badDups: set<nat>): seq<string> {
    tokens[..Kept(|tokens|, badDups, 0)]
  }

  const MOUNT_STRING_SIZE: nat := 10
  const MOUNT_POINT_SIZE: nat := 50

  /**
    Spilled is not a result of the C code: it marks paths for which one of the
    three strings does not fit the buffer it is printed into.
   */
  datatype Mount = Info(mountString: string, mountPoint: string, newCwd: string) | Refused | Died | Spilled

  /** What a split into the given pieces mounts. */
  function MountOf(tokens: seq<string>): Mount {
    if |tokens| < 3 then Refused
    else Info(tokens[2] + ":", tokens[0] + ":" + tokens[1],
              tokens[2] + ":" + if |tokens| > 3 then tokens[3] else "")
  }

  /** The strings with their terminators against the sizes of the buffers. */
  function Delivered(m: Mount, cwdSize: nat): Mount {
    if m.Info? && (|m.mountString| >= MOUNT_STRING_SIZE || |m.mountPoint| >= MOUNT_POINT_SIZE || |m.newCwd| >= cwdSize)
    then Spilled else m
  }

  method GetMountInfo(path: string, mallocOk: bool, badDups: set<nat>, cwdSize: nat) returns (r: Mount)
    ensures r == if !mallocOk then Refused
                 else if !Clean(path, ':') then Died
                 else Delivered(MountOf(Seen(Tokens(path, ':'), badDups)), cwdSize)
  {
    var split := StrSplit(path, ':', mallocOk, badDups);
    match split
    case NoMemory => r := Refused;
    case Aborted => r := Died;
    case Pieces(table) => r := Assemble(table, Tokens(path, ':'), badDups, cwdSize);
  }

  /** The walk over the null-terminated table and the three sprintf calls. */
  method Assemble(table: array<Option<string>>, ghost tokens: seq<string>, ghost badDups: set<nat>, cwdSize: nat)
    returns (r: Mount)
    requires Holds(table, tokens, badDups)
    ensures r == Delivered(MountOf(Seen(tokens, badDups)), cwdSize)
  {
    var items: array<string> := new string[4](_ => "");
    var i := 0;
    ghost var kept := Kept(|tokens|, badDups, 0);
    while table[i].Some?
      invariant 0 <= i <= kept
      invariant forall k :: 0 <= k < i && k < 4 ==> items[k] == tokens[k]
      invariant fresh(items) && Holds(table, tokens, badDups)
      decreases kept - i
    {
      if i < 4 {
        items[i] := table[i].value;
      }
      i := i + 1;
    }
    assert i == kept && forall k :: 0 <= k < kept ==> Seen(tokens, badDups)[k] == tokens[k];
    if i < 3 {
      return Refused;
    }
    var mountPoint := items[0] + ":" + items[1];
    var mountString := items[2] + ":";
    var newCwd := mountString + if i > 3 then items[3] else "";
    if |mountPoint| >= MOUNT_POINT_SIZE || |mountString| >= MOUNT_STRING_SIZE || |newCwd| >= cwdSize {
      return Spilled;
    }
    r := Info(mountString, mountPoint, newCwd);
  }

  // ---- the caller ----

  /** __cwd_is_hdd */
  predicate OnHdd(cwd: string) {
    "hdd:" <= cwd || "hdd0:" <= cwd
  }

  predicate Doubled(path: string, d: char) {
    exists i :: 0 <= i < |path| - 1 && path[i] == d && path[i + 1] == d
  }

  /** The only caller has found one of two prefixes: there the split goes wrong exactly for a doubled colon. */
  lemma HddClean(cwd: string)
    requires OnHdd(cwd)
    ensures Clean(cwd, ':') <==> !Doubled(cwd, ':')
  {
    assert cwd[0] == 'h';
  }

  /** Such a path. */
  lemma DoubledExample()
    ensures OnHdd("hdd0::pfs:/") && !Clean("hdd0::pfs:/", ':')
  {
    var cwd := "hdd0::pfs:/";
    assert cwd[..5] == "hdd0:" && cwd[4] == ':' && cwd[5] == ':';
    HddClean(cwd);
  }

  /** A path on the hard disk that splits well and whose third piece, of nine characters, fills the buffer for it. */
  lemma OverrunExample()
    ensures var cwd := "hdd0:p:pfspfspfs:/";
            && OnHdd(cwd) && Clean(cwd, ':') && Tokens(cwd, ':') == ["hdd0", "p", "pfspfspfs", "/"]
            && !ThreeFit(Seen(Tokens(cwd, ':'), {}))
  {
    hide Tokens, Kept, Clean, Join, OnHdd;
    var t := ["hdd0", "p", "pfspfspfs", "/"];
    SpellExample();
    TokensOfJoin(t, ':');
    CleanExample();
    NothingLost(t);
  }

  lemma CleanExample()
    ensures OnHdd("hdd0:p:pfspfspfs:/") && Clean("hdd0:p:pfspfspfs:/", ':')
  {
    var cwd := "hdd0:p:pfspfspfs:/";
    assert cwd[..5] == "hdd0:";
    assert forall i :: 0 <= i < |cwd| - 1 && cwd[i] == ':' ==> i == 4 || i == 6 || i == 16;
  }

  lemma NothingLost(t: seq<string>)
    ensures Seen(t, {}) == t
  {
    assert Kept(|t|, {}, 0) == |t|;
  }

  lemma SpellExample()
    ensures Join(["hdd0", "p", "pfspfspfs", "/"], ':') == "hdd0:p:pfspfspfs:/"
  {
    var t := ["hdd0", "p", "pfspfspfs", "/"];
    JoinThree(t);
    assert t[3..] == ["/"];
  }

  /** The pieces whose strings fit their buffers. */
  predicate ThreeFit(t: seq<string>) {
    |t| >= 3 ==> |t[2]| <= 8 && |t[0]| + |t[1]| <= 48
  }

  /** A status of the header with what has been mounted, if anything. */
  datatype MountResult = Status(code: int, mounted: Option<Mount>) | ProgramEnds | Overrun

  const MOUNT_OK := 0
  const MOUNT_NOT_READY := -1
  const MOUNT_WRONG_CWD := -3
  const MOUNT_INFO_ERROR := -4
  const MOUNT_ERROR := -5

  /**
    mount_current_hdd_partition: the working directory fits its buffer, and the
    mounting itself may fail.  The failing check ends the program exactly when
    the driver is ready, the directory is on the hard disk, the table can be
    allocated and a colon is doubled; a buffer is too small exactly for a long
    third piece or long first two.
   */
  method MountCurrentPartition(ready: bool, cwd: string, cwdSize: nat, mallocOk: bool, badDups: set<nat>, mountOk: bool)
    returns (r: MountResult)
    requires |cwd| < cwdSize
    ensures r == Status(-1, None) <==> !ready
    ensures r == Status(-3, None) <==> ready && !OnHdd(cwd)
    ensures r == ProgramEnds <==> ready && OnHdd(cwd) && mallocOk && Doubled(cwd, ':')
    ensures r == Overrun <==>
            ready && OnHdd(cwd) && mallocOk && !Doubled(cwd, ':') && !ThreeFit(Seen(Tokens(cwd, ':'), badDups))
    ensures ready && OnHdd(cwd) && !(mallocOk && Doubled(cwd, ':')) ==>
              var t := Seen(Tokens(cwd, ':'), badDups);
              r == if !mallocOk || |t| < 3 then Status(-4, None)
                   else if !ThreeFit(t) then Overrun
                   else if !mountOk then Status(-5, None)
                   else Status(0, Some(MountOf(t)))
  {
    if !ready {
      return Status(MOUNT_NOT_READY, None);
    }
    if !OnHdd(cwd) {
      return Status(MOUNT_WRONG_CWD, None);
    }
    HddClean(cwd);
    var info := GetMountInfo(cwd, mallocOk, badDups, cwdSize);
    if Clean(cwd, ':') && |Seen(Tokens(cwd, ':'), badDups)| >= 3 {
      NewCwdFits(cwd, badDups);
    }
    match info
    case Died => return ProgramEnds;
    case Spilled => return Overrun;
    case Refused => return Status(MOUNT_INFO_ERROR, None);
    case Info(_, _, _) =>
      if !mountOk {
        return Status(MOUNT_ERROR, None);
      }
      return Status(MOUNT_OK, Some(info));
  }

  predicate Piece(t: string) {
    t != "" && ':' !in t
  }

  lemma FourInLine(a: string, b: string, c: string, d: string)
    ensures a + (":" + (b + (":" + (c + (":" + d))))) == a + ":" + b + ":" + c + ":" + d
  {
  }

  /**
    What the pieces of a path mount: the third names the mount, the first two
    the partition, and the third and the fourth are the new directory.
   */
  lemma FourMount(a: string, b: string, c: string, d: string)
    requires Piece(a) && Piece(b) && Piece(c) && Piece(d)
    ensures MountOf(Tokens(a + ":" + b + ":" + c + ":" + d, ':')) == Info(c + ":", a + ":" + b, c + ":" + d)
  {
    hide Tokens, Join;
    var t := [a, b, c, d];
    TokensOfJoin(t, ':');
    JoinStep(t, ':');
    JoinStep([b, c, d], ':');
    JoinStep([c, d], ':');
    JoinStep([d], ':');
    assert t[1..] == [b, c, d] && [b, c, d][1..] == [c, d] && [c, d][1..] == [d];
    FourInLine(a, b, c, d);
  }

  /** Without a fourth piece the new directory is the root of the mount. */
  lemma ThreeMount(a: string, b: string, c: string)
    requires Piece(a) && Piece(b) && Piece(c)
    ensures MountOf(Tokens(a + (":" + (b + (":" + c))), ':')) == Info(c + ":", a + ":" + b, c + ":")
  {
    hide Tokens, Join;
    var t := [a, b, c];
    TokensOfJoin(t, ':');
    JoinStep(t, ':');
    JoinStep([b, c], ':');
    JoinStep([c], ':');
    assert t[1..] == [b, c] && [b, c][1..] == [c];
    assert c + ":" + "" == c + ":";
  }

  lemma ExamplePieces()
    ensures Piece("hdd0") && Piece("__common") && Piece("pfs") && Piece("/retroarch/")
  {
  }

  lemma ExampleInLine()
    ensures "hdd0" + ":" + "__common" + ":" + "pfs" + ":" + "/retroarch/" == "hdd0:__common:pfs:/retroarch/"
  {
  }

  /** The example the source gives. */
  lemma DocumentedExample()
    ensures MountOf(Tokens("hdd0:__common:pfs:/retroarch/", ':')) ==
            Info("pfs" + ":", "hdd0" + ":" + "__common", "pfs" + ":" + "/retroarch/")
  {
    hide Tokens, MountOf, Piece;
    ExamplePieces();
    ExampleInLine();
    FourMount("hdd0", "__common", "pfs", "/retroarch/");
  }

  /** The new working directory is never longer than the path it is taken from. */
  lemma NewCwdFits(path: string, badDups: set<nat>)
    requires Clean(path, ':') && |Seen(Tokens(path, ':'), badDups)| >= 3
    ensures |MountOf(Seen(Tokens(path, ':'), badDups)).newCwd| <= |path|
  {
    hide Tokens, Join;
    var t := Tokens(path, ':');
    JoinOfTokens(path, ':');
    JoinLength(t);
  }

  lemma JoinLength(t: seq<string>)
    requires |t| >= 3
    ensures |Join(t, ':')| >= |t[2]| + 1 + if |t| > 3 then |t[3]| else 0
  {
    hide Join;
    JoinStep(t, ':');
    JoinStep(t[1..], ':');
    JoinStep(t[2..], ':');
    if |t| > 3 {
      JoinStep(t[3..], ':');
      assert t[2..][1..] == t[3..];
    }
    assert t[1..][1..] == t[2..];
  }

  /**
    The mount point and the new working directory together still spell the
    path, exactly when the path has four pieces and nothing after them, or
    three pieces and a final colon.
   */
  lemma MountRejoins(path: string)
    requires Clean(path, ':') && MountOf(Tokens(path, ':')).Info?
    ensures var m, n := MountOf(Tokens(path, ':')), |Tokens(path, ':')|;
            m.mountPoint + ":" + m.newCwd == path <==>
            (n == 4 && !Trailing(path, ':')) || (n == 3 && Trailing(path, ':'))
  {
    JoinOfTokens(path, ':');
    Rejoins(path, Tokens(path, ':'), Trailing(path, ':'));
  }

  lemma Rejoins(path: string, t: seq<string>, trailing: bool)
    requires |t| >= 3 && path == Join(t, ':') + if trailing then ":" else ""
    ensures MountOf(t).mountPoint + ":" + MountOf(t).newCwd == path <==>
            (|t| == 4 && !trailing) || (|t| == 3 && trailing)
  {
    var end := if trailing then ":" else "";
    JoinThree(t);
    if |t| == 3 {
      Compare(t[0], t[1], t[2], "", end, "");
      assert "" + end == end;
    } else {
      var rest := Join(t[3..], ':');
      Compare(t[0], t[1], t[2], ":" + rest, end, t[3]);
      ColonCancel(rest, end, t[3]);
      assert t[3..] == [t[3]] + t[4..];
      JoinCons(t[3], t[4..], ':');
      assert |t| == 4 ==> t[4..] == [];
    }
  }

  function Spelled(a: string, b: string, c: string): string {
    a + (":" + (b + (":" + c)))
  }

  lemma JoinThree(t: seq<string>)
    requires |t| >= 3
    ensures Join(t, ':') == Spelled(t[0], t[1], t[2] + if |t| == 3 then "" else ":" + Join(t[3..], ':'))
  {
    hide Join;
    JoinStep(t, ':');
    JoinStep(t[1..], ':');
    JoinStep(t[2..], ':');
    assert t[1..][1..] == t[2..] && t[2..][1..] == t[3..];
    assert t[2] + "" == t[2];
  }

  lemma Compare(a: string, b: string, c: string, later: string, end: string, last: string)
    ensures (a + ":" + b) + ":" + ((c + ":") + last) == Spelled(a, b, c + later) + end <==> later + end == ":" + last
  {
    Regroup(a, ":", b + (":" + (c + later)), end);
    Regroup(b, ":", c + later, end);
    Regrouped(a, b, (c + ":") + last);
    SpelledInjective(a, b, (c + later) + end, (c + ":") + last);
    TailsAgree(c, later, end, last);
  }

  lemma Regrouped(a: string, b: string, c: string)
    ensures (a + ":" + b) + ":" + c == Spelled(a, b, c)
  {
  }

  lemma SpelledInjective(a: string, b: string, x: string, y: string)
    ensures Spelled(a, b, x) == Spelled(a, b, y) <==> x == y
  {
    var n := |a| + 1 + |b| + 1;
    assert Spelled(a, b, x)[n..] == x && Spelled(a, b, y)[n..] == y;
  }

  lemma TailsAgree(t: string, later: string, end: string, last: string)
    ensures (t + later) + end == (t + ":") + last <==> later + end == ":" + last
  {
    assert ((t + later) + end)[|t|..] == later + end && ((t + ":") + last)[|t|..] == ":" + last;
    assert (t + later) + end == t + (later + end) && (t + ":") + last == t + (":" + last);
  }

  lemma ColonCancel(x: string, end: string, y: string)
    ensures (":" + x) + end == ":" + y <==> x + end == y
  {
    assert ((":" + x) + end)[1..] == x + end && (":" + y)[1..] == y;
    assert (":" + x) + end == ":" + (x + end);
  }
}
