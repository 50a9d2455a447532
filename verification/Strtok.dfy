/**
  The C library's strtok with a one-character delimiter set, the way both
  str_split and the manifest loader drive it, over any kind of character.
 */
module Strtok {
  import opened Wrappers

  /** Length of the longest prefix without the delimiter. */
  function Run<T(==)>(s: seq<T>, d: T): (n: nat)
    ensures n <= |s| && d !in s[..n] && (n < |s| ==> s[n] == d)
  {
    if s == [] || s[0] == d then 0
    else
      var n := 1 + Run(s[1..], d);
      assert s[..n] == [s[0]] + s[1..][..n - 1];
      n
  }

  function SkipDelimiters<T(==)>(s: seq<T>, d: T): (r: seq<T>)
    ensures |r| <= |s| && (r != [] ==> r[0] != d)
  {
    if s != [] && s[0] == d then SkipDelimiters(s[1..], d) else s
  }

  /** One call of strtok: the token and what the next call will scan. */
  function NextToken<T(==)>(s: seq<T>, d: T): (r: Option<(seq<T>, seq<T>)>)
    ensures r.Some? ==> |r.value.1| < |s|
  {
    var t := SkipDelimiters(s, d);
    if t == [] then None
    else
      var n := Run(t, d);
      Some((t[..n], if n < |t| then t[n + 1..] else []))
  }

  /** All the tokens successive calls return. */
  function Tokens<T(==)>(s: seq<T>, d: T): seq<seq<T>>
    decreases |s|
  {
    match NextToken(s, d)
    case None => []
    case Some((token, rest)) => [token] + Tokens(rest, d)
  }

  function Join<T>(tokens: seq<seq<T>>, d: T): seq<T> {
    if |tokens| == 0 then []
    else if |tokens| == 1 then tokens[0]
    else tokens[0] + [d] + Join(tokens[1..], d)
  }

  /** What strtok can return: pieces that are not empty and hold no delimiter. */
  ghost predicate Proper<T>(tokens: seq<seq<T>>, d: T) {
    forall i :: 0 <= i < |tokens| ==> tokens[i] != [] && d !in tokens[i]
  }

  /** No leading delimiter, no two in a row, at least one character. */
  predicate Clean<T(==)>(s: seq<T>, d: T) {
    && s != [] && s[0] != d
    && forall i :: 0 <= i < |s| - 1 ==> !(s[i] == d && s[i + 1] == d)
  }

  predicate Trailing<T(==)>(s: seq<T>, d: T) {
    s != [] && s[|s| - 1] == d
  }

  lemma {:induction false} RunIs<T>(t: seq<T>, rest: seq<T>, d: T)
    requires d !in t && (rest != [] ==> rest[0] == d)
    ensures Run(t + rest, d) == |t|
  {
    if t == [] {
      assert t + rest == rest;
    } else {
      assert (t + rest)[1..] == t[1..] + rest;
      RunIs(t[1..], rest, d);
    }
  }

  lemma LeadingDelimiter<T>(s: seq<T>, d: T)
    ensures Tokens([d] + s, d) == Tokens(s, d)
  {
    assert ([d] + s)[1..] == s;
    assert SkipDelimiters([d] + s, d) == SkipDelimiters(s, d);
    assert NextToken([d] + s, d) == NextToken(s, d);
  }

  lemma LastToken<T>(t: seq<T>, d: T)
    requires t != [] && d !in t
    ensures Tokens(t, d) == [t]
  {
    RunIs(t, [], d);
    assert t + [] == t && t[..|t|] == t;
  }

  /** The delimiter behind a token is consumed with it. */
  lemma NextTokenIs<T>(t: seq<T>, rest: seq<T>, d: T)
    requires t != [] && d !in t
    ensures NextToken(t + ([d] + rest), d) == Some((t, rest))
  {
    var s := t + ([d] + rest);
    RunIs(t, [d] + rest, d);
    assert s[0] == t[0] && s[..|t|] == t && s[|t| + 1..] == rest;
  }

  lemma FirstToken<T>(t: seq<T>, rest: seq<T>, d: T)
    requires t != [] && d !in t
    ensures Tokens(t + ([d] + rest), d) == [t] + Tokens(rest, d)
  {
    var s := t + ([d] + rest);
    RunIs(t, [d] + rest, d);
    assert s[0] == t[0] && s[..|t|] == t && s[|t| + 1..] == rest;
  }

  /** A string that starts with a piece is that piece alone, or the piece, a delimiter and a rest. */
  lemma Peel<T>(s: seq<T>, d: T) returns (t: seq<T>, rest: seq<T>)
    requires s != [] && s[0] != d
    ensures t != [] && d !in t
    ensures d !in s ==> t == s
    ensures d in s ==> s == t + ([d] + rest) && |rest| < |s|
  {
    var n := Run(s, d);
    t, rest := s[..n], if n < |s| then s[n + 1..] else [];
  }

  lemma CleanAfter<T>(t: seq<T>, rest: seq<T>, d: T)
    requires t != [] && d !in t
    ensures Clean(t + ([d] + rest), d) <==> rest == [] || Clean(rest, d)
    ensures Trailing(t + ([d] + rest), d) <==> rest == [] || Trailing(rest, d)
  {
    var s := t + ([d] + rest);
    var n := |t|;
    assert forall i :: 0 <= i < n ==> s[i] == t[i] && s[i] != d;
    assert s[n] == d;
    assert forall i :: 0 <= i < |rest| ==> rest[i] == s[n + 1 + i];
    if Clean(s, d) && rest != [] {
      assert s[n + 1] != d;
      forall i | 0 <= i < |rest| - 1
        ensures !(rest[i] == d && rest[i + 1] == d)
      {
        assert !(s[n + 1 + i] == d && s[n + 1 + i + 1] == d);
      }
    }
    if Clean(rest, d) {
      forall i | 0 <= i < |s| - 1
        ensures !(s[i] == d && s[i + 1] == d)
      {
        if n < i {
          assert !(rest[i - n - 1] == d && rest[i - n] == d);
        }
      }
    }
  }

  lemma CleanAlone<T>(t: seq<T>, d: T)
    requires t != [] && d !in t
    ensures Clean(t, d) && !Trailing(t, d)
  {
  }

  lemma JoinCons<T>(t: seq<T>, ts: seq<seq<T>>, d: T)
    ensures Join([t] + ts, d) == if ts == [] then t else t + ([d] + Join(ts, d))
  {
    assert ([t] + ts)[1..] == ts;
    assert ts != [] ==> t + [d] + Join(ts, d) == t + ([d] + Join(ts, d));
  }

  lemma JoinStep<T>(ts: seq<seq<T>>, d: T)
    requires ts != []
    ensures Join(ts, d) == if |ts| == 1 then ts[0] else ts[0] + ([d] + Join(ts[1..], d))
  {
    hide Join;
    assert ts == [ts[0]] + ts[1..];
    JoinCons(ts[0], ts[1..], d);
  }

  /** Splitting undoes joining. */
  lemma {:induction false} TokensOfJoin<T>(tokens: seq<seq<T>>, d: T)
    requires Proper(tokens, d)
    ensures Tokens(Join(tokens, d), d) == tokens
  {
    if tokens != [] {
      var t, ts := tokens[0], tokens[1..];
      assert tokens == [t] + ts;
      JoinCons(t, ts, d);
      if ts == [] {
        LastToken(t, d);
      } else {
        FirstToken(t, Join(ts, d), d);
        TokensOfJoin(ts, d);
      }
    }
  }

  /** One more call of strtok moves one token across. */
  lemma TokensStep<T>(got: seq<seq<T>>, s: seq<T>, d: T)
    ensures NextToken(s, d).None? ==> got + Tokens(s, d) == got
    ensures NextToken(s, d).Some? ==>
              var (token, rest) := NextToken(s, d).value;
              && got + Tokens(s, d) == (got + [token]) + Tokens(rest, d)
              && |got + Tokens(s, d)| > |got|
  {
  }

  lemma Regroup<T>(a: seq<T>, b: seq<T>, c: seq<T>, e: seq<T>)
    ensures a + (b + (c + e)) == (a + (b + c)) + e
  {
  }

  /** Joining undoes splitting up to one trailing delimiter, on clean strings. */
  lemma {:induction false} JoinOfTokens<T>(s: seq<T>, d: T)
    requires Clean(s, d)
    ensures s == Join(Tokens(s, d), d) + if Trailing(s, d) then [d] else []
    ensures Tokens(s, d) != []
    decreases |s|
  {
    var t, rest := Peel(s, d);
    if d !in s {
      CleanAlone(s, d);
      LastToken(s, d);
    } else {
      FirstToken(t, rest, d);
      CleanAfter(t, rest, d);
      var ts := Tokens(rest, d);
      JoinCons(t, ts, d);
      if rest == [] {
        assert ts == [];
      } else {
        JoinOfTokens(rest, d);
        Regroup(t, [d], Join(ts, d), if Trailing(rest, d) then [d] else []);
      }
    }
  }
}
