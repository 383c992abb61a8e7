/** Pattern matching (MetaMatch, gnu-efi/lib/str.c:325-409) against the language of a pattern. */
module Glob {
  import opened Basics

  datatype Token = Star | AnyChar | OneOf(body: string) | Literal(c: char)

  // ------------------------------------------------------ patterns as tokens

  /** Where the first `]` is. */
  function CloseAt(p: string): (k: nat)
    ensures k <= |p|
  {
    if p == "" || p[0] == ']' then 0 else 1 + CloseAt(p[1..])
  }

  lemma {:induction false} CloseAtFirst(p: string)
    ensures CloseAt(p) < |p| ==> p[CloseAt(p)] == ']'
    ensures forall i :: 0 <= i < CloseAt(p) ==> p[i] != ']'
  {
    if p != "" && p[0] != ']' {
      CloseAtFirst(p[1..]);
    }
  }

  /** The token a pattern starts with. */
  function First(p: string): Token
    requires p != ""
  {
    if p[0] == '*' then Star
    else if p[0] == '?' then AnyChar
    else if p[0] == '[' then OneOf(p[1..1 + CloseAt(p[1..])])
    else Literal(p[0])
  }

  /** What follows that token. */
  function Rest(p: string): (r: string)
    requires p != ""
    ensures |r| < |p|
  {
    if p[0] == '[' && CloseAt(p[1..]) + 1 < |p| then p[CloseAt(p[1..]) + 2..] else p[1..]
  }

  /** Every `[` has its `]`: the matcher runs past the end of a pattern that lacks one. */
  predicate Closed(p: string)
    decreases |p|
  {
    p == "" || ((p[0] == '[' ==> CloseAt(p[1..]) + 1 < |p|) && Closed(Rest(p)))
  }

  function Tokens(p: string): seq<Token>
    decreases |p|
  {
    if p == "" then [] else [First(p)] + Tokens(Rest(p))
  }

  // ------------------------------------------------- the language of a pattern

  /** The character at `i` of a set admits `c`: itself, or, for a dash, the range from the character
      before it (none before the first) to the one after it. */
  predicate Admits(body: string, i: nat, c: char)
    requires i < |body|
  {
    if body[i] != '-' then c == body[i]
    else i + 1 < |body| && (c == body[i + 1] || Low(body, i) <= c <= body[i + 1])
  }

  function Low(body: string, i: nat): char
    requires i <= |body|
  {
    if i == 0 then '\0' else body[i - 1]
  }

  predicate InSet(body: string, c: char) {
    exists i :: 0 <= i < |body| && Admits(body, i, c)
  }

  predicate Accepts(t: Token, s: string) {
    match t
    case Star => true
    case AnyChar => |s| == 1
    case OneOf(body) => |s| == 1 && InSet(body, s[0])
    case Literal(c) => s == [c]
  }

  function Concat(parts: seq<string>): string {
    if parts == [] then "" else parts[0] + Concat(parts[1..])
  }

  /** The parts are an accepted string for each token, in order. */
  ghost predicate Splits(parts: seq<string>, ts: seq<Token>, s: string) {
    && |parts| == |ts| && Concat(parts) == s
    && forall i :: 0 <= i < |ts| ==> Accepts(ts[i], parts[i])
  }

  /** The string can be cut into pieces that the tokens accept one by one. */
  ghost predicate InLanguage(s: string, ts: seq<Token>) {
    exists parts :: Splits(parts, ts, s)
  }

  // --------------------------------------------- the same, one token at a time

  predicate Matches(s: string, ts: seq<Token>)
    decreases |ts|
  {
    if ts == [] then s == ""
    else if ts[0].Star? then exists k :: 0 <= k <= |s| && Matches(s[k..], ts[1..])
    else s != "" && Accepts(ts[0], s[..1]) && Matches(s[1..], ts[1..])
  }

  lemma {:induction false} MatchSplits(s: string, ts: seq<Token>) returns (parts: seq<string>)
    requires Matches(s, ts)
    ensures Splits(parts, ts, s)
    decreases |ts|
  {
    if ts == [] {
      parts := [];
    } else {
      var k := 1;
      if ts[0].Star? {
        k :| 0 <= k <= |s| && Matches(s[k..], ts[1..]);
      }
      var rest := MatchSplits(s[k..], ts[1..]);
      parts := [s[..k]] + rest;
      assert parts[1..] == rest;
      assert s == s[..k] + s[k..];
    }
  }

  lemma {:induction false} SplitMatches(s: string, ts: seq<Token>, parts: seq<string>)
    requires Splits(parts, ts, s)
    ensures Matches(s, ts)
    decreases |ts|
  {
    if ts != [] {
      var k := |parts[0]|;
      assert Accepts(ts[0], parts[0]);
      assert s == parts[0] + Concat(parts[1..]);
      assert s[..k] == parts[0] && s[k..] == Concat(parts[1..]);
      SplitMatches(s[k..], ts[1..], parts[1..]);
    }
  }

  lemma MatchesIsLanguage(s: string, ts: seq<Token>)
    ensures Matches(s, ts) <==> InLanguage(s, ts)
  {
    if Matches(s, ts) {
      var parts := MatchSplits(s, ts);
    }
    if InLanguage(s, ts) {
      var parts :| Splits(parts, ts, s);
      SplitMatches(s, ts, parts);
    }
  }

  // -------------------------------------------------------------- the matcher

  /** Lines 367-394: match `c` against the set that starts at `start` and closes at `close`; when it
      matches, `next` is behind the set. */
  method MatchSet(pat: string, start: nat, ghost close: nat, c: char) returns (ok: bool, next: nat)
    requires start <= close < |pat| && pat[close] == ']' && c != '\0'
    requires forall i :: start <= i < close ==> pat[i] != ']' && pat[i] != '\0'
    ensures ok == InSet(pat[start..close], c)
    ensures ok ==> next == close + 1
  {
    ghost var body := pat[start..close];
    next := start;
    var l := '\0';
    var p;
    while true
      invariant start <= next <= close
      invariant forall i :: 0 <= i < next - start ==> !Admits(body, i, c)
      invariant next < close && body[next - start] == '-' ==> l == Low(body, next - start)
      decreases close - next
    {
      ghost var k := next - start;
      p := pat[next];
      next := next + 1;
      if p == ']' {
        return false, next;
      }
      if p == '-' {
        p := pat[next];
        if p == ']' {
          assert !Admits(body, k, c);
          return false, next;
        }
        if l <= c <= p {
          assert Admits(body, k, c);
          break;
        }
      }
      l := p;
      if c == p {
        assert Admits(body, k, c);
        break;
      }
    }
    while p != ']'
      invariant start <= next <= close + 1
      invariant next == close + 1 <==> p == ']'
      invariant InSet(body, c)
      decreases close + 1 - next
    {
      p := pat[next];
      next := next + 1;
    }
    ok := true;
  }

  /** One token of what is left of the pattern. */
  lemma TokenAt(pat: string, p: nat)
    requires p < |pat| && Closed(pat[p..])
    ensures Tokens(pat[p..]) == [First(pat[p..])] + Tokens(Rest(pat[p..])) && Closed(Rest(pat[p..]))
    ensures pat[p] == '[' ==> CloseAt(pat[p..][1..]) + 1 < |pat[p..]|
  {
    hide First, Rest, CloseAt;
  }

  lemma StarAt(pat: string, p: nat)
    requires p < |pat| && pat[p] == '*' && Closed(pat[p..])
    ensures Closed(pat[p + 1..]) && Tokens(pat[p..]) == [Star] + Tokens(pat[p + 1..])
  {
    TokenAt(pat, p);
    hide Closed, Tokens;
    assert pat[p..][1..] == pat[p + 1..];
  }

  lemma StepStar(str: string, s: nat, pat: string, p: nat)
    requires s <= |str| && p < |pat| && pat[p] == '*' && Closed(pat[p..])
    ensures Closed(pat[p + 1..])
    ensures Matches(str[s..], Tokens(pat[p..])) <==>
            exists k :: s <= k <= |str| && Matches(str[k..], Tokens(pat[p + 1..]))
  {
    StarAt(pat, p);
    hide Closed, Tokens;
    var ts := Tokens(pat[p + 1..]);
    assert ([Star] + ts)[1..] == ts;
    if Matches(str[s..], Tokens(pat[p..])) {
      var k :| 0 <= k <= |str[s..]| && Matches(str[s..][k..], ts);
      assert str[s..][k..] == str[s + k..];
    }
    if exists k :: s <= k <= |str| && Matches(str[k..], ts) {
      var k :| s <= k <= |str| && Matches(str[k..], ts);
      assert str[s..][k - s..] == str[k..];
    }
  }

  /** A set at the start of what is left of the pattern. */
  lemma SetAt(pat: string, p: nat)
    requires p < |pat| && pat[p] == '[' && Closed(pat[p..])
    ensures var k := CloseAt(pat[p + 1..]);
            && p + 1 + k < |pat| && Closed(pat[p + k + 2..])
            && Tokens(pat[p..]) == [OneOf(pat[p + 1..p + 1 + k])] + Tokens(pat[p + k + 2..])
  {
    hide Tokens, Closed, CloseAt, First, Rest;
    Slices(pat, p, 0);
    SetFirst(pat[p..]);
    Slices(pat, p, CloseAt(pat[p + 1..]));
  }

  lemma SetFirst(f: string)
    requires f != "" && f[0] == '[' && Closed(f)
    ensures var k := CloseAt(f[1..]);
            k + 1 < |f| && Closed(f[k + 2..]) && Tokens(f) == [OneOf(f[1..1 + k])] + Tokens(f[k + 2..])
  {
    assert f[0..] == f;
    TokenAt(f, 0);
    hide Tokens, Closed, CloseAt, First, Rest;
    SetParts(f);
  }

  lemma SetParts(f: string)
    requires f != "" && f[0] == '[' && CloseAt(f[1..]) + 1 < |f|
    ensures First(f) == OneOf(f[1..1 + CloseAt(f[1..])]) && Rest(f) == f[CloseAt(f[1..]) + 2..]
  {
    hide CloseAt;
  }

  lemma Slices(pat: string, p: nat, k: nat)
    requires p + 1 + k <= |pat|
    ensures pat[p..][1..] == pat[p + 1..]
    ensures pat[p..][1..1 + k] == pat[p + 1..p + 1 + k]
    ensures p + 1 + k < |pat| ==> pat[p..][k + 2..] == pat[p + k + 2..]
  {}

  lemma PlainAt(pat: string, p: nat)
    requires p < |pat| && pat[p] != '*' && pat[p] != '[' && Closed(pat[p..])
    ensures Closed(pat[p + 1..])
    ensures Tokens(pat[p..]) == [if pat[p] == '?' then AnyChar else Literal(pat[p])] + Tokens(pat[p + 1..])
  {
    TokenAt(pat, p);
    hide Closed, Tokens;
    assert pat[p..][1..] == pat[p + 1..];
  }

  lemma StepOne(str: string, s: nat, t: Token, ts: seq<Token>)
    requires s <= |str| && !t.Star?
    ensures Matches(str[s..], [t] + ts) <==> s < |str| && Accepts(t, [str[s]]) && Matches(str[s + 1..], ts)
  {
    assert ([t] + ts)[1..] == ts;
    if s < |str| {
      assert str[s..][..1] == [str[s]] && str[s..][1..] == str[s + 1..];
    }
  }

  /** MetaMatch, for every string and every pattern whose sets are closed. */
  method MetaMatch(str: string, pat: string) returns (r: bool)
    requires NoNul(str) && NoNul(pat) && Closed(pat)
    ensures r == Matches(str, Tokens(pat))
    ensures r <==> InLanguage(str, Tokens(pat))
    decreases |pat|
  {
    hide Matches, Tokens, Closed, InSet, InLanguage;
    MatchesIsLanguage(str, Tokens(pat));
    var s, p := 0, 0;
    assert str[0..] == str && pat[0..] == pat;
    while true
      invariant 0 <= s <= |str| && 0 <= p <= |pat| && Closed(pat[p..])
      invariant Matches(str[s..], Tokens(pat[p..])) == Matches(str, Tokens(pat))
      decreases |pat| - p
    {
      if p == |pat| {
        EndOfPattern(str, s, pat);
        return s == |str|;
      }
      var c := pat[p];
      if c == '*' {
        StepStar(str, s, pat, p);
        r := MatchStar(str, pat, s, p + 1);
        return;
      }
      if c == '?' {
        PlainAt(pat, p);
        p := p + 1;
        StepOne(str, s, AnyChar, Tokens(pat[p..]));
        if s == |str| {
          return false;
        }
        s := s + 1;
      } else if c == '[' {
        if s == |str| {
          SetAt(pat, p);
          ghost var k := CloseAt(pat[p + 1..]);
          StepOne(str, s, OneOf(pat[p + 1..p + 1 + k]), Tokens(pat[p + k + 2..]));
          return false;
        }
        var ok, next := MatchSetAt(str, s, pat, p);
        if !ok {
          return false;
        }
        s := s + 1;
        p := next;
      } else {
        PlainAt(pat, p);
        p := p + 1;
        StepOne(str, s, Literal(c), Tokens(pat[p..]));
        if s == |str| || str[s] != c {
          return false;
        }
        s := s + 1;
      }
    }
  }

  /** case '[' with a character left to match. */
  method MatchSetAt(str: string, s: nat, pat: string, p: nat) returns (ok: bool, next: nat)
    requires s < |str| && NoNul(str) && NoNul(pat) && p < |pat| && pat[p] == '[' && Closed(pat[p..])
    ensures !ok ==> !Matches(str[s..], Tokens(pat[p..]))
    ensures ok ==> p < next <= |pat| && Closed(pat[next..])
    ensures ok ==> Matches(str[s..], Tokens(pat[p..])) == Matches(str[s + 1..], Tokens(pat[next..]))
  {
    hide Matches, Tokens, Closed, InSet;
    SetAt(pat, p);
    ghost var rest := pat[p + 1..];
    CloseAtFirst(rest);
    ghost var k := CloseAt(rest);
    StepOne(str, s, OneOf(pat[p + 1..p + 1 + k]), Tokens(pat[p + k + 2..]));
    assert forall i :: p + 1 <= i < p + 1 + k ==> pat[i] == rest[i - p - 1];
    assert pat[p + 1 + k] == rest[k];
    ok, next := MatchSet(pat, p + 1, p + 1 + k, str[s]);
  }

  lemma EndOfPattern(str: string, s: nat, pat: string)
    requires s <= |str|
    ensures Closed(pat[|pat|..]) && (Matches(str[s..], Tokens(pat[|pat|..])) <==> s == |str|)
  {}

  /** case '*': zero or more characters, trying the rest of the pattern at each place. */
  method MatchStar(str: string, pat: string, from: nat, p: nat) returns (r: bool)
    requires NoNul(str) && NoNul(pat) && from <= |str| && 0 < p <= |pat| && Closed(pat[p..])
    ensures r == exists k :: from <= k <= |str| && Matches(str[k..], Tokens(pat[p..]))
    decreases |pat|, 0
  {
    var s := from;
    while s < |str|
      invariant from <= s <= |str|
      invariant forall k :: from <= k < s ==> !Matches(str[k..], Tokens(pat[p..]))
    {
      r := MetaMatch(str[s..], pat[p..]);
      if r {
        return;
      }
      s := s + 1;
    }
    r := MetaMatch(str[s..], pat[p..]);
  }

  // --------------------------------------------------------- what patterns mean

  /** A pattern of one set with one range. */
  lemma RangeLanguage(lo: char, hi: char, s: string)
    requires lo !in "]-" && hi !in "]-" && lo <= hi
    ensures InLanguage(s, Tokens("[" + [lo, '-', hi] + "]")) <==> |s| == 1 && lo <= s[0] <= hi
  {
    var p, body := "[" + [lo, '-', hi] + "]", [lo, '-', hi];
    SetToken(body, "");
    assert p == "[" + body + "]" + "";
    assert Tokens("") == [];
    assert Tokens(p) == [OneOf(body)];
    OneToken(OneOf(body), s);
    if |s| == 1 {
      RangeAdmits(lo, hi, s[0]);
    }
  }

  lemma RangeAdmits(lo: char, hi: char, c: char)
    requires lo != '-' && hi != '-' && lo <= hi
    ensures InSet([lo, '-', hi], c) <==> lo <= c <= hi
  {
    var body := [lo, '-', hi];
    if lo <= c <= hi {
      assert Admits(body, 1, c);
    }
    if InSet(body, c) {
      var i :| 0 <= i < |body| && Admits(body, i, c);
      assert i == 0 || i == 1 || i == 2;
    }
  }

  /** A pattern of one set of plain characters. */
  lemma SetLanguage(body: string, s: string)
    requires ']' !in body && '-' !in body
    ensures InLanguage(s, Tokens("[" + body + "]")) <==> |s| == 1 && s[0] in body
  {
    SetToken(body, "");
    assert "[" + body + "]" + "" == "[" + body + "]";
    assert Tokens("") == [];
    assert Tokens("[" + body + "]") == [OneOf(body)];
    OneToken(OneOf(body), s);
    if |s| == 1 {
      SetAdmits(body, s[0]);
    }
  }

  lemma SetAdmits(body: string, c: char)
    requires '-' !in body
    ensures InSet(body, c) <==> c in body
  {
    forall i | 0 <= i < |body| ensures Admits(body, i, c) <==> body[i] == c {
      assert body[i] in body;
    }
  }

  lemma SetToken(body: string, rest: string)
    requires ']' !in body
    ensures var p := "[" + body + "]" + rest; Tokens(p) == [OneOf(body)] + Tokens(rest)
  {
    var p := "[" + body + "]" + rest;
    assert p[1..] == body + "]" + rest;
    ClosesAt(body, rest);
    assert p[1..1 + |body|] == body && p[|body| + 2..] == rest;
  }

  lemma {:induction false} ClosesAt(body: string, rest: string)
    requires ']' !in body
    ensures CloseAt(body + "]" + rest) == |body|
  {
    var p := body + "]" + rest;
    if body != "" {
      assert p[1..] == body[1..] + "]" + rest;
      ClosesAt(body[1..], rest);
    }
  }

  lemma OneToken(t: Token, s: string)
    requires !t.Star?
    ensures InLanguage(s, [t]) <==> |s| == 1 && Accepts(t, s)
  {
    MatchesIsLanguage(s, [t]);
    assert [t][1..] == [];
    assert |s| == 1 ==> s[..1] == s;
  }

  /** A pattern without special characters matches itself and nothing else. */
  lemma {:induction false} PlainLanguage(p: string, s: string)
    requires '*' !in p && '?' !in p && '[' !in p
    ensures InLanguage(s, Tokens(p)) <==> s == p
  {
    MatchesIsLanguage(s, Tokens(p));
    if p != "" {
      var ts := Tokens(p);
      assert ts == [Literal(p[0])] + Tokens(p[1..]) && ts[1..] == Tokens(p[1..]);
      hide InLanguage;
      if s != "" {
        MatchesIsLanguage(s[1..], Tokens(p[1..]));
        PlainLanguage(p[1..], s[1..]);
        assert s == [s[0]] + s[1..] && p == [p[0]] + p[1..];
      }
    }
  }

  /** A star between two plain parts matches what begins with the one and ends with the other, without overlap. */
  lemma StarLanguage(a: string, b: string, s: string)
    requires '*' !in a && '?' !in a && '[' !in a && '*' !in b && '?' !in b && '[' !in b
    ensures InLanguage(s, Tokens(a + "*" + b)) <==> |a| + |b| <= |s| && a <= s && s[|s| - |b|..] == b
  {
    MatchesIsLanguage(s, Tokens(a + "*" + b));
    StarMatches(a, b, s);
  }

  lemma {:induction false} StarMatches(a: string, b: string, s: string)
    requires '*' !in a && '?' !in a && '[' !in a && '*' !in b && '?' !in b && '[' !in b
    ensures Matches(s, Tokens(a + "*" + b)) <==> |a| + |b| <= |s| && a <= s && s[|s| - |b|..] == b
    decreases |a|
  {
    hide Tokens, Matches;
    if a == "" {
      assert a + "*" + b == "*" + b;
      StarFirst(b, s);
    } else {
      var rest := a[1..] + "*" + b;
      assert a + "*" + b == [a[0]] + rest && a == [a[0]] + a[1..];
      LiteralFirst(a[0], rest, s);
      if s != "" {
        StarMatches(a[1..], b, s[1..]);
        assert s == [s[0]] + s[1..];
      }
    }
  }

  lemma StarFirst(b: string, s: string)
    requires '*' !in b && '?' !in b && '[' !in b
    ensures Matches(s, Tokens("*" + b)) <==> |b| <= |s| && s[|s| - |b|..] == b
  {
    StarToken(b);
    hide Tokens;
    StarStep(s, Tokens(b));
    hide Matches;
    if |b| <= |s| && s[|s| - |b|..] == b {
      PlainMatches(b, s[|s| - |b|..]);
      assert Matches(s[|s| - |b|..], Tokens(b));
    }
    if k :| 0 <= k <= |s| && Matches(s[k..], Tokens(b)) {
      PlainMatches(b, s[k..]);
    }
  }

  lemma StarToken(b: string)
    ensures Tokens("*" + b) == [Star] + Tokens(b)
  {
    assert ("*" + b)[1..] == b;
  }

  lemma StarStep(s: string, ts: seq<Token>)
    ensures Matches(s, [Star] + ts) <==> exists k :: 0 <= k <= |s| && Matches(s[k..], ts)
  {
    assert ([Star] + ts)[1..] == ts;
  }

  lemma PlainMatches(b: string, s: string)
    requires '*' !in b && '?' !in b && '[' !in b
    ensures Matches(s, Tokens(b)) <==> s == b
  {
    hide Matches, Tokens, InLanguage;
    MatchesIsLanguage(s, Tokens(b));
    PlainLanguage(b, s);
  }

  lemma LiteralFirst(c: char, p: string, s: string)
    requires c != '*' && c != '?' && c != '['
    ensures Matches(s, Tokens([c] + p)) <==> s != "" && s[0] == c && Matches(s[1..], Tokens(p))
  {
    var ts := Tokens([c] + p);
    assert ([c] + p)[1..] == p && ts == [Literal(c)] + Tokens(p) && ts[1..] == Tokens(p);
  }
}
