/** strtok with its static cursor (programs/lib/string.c). */
module Strtok {

  // ----- What the tokens are ------------------------------------------------------

  /** The first position from i on that is not (or that is) a delimiter. */
  function Skip(s: string, d: string, i: nat): (a: nat)
    requires i <= |s|
    ensures i <= a <= |s|
    ensures forall k :: i <= k < a ==> s[k] in d
    ensures a < |s| ==> s[a] !in d
    decreases |s| - i
  {
    if i == |s| || s[i] !in d then i else Skip(s, d, i + 1)
  }

  function End(s: string, d: string, i: nat): (b: nat)
    requires i <= |s|
    ensures i <= b <= |s|
    ensures forall k :: i <= k < b ==> s[k] !in d
    ensures b < |s| ==> s[b] in d
    decreases |s| - i
  {
    if i == |s| || s[i] in d then i else End(s, d, i + 1)
  }

  /** The tokens from position i on, as spans. */
  function Spans(s: string, d: string, i: nat): seq<(nat, nat)>
    requires i <= |s|
    decreases |s| - i
  {
    var a := Skip(s, d, i);
    if a == |s| then []
    else
      var b := End(s, d, a);
      [(a, b)] + if b < |s| then Spans(s, d, b + 1) else []
  }

  lemma OneSpan(s: string, d: string, i: nat)
    requires i <= |s|
    ensures var a := Skip(s, d, i);
            if a == |s| then Spans(s, d, i) == []
            else
              var b := End(s, d, a);
              && a < b <= |s| && Spans(s, d, i) == [(a, b)] + (if b < |s| then Spans(s, d, b + 1) else [])
  {
    hide Skip, End;
  }

  /** A maximal non-empty stretch without delimiters. */
  ghost predicate IsToken(s: string, d: string, a: nat, b: nat) {
    && a < b <= |s|
    && (forall k :: a <= k < b ==> s[k] !in d)
    && (a == 0 || s[a - 1] in d)
    && (b == |s| || s[b] in d)
  }

  ghost predicate Increasing(spans: seq<(nat, nat)>) {
    forall i, j :: 0 <= i < j < |spans| ==> spans[i].1 < spans[j].0
  }

  lemma IncreasingFrom(span: (nat, nat), rest: seq<(nat, nat)>)
    requires Increasing(rest) || rest == []
    requires forall a: nat, b: nat :: (a, b) in rest ==> span.1 < a
    ensures Increasing([span] + rest)
  {
    forall j | 0 <= j < |rest| ensures span.1 < rest[j].0 {
      assert (rest[j].0, rest[j].1) in rest;
    }
  }

  lemma MoreSpans(s: string, d: string, i: nat, x: nat, y: nat)
    requires i <= |s| && x == Skip(s, d, i) < |s| && y == End(s, d, x)
    requires y < |s| ==>
      Increasing(Spans(s, d, y + 1)) && forall a: nat, b: nat :: (a, b) in Spans(s, d, y + 1) ==> y + 1 <= a
    ensures Spans(s, d, i) == [(x, y)] + (if y < |s| then Spans(s, d, y + 1) else [])
    ensures Increasing(Spans(s, d, i))
  {
    hide Skip, End, Increasing, Spans;
    OneSpan(s, d, i);
    if y < |s| { IncreasingFrom((x, y), Spans(s, d, y + 1)); } else { IncreasingFrom((x, y), []); }
  }

  lemma NoSpans()
    ensures Increasing([])
  {
  }

  lemma InFront<T>(x: T, rest: seq<T>, e: T)
    ensures e in [x] + rest <==> e == x || e in rest
  {
  }

  /** A token from i on is the first one or lies behind it. */
  lemma FirstToken(s: string, d: string, i: nat, x: nat, y: nat, a: nat, b: nat)
    requires i <= |s| && (i == 0 || s[i - 1] in d)
    requires x == Skip(s, d, i) < |s| && y == End(s, d, x)
    ensures i <= a && IsToken(s, d, a, b) <==>
      (a == x && b == y) || (y < |s| && y + 1 <= a && IsToken(s, d, a, b))
  {
    if i <= a && IsToken(s, d, a, b) {
      assert s[a] !in d && x <= a;
      assert a > x ==> s[a - 1] in d;
      assert y < |s| ==> s[y] in d;
      assert b < |s| ==> s[b] in d;
    }
  }

  /** The tokens from i on are the first one and those behind it. */
  lemma FirstAndRest(s: string, d: string, i: nat, x: nat, y: nat, rest: seq<(nat, nat)>)
    requires i <= |s| && (i == 0 || s[i - 1] in d)
    requires x == Skip(s, d, i) < |s| && y == End(s, d, x)
    requires forall a: nat, b: nat :: (a, b) in rest <==> y < |s| && y + 1 <= a && IsToken(s, d, a, b)
    ensures forall a: nat, b: nat :: (a, b) in [(x, y)] + rest <==> i <= a && IsToken(s, d, a, b)
  {
    hide Skip, End, IsToken;
    forall a: nat, b: nat ensures (a, b) in [(x, y)] + rest <==> i <= a && IsToken(s, d, a, b) {
      FirstToken(s, d, i, x, y, a, b);
      InFront((x, y), rest, (a, b));
    }
  }

  lemma NoToken(s: string, d: string, i: nat)
    requires i <= |s| && Skip(s, d, i) == |s|
    ensures forall a: nat, b: nat :: i <= a ==> !IsToken(s, d, a, b)
  {
    hide Skip;
    forall a: nat, b: nat | i <= a ensures !IsToken(s, d, a, b) {
      assert a < |s| ==> s[a] in d;
    }
  }

  /** The spans are exactly the maximal stretches, in order. */
  lemma {:induction false} SpansExact(s: string, d: string, i: nat)
    requires i <= |s| && (i == 0 || s[i - 1] in d)
    ensures forall a: nat, b: nat :: (a, b) in Spans(s, d, i) <==> i <= a && IsToken(s, d, a, b)
    ensures Increasing(Spans(s, d, i))
    decreases |s| - i
  {
    hide Increasing, Skip, End, IsToken, Spans;
    var x := Skip(s, d, i);
    OneSpan(s, d, i);
    if x == |s| {
      NoSpans();
      NoToken(s, d, i);
    } else {
      var y := End(s, d, x);
      var rest := if y < |s| then Spans(s, d, y + 1) else [];
      if y < |s| { SpansExact(s, d, y + 1); }
      MoreSpans(s, d, i, x, y);
      FirstAndRest(s, d, i, x, y, rest);
    }
  }

  lemma {:induction false} SkipTail(s: string, d: string, i: nat, j: nat)
    requires i <= j <= |s|
    ensures Skip(s[i..], d, j - i) + i == Skip(s, d, j)
    decreases |s| - j
  {
    if j < |s| { SkipTail(s, d, i, j + 1); }
  }

  lemma {:induction false} EndTail(s: string, d: string, i: nat, j: nat)
    requires i <= j <= |s|
    ensures End(s[i..], d, j - i) + i == End(s, d, j)
    decreases |s| - j
  {
    if j < |s| { EndTail(s, d, i, j + 1); }
  }

  // ----- The tokenizer ------------------------------------------------------------------

  const NULL := -1

  predicate StringAt(m: string, p: nat, n: nat) {
    p + n < |m| && m[p + n] == '\0' && forall k :: p <= k < p + n ==> m[k] != '\0'
  }

  /** The outcome of one call on the string of length n at p. */
  ghost predicate IsNext(m: string, m1: string, p: nat, n: nat, delim: string, token: int, cursor: int)
    requires p + n <= |m|
  {
    var s := m[p..p + n];
    var a := Skip(s, delim, 0);
    if a == n then token == NULL && cursor == NULL && m1 == m
    else
      var b := End(s, delim, a);
      && token == p + a
      && (if b == n then cursor == NULL && m1 == m else cursor == p + b + 1 && m1 == m[p + b := '\0'])
  }

  // ----- A whole string ---------------------------------------------------------------

  function TokensOf(m: string, p: nat, n: nat, d: string): seq<(nat, nat)>
    requires p + n <= |m|
  {
    Spans(m[p..p + n], d, 0)
  }

  /** The memory with a null character on the delimiter behind each span. */
  function Cuts(m: string, p: nat, n: nat, spans: seq<(nat, nat)>): (c: string)
    requires p + n <= |m|
    ensures |c| == |m|
  {
    if spans == [] then m
    else
      var last := spans[|spans| - 1].1;
      var c := Cuts(m, p, n, spans[..|spans| - 1]);
      if last < n then c[p + last := '\0'] else c
  }

  /** The tokens as a caller finds them: every one a C string at the address that was
      returned for it, in order, and nothing overwritten but delimiters. */
  ghost predicate AreTokens(m: string, m1: string, p: nat, n: nat, d: string, starts: seq<int>)
    requires p + n <= |m|
  {
    var spans := TokensOf(m, p, n, d);
    && |starts| == |spans| && |m1| == |m|
    && (forall j :: 0 <= j < |spans| ==>
          var (a, b) := spans[j];
          && a <= b <= n
          && starts[j] == p + a && StringAt(m1, p + a, b - a) && m1[p + a..p + b] == m[p + a..p + b])
    && (forall k :: 0 <= k < |m| ==> m1[k] == m[k] || (p <= k < p + n && m[k] in d && m1[k] == '\0'))
  }

  /** Before a call: k tokens are out, and the cursor is where the rest starts. */
  ghost predicate Ready(m: string, m1: string, p: nat, n: nat, d: string, k: nat, cursor: int)
    requires p + n <= |m|
  {
    var spans := TokensOf(m, p, n, d);
    && k <= |spans| && m1 == Cuts(m, p, n, spans[..k])
    && if cursor == NULL then k == |spans|
       else
         && p <= cursor <= p + n && spans[k..] == Spans(m[p..p + n], d, cursor - p)
         && m1[cursor..] == m[cursor..]
  }

  lemma FirstCall(m: string, p: nat, n: nat, d: string)
    requires p + n <= |m|
    ensures Ready(m, m, p, n, d, 0, p)
  {
    assert TokensOf(m, p, n, d)[..0] == [];
  }

  lemma StringLeft(m: string, m1: string, p: nat, n: nat, d: string, k: nat, cursor: int)
    requires StringAt(m, p, n) && Ready(m, m1, p, n, d, k, cursor)
    ensures cursor != NULL ==> p <= cursor <= p + n && StringAt(m1, cursor, n - (cursor - p))
  {
    if cursor != NULL {
      forall x | cursor <= x <= p + n ensures m1[x] == m[x] {
        assert m1[cursor..][x - cursor] == m[cursor..][x - cursor];
      }
    }
  }

  lemma CutsNext(m: string, p: nat, n: nat, spans: seq<(nat, nat)>, k: nat)
    requires p + n <= |m| && k < |spans|
    ensures var b := spans[k].1;
            Cuts(m, p, n, spans[..k + 1]) ==
              if b < n then Cuts(m, p, n, spans[..k])[p + b := '\0'] else Cuts(m, p, n, spans[..k])
  {
    assert spans[..k + 1][..k] == spans[..k];
  }

  /** IsNext said of the whole string, of which the cursor is at position i. */
  lemma NextInString(m: string, m1: string, m2: string, p: nat, n: nat, d: string, i: nat, token: int, cursor: int)
    requires p + n <= |m| == |m1| && i <= n && m1[p + i..] == m[p + i..]
    requires IsNext(m1, m2, p + i, n - i, d, token, cursor)
    ensures var s := m[p..p + n];
            var a := Skip(s, d, i);
            if a == n then token == NULL && cursor == NULL && m2 == m1
            else
              var b := End(s, d, a);
              && token == p + a
              && (if b == n then cursor == NULL && m2 == m1 else cursor == p + b + 1 && m2 == m1[p + b := '\0'])
  {
    hide Skip, End;
    var s := m[p..p + n];
    assert m1[p + i..p + i + (n - i)] == s[i..] by {
      assert m1[p + i..][..n - i] == m1[p + i..p + i + (n - i)];
      assert m[p + i..][..n - i] == m[p + i..p + n] == s[i..];
    }
    SkipTail(s, d, i, i);
    EndTail(s, d, i, Skip(s, d, i));
  }

  /** One call takes one token, or finds that there is none left. */
  lemma Called(m: string, m1: string, m2: string, p: nat, n: nat, d: string, k: nat, from: int, token: int, cursor: int)
    requires p + n <= |m| && Ready(m, m1, p, n, d, k, from) && |m1| == |m|
    requires from == NULL ==> token == NULL && cursor == NULL && m2 == m1
    requires from != NULL ==> IsNext(m1, m2, from, n - (from - p), d, token, cursor)
    ensures var spans := TokensOf(m, p, n, d);
            if token == NULL then cursor == NULL && k == |spans| && m2 == Cuts(m, p, n, spans)
            else k < |spans| && token == p + spans[k].0 && Ready(m, m2, p, n, d, k + 1, cursor)
  {
    hide Skip, End, Spans, Cuts, IsNext;
    var s, spans := m[p..p + n], TokensOf(m, p, n, d);
    assert spans[..|spans|] == spans;
    if from != NULL {
      var i := from - p;
      NextInString(m, m1, m2, p, n, d, i, token, cursor);
      OneSpan(s, d, i);
      var a := Skip(s, d, i);
      if a == n {
        assert spans[k..] == [];
      } else {
        var b := End(s, d, a);
        assert spans[k..][0] == (a, b) && spans[k..][1..] == spans[k + 1..];
        CutsNext(m, p, n, spans, k);
        if b < n { assert m1[from..][b + 1 - i..] == m1[p + b + 1..] && m[from..][b + 1 - i..] == m[p + b + 1..]; }
      }
    }
  }

  lemma {:induction false} CutsAt(m: string, p: nat, n: nat, spans: seq<(nat, nat)>, x: nat)
    requires p + n <= |m| && x < |m|
    ensures Cuts(m, p, n, spans)[x] ==
      if exists j :: 0 <= j < |spans| && spans[j].1 < n && x == p + spans[j].1 then '\0' else m[x]
  {
    if spans != [] {
      var k := |spans| - 1;
      CutsAt(m, p, n, spans[..k], x);
      if j :| 0 <= j < |spans| && spans[j].1 < n && x == p + spans[j].1 {
        assert j < k ==> spans[..k][j] == spans[j];
      }
      if spans[k].1 < n && x == p + spans[k].1 {
        assert exists j :: 0 <= j < |spans| && spans[j].1 < n && x == p + spans[j].1;
      } else if j :| 0 <= j < k && spans[..k][j].1 < n && x == p + spans[..k][j].1 {
        assert spans[j] == spans[..k][j];
      }
    }
  }

  lemma StringFits(m: string, p: nat, n: nat)
    requires StringAt(m, p, n)
    ensures p + n < |m|
  {
  }

  lemma TokenInString(m: string, p: nat, n: nat, d: string, j: nat)
    requires p + n <= |m| && j < |TokensOf(m, p, n, d)|
    ensures var (a, b) := TokensOf(m, p, n, d)[j]; a <= b <= n && IsToken(m[p..p + n], d, a, b)
  {
    hide Spans, Increasing, Skip, End;
    var spans := TokensOf(m, p, n, d);
    SpansExact(m[p..p + n], d, 0);
    assert (spans[j].0, spans[j].1) in spans;
  }

  lemma CutIsDelimiter(m: string, p: nat, n: nat, d: string, k: nat)
    requires p + n <= |m| && k < |m|
    ensures var m1 := Cuts(m, p, n, TokensOf(m, p, n, d));
            m1[k] == m[k] || (p <= k < p + n && m[k] in d && m1[k] == '\0')
  {
    hide Cuts, Spans, Increasing;
    var s, spans := m[p..p + n], TokensOf(m, p, n, d);
    CutsAt(m, p, n, spans, k);
    SpansExact(s, d, 0);
    if j :| 0 <= j < |spans| && spans[j].1 < n && k == p + spans[j].1 {
      assert (spans[j].0, spans[j].1) in spans;
      assert IsToken(s, d, spans[j].0, spans[j].1);
      assert s[spans[j].1] == m[k];
    }
  }

  lemma TokenStays(m: string, p: nat, n: nat, d: string, j: nat, a: nat, b: nat)
    requires StringAt(m, p, n) && IsToken(m[p..p + n], d, a, b)
    requires j < |TokensOf(m, p, n, d)| && TokensOf(m, p, n, d)[j] == (a, b)
    ensures var m1 := Cuts(m, p, n, TokensOf(m, p, n, d));
            StringAt(m1, p + a, b - a) && m1[p + a..p + b] == m[p + a..p + b]
  {
    hide Cuts, Spans, Increasing;
    var s, spans := m[p..p + n], TokensOf(m, p, n, d);
    var m1 := Cuts(m, p, n, spans);
    forall k | p + a <= k < p + b ensures m1[k] == m[k] {
      CutIsDelimiter(m, p, n, d, k);
      assert s[k - p] !in d;
    }
    CutsAt(m, p, n, spans, p + b);
  }

  /** Only delimiters are cut, and no token loses a character. */
  lemma Finished(m: string, p: nat, n: nat, d: string)
    requires StringAt(m, p, n)
    ensures var spans := TokensOf(m, p, n, d);
            AreTokens(m, Cuts(m, p, n, spans), p, n, d, seq(|spans|, j requires 0 <= j < |spans| => p + spans[j].0))
  {
    hide Cuts, TokensOf, StringAt;
    StringFits(m, p, n);
    var spans := TokensOf(m, p, n, d);
    var m1 := Cuts(m, p, n, spans);
    forall k | 0 <= k < |m| ensures m1[k] == m[k] || (p <= k < p + n && m[k] in d && m1[k] == '\0') {
      CutIsDelimiter(m, p, n, d, k);
    }
    forall j | 0 <= j < |spans|
      ensures var (a, b) := spans[j];
              a <= b <= n && StringAt(m1, p + a, b - a) && m1[p + a..p + b] == m[p + a..p + b]
    {
      TokenInString(m, p, n, d, j);
      TokenStays(m, p, n, d, j, spans[j].0, spans[j].1);
    }
  }

  class Tokenizer {
    const mem: array<char>
    var cursor: int

    /** The C string of length n at p. */
    ghost predicate IsString(p: nat, n: nat)
      reads mem
    {
      StringAt(mem[..], p, n)
    }

    constructor (mem: array<char>)
      ensures this.mem == mem && cursor == NULL
    {
      this.mem := mem;
      cursor := NULL;
    }

    method IsDelimiter(p: nat, delim: string) returns (found: bool)
      requires p < mem.Length
      ensures found <==> mem[p] in delim
    {
      found := false;
      var k := 0;
      while k < |delim|
        invariant 0 <= k <= |delim| && mem[p] !in delim[..k]
      {
        if mem[p] == delim[k] { return true; }
        assert delim[..k + 1] == delim[..k] + [delim[k]];
        k := k + 1;
      }
      assert delim[..k] == delim;
    }

    method SkipDelimiters(delim: string, ghost p: nat, ghost n: nat)
      requires IsString(p, n) && cursor == p
      modifies this`cursor
      ensures cursor == p + Skip(mem[..][p..p + n], delim, 0)
    {
      ghost var s := mem[..][p..p + n];
      while mem[cursor] != '\0'
        invariant p <= cursor <= p + n && Skip(s, delim, cursor - p) == Skip(s, delim, 0)
        decreases p + n - cursor
      {
        var isDelim := IsDelimiter(cursor, delim);
        assert mem[cursor] == s[cursor - p];
        if !isDelim { return; }
        cursor := cursor + 1;
      }
    }

    method FindDelimiter(delim: string, ghost p: nat, ghost n: nat) returns (found: bool)
      requires IsString(p, n) && p <= cursor <= p + n
      modifies this`cursor
      ensures var b := End(mem[..][p..p + n], delim, old(cursor) - p); cursor == p + b && (found <==> b < n)
    {
      ghost var s, a := mem[..][p..p + n], cursor - p;
      while mem[cursor] != '\0'
        invariant p + a <= cursor <= p + n && End(s, delim, cursor - p) == End(s, delim, a)
        decreases p + n - cursor
      {
        found := IsDelimiter(cursor, delim);
        assert mem[cursor] == s[cursor - p];
        if found { return; }
        cursor := cursor + 1;
      }
      return false;
    }

    /** strtok: `str` is a string or null; `n` is the length of the string that is
        left. The token it returns is the first one, cut off in place by a null
        character on its delimiter, and the cursor is left behind that. */
    method StrTok(str: int, delim: string, ghost n: nat) returns (token: int)
      requires NULL <= str && NULL <= cursor && '\0' !in delim
      requires var p := if str != NULL then str else cursor; p != NULL ==> IsString(p, n)
      modifies this`cursor, mem
      ensures var p := if str != NULL then str else old(cursor);
        if p == NULL then token == NULL && cursor == NULL && mem[..] == old(mem[..])
        else IsNext(old(mem[..]), mem[..], p, n, delim, token, cursor)
    {
      hide Skip, End;
      if str != NULL { cursor := str; }
      if cursor == NULL { return NULL; }
      ghost var p: nat := cursor;
      ghost var s := mem[..][p..p + n];
      SkipDelimiters(delim, p, n);
      if mem[cursor] == '\0' {
        cursor := NULL;
        return NULL;
      }
      token := cursor;
      var found := FindDelimiter(delim, p, n);
      if found {
        mem[cursor] := '\0';
        cursor := cursor + 1;
      } else {
        cursor := NULL;
      }
    }

    /** The usual loop: strtok on the string, then on null until it returns null. */
    method AllTokens(p: nat, delim: string, ghost n: nat) returns (starts: seq<int>)
      requires p + n < mem.Length && IsString(p, n) && '\0' !in delim && NULL <= cursor
      modifies this`cursor, mem
      ensures cursor == NULL && |mem[..]| == |old(mem[..])|
      ensures AreTokens(old(mem[..]), mem[..], p, n, delim, starts)
    {
      hide StringAt, IsNext, Ready, AreTokens, Spans;
      ghost var m := mem[..];
      ghost var spans := TokensOf(m, p, n, delim);
      FirstCall(m, p, n, delim);
      starts := [];
      var token := StrTok(p, delim, n);
      Called(m, m, mem[..], p, n, delim, 0, p, token, cursor);
      while token != NULL
        invariant NULL <= token && |starts| <= |spans|
        invariant starts == seq(|starts|, j requires 0 <= j < |spans| => p + spans[j].0)
        invariant token == NULL ==> cursor == NULL && |starts| == |spans| && mem[..] == Cuts(m, p, n, spans)
        invariant token != NULL ==>
          |starts| < |spans| && token == p + spans[|starts|].0 && Ready(m, mem[..], p, n, delim, |starts| + 1, cursor)
        decreases |spans| - |starts|
      {
        starts := starts + [token];
        ghost var was, from := mem[..], cursor;
        StringLeft(m, was, p, n, delim, |starts|, from);
        token := StrTok(NULL, delim, if from == NULL then 0 else n - (from - p));
        Called(m, was, mem[..], p, n, delim, |starts|, from, token, cursor);
      }
      Finished(m, p, n, delim);
    }
  }
}
