/** Glob matching as Redis does it: a backtracking matcher with a cut-off flag shared by
    all of its recursive calls, against the meaning of a pattern as a list of tokens.
    A byte is a `char`; the statements hold for all strings. */
module Glob {

  datatype Item = One(c: char) | Range(low: char, high: char)

  datatype Token = Star | Any | Literal(c: char) | Class(negated: bool, items: seq<Item>)

  // ---- What a pattern means ----

  function ItemAt(a: char, b: char): Item {
    if a > b then Range(b, a) else Range(a, b)
  }

  /** The members of a bracket expression from index `i` on, and the index of its last
      byte.  A class that is not closed ends with the pattern. */
  function Items(p: string, i: nat): (r: (seq<Item>, nat))
    requires 0 < i <= |p|
    ensures i - 1 <= r.1 < |p|
    decreases |p| - i
  {
    if i == |p| then ([], i - 1)
    else if p[i] == '\\' && |p| - i >= 2 then
      var (items, last) := Items(p, i + 2);
      ([One(p[i + 1])] + items, last)
    else if p[i] == ']' then ([], i)
    else if |p| - i >= 3 && p[i + 1] == '-' then
      var (items, last) := Items(p, i + 3);
      ([ItemAt(p[i], p[i + 2])] + items, last)
    else
      var (items, last) := Items(p, i + 1);
      ([One(p[i])] + items, last)
  }

  function ClassStart(p: string, i: nat): (j: nat)
    requires i < |p|
    ensures i < j <= |p|
  {
    if i + 1 < |p| && p[i + 1] == '^' then i + 2 else i + 1
  }

  function ClassAt(p: string, i: nat): (r: (Token, nat))
    requires i < |p|
    ensures i <= r.1 < |p| && r.0.Class?
  {
    var j := ClassStart(p, i);
    var (items, last) := Items(p, j);
    (Class(j == i + 2, items), last)
  }

  /** The first token of a pattern, and how many bytes it takes. */
  function First(p: string): (r: (Token, nat))
    requires p != []
    ensures 0 < r.1 <= |p|
    ensures r.0 == Star <==> p[0] == '*'
  {
    if p[0] == '*' then (Star, 1)
    else if p[0] == '?' then (Any, 1)
    else if p[0] == '[' then
      var (t, last) := ClassAt(p, 0);
      (t, last + 1)
    else if p[0] == '\\' && |p| >= 2 then (Literal(p[1]), 2)
    else (Literal(p[0]), 1)
  }

  function Tokens(p: string): seq<Token> {
    if p == [] then []
    else
      var (t, n) := First(p);
      [t] + Tokens(p[n..])
  }

  predicate InItem(it: Item, c: char) {
    match it
    case One(d) => c == d
    case Range(low, high) => low <= c <= high
  }

  predicate InSome(items: seq<Item>, c: char) {
    exists i | 0 <= i < |items| :: InItem(items[i], c)
  }

  lemma InSomeMore(items: seq<Item>, it: Item, c: char)
    ensures InSome(items + [it], c) <==> InSome(items, c) || InItem(it, c)
  {
    var more := items + [it];
    assert more[|items|] == it;
    if InSome(items, c) {
      var i :| 0 <= i < |items| && InItem(items[i], c);
      assert more[i] == items[i];
    }
  }

  /** The single byte `c` is one that token `t` stands for. */
  predicate Fits(t: Token, c: char) {
    match t
    case Star => true
    case Any => true
    case Literal(d) => c == d
    case Class(negated, items) => InSome(items, c) != negated
  }

  /** A star stands for any string, every other token for one byte. */
  ghost predicate Matches(ts: seq<Token>, s: string)
    decreases |ts|
  {
    if ts == [] then s == []
    else if ts[0] == Star then exists k | 0 <= k <= |s| :: Matches(ts[1..], s[k..])
    else s != [] && Fits(ts[0], s[0]) && Matches(ts[1..], s[1..])
  }

  // ---- Laws of the meaning ----

  lemma StarMonotone(ts: seq<Token>, s: string, j: nat)
    requires j <= |s| && Matches([Star] + ts, s[j..])
    ensures Matches([Star] + ts, s)
  {
    var k :| 0 <= k <= |s[j..]| && Matches(([Star] + ts)[1..], s[j..][k..]);
    assert s[j..][k..] == s[j + k..];
  }

  lemma DoubleStar(ts: seq<Token>, s: string)
    ensures Matches([Star, Star] + ts, s) == Matches([Star] + ts, s)
  {
    assert ([Star, Star] + ts)[1..] == [Star] + ts;
    if Matches([Star, Star] + ts, s) {
      var k :| 0 <= k <= |s| && Matches([Star] + ts, s[k..]);
      StarMonotone(ts, s, k);
    }
    if Matches([Star] + ts, s) {
      assert s[0..] == s;
    }
  }

  /** A prefix of one-byte tokens takes exactly as many bytes. */
  lemma {:induction false} FixedPrefix(pre: seq<Token>, ts: seq<Token>, s: string)
    requires Star !in pre
    ensures Matches(pre + ts, s) <==>
              |pre| <= |s| && (forall i | 0 <= i < |pre| :: Fits(pre[i], s[i])) && Matches(ts, s[|pre|..])
  {
    if pre == [] {
      assert pre + ts == ts && s[0..] == s;
    } else {
      assert (pre + ts)[1..] == pre[1..] + ts;
      if s != [] {
        FixedPrefix(pre[1..], ts, s[1..]);
        if |pre| <= |s| {
          assert s[1..][|pre| - 1..] == s[|pre|..];
        }
        if Matches(pre[1..] + ts, s[1..]) && Fits(pre[0], s[0]) {
          forall i | 0 <= i < |pre|
            ensures Fits(pre[i], s[i])
          {
            if i > 0 {
              assert pre[i] == pre[1..][i - 1] && s[i] == s[1..][i - 1];
            }
          }
        }
      }
    }
  }

  /** Why the cut-off is sound: if what follows a fixed prefix is a star that fails, no
      later start of the whole pattern can succeed. */
  lemma NoLaterStart(pre: seq<Token>, ts: seq<Token>, s: string)
    requires Star !in pre && |pre| <= |s| && !Matches([Star] + ts, s[|pre|..])
    ensures forall j | 0 <= j <= |s| :: !Matches(pre + ([Star] + ts), s[j..])
  {
    forall j | 0 <= j <= |s|
      ensures !Matches(pre + ([Star] + ts), s[j..])
    {
      FixedPrefix(pre, [Star] + ts, s[j..]);
      if Matches(pre + ([Star] + ts), s[j..]) {
        assert s[j..][|pre|..] == s[|pre|..][j..];
        StarMonotone(ts, s[|pre|..], j);
      }
    }
  }

  lemma TokensAt(p: string, i: nat)
    requires i < |p|
    ensures Tokens(p[i..]) == [First(p[i..]).0] + Tokens(p[i + First(p[i..]).1..])
  {
    assert p[i..][First(p[i..]).1..] == p[i + First(p[i..]).1..];
  }

  lemma {:induction false} ItemsInTail(p: string, i: nat, j: nat)
    requires i < |p| && 0 < j <= |p[i..]|
    ensures Items(p[i..], j).0 == Items(p, i + j).0 && i + Items(p[i..], j).1 == Items(p, i + j).1
    decreases |p| - j
  {
    var q := p[i..];
    if j < |q| {
      if q[j] == '\\' && |q| - j >= 2 {
        ItemsInTail(p, i, j + 2);
      } else if q[j] != ']' {
        ItemsInTail(p, i, if |q| - j >= 3 && q[j + 1] == '-' then j + 3 else j + 1);
      }
    }
  }

  lemma ClassInTail(p: string, i: nat)
    requires i < |p|
    ensures ClassAt(p[i..], 0) == (ClassAt(p, i).0, ClassAt(p, i).1 - i)
  {
    ItemsInTail(p, i, ClassStart(p[i..], 0));
  }

  /** A run of stars is all that matches the empty string. */
  lemma EmptySubject(p: string, i: nat)
    requires i < |p|
    ensures p[i] == '*' ==> Matches(Tokens(p[i..]), []) == Matches(Tokens(p[i + 1..]), [])
    ensures p[i] != '*' ==> !Matches(Tokens(p[i..]), [])
  {
    TokensAt(p, i);
    if p[i] == '*' {
      var ts := Tokens(p[i + 1..]);
      assert ([Star] + ts)[1..] == ts;
      var e: string := [];
      assert e[0..] == e;
    }
  }

  // ---- The matcher ----

  /** Reads one member of a bracket expression that goes on at `start`. */
  method ReadItem(p: string, start: nat) returns (it: Item, next: nat)
    requires 0 < start < |p| && p[start] != ']'
    ensures start < next <= |p|
    ensures Items(p, start) == ([it] + Items(p, next).0, Items(p, next).1)
  {
    var pi := start;
    if p[pi] == '\\' && |p| - pi >= 2 {
      pi := pi + 1;
      it := One(p[pi]);
    } else if |p| - pi >= 3 && p[pi + 1] == '-' {
      var low, high := p[pi], p[pi + 2];
      if low > high {
        low, high := high, low;
      }
      pi := pi + 2;
      it := Range(low, high);
    } else {
      it := One(p[pi]);
    }
    next := pi + 1;
  }

  /** Reads the bracket expression at `start` and reports whether `c` is in it. */
  method MatchClass(p: string, start: nat, c: char) returns (next: nat, matched: bool)
    requires start < |p| && p[start] == '['
    ensures start <= next < |p|
    ensures (next, matched) == (ClassAt(p, start).1, Fits(ClassAt(p, start).0, c))
  {
    hide InSome;
    hide InItem;
    hide Items;
    var pi := start + 1;
    var negate := pi < |p| && p[pi] == '^';
    if negate {
      pi := pi + 1;
    }
    ghost var read: seq<Item> := [];
    assert [] + Items(p, pi).0 == Items(p, pi).0;
    NotInNone(c);
    matched := false;
    while pi < |p|
      invariant start < pi <= |p|
      invariant Items(p, ClassStart(p, start)) == (read + Items(p, pi).0, Items(p, pi).1)
      invariant matched == InSome(read, c)
      decreases |p| - pi
    {
      if p[pi] == ']' {
        ItemsEnd(p, pi);
        assert read + [] == read;
        return pi, matched != negate;
      }
      var it;
      it, pi := ReadItem(p, pi);
      if InItem(it, c) {
        matched := true;
      }
      InSomeMore(read, it, c);
      assert read + ([it] + Items(p, pi).0) == (read + [it]) + Items(p, pi).0;
      read := read + [it];
    }
    ItemsEnd(p, pi);
    assert read + [] == read;
    return pi - 1, matched != negate;
  }

  lemma ItemsEnd(p: string, i: nat)
    requires 0 < i <= |p| && (i < |p| ==> p[i] == ']')
    ensures Items(p, i) == ([], if i < |p| then i else i - 1)
  {
  }

  lemma NotInNone(c: char)
    ensures !InSome([], c)
  {
  }

  /** Matches one token that is not a star against one byte. */
  method MatchOne(p: string, start: nat, c: char) returns (next: nat, fits: bool)
    requires start < |p| && p[start] != '*'
    ensures next == start + First(p[start..]).1 <= |p|
    ensures fits == Fits(First(p[start..]).0, c)
  {
    var pi := start;
    if p[pi] == '?' {
      fits := true;
    } else if p[pi] == '[' {
      ClassInTail(p, pi);
      pi, fits := MatchClass(p, pi, c);
    } else {
      if p[pi] == '\\' && |p| - pi >= 2 {
        pi := pi + 1;
      }
      fits := p[pi] == c;
    }
    next := pi + 1;
  }

  /** Trailing stars match nothing at all. */
  method SkipStars(p: string, start: nat) returns (pi: nat)
    requires start <= |p|
    ensures pi <= |p|
    ensures pi == |p| <==> Matches(Tokens(p[start..]), [])
  {
    hide Matches;
    hide First;
    pi := start;
    while pi < |p| && p[pi] == '*'
      invariant pi <= |p|
      invariant Matches(Tokens(p[start..]), []) == Matches(Tokens(p[pi..]), [])
    {
      EmptySubject(p, pi);
      pi := pi + 1;
    }
    if pi < |p| {
      EmptySubject(p, pi);
    } else {
      NoTokens();
      assert p[pi..] == [];
    }
  }

  lemma NoTokens()
    ensures forall s :: Matches([], s) <==> s == []
  {
  }

  /** The first `si` bytes of the subject have been matched by the tokens before `pi`. */
  ghost predicate Consumed(p: string, s: string, pi: nat, si: nat, pre: seq<Token>) {
    && pi <= |p| && si <= |s|
    && |pre| == si && Star !in pre && Tokens(p) == pre + Tokens(p[pi..])
    && forall i | 0 <= i < si :: Fits(pre[i], s[i])
  }

  lemma ConsumedMatches(p: string, s: string, pi: nat, si: nat, pre: seq<Token>)
    requires Consumed(p, s, pi, si, pre)
    ensures Matches(Tokens(p), s) == Matches(Tokens(p[pi..]), s[si..])
  {
    FixedPrefix(pre, Tokens(p[pi..]), s);
  }

  lemma ConsumeOne(p: string, s: string, pi: nat, si: nat, pre: seq<Token>)
    requires Consumed(p, s, pi, si, pre) && pi < |p| && si < |s| && p[pi] != '*'
    ensures var (t, n) := First(p[pi..]);
            if Fits(t, s[si]) then Consumed(p, s, pi + n, si + 1, pre + [t]) else !Matches(Tokens(p), s)
  {
    hide First;
    hide Tokens;
    hide Matches;
    TokensAt(p, pi);
    var (t, n) := First(p[pi..]);
    ConsumedMatches(p, s, pi, si, pre);
    HeadMismatch(t, Tokens(p[pi + n..]), s[si..]);
    assert pre + ([t] + Tokens(p[pi + n..])) == (pre + [t]) + Tokens(p[pi + n..]);
  }

  lemma HeadMismatch(t: Token, ts: seq<Token>, s: string)
    requires t != Star && s != []
    ensures !Fits(t, s[0]) ==> !Matches([t] + ts, s)
  {
  }

  lemma ConsumedStar(p: string, s: string, pi: nat, si: nat, pre: seq<Token>)
    requires Consumed(p, s, pi, si, pre) && pi < |p| && p[pi] == '*'
    requires !Matches(Tokens(p[pi..]), s[si..])
    ensures forall j | 0 <= j <= |s| :: !Matches(Tokens(p), s[j..])
  {
    TokensAt(p, pi);
    NoLaterStart(pre, Tokens(p[pi + 1..]), s);
  }

  /** Matches `p` against `s`, with the cut-off flag passed in and out.  A flag raised by a
      failed match means that `p` matches no later part of `s` either; `trials` counts the
      suffixes tried by all the stars below. */
  method GlobMatch(p: string, s: string, skip: bool) returns (r: bool, skip': bool, ghost trials: nat)
    requires !skip
    ensures r <==> Matches(Tokens(p), s) && (s == [] ==> p == [])
    ensures !r && skip' ==> forall j | 0 <= j <= |s| :: !Matches(Tokens(p), s[j..])
    ensures r ==> !skip'
    ensures trials <= |s|
    ensures p != [] && p[0] != '*' && s != [] ==> trials < |s|
    ensures !r && !skip' ==> trials == 0
    decreases |p|, 1
  {
    hide Matches;
    hide First;
    hide Tokens;
    var pi, si := 0, 0;
    skip', trials := skip, 0;
    ghost var pre: seq<Token> := [];
    assert p[0..] == p && [] + Tokens(p) == Tokens(p);
    while pi < |p| && si < |s|
      invariant Consumed(p, s, pi, si, pre) && !skip' && trials == 0
      invariant pi == 0 ==> si == 0
      invariant si == 0 ==> pi == 0
      invariant si < |s| || s == []
      decreases |p| - pi
    {
      if p[pi] == '*' {
        ConsumedMatches(p, s, pi, si, pre);
        r, skip', trials := MatchStar(p[pi..], s[si..], skip');
        if !r {
          ConsumedStar(p, s, pi, si, pre);
        }
        return;
      }
      ConsumeOne(p, s, pi, si, pre);
      ghost var t := First(p[pi..]).0;
      var fits;
      pi, fits := MatchOne(p, pi, s[si]);
      if !fits {
        return false, skip', 0;
      }
      si, pre := si + 1, pre + [t];
      if si == |s| {
        ConsumedMatches(p, s, pi, si, pre);
        assert s[si..] == [];
        pi := SkipStars(p, pi);
        return pi == |p|, skip', 0;
      }
    }
    ConsumedMatches(p, s, pi, si, pre);
    NoTokens();
    NoPattern(p, pi);
    r := pi == |p| && si == |s|;
  }

  lemma NoPattern(p: string, pi: nat)
    requires pi <= |p|
    ensures pi == |p| ==> Tokens(p[pi..]) == []
  {
  }

  /** Matches a pattern that begins with a star against a non-empty rest of the subject. */
  method MatchStar(pattern: string, s: string, skip: bool) returns (r: bool, skip': bool, ghost trials: nat)
    requires !skip && pattern != [] && pattern[0] == '*' && s != []
    ensures r <==> Matches(Tokens(pattern), s)
    ensures skip' == !r
    ensures trials <= |s|
    decreases |pattern|, 0
  {
    var p := pattern;
    skip', trials := skip, 0;
    TokensAt(p, 0);
    while |p| >= 2 && p[1] == '*'
      invariant p != [] && p[0] == '*' && |p| <= |pattern|
      invariant Matches(Tokens(p), s) == Matches(Tokens(pattern), s)
      decreases |p|
    {
      CollapseStars(p, s);
      p := p[1..];
    }
    if |p| == 1 {
      TrailingStar(p, s);
      return true, skip', 0;
    }
    StarSuffixes(p, s);
    for i := 0 to |s|
      invariant !skip' && trials == i
      invariant forall j | 0 <= j < i :: !Matches(Tokens(p[1..]), s[j..])
    {
      ghost var below;
      r, skip', below := GlobMatch(p[1..], s[i..], skip');
      trials := trials + 1 + below;
      if r {
        return true, skip', trials;
      }
      if skip' {
        LaterSuffixes(Tokens(p[1..]), s, i);
        return false, skip', trials;
      }
    }
    return false, true, trials;
  }

  lemma CollapseStars(p: string, s: string)
    requires |p| >= 2 && p[0] == '*' && p[1] == '*'
    ensures Matches(Tokens(p), s) == Matches(Tokens(p[1..]), s)
  {
    TokensAt(p, 0);
    TokensAt(p, 1);
    assert p[0..] == p;
    var ts := Tokens(p[2..]);
    assert [Star] + ([Star] + ts) == [Star, Star] + ts;
    DoubleStar(ts, s);
  }

  lemma TrailingStar(p: string, s: string)
    requires p == ['*']
    ensures Matches(Tokens(p), s)
  {
    assert Tokens(p)[1..] == Tokens(p[1..]) == [];
    assert s[|s|..] == [];
    assert Matches(Tokens(p)[1..], s[|s|..]);
  }

  /** A star followed by something that is not a star matches when some non-empty suffix does. */
  lemma StarSuffixes(p: string, s: string)
    requires |p| >= 2 && p[0] == '*' && p[1] != '*'
    ensures Matches(Tokens(p), s) <==> exists j | 0 <= j < |s| :: Matches(Tokens(p[1..]), s[j..])
  {
    assert p[0..] == p;
    TokensAt(p, 0);
    var ts := Tokens(p[1..]);
    assert ([Star] + ts)[1..] == ts;
    EmptySubject(p, 1);
    assert s[|s|..] == [];
    if Matches(Tokens(p), s) {
      var k :| 0 <= k <= |s| && Matches(ts, s[k..]);
    }
  }

  lemma LaterSuffixes(ts: seq<Token>, s: string, i: nat)
    requires i < |s| && forall j | 0 <= j <= |s[i..]| :: !Matches(ts, s[i..][j..])
    ensures forall j | i <= j <= |s| :: !Matches(ts, s[j..])
  {
    forall j | i <= j <= |s|
      ensures !Matches(ts, s[j..])
    {
      assert s[i..][j - i..] == s[j..];
    }
  }

  /** The whole matcher: it decides the meaning of the pattern, except that only the empty
      pattern matches the empty subject, and all its stars together try at most one suffix
      per byte of the subject. */
  method MatchGlob(pattern: string, key: string) returns (r: bool, ghost trials: nat)
    ensures r <==> Matches(Tokens(pattern), key) && (key == [] ==> pattern == [])
    ensures trials <= |key|
  {
    var skip := false;
    r, skip, trials := GlobMatch(pattern, key, skip);
  }
}
