/** What a pattern that somebody writes stands for: patterns as a list of pieces, how they
    are written, and that the matcher reads them as they were meant. */
module GlobPatterns {
  import opened Glob

  /** What brackets may hold: a byte as it is, an escaped byte, a range. */
  datatype Member = Bare(c: char) | Exactly(c: char) | Between(a: char, b: char)

  datatype Piece =
    | Text(c: char)
    | OneByte
    | AnyBytes
    | OneOf(members: seq<Member>)
    | NoneOf(members: seq<Member>)

  // ---- How patterns are written ----

  function WriteMember(m: Member): string {
    match m
    case Bare(c) => [c]
    case Exactly(c) => ['\\', c]
    case Between(a, b) => [a, '-', b]
  }

  function WriteMembers(ms: seq<Member>): string {
    if ms == [] then "" else WriteMember(ms[0]) + WriteMembers(ms[1..])
  }

  function WritePiece(p: Piece): string {
    match p
    case Text(c) => if c in "*?[\\" then ['\\', c] else [c]
    case OneByte => "?"
    case AnyBytes => "*"
    case OneOf(ms) => "[" + WriteMembers(ms) + "]"
    case NoneOf(ms) => "[^" + WriteMembers(ms) + "]"
  }

  function Write(ps: seq<Piece>): string {
    if ps == [] then "" else WritePiece(ps[0]) + Write(ps[1..])
  }

  /** What is not escaped has no meaning of its own in brackets. */
  predicate Writable(ps: seq<Piece>) {
    forall k | 0 <= k < |ps| && (ps[k].OneOf? || ps[k].NoneOf?) :: Plain(ps[k].members)
  }

  predicate Plain(ms: seq<Member>) {
    forall k | 0 <= k < |ms| && !ms[k].Exactly? :: (if ms[k].Bare? then ms[k].c else ms[k].a) !in "\\]^-"
  }

  // ---- What they stand for ----

  predicate Includes(m: Member, c: char) {
    match m
    case Bare(d) => c == d
    case Exactly(d) => c == d
    case Between(a, b) => a <= c <= b || b <= c <= a
  }

  predicate Admits(p: Piece, c: char) {
    match p
    case Text(d) => c == d
    case OneByte => true
    case AnyBytes => true
    case OneOf(ms) => exists k | 0 <= k < |ms| :: Includes(ms[k], c)
    case NoneOf(ms) => forall k | 0 <= k < |ms| :: !Includes(ms[k], c)
  }

  /** The string falls apart into what the pieces stand for, in order. */
  ghost predicate StandsFor(ps: seq<Piece>, s: string)
    decreases |ps|
  {
    if ps == [] then s == ""
    else if ps[0].AnyBytes? then exists k | 0 <= k <= |s| :: StandsFor(ps[1..], s[k..])
    else s != "" && Admits(ps[0], s[0]) && StandsFor(ps[1..], s[1..])
  }

  // ---- The matcher reads them so ----

  function ItemOf(m: Member): Item {
    match m
    case Bare(c) => One(c)
    case Exactly(c) => One(c)
    case Between(a, b) => ItemAt(a, b)
  }

  function ItemsOf(ms: seq<Member>): (items: seq<Item>)
    ensures |items| == |ms|
    ensures forall k | 0 <= k < |ms| :: items[k] == ItemOf(ms[k])
  {
    if ms == [] then [] else [ItemOf(ms[0])] + ItemsOf(ms[1..])
  }

  function TokenOf(p: Piece): Token {
    match p
    case Text(c) => Literal(c)
    case OneByte => Any
    case AnyBytes => Star
    case OneOf(ms) => Class(false, ItemsOf(ms))
    case NoneOf(ms) => Class(true, ItemsOf(ms))
  }

  function TokensOf(ps: seq<Piece>): seq<Token> {
    if ps == [] then [] else [TokenOf(ps[0])] + TokensOf(ps[1..])
  }

  /** One step of reading brackets, for each form of a member. */
  lemma ItemsStep(p: string, i: nat)
    requires 0 < i && i + 1 < |p|
    ensures p[i] == '\\' ==> Items(p, i) == ([One(p[i + 1])] + Items(p, i + 2).0, Items(p, i + 2).1)
    ensures p[i] !in "\\]" && p[i + 1] != '-' ==> Items(p, i) == ([One(p[i])] + Items(p, i + 1).0, Items(p, i + 1).1)
    ensures p[i] !in "\\]" && i + 2 < |p| && p[i + 1] == '-' ==>
              Items(p, i) == ([ItemAt(p[i], p[i + 2])] + Items(p, i + 3).0, Items(p, i + 3).1)
  {
    hide ItemAt;
  }

  lemma Standing(p: string, i: nat, a: string, b: string)
    requires i <= |p| && p[i..] == a + b
    ensures i + |a| <= |p| && p[i + |a|..] == b
    ensures forall k | 0 <= k < |a| :: p[i + k] == a[k]
    ensures b != "" ==> i + |a| < |p| && p[i + |a|] == b[0]
  {
    assert p[i..][|a|..] == p[i + |a|..];
    assert forall k | 0 <= k < |a| :: p[i..][k] == p[i + k];
    assert b != "" ==> p[i + |a|..][0] == p[i + |a|];
  }

  lemma MemberRead(p: string, i: nat, m: Member, rest: string)
    requires 0 < i <= |p| && p[i..] == WriteMember(m) + rest && rest != "" && rest[0] != '-' && Plain([m])
    ensures i + |WriteMember(m)| <= |p|
    ensures var (items, last) := Items(p, i + |WriteMember(m)|);
            Items(p, i) == ([ItemOf(m)] + items, last)
  {
    hide Items;
    hide ItemAt;
    Standing(p, i, WriteMember(m), rest);
    assert [m][0] == m;
    ItemsStep(p, i);
  }

  /** What comes after a member does not make a range of it. */
  lemma NotADash(ms: seq<Member>, post: string)
    requires Plain(ms)
    ensures (WriteMembers(ms) + ("]" + post))[0] != '-'
  {
    if ms != [] {
      assert (WriteMembers(ms) + ("]" + post))[0] == WriteMember(ms[0])[0];
    }
  }

  lemma {:induction false} MembersRead(p: string, i: nat, ms: seq<Member>, post: string)
    requires 0 < i <= |p| && p[i..] == WriteMembers(ms) + ("]" + post) && Plain(ms)
    ensures Items(p, i) == (ItemsOf(ms), i + |WriteMembers(ms)|)
    decreases |ms|
  {
    if ms == [] {
      assert p[i..][0] == p[i] == ']';
    } else {
      hide Items;
      hide WriteMember;
      var w, rest := WriteMember(ms[0]), WriteMembers(ms[1..]) + ("]" + post);
      assert p[i..] == w + rest;
      assert [ms[0]][0] == ms[0];
      NotADash(ms[1..], post);
      Standing(p, i, w, rest);
      MemberRead(p, i, ms[0], rest);
      MembersRead(p, i + |w|, ms[1..], post);
    }
  }

  lemma ClassRead(p: Piece, rest: string)
    requires (p.OneOf? || p.NoneOf?) && Plain(p.members)
    ensures First(WritePiece(p) + rest) == (TokenOf(p), |WritePiece(p)|)
  {
    hide Items;
    hide WriteMembers;
    var open := if p.OneOf? then "[" else "[^";
    var ms := p.members;
    var q := WritePiece(p) + rest;
    assert q == open + (WriteMembers(ms) + ("]" + rest));
    assert q[|open|..] == WriteMembers(ms) + ("]" + rest);
    assert q[0] == '[' && (p.NoneOf? ==> q[1] == '^');
    if p.OneOf? {
      NotNegated(ms, rest);
      assert q[1] == (WriteMembers(ms) + ("]" + rest))[0];
    }
    MembersRead(q, |open|, ms, rest);
  }

  lemma NotNegated(ms: seq<Member>, rest: string)
    requires Plain(ms)
    ensures (WriteMembers(ms) + ("]" + rest))[0] != '^'
  {
    if ms != [] {
      assert (WriteMembers(ms) + ("]" + rest))[0] == WriteMember(ms[0])[0];
    }
  }

  lemma PieceRead(p: Piece, rest: string)
    requires Writable([p])
    ensures First(WritePiece(p) + rest) == (TokenOf(p), |WritePiece(p)|)
  {
    hide ClassAt;
    if p.OneOf? || p.NoneOf? {
      assert [p][0] == p;
      ClassRead(p, rest);
    } else if p.Text? && p.c in "*?[\\" {
      assert (WritePiece(p) + rest)[..2] == ['\\', p.c];
    } else {
      assert (WritePiece(p) + rest)[..1] == WritePiece(p);
    }
  }

  lemma {:induction false} PatternRead(ps: seq<Piece>)
    requires Writable(ps)
    ensures Tokens(Write(ps)) == TokensOf(ps)
    decreases |ps|
  {
    if ps != [] {
      assert [ps[0]][0] == ps[0];
      PieceRead(ps[0], Write(ps[1..]));
      PatternRead(ps[1..]);
      assert Write(ps)[|WritePiece(ps[0])|..] == Write(ps[1..]);
    }
  }

  lemma SameItem(m: Member, c: char)
    ensures InItem(ItemOf(m), c) <==> Includes(m, c)
  {
  }

  lemma SameByte(p: Piece, c: char)
    ensures Fits(TokenOf(p), c) <==> Admits(p, c)
  {
    if p.OneOf? || p.NoneOf? {
      forall k | 0 <= k < |p.members|
        ensures InItem(ItemsOf(p.members)[k], c) <==> Includes(p.members[k], c)
      {
        SameItem(p.members[k], c);
      }
      hide InItem;
      hide Includes;
    }
  }

  lemma {:induction false} SameMeaning(ps: seq<Piece>, s: string)
    ensures Matches(TokensOf(ps), s) <==> StandsFor(ps, s)
    decreases |ps|
  {
    if ps != [] {
      assert TokensOf(ps)[1..] == TokensOf(ps[1..]);
      if ps[0].AnyBytes? {
        forall k | 0 <= k <= |s|
          ensures Matches(TokensOf(ps)[1..], s[k..]) <==> StandsFor(ps[1..], s[k..])
        {
          SameMeaning(ps[1..], s[k..]);
        }
      } else if s != "" {
        SameByte(ps[0], s[0]);
        SameMeaning(ps[1..], s[1..]);
      }
    }
  }

  /** A pattern, as it is written, matches exactly the strings it stands for. */
  lemma WrittenAsMeant(ps: seq<Piece>, s: string)
    requires Writable(ps)
    ensures Matches(Tokens(Write(ps)), s) <==> StandsFor(ps, s)
  {
    PatternRead(ps);
    SameMeaning(ps, s);
  }

  lemma OnePiece(p: Piece, s: string)
    requires !p.AnyBytes?
    ensures StandsFor([p], s) <==> |s| == 1 && Admits(p, s[0])
    ensures Write([p]) == WritePiece(p)
  {
    assert [p][1..] == [] && [p][0] == p;
    assert |s| == 1 <==> s != "" && s[1..] == "";
  }

  lemma WrittenRange(a: char, b: char)
    ensures WritePiece(OneOf([Between(a, b)])) == ['[', a, '-', b, ']']
    ensures WritePiece(NoneOf([Between(a, b)])) == ['[', '^', a, '-', b, ']']
  {
    var ms := [Between(a, b)];
    assert ms[1..] == [];
    assert WriteMembers(ms) == [a, '-', b];
  }

  /** A range in brackets stands for one byte between its ends, whichever comes first, and
      with a caret for one byte that is not. */
  lemma Ranges(a: char, b: char, s: string)
    requires a !in "\\]^-"
    ensures Matches(Tokens(['[', a, '-', b, ']']), s) <==> |s| == 1 && (a <= s[0] <= b || b <= s[0] <= a)
    ensures Matches(Tokens(['[', '^', a, '-', b, ']']), s) <==> |s| == 1 && !(a <= s[0] <= b || b <= s[0] <= a)
  {
    hide Tokens;
    hide Matches;
    hide StandsFor;
    hide Write;
    hide WritePiece;
    var m := Between(a, b);
    assert [m][0] == m;
    WrittenRange(a, b);
    OnePiece(OneOf([m]), s);
    OnePiece(NoneOf([m]), s);
    WrittenAsMeant([OneOf([m])], s);
    WrittenAsMeant([NoneOf([m])], s);
  }
}
