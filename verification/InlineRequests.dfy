/** Inline requests: a line of words, as typed by hand. */
module InlineRequests {
  import opened RespText
  import opened Framing
  import opened RequestDecoder
  import opened RequestCodec

  const BLANKS: string := " \t\n\r\U{B}\U{C}"

  predicate Blank(gap: string) {
    forall i | 0 <= i < |gap| :: gap[i] in BLANKS
  }

  predicate Word(word: string) {
    word != [] && forall i | 0 <= i < |word| :: word[i] !in BLANKS
  }

  predicate AreWords(words: seq<string>) {
    forall k | 0 <= k < |words| :: Word(words[k])
  }

  /** `gaps[k]` comes before word `k`, and the last gap after all words; two words have
      something between them. */
  predicate AreGaps(gaps: seq<string>, n: nat) {
    && |gaps| == n + 1
    && (forall k | 0 <= k <= n :: Blank(gaps[k]))
    && (forall k | 0 < k < n :: gaps[k] != [])
  }

  function Laid(words: seq<string>, gaps: seq<string>): string
    requires |gaps| == |words| + 1
  {
    if words == [] then gaps[0] else gaps[0] + words[0] + Laid(words[1..], gaps[1..])
  }

  lemma SpacesAreBlanks(c: char)
    ensures AsciiSpace(c) <==> c in BLANKS
  {
  }

  /** Blanks end the word that is being read, if any. */
  lemma {:induction false} WordsPastGap(line: string, i: nat, j: nat, word: string)
    requires i < j <= |line| && Blank(line[i..j])
    ensures Words(line, i, word) == (if word == [] then [] else [word]) + Words(line, j, [])
    decreases j - i
  {
    SpacesAreBlanks(line[i]);
    assert line[i..j][0] == line[i];
    if i + 1 < j {
      assert line[i + 1..j] == line[i..j][1..];
      WordsPastGap(line, i + 1, j, []);
    }
  }

  lemma {:induction false} WordsThrough(line: string, i: nat, j: nat, word: string)
    requires i <= j <= |line| && forall k | i <= k < j :: line[k] !in BLANKS
    ensures Words(line, i, word) == Words(line, j, word + line[i..j])
    decreases j - i
  {
    if i < j {
      SpacesAreBlanks(line[i]);
      WordsThrough(line, i + 1, j, word + [line[i]]);
      assert word + [line[i]] + line[i + 1..j] == word + line[i..j];
    } else {
      assert word + line[i..j] == word;
    }
  }

  lemma Pieces(line: string, i: nat, a: string, b: string, c: string)
    requires i <= |line| && line[i..] == a + b + c
    ensures var j := i + |a|;
            var k := j + |b|;
            k <= |line| && line[i..j] == a && line[j..k] == b && line[k..] == c
  {
    var j := i + |a|;
    var k := j + |b|;
    assert line[i..][..|a|] == line[i..j];
    assert line[i..][|a|..|a| + |b|] == line[j..k];
    assert line[i..][|a| + |b|..] == line[k..];
  }

  /** From anywhere in a line, what is laid out there is read as its words. */
  lemma {:induction false} WordsLaid(line: string, i: nat, words: seq<string>, gaps: seq<string>, last: string)
    requires i <= |line| && AreWords(words) && AreGaps(gaps, |words|) && line[i..] == Laid(words, gaps)
    requires last != [] && words != [] ==> gaps[0] != []
    ensures Words(line, i, last) == (if last == [] then [] else [last]) + words
    decreases |words|
  {
    assert Blank(gaps[0]);
    if words == [] {
      assert line[i..|line|] == line[i..];
      if i < |line| {
        WordsPastGap(line, i, |line|, last);
      }
    } else {
      var j := i + |gaps[0]|;
      var k := j + |words[0]|;
      Pieces(line, i, gaps[0], words[0], Laid(words[1..], gaps[1..]));
      RestAreWords(words, gaps);
      hide Laid;
      hide AreGaps;
      hide AreWords;
      if i < j {
        WordsPastGap(line, i, j, last);
      }
      WordThrough(line, j, k, words[0]);
      hide Words;
      WordsLaid(line, k, words[1..], gaps[1..], words[0]);
      assert [words[0]] + words[1..] == words;
    }
  }

  lemma WordThrough(line: string, j: nat, k: nat, word: string)
    requires j <= k <= |line| && line[j..k] == word && Word(word)
    ensures Words(line, j, []) == Words(line, k, word)
  {
    forall n | j <= n < k
      ensures line[n] !in BLANKS
    {
      assert line[n] == word[n - j];
    }
    WordsThrough(line, j, k, []);
    assert [] + word == word;
  }

  lemma RestAreWords(words: seq<string>, gaps: seq<string>)
    requires words != [] && AreWords(words) && AreGaps(gaps, |words|)
    ensures AreWords(words[1..]) && AreGaps(gaps[1..], |words[1..]|)
    ensures |words| > 1 ==> gaps[1..][0] != []
    ensures Word(words[0])
  {
    hide Word;
    hide Blank;
  }

  /** However the words are laid out on the line, they are read in order, each byte for byte,
      the first as the name. */
  lemma InlineRead(lim: Limits, pre: string, words: seq<string>, gaps: seq<string>, post: string)
    requires ValidLimits(lim) && words != [] && AreWords(words) && AreGaps(gaps, |words|)
    requires var line := Laid(words, gaps); OneLine(line) && |line| + 2 <= lim.inline && line[..1] != "*"
    ensures var line := Laid(words, gaps) + CRLF;
            var d := Decode(lim, pre + line + post, |pre|);
            d.Command? && Raised(words[0], d.name) && d.args == words[1..] && d.next == |pre| + |line|
  {
    hide ToUpper;
    hide Raised;
    hide Words;
    hide ReadLine;
    hide ReadBulks;
    hide LineAt;
    hide ParseInt;
    var line := Laid(words, gaps);
    WordsLaid(line, 0, words, gaps, []);
    assert [] + words == words && line[0..] == line;
    assert Word(words[0]);
    UpperRaises(words[0]);
    assert pre + (line + CRLF) + post == pre + line + CRLF + post;
    LineIsRead(pre, line, post);
    LineWithinLimit(lim, pre + line + CRLF + post, |pre|, line);
    assert line[..1] == [line[0]];
  }

  lemma LineWithinLimit(lim: Limits, s: string, pos: nat, text: string)
    requires ValidLimits(lim) && pos <= |s| && LineAt(s, pos) == Line(text, true, pos + |text| + 2) && |text| + 2 <= lim.inline
    ensures ReadLine(lim, s, pos) == Read(LineAt(s, pos))
  {
    hide Cut;
  }

  lemma SkipsNameless(lim: Limits, s: string, pos: nat)
    requires ValidLimits(lim) && pos <= |s| && ReadLine(lim, s, pos).Read?
    requires var l := ReadLine(lim, s, pos).line; l.text == [] || (l.text[0] != '*' && Fields(l.text) == [])
    ensures Decode(lim, s, pos) == Decode(lim, s, ReadLine(lim, s, pos).line.next)
  {
    hide ReadLine;
    hide ReadBulks;
    hide ParseInt;
    hide Fields;
    hide ToUpper;
  }

  lemma NoWords(gap: string)
    requires Blank(gap)
    ensures Fields(gap) == []
    ensures gap != [] ==> gap[0] != '*'
  {
    if gap != [] {
      assert gap[0..|gap|] == gap;
      WordsPastGap(gap, 0, |gap|, []);
      assert gap[0] in BLANKS;
    }
  }

  /** A line of blanks is skipped. */
  lemma BlankLineSkipped(lim: Limits, s: string, pos: nat, gap: string)
    requires ValidLimits(lim) && Blank(gap) && |gap| + 2 <= lim.inline
    requires pos <= |s| && LineAt(s, pos) == Line(gap, true, pos + |gap| + 2)
    ensures pos + |gap| + 2 <= |s| && Decode(lim, s, pos) == Decode(lim, s, pos + |gap| + 2)
  {
    hide Decode;
    hide ReadLine;
    hide Fields;
    NoWords(gap);
    LineWithinLimit(lim, s, pos, gap);
    SkipsNameless(lim, s, pos);
  }
}
