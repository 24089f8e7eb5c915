/** What the completeness scanner promises about the decoder, and exactly when it keeps it. */
module FramingSound {
  import opened Options
  import opened RespText
  import opened Framing
  import opened RequestDecoder

  /** A length the decoder accepts although the scanner took it for malformed: one with a
      plus sign, or padded with zeros to more than 18 digits. */
  predicate Ambiguous(text: string, max: nat) {
    ScanInt(text) == None && ParseInt(text).Some? && 0 <= ParseInt(text).value <= max
  }

  lemma AmbiguousText(text: string, max: nat)
    ensures Ambiguous(text, max) <==>
              && ParseInt(text).Some? && 0 <= ParseInt(text).value <= max
              && (text[0] == '+' || |if text[0] == '-' then text[1..] else text| > MAX_DIGITS)
  {
  }

  /** Where both read a number, they read the same one. */
  lemma SameNumber(text: string)
    requires ScanInt(text).Some?
    ensures ParseInt(text) == ScanInt(text)
  {
    var body := if text != [] && text[0] == '-' then text[1..] else text;
    EighteenFit(body);
    if text[0] != '-' {
      assert IsDigit(text[0]);
    }
  }

  /** An element begins here whose length is ambiguous. */
  predicate AmbiguousAt(lim: Limits, s: string, at: nat)
    requires ValidLimits(lim) && at <= |s|
  {
    match ReadLine(lim, s, at)
    case Read(l) => l.crlf && l.text != [] && l.text[0] == '$' && Ambiguous(l.text[1..], lim.bulk)
    case _ => false
  }

  /** Among the elements the scanner measures, an ambiguous length comes up before the
      decoder refuses anything. */
  predicate AmbiguousElement(lim: Limits, s: string, at: nat, count: nat)
    requires ValidLimits(lim) && at <= |s|
    decreases count
  {
    count > 0
    && (AmbiguousAt(lim, s, at)
        || match ReadBulk(lim, s, at) {
             case Bulk(_, next) => AmbiguousElement(lim, s, next, count - 1)
             case _ => false
           })
  }

  /** The input makes the decoder read on where the scanner stopped: an ambiguous length, or
      a well-formed multibulk request whose first element is empty. */
  predicate Diverges(lim: Limits, s: string, pos: nat)
    requires ValidLimits(lim) && pos <= |s|
    decreases |s| - pos
  {
    match ReadLine(lim, s, pos)
    case Read(l) =>
      if l.text == [] then Diverges(lim, s, l.next)
      else if l.text[0] != '*' || !l.crlf then false
      else
        Ambiguous(l.text[1..], lim.multiBulk)
        || match ScanInt(l.text[1..]) {
             case None => false
             case Some(count) =>
               if count < 0 || count > lim.multiBulk then false
               else if count == 0 then Diverges(lim, s, l.next)
               else
                 || AmbiguousElement(lim, s, l.next, count)
                 || match ReadBulks(lim, s, l.next, count) {
                      case Bulks(args, _) => args[0] == []
                      case _ => false
                    }
           }
    case _ => false
  }

  /** A line that ends within the first `n` bytes is read the same from those bytes alone. */
  lemma LineWithin(lim: Limits, s: string, pos: nat, n: nat)
    requires ValidLimits(lim) && pos <= n <= |s|
    requires LineAt(s, pos).Line? && LineAt(s, pos).next <= n
    ensures ReadLine(lim, s[..n], pos) == ReadLine(lim, s, pos)
    ensures ReadLine(lim, s, pos) == Read(LineAt(s, pos)) || (ReadLine(lim, s, pos).TooLong? && ReadLine(lim, s, pos).upto <= n)
  {
    var i := LineFeed(s, pos);
    LineFeedIs(s[..n], pos, i);
    assert s[..n] + s[n..] == s;
    LineAtFeed(s[..n], pos);
    LineExtends(s[..n], s[n..], pos);
  }

  /** An element whose header the scanner takes for malformed: the decoder refuses it at the
      end of the header, unless the length is ambiguous, and then it needs more input. */
  lemma MalformedElement(lim: Limits, s: string, at: nat)
    requires ValidLimits(lim) && at <= |s| && LineAt(s, at).Line?
    requires var text := LineAt(s, at).text;
             text == [] || text[0] != '$' || ScanInt(text[1..]) == None || ScanInt(text[1..]).value < 0
    ensures var n := LineAt(s, at).next;
            var r := ReadBulk(lim, s[..n], at);
            && !r.Bulk?
            && (r.ShortBulk? <==> AmbiguousAt(lim, s, at))
            && (r.BadBulk? ==> r.upto <= n && ReadBulk(lim, s, at) == r)
  {
    hide ReadLine;
    hide ParseInt;
    hide ScanInt;
    hide LineFeed;
    var l := LineAt(s, at);
    LineWithin(lim, s, at, l.next);
    if l.text != [] && ScanInt(l.text[1..]).Some? {
      SameNumber(l.text[1..]);
    }
    var r := ReadBulk(lim, s[..l.next], at);
    if !r.ShortBulk? {
      ReadBulkExtends(lim, s[..l.next], s[l.next..], at);
      assert s[..l.next] + s[l.next..] == s;
    }
  }

  /** An element the scanner has measured: the decoder takes or refuses it within its bytes. */
  lemma MeasuredElement(lim: Limits, s: string, at: nat, n: nat)
    requires ValidLimits(lim) && at <= |s| && n <= |s| && LineAt(s, at).Line?
    requires var l := LineAt(s, at);
             && l.text != [] && l.text[0] == '$' && ScanInt(l.text[1..]).Some?
             && 0 <= ScanInt(l.text[1..]).value && l.next + ScanInt(l.text[1..]).value + 2 <= n
    ensures var l := LineAt(s, at);
            var r := ReadBulk(lim, s[..n], at);
            && !r.ShortBulk? && !AmbiguousAt(lim, s, at)
            && ReadBulk(lim, s, at) == r
            && (r.Bulk? ==> r.next == l.next + ScanInt(l.text[1..]).value + 2)
            && (r.BadBulk? ==> r.upto <= n)
  {
    hide ReadLine;
    hide ParseInt;
    hide ScanInt;
    hide LineFeed;
    var l := LineAt(s, at);
    LineWithin(lim, s, at, n);
    SameNumber(l.text[1..]);
    ReadBulkExtends(lim, s[..n], s[n..], at);
    assert s[..n] + s[n..] == s;
  }

  /** The scanner's measure of the elements against the decoder's reading of them. */
  lemma {:induction false} ElementsSound(lim: Limits, s: string, at: nat, count: nat, n: nat)
    requires ValidLimits(lim) && at <= |s| && ScanElements(s, at, count) == n > 0
    ensures at <= n <= |s|
    ensures var r := ReadBulks(lim, s[..n], at, count);
            && (r.ShortBulks? <==> AmbiguousElement(lim, s, at, count))
            && (r.Bulks? ==> r.next == n)
            && (r.BadBulks? ==> r.upto <= n)
    decreases count
  {
    hide ReadLine;
    hide LineAt;
    hide ScanInt;
    hide ReadBulk;
    if count > 0 {
      var l := LineAt(s, at);
      if l.text == [] || l.text[0] != '$' || ScanInt(l.text[1..]) == None || ScanInt(l.text[1..]).value < 0 {
        MalformedElement(lim, s, at);
        if !AmbiguousAt(lim, s, at) {
          NotTaken(lim, s, at, n);
        }
      } else {
        var next := l.next + ScanInt(l.text[1..]).value + 2;
        ElementsSound(lim, s, next, count - 1, n);
        MeasuredElement(lim, s, at, n);
      }
    }
  }

  /** What is refused or cut short in the first `n` bytes is not taken from all of them,
      unless its length was ambiguous. */
  lemma NotTaken(lim: Limits, s: string, at: nat, n: nat)
    requires ValidLimits(lim) && at <= n <= |s| && ReadBulk(lim, s[..n], at).BadBulk?
    ensures ReadBulk(lim, s, at).BadBulk?
  {
    ReadBulkExtends(lim, s[..n], s[n..], at);
    assert s[..n] + s[n..] == s;
  }

  lemma WithinIsPrefix(s: string, n: nat)
    requires n <= |s|
    ensures s[..n] + s[n..] == s
  {
  }

  /** From any position: on the bytes up to where the scanner stopped, the decoder needs
      more input exactly when the input diverges; otherwise it decides within those bytes. */
  lemma {:induction false} ScanSoundFrom(lim: Limits, s: string, pos: nat)
    requires ValidLimits(lim) && pos <= |s| && ScanFrom(s, pos) > 0
    ensures var n := ScanFrom(s, pos);
            var d := Decode(lim, s[..n], pos);
            && (d.More? <==> Diverges(lim, s, pos))
            && (d.Command? ==> d.next == n)
            && (d.Refused? ==> d.upto <= n)
    decreases |s| - pos
  {
    hide ReadLine;
    hide LineAt;
    hide ScanInt;
    hide ParseInt;
    hide ReadBulks;
    hide AmbiguousElement;
    hide ScanElements;
    var n := ScanFrom(s, pos);
    var l := LineAt(s, pos);
    var text := l.text;
    LineWithin(lim, s, pos, n);
    if text == [] {
      ScanSoundFrom(lim, s, l.next);
    } else if text[0] != '*' {
      CommandHasName(text);
    } else {
      HeaderSound(lim, s, pos);
    }
  }

  /** An inline line the scanner counts as a command does have a name. */
  lemma CommandHasName(line: string)
    requires CommandBytes(line)
    ensures Fields(line) != [] && Fields(line)[0] != []
  {
    WordsNonEmpty(line, 0, []);
    var i :| 0 <= i < |line| && Ascii(line[i]) && !AsciiSpace(line[i]);
    WordsFound(line, 0, [], i);
    assert Fields(line)[0] in Words(line, 0, []);
  }

  lemma {:induction false} WordsNonEmpty(line: string, i: nat, word: string)
    requires i <= |line|
    ensures forall w | w in Words(line, i, word) :: w != []
    decreases |line| - i
  {
    if i < |line| {
      if AsciiSpace(line[i]) {
        WordsNonEmpty(line, i + 1, []);
      } else {
        WordsNonEmpty(line, i + 1, word + [line[i]]);
      }
    }
  }

  lemma {:induction false} WordsFound(line: string, i: nat, word: string, k: nat)
    requires i <= |line|
    requires word != [] || (i <= k < |line| && !AsciiSpace(line[k]))
    ensures Words(line, i, word) != []
    decreases |line| - i
  {
    if i < |line| {
      if AsciiSpace(line[i]) {
        if word == [] {
          WordsFound(line, i + 1, [], k);
        }
      } else {
        WordsFound(line, i + 1, word + [line[i]], k);
      }
    }
  }

  lemma HeaderSound(lim: Limits, s: string, pos: nat)
    requires ValidLimits(lim) && pos <= |s| && ScanFrom(s, pos) > 0
    requires LineAt(s, pos).Line? && LineAt(s, pos).text != [] && LineAt(s, pos).text[0] == '*'
    ensures var n := ScanFrom(s, pos);
            var d := Decode(lim, s[..n], pos);
            && (d.More? <==> Diverges(lim, s, pos))
            && (d.Command? ==> d.next == n)
            && (d.Refused? ==> d.upto <= n)
    decreases |s| - pos, 0
  {
    hide ReadLine;
    hide LineAt;
    hide ScanInt;
    hide ParseInt;
    hide ReadBulks;
    hide AmbiguousElement;
    hide ScanElements;
    var n := ScanFrom(s, pos);
    var l := LineAt(s, pos);
    var text := l.text[1..];
    LineWithin(lim, s, pos, n);
    if ScanInt(text) == None {
      EndOfInput(lim, s[..n]);
    } else {
      SameNumber(text);
      var count := ScanInt(text).value;
      if count == 0 {
        ScanSoundFrom(lim, s, l.next);
        NoBulks(lim, s[..n], l.next);
      } else if count > 0 {
        ElementsSound(lim, s, l.next, count, n);
        MultiBulkSound(lim, s, l.next, count, n);
      }
    }
  }

  lemma NoBulks(lim: Limits, s: string, pos: nat)
    requires ValidLimits(lim) && pos <= |s|
    ensures ReadBulks(lim, s, pos, 0) == Bulks([], pos)
  {
  }

  /** At the end of the input the decoder needs more. */
  lemma EndOfInput(lim: Limits, s: string)
    requires ValidLimits(lim)
    ensures ReadLine(lim, s, |s|) == Short && Decode(lim, s, |s|) == More
    ensures forall count: nat | count > 0 :: ReadBulks(lim, s, |s|, count) == ShortBulks
    ensures ReadBulks(lim, s, |s|, 0) == Bulks([], |s|)
  {
  }

  lemma MultiBulkSound(lim: Limits, s: string, at: nat, count: nat, n: nat)
    requires ValidLimits(lim) && at <= n <= |s| && count > 0
    requires ReadBulks(lim, s[..n], at, count).Bulks? ==> ReadBulks(lim, s[..n], at, count).next == n
    ensures ReadBulks(lim, s[..n], at, count).Bulks? ==>
              && ReadBulks(lim, s, at, count) == ReadBulks(lim, s[..n], at, count)
              && Decode(lim, s[..n], n) == More
    ensures ReadBulks(lim, s[..n], at, count).BadBulks? ==> ReadBulks(lim, s, at, count).BadBulks?
  {
    EndOfInput(lim, s[..n]);
    if !ReadBulks(lim, s[..n], at, count).ShortBulks? {
      ReadBulksExtends(lim, s[..n], s[n..], at, count);
      WithinIsPrefix(s, n);
    }
  }

  /** The scanner's promise.  When it reports a complete request of `n` bytes, the decoder
      blocks on those bytes exactly if they diverge.  If they do not, it returns a command
      that takes exactly those bytes, or refuses having read no further, and whatever comes
      after them makes no difference. */
  lemma ScannerSound(lim: Limits, s: string)
    requires ValidLimits(lim) && ScanFrom(s, 0) > 0
    ensures var n := ScanFrom(s, 0);
            var d := Decode(lim, s[..n], 0);
            && (d == More <==> Diverges(lim, s, 0))
            && (!Diverges(lim, s, 0) ==>
                  && Decode(lim, s, 0) == d
                  && (d.Command? ==> d.next == n)
                  && (d.Refused? ==> d.upto <= n))
  {
    var n := ScanFrom(s, 0);
    ScanSoundFrom(lim, s, 0);
    if !Diverges(lim, s, 0) {
      DecodeExtends(lim, s[..n], s[n..], 0);
      WithinIsPrefix(s, n);
    }
  }

  lemma AmbiguousAtExtends(lim: Limits, s: string, t: string, at: nat)
    requires ValidLimits(lim) && at <= |s| && AmbiguousAt(lim, s, at)
    ensures AmbiguousAt(lim, s + t, at)
  {
    hide Ambiguous;
    hide ReadLine;
    ReadLineExtends(lim, s, t, at);
  }

  lemma {:induction false} AmbiguousElementExtends(lim: Limits, s: string, t: string, at: nat, count: nat)
    requires ValidLimits(lim) && at <= |s| && AmbiguousElement(lim, s, at, count)
    ensures AmbiguousElement(lim, s + t, at, count)
    decreases count
  {
    hide AmbiguousAt;
    hide ReadBulk;
    if AmbiguousAt(lim, s, at) {
      AmbiguousAtExtends(lim, s, t, at);
    } else {
      ReadBulkExtends(lim, s, t, at);
      AmbiguousElementExtends(lim, s, t, ReadBulk(lim, s, at).next, count - 1);
    }
  }

  /** Input that diverges still does when more of it has arrived. */
  lemma {:induction false} DivergesExtends(lim: Limits, s: string, t: string, pos: nat)
    requires ValidLimits(lim) && pos <= |s|
    ensures Diverges(lim, s, pos) ==> Diverges(lim, s + t, pos)
    decreases |s| - pos
  {
    hide ReadLine;
    hide ReadBulks;
    hide AmbiguousElement;
    hide Ambiguous;
    hide ScanInt;
    if Diverges(lim, s, pos) {
      ReadLineExtends(lim, s, t, pos);
      var l := ReadLine(lim, s, pos).line;
      if l.text == [] {
        DivergesExtends(lim, s, t, l.next);
      } else if !Ambiguous(l.text[1..], lim.multiBulk) {
        var count := ScanInt(l.text[1..]).value;
        if count == 0 {
          DivergesExtends(lim, s, t, l.next);
        } else if AmbiguousElement(lim, s, l.next, count) {
          AmbiguousElementExtends(lim, s, t, l.next, count);
        } else {
          ReadBulksExtends(lim, s, t, l.next, count);
        }
      }
    }
  }
}
