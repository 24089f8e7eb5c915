/** The server's request decoder: multibulk and inline requests, within limits that are
    enforced while the input is being read. */
module RequestDecoder {
  import opened RespText
  import opened Framing

  /** `buffer` is the size of the read buffer lines are read through. */
  datatype Limits = Limits(inline: nat, multiBulk: nat, bulk: nat, buffer: nat)

  ghost predicate ValidLimits(lim: Limits) {
    lim.buffer > 0
  }

  datatype Decoded =
    | Command(name: string, args: seq<string>, next: nat)   // the command, and where the next request begins
    | Refused(upto: nat)                                    // a protocol error, known having read this far
    | More                                                  // cannot go on without more input

  datatype LineRead = Read(line: Line) | TooLong(upto: nat) | Short

  datatype Bulk = Bulk(arg: string, next: nat) | BadBulk(upto: nat) | ShortBulk

  datatype Bulks = Bulks(args: seq<string>, next: nat) | BadBulks(upto: nat) | ShortBulks

  /** The first whole number of read buffers that is over the line limit. */
  function Cut(lim: Limits): (n: nat)
    requires ValidLimits(lim)
    ensures n > lim.inline
  {
    var q, r := lim.inline / lim.buffer, lim.inline % lim.buffer;
    assert lim.inline == q * lim.buffer + r && r < lim.buffer;
    assert (q + 1) * lim.buffer == q * lim.buffer + lim.buffer;
    (q + 1) * lim.buffer
  }

  /** A line, no longer than the limit.  The line is refused as soon as the buffers read so
      far are over the limit, whether or not a line feed follows. */
  function ReadLine(lim: Limits, s: string, pos: nat): (r: LineRead)
    requires ValidLimits(lim) && pos <= |s|
    ensures r.Read? ==> r.line.Line? && pos < r.line.next <= |s|
    ensures r.TooLong? ==> pos < r.upto <= |s|
  {
    var i := LineFeed(s, pos);
    var size := i + 1 - pos;
    if i < |s| && size <= lim.inline then Read(LineAt(s, pos))
    else if i < |s| then TooLong(if size <= Cut(lim) then i + 1 else pos + Cut(lim))
    else if |s| - pos >= Cut(lim) then TooLong(pos + Cut(lim))
    else Short
  }

  function ReadBulk(lim: Limits, s: string, pos: nat): (r: Bulk)
    requires ValidLimits(lim) && pos <= |s|
    ensures r.Bulk? ==> pos < r.next <= |s|
  {
    match ReadLine(lim, s, pos)
    case Short => ShortBulk
    case TooLong(upto) => BadBulk(upto)
    case Read(l) =>
      if !l.crlf || l.text == [] || l.text[0] != '$' then BadBulk(l.next)
      else
        match ParseInt(l.text[1..])
        case None => BadBulk(l.next)
        case Some(length) =>
          if length < 0 || length > lim.bulk then BadBulk(l.next)
          else if |s| - l.next < length + 2 then ShortBulk
          else
            var end := l.next + length;
            if s[end..end + 2] != CRLF then BadBulk(end + 2) else Bulk(s[l.next..end], end + 2)
  }

  function ReadBulks(lim: Limits, s: string, pos: nat, count: nat): (r: Bulks)
    requires ValidLimits(lim) && pos <= |s|
    ensures r.Bulks? ==> |r.args| == count && pos <= r.next <= |s| && (count > 0 ==> pos < r.next)
    decreases count
  {
    if count == 0 then Bulks([], pos)
    else
      match ReadBulk(lim, s, pos)
      case ShortBulk => ShortBulks
      case BadBulk(upto) => BadBulks(upto)
      case Bulk(arg, next) =>
        match ReadBulks(lim, s, next, count - 1)
        case Bulks(args, next) => Bulks([arg] + args, next)
        case r => r
  }

  function Upper(c: char): char {
    if 'a' <= c <= 'z' then c - ('a' - 'A') else c
  }

  function ToUpper(s: string): (r: string)
    ensures |r| == |s|
  {
    seq(|s|, i requires 0 <= i < |s| => Upper(s[i]))
  }

  /** The whitespace-separated words of a line from `i` on; `word` is the one being read. */
  function Words(line: string, i: nat, word: string): seq<string>
    requires i <= |line|
    decreases |line| - i
  {
    if i == |line| then (if word == [] then [] else [word])
    else if AsciiSpace(line[i]) then (if word == [] then [] else [word]) + Words(line, i + 1, [])
    else Words(line, i + 1, word + [line[i]])
  }

  function Fields(line: string): seq<string> {
    Words(line, 0, [])
  }

  /** The next command at or after `pos`; empty requests are skipped. */
  function Decode(lim: Limits, s: string, pos: nat): (d: Decoded)
    requires ValidLimits(lim) && pos <= |s|
    ensures d.Command? ==> pos < d.next <= |s|
    decreases |s| - pos
  {
    match ReadLine(lim, s, pos)
    case Short => More
    case TooLong(upto) => Refused(upto)
    case Read(l) =>
      if l.text == [] then Decode(lim, s, l.next)
      else if l.text[0] != '*' then
        var words := Fields(l.text);
        if words == [] || words[0] == [] then Decode(lim, s, l.next)
        else Command(ToUpper(words[0]), words[1..], l.next)
      else if !l.crlf then Refused(l.next)
      else
        match ParseInt(l.text[1..])
        case None => Refused(l.next)
        case Some(count) =>
          if count < 0 || count > lim.multiBulk then Refused(l.next)
          else
            match ReadBulks(lim, s, l.next, count)
            case ShortBulks => More
            case BadBulks(upto) => Refused(upto)
            case Bulks(args, next) =>
              // "*0", and a first element without a name, are skipped
              if args == [] || args[0] == [] then Decode(lim, s, next)
              else Command(ToUpper(args[0]), args[1..], next)
  }

  /** No decoded name is empty, or has a lower-case letter in it. */
  lemma {:induction false} NamesAreUpper(lim: Limits, s: string, pos: nat)
    requires ValidLimits(lim) && pos <= |s|
    ensures var d := Decode(lim, s, pos);
            d.Command? ==> d.name != [] && forall i | 0 <= i < |d.name| :: !('a' <= d.name[i] <= 'z')
    decreases |s| - pos
  {
    hide ReadLine;
    hide ReadBulks;
    hide Fields;
    hide ParseInt;
    match ReadLine(lim, s, pos) {
      case Read(l) =>
        if l.text == [] {
          NamesAreUpper(lim, s, l.next);
        } else if l.text[0] != '*' {
          var words := Fields(l.text);
          if words == [] || words[0] == [] {
            NamesAreUpper(lim, s, l.next);
          }
        } else if l.crlf && ParseInt(l.text[1..]).Some? {
          var count := ParseInt(l.text[1..]).value;
          if 0 <= count <= lim.multiBulk {
            var b := ReadBulks(lim, s, l.next, count);
            if b.Bulks? && (b.args == [] || b.args[0] == []) {
              NamesAreUpper(lim, s, b.next);
            }
          }
        }
      case _ =>
    }
  }

  // ---- The end of the stream ----

  /** At the end of the stream a line that is left over is checked against the limit as it
      is, as if it had been read byte by byte. */
  function AtEnd(lim: Limits): Limits {
    lim.(buffer := 1)
  }

  function LastLine(lim: Limits, s: string, pos: nat, ended: bool): LineRead
    requires ValidLimits(lim) && pos <= |s|
  {
    var r := ReadLine(lim, s, pos);
    if ended && r == Short then ReadLine(AtEnd(lim), s, pos) else r
  }

  function LastBulk(lim: Limits, s: string, pos: nat, ended: bool): Bulk
    requires ValidLimits(lim) && pos <= |s|
  {
    var r := ReadBulk(lim, s, pos);
    if ended && r == ShortBulk then ReadBulk(AtEnd(lim), s, pos) else r
  }

  function LastBulks(lim: Limits, s: string, pos: nat, count: nat, ended: bool): Bulks
    requires ValidLimits(lim) && pos <= |s|
  {
    var r := ReadBulks(lim, s, pos, count);
    if ended && r == ShortBulks then ReadBulks(AtEnd(lim), s, pos, count) else r
  }

  /** What comes of the input when the stream may be over: where more would be needed, the
      connection has simply ended, unless the line begun is already over the limit. */
  function LastDecode(lim: Limits, s: string, pos: nat, ended: bool): Decoded
    requires ValidLimits(lim) && pos <= |s|
  {
    var d := Decode(lim, s, pos);
    if ended && d == More then Decode(AtEnd(lim), s, pos) else d
  }

  /** The limit on what is left over at the end, exactly. */
  lemma LeftOver(lim: Limits, s: string, pos: nat)
    requires ValidLimits(lim) && pos <= |s| && ReadLine(lim, s, pos) == Short
    ensures LastLine(lim, s, pos, true)
            == if |s| - pos > lim.inline then TooLong(pos + lim.inline + 1) else Short
  {
    assert lim.inline / 1 == lim.inline;
  }

  /** A line that is there is the same line at the end of the stream. */
  lemma LineAtEnd(lim: Limits, s: string, pos: nat)
    requires ValidLimits(lim) && pos <= |s|
    ensures ReadLine(lim, s, pos).Read? <==> ReadLine(AtEnd(lim), s, pos).Read?
    ensures ReadLine(lim, s, pos).Read? ==> ReadLine(AtEnd(lim), s, pos) == ReadLine(lim, s, pos)
    ensures ReadLine(lim, s, pos).TooLong? ==> ReadLine(AtEnd(lim), s, pos).TooLong?
  {
    assert lim.inline / 1 == lim.inline;
  }

  lemma BulkAtEnd(lim: Limits, s: string, pos: nat)
    requires ValidLimits(lim) && pos <= |s|
    ensures ReadBulk(lim, s, pos).Bulk? <==> ReadBulk(AtEnd(lim), s, pos).Bulk?
    ensures ReadBulk(lim, s, pos).Bulk? ==> ReadBulk(AtEnd(lim), s, pos) == ReadBulk(lim, s, pos)
    ensures ReadBulk(lim, s, pos).BadBulk? ==> ReadBulk(AtEnd(lim), s, pos).BadBulk?
  {
    hide ReadLine;
    hide ParseInt;
    LineAtEnd(lim, s, pos);
  }

  lemma {:induction false} BulksAtEnd(lim: Limits, s: string, pos: nat, count: nat)
    requires ValidLimits(lim) && pos <= |s|
    ensures ReadBulks(lim, s, pos, count).Bulks? <==> ReadBulks(AtEnd(lim), s, pos, count).Bulks?
    ensures ReadBulks(lim, s, pos, count).Bulks? ==> ReadBulks(AtEnd(lim), s, pos, count) == ReadBulks(lim, s, pos, count)
    ensures ReadBulks(lim, s, pos, count).BadBulks? ==> ReadBulks(AtEnd(lim), s, pos, count).BadBulks?
    decreases count
  {
    hide ReadBulk;
    if count > 0 {
      BulkAtEnd(lim, s, pos);
      var b := ReadBulk(lim, s, pos);
      if b.Bulk? {
        BulksAtEnd(lim, s, b.next, count - 1);
      }
    }
  }

  /** The end of the stream never brings a command: it only turns waiting into a refusal. */
  lemma {:induction false} DecodeAtEnd(lim: Limits, s: string, pos: nat)
    requires ValidLimits(lim) && pos <= |s|
    ensures Decode(lim, s, pos).Command? <==> Decode(AtEnd(lim), s, pos).Command?
    ensures Decode(lim, s, pos).Command? ==> Decode(AtEnd(lim), s, pos) == Decode(lim, s, pos)
    ensures Decode(lim, s, pos).Refused? ==> Decode(AtEnd(lim), s, pos).Refused?
    decreases |s| - pos
  {
    hide ReadLine;
    hide ReadBulks;
    hide Fields;
    hide ToUpper;
    hide ParseInt;
    LineAtEnd(lim, s, pos);
    match ReadLine(lim, s, pos) {
      case Read(l) =>
        if l.text == [] {
          DecodeAtEnd(lim, s, l.next);
        } else if l.text[0] != '*' {
          var words := Fields(l.text);
          if words == [] || words[0] == [] {
            DecodeAtEnd(lim, s, l.next);
          }
        } else if l.crlf && ParseInt(l.text[1..]).Some? {
          var count := ParseInt(l.text[1..]).value;
          if 0 <= count <= lim.multiBulk {
            BulksAtEnd(lim, s, l.next, count);
            var b := ReadBulks(lim, s, l.next, count);
            if b.Bulks? && (b.args == [] || b.args[0] == []) {
              DecodeAtEnd(lim, s, b.next);
            }
          }
        }
      case _ =>
    }
  }

  // ---- More input never changes a decision ----

  lemma ReadLineExtends(lim: Limits, s: string, t: string, pos: nat)
    requires ValidLimits(lim) && pos <= |s| && ReadLine(lim, s, pos) != Short
    ensures ReadLine(lim, s + t, pos) == ReadLine(lim, s, pos)
  {
    hide Cut;
    hide LineAt;
    var i := LineFeed(s, pos);
    var j := LineFeed(s + t, pos);
    assert forall k | 0 <= k < |s| :: (s + t)[k] == s[k];
    if i < |s| {
      LineFeedIs(s + t, pos, i);
      LineExtends(s, t, pos) by { assert LineAt(s, pos).Line? by { LineAtFeed(s, pos); } }
    } else {
      LineFeedLater(s, t, pos);
    }
  }

  lemma LineAtFeed(s: string, pos: nat)
    requires pos <= |s| && LineFeed(s, pos) < |s|
    ensures LineAt(s, pos).Line?
  {
  }

  lemma ReadBulkExtends(lim: Limits, s: string, t: string, pos: nat)
    requires ValidLimits(lim) && pos <= |s| && ReadBulk(lim, s, pos) != ShortBulk
    ensures ReadBulk(lim, s + t, pos) == ReadBulk(lim, s, pos)
  {
    hide ReadLine;
    ReadLineExtends(lim, s, t, pos);
    var r := ReadBulk(lim, s, pos);
    if r.Bulk? {
      assert (s + t)[..r.next] == s[..r.next];
    }
    match ReadLine(lim, s, pos) {
      case Read(l) =>
        var n := ParseInt(l.text[..]);
        SliceExtends(s, t);
      case _ =>
    }
  }

  lemma SliceExtends(s: string, t: string)
    ensures forall i, j | 0 <= i <= j <= |s| :: (s + t)[i..j] == s[i..j]
  {
  }

  lemma {:induction false} ReadBulksExtends(lim: Limits, s: string, t: string, pos: nat, count: nat)
    requires ValidLimits(lim) && pos <= |s| && ReadBulks(lim, s, pos, count) != ShortBulks
    ensures ReadBulks(lim, s + t, pos, count) == ReadBulks(lim, s, pos, count)
    decreases count
  {
    hide ReadBulk;
    if count > 0 {
      ReadBulkExtends(lim, s, t, pos);
      var r := ReadBulk(lim, s, pos);
      if r.Bulk? {
        ReadBulksExtends(lim, s, t, r.next, count - 1);
      }
    }
  }

  /** A decision taken on part of the input is the decision on all of it. */
  lemma {:induction false} DecodeExtends(lim: Limits, s: string, t: string, pos: nat)
    requires ValidLimits(lim) && pos <= |s| && Decode(lim, s, pos) != More
    ensures Decode(lim, s + t, pos) == Decode(lim, s, pos)
    decreases |s| - pos
  {
    hide ReadLine;
    hide ReadBulks;
    hide Fields;
    hide ToUpper;
    ReadLineExtends(lim, s, t, pos);
    match ReadLine(lim, s, pos) {
      case Read(l) =>
        if l.text == [] {
          DecodeExtends(lim, s, t, l.next);
        } else if l.text[0] != '*' {
          var words := Fields(l.text);
          if words == [] || words[0] == [] {
            DecodeExtends(lim, s, t, l.next);
          }
        } else if l.crlf && ParseInt(l.text[1..]).Some? {
          var count := ParseInt(l.text[1..]).value;
          if 0 <= count <= lim.multiBulk {
            var b := ReadBulks(lim, s, l.next, count);
            ReadBulksExtends(lim, s, t, l.next, count);
            if b.Bulks? && (b.args == [] || b.args[0] == []) {
              DecodeExtends(lim, s, t, b.next);
            }
          }
        }
      case _ =>
    }
  }
}
