/** The request decoder as the program runs it: it consumes a buffered reader in loops. */
module RequestReader {
  import opened Arithmetic
  import opened Options
  import opened RespText
  import opened RequestDecoder
  import opened BufferedReader

  /** The line ending is a line feed; a carriage return in front of it belongs to it. */
  function TrimTerminator(line: string): (string, bool)
    requires line != [] && line[|line| - 1] == '\n'
  {
    var body := line[..|line| - 1];
    if body != [] && body[|body| - 1] == '\r' then (body[..|body| - 1], true) else (body, false)
  }

  lemma TrimIsLine(s: string, pos: nat)
    requires pos <= |s| && LineFeed(s, pos) < |s|
    ensures var i := LineFeed(s, pos);
            var (text, crlf) := TrimTerminator(s[pos..i + 1]);
            LineAt(s, pos) == Line(text, crlf, i + 1)
  {
    var i := LineFeed(s, pos);
    var line := s[pos..i + 1];
    assert line[..|line| - 1] == s[pos..i];
    if i > pos {
      assert s[pos..i][..i - pos - 1] == s[pos..i - 1];
    }
  }

  /** Some number of whole buffers. */
  ghost predicate Buffers(n: nat, size: nat) {
    exists k: nat :: n == k * size
  }

  lemma NoBuffers(size: nat)
    ensures Buffers(0, size)
  {
    assert 0 == 0 * size;
  }

  lemma OneMoreBuffer(n: nat, size: nat)
    requires Buffers(n, size)
    ensures Buffers(n + size, size)
  {
    var k: nat :| n == k * size;
    assert n + size == (k + 1) * size;
  }

  lemma WholeBuffers(lim: Limits, read: nat)
    requires ValidLimits(lim) && Buffers(read, lim.buffer) && read <= lim.inline < read + lim.buffer
    ensures Cut(lim) == read + lim.buffer
  {
    var k: nat :| read == k * lim.buffer;
    assert (k + 1) * lim.buffer == k * lim.buffer + lim.buffer;
    QuotientUnique(lim.inline, lim.buffer, k);
  }

  /** The chunk that ends at `end` takes the line over the limit. */
  lemma OverLimit(lim: Limits, s: string, start: nat, read: nat, end: nat, found: bool)
    requires ValidLimits(lim) && Buffers(read, lim.buffer) && start + read < end <= |s|
    requires read <= lim.inline < end - start
    requires if found then end == LineFeed(s, start) + 1 && end - start <= read + lim.buffer
             else LineFeed(s, start) + 1 > end && end - start == read + lim.buffer
    ensures ReadLine(lim, s, start) == TooLong(end)
  {
    hide Cut;
    WholeBuffers(lim, read);
  }

  lemma UnderLimit(lim: Limits, s: string, start: nat, end: nat)
    requires ValidLimits(lim) && start < end <= |s| && end == LineFeed(s, start) + 1 && end - start <= lim.inline
    ensures ReadLine(lim, s, start)
            == Read(Line(TrimTerminator(s[start..end]).0, TrimTerminator(s[start..end]).1, end))
  {
    TrimIsLine(s, start);
  }

  lemma NoMore(lim: Limits, s: string, start: nat, read: nat)
    requires ValidLimits(lim) && start <= |s| && LineFeed(s, start) == |s|
    requires Buffers(read, lim.buffer) && read <= lim.inline && |s| - start < read + lim.buffer
    ensures ReadLine(lim, s, start) == Short
  {
    hide Cut;
    if lim.inline < read + lim.buffer {
      WholeBuffers(lim, read);
    }
  }

  lemma LastLineIs(lim: Limits, s: string, pos: nat, ended: bool)
    requires ValidLimits(lim) && pos <= |s|
    ensures ReadLine(lim, s, pos) != Short || !ended ==> LastLine(lim, s, pos, ended) == ReadLine(lim, s, pos)
    ensures ReadLine(lim, s, pos) == Short && ended ==>
              LastLine(lim, s, pos, ended) == if |s| - pos > lim.inline then TooLong(pos + lim.inline + 1) else Short
  {
    if ReadLine(lim, s, pos) == Short {
      LeftOver(lim, s, pos);
    }
  }

  /** The part of a line read so far: whole buffers, within the limit, without a line feed. */
  ghost predicate Collecting(lim: Limits, data: string, start: nat, pos: nat, line: string) {
    && start <= pos <= |data| && line == data[start..pos]
    && Buffers(|line|, lim.buffer) && |line| <= lim.inline
    && LineFeed(data, start) >= pos
  }

  lemma CollectingStarts(lim: Limits, data: string, start: nat)
    requires start <= |data|
    ensures Collecting(lim, data, start, start, "")
  {
    NoBuffers(lim.buffer);
  }

  lemma SliceJoin(data: string, a: nat, b: nat, c: nat)
    requires a <= b <= c <= |data|
    ensures data[a..b] + data[b..c] == data[a..c]
  {
  }

  lemma NothingLeft(lim: Limits, data: string, start: nat, pos: nat, line: string, ended: bool)
    requires ValidLimits(lim) && Collecting(lim, data, start, pos, line)
    requires LineFeed(data, pos) == |data| && |data| - pos < lim.buffer
    ensures LastLine(lim, data, start, ended)
            == if ended && |line| + |data| - pos > lim.inline then TooLong(start + lim.inline + 1) else Short
    ensures start == pos - |line|
  {
    hide ReadLine;
    hide LastLine;
    hide Buffers;
    hide LineFeed;
    NoFeedThrough(data, start, pos);
    NoMore(lim, data, start, |line|);
    LastLineIs(lim, data, start, ended);
  }

  lemma WholeBuffer(lim: Limits, data: string, start: nat, pos: nat, line: string, ended: bool)
    requires ValidLimits(lim) && Collecting(lim, data, start, pos, line)
    requires pos + lim.buffer <= |data| && LineFeed(data, pos) >= pos + lim.buffer
    ensures var end := pos + lim.buffer;
            if |line| + lim.buffer > lim.inline then LastLine(lim, data, start, ended) == TooLong(end)
            else Collecting(lim, data, start, end, line + data[pos..end])
  {
    hide ReadLine;
    hide LastLine;
    hide Buffers;
    hide LineFeed;
    var end := pos + lim.buffer;
    NoFeedThrough(data, start, pos);
    SliceJoin(data, start, pos, end);
    OneMoreBuffer(|line|, lim.buffer);
    if |line| + lim.buffer > lim.inline {
      OverLimit(lim, data, start, |line|, end, false);
      LastLineIs(lim, data, start, ended);
    }
  }

  lemma EndOfLine(lim: Limits, data: string, start: nat, pos: nat, line: string, ended: bool)
    requires ValidLimits(lim) && Collecting(lim, data, start, pos, line)
    requires LineFeed(data, pos) < |data| && LineFeed(data, pos) + 1 <= pos + lim.buffer
    ensures var end := LineFeed(data, pos) + 1;
            var whole := line + data[pos..end];
            && whole != [] && whole[|whole| - 1] == '\n'
            && LastLine(lim, data, start, ended)
               == if |whole| > lim.inline then TooLong(end)
                  else Read(Line(TrimTerminator(whole).0, TrimTerminator(whole).1, end))
  {
    hide ReadLine;
    hide LastLine;
    hide Buffers;
    hide TrimTerminator;
    var end := LineFeed(data, pos) + 1;
    NoFeedThrough(data, start, pos);
    SliceJoin(data, start, pos, end);
    hide LineFeed;
    LastLineIs(lim, data, start, ended);
    if end - start > lim.inline {
      OverLimit(lim, data, start, |line|, end, true);
    } else {
      UnderLimit(lim, data, start, end);
    }
  }

  /** One chunk more of a line; the line, once it is decided. */
  method Collect(lim: Limits, r: Reader, ghost start: nat, line: string) returns (res: Option<LineRead>, line': string)
    requires r.Valid() && lim.buffer == r.size && Collecting(lim, r.data, start, r.pos, line)
    modifies r
    ensures r.Valid()
    ensures res.Some? ==> res.value == LastLine(lim, r.data, start, r.ended) && (res.value.Read? ==> r.pos == res.value.line.next)
    ensures res.None? ==> Collecting(lim, r.data, start, r.pos, line') && r.pos > old(r.pos)
  {
    hide LastLine;
    hide Collecting;
    hide LineFeed;
    hide TrimTerminator;
    ghost var at := r.pos;
    var c := r.ReadSlice();
    match c {
      case Wait =>
        NothingLeft(lim, r.data, start, at, line, false);
        return Some(Short), line;
      case Rest(bytes) =>
        NothingLeft(lim, r.data, start, at, line, true);
        if |line| + |bytes| > lim.inline {
          return Some(TooLong(r.pos - |bytes| - |line| + lim.inline + 1)), line;
        }
        return Some(Short), line;
      case Full(bytes) =>
        WholeBuffer(lim, r.data, start, at, line, r.ended);
        if |line| + |bytes| > lim.inline {
          return Some(TooLong(r.pos)), line;
        }
        return None, line + bytes;
      case Found(bytes) =>
        EndOfLine(lim, r.data, start, at, line, r.ended);
        if |line| + |bytes| > lim.inline {
          return Some(TooLong(r.pos)), line;
        }
        var (text, crlf) := TrimTerminator(line + bytes);
        return Some(Read(Line(text, crlf, r.pos))), line;
    }
  }

  /** Reads one line, checking the limit against every chunk before keeping it. */
  method ReadALine(lim: Limits, r: Reader) returns (res: LineRead)
    requires r.Valid() && lim.buffer == r.size
    modifies r
    ensures r.Valid() && res == LastLine(lim, r.data, old(r.pos), r.ended)
    ensures res.Read? ==> r.pos == res.line.next
  {
    hide Collecting;
    hide LastLine;
    var line: string := "";
    ghost var start := r.pos;
    CollectingStarts(lim, r.data, start);
    while true
      invariant r.Valid() && Collecting(lim, r.data, start, r.pos, line)
      decreases |r.data| - r.pos
    {
      var decided;
      decided, line := Collect(lim, r, start, line);
      if decided.Some? {
        return decided.value;
      }
    }
  }

  method DecodeBulk(lim: Limits, r: Reader) returns (res: Bulk)
    requires r.Valid() && lim.buffer == r.size
    modifies r
    ensures r.Valid() && res == LastBulk(lim, r.data, old(r.pos), r.ended)
    ensures res.Bulk? ==> r.pos == res.next
  {
    hide ReadLine;
    hide ParseInt;
    LineAtEnd(lim, r.data, r.pos);
    var l := ReadALine(lim, r);
    if l == Short {
      return ShortBulk;
    } else if l.TooLong? {
      return BadBulk(l.upto);
    }
    var line := l.line;
    if !line.crlf || line.text == [] || line.text[0] != '$' {
      return BadBulk(line.next);
    }
    var length := ParseInt(line.text[1..]);
    if length == None || length.value < 0 || length.value > lim.bulk {
      return BadBulk(line.next);
    }
    var ok, arg := r.ReadFull(length.value + 2);
    if !ok {
      return ShortBulk;
    }
    assert arg[length.value..] == r.data[line.next + length.value..line.next + length.value + 2];
    if arg[length.value..] != CRLF {
      return BadBulk(r.pos);
    }
    assert arg[..length.value] == r.data[line.next..line.next + length.value];
    return Bulk(arg[..length.value], r.pos);
  }

  method DecodeBulks(lim: Limits, r: Reader, count: nat) returns (res: Bulks)
    requires r.Valid() && lim.buffer == r.size
    modifies r
    ensures r.Valid() && res == LastBulks(lim, r.data, old(r.pos), count, r.ended)
    ensures res.Bulks? ==> r.pos == res.next
  {
    hide ReadBulk;
    var parts: seq<string> := [];
    ghost var start := r.pos;
    for k := 0 to count
      invariant r.Valid() && |parts| == k
      invariant ReadBulks(lim, r.data, start, count) == Prepend(parts, ReadBulks(lim, r.data, r.pos, count - k))
      invariant ReadBulks(AtEnd(lim), r.data, start, count) == Prepend(parts, ReadBulks(AtEnd(lim), r.data, r.pos, count - k))
    {
      BulkAtEnd(lim, r.data, r.pos);
      var b := DecodeBulk(lim, r);
      if b == ShortBulk {
        return ShortBulks;
      } else if b.BadBulk? {
        return BadBulks(b.upto);
      }
      PrependOne(parts, b.arg, ReadBulks(lim, r.data, r.pos, count - k - 1));
      PrependOne(parts, b.arg, ReadBulks(AtEnd(lim), r.data, r.pos, count - k - 1));
      parts := parts + [b.arg];
    }
    assert parts + [] == parts;
    return Bulks(parts, r.pos);
  }

  ghost function Prepend(parts: seq<string>, b: Bulks): Bulks {
    match b
    case Bulks(args, next) => Bulks(parts + args, next)
    case _ => b
  }

  lemma PrependOne(parts: seq<string>, arg: string, b: Bulks)
    ensures b.Bulks? ==> parts + ([arg] + b.args) == (parts + [arg]) + b.args
  {
    if b.Bulks? {
      assert parts + ([arg] + b.args) == (parts + [arg]) + b.args;
    }
  }

  /** Reads the next command; empty requests are skipped. */
  method DecodeNext(lim: Limits, r: Reader) returns (d: Decoded)
    requires r.Valid() && lim.buffer == r.size
    modifies r
    ensures r.Valid() && d == LastDecode(lim, r.data, old(r.pos), r.ended)
    ensures d.Command? ==> r.pos == d.next
  {
    hide ReadLine;
    hide ReadBulks;
    hide ParseInt;
    hide Fields;
    hide ToUpper;
    ghost var start := r.pos;
    while true
      invariant r.Valid() && Decode(lim, r.data, r.pos) == Decode(lim, r.data, start)
      invariant Decode(AtEnd(lim), r.data, r.pos) == Decode(AtEnd(lim), r.data, start)
      decreases |r.data| - r.pos
    {
      LineAtEnd(lim, r.data, r.pos);
      var l := ReadALine(lim, r);
      if l == Short {
        return More;
      } else if l.TooLong? {
        return Refused(l.upto);
      }
      var line := l.line;
      if line.text != [] {
        if line.text[0] == '*' {
          if !line.crlf {
            return Refused(line.next);
          }
          var count := ParseInt(line.text[1..]);
          if count == None || count.value < 0 || count.value > lim.multiBulk {
            return Refused(line.next);
          }
          BulksAtEnd(lim, r.data, r.pos, count.value);
          var b := DecodeBulks(lim, r, count.value);
          if b == ShortBulks {
            return More;
          } else if b.BadBulks? {
            return Refused(b.upto);
          }
          if b.args != [] && b.args[0] != [] {
            return Command(ToUpper(b.args[0]), b.args[1..], r.pos);
          }
        } else {
          var words := Fields(line.text);
          if words != [] && words[0] != [] {
            return Command(ToUpper(words[0]), words[1..], r.pos);
          }
        }
      }
    }
  }
}
