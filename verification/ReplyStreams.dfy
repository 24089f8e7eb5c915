/** The two codecs as the programs run them: the server appends to a buffer in loops, the
    client consumes a buffered reader. */
module ReplyStreams {
  import opened Options
  import opened RespText
  import opened BufferedReader
  import opened ReplyCodec

  // ---- The server ----

  method AppendReply(dst: string, r: Reply) returns (out: Option<string>)
    ensures out == Prefix(dst, Encode(r))
    decreases r, 1
  {
    EncodeOf(r);
    hide Encode;
    match r {
      case Array(items) => out := AppendItems(dst, items);
      case Set(items) => out := AppendItems(dst, items);
      case Push(items) => out := AppendItems(dst, items);
      case Map(pairs) => out := AppendPairs(dst, pairs);
      case Attribute(_, value) =>
        if value == Missing {
          out := AppendScalar(dst, Nil);
        } else {
          out := AppendReply(dst, value);
        }
      case _ => out := AppendScalar(dst, r);
    }
  }

  lemma EncodeOf(r: Reply)
    ensures r.Array? || r.Set? || r.Push? ==> Encode(r) == Prefix(LineFrame('*', Decimal(|r.items|)), EncodeItems(r.items))
    ensures r.Map? ==> Encode(r) == Prefix(LineFrame('*', Decimal(2 * |r.pairs|)), EncodePairs(r.pairs))
    ensures r.Attribute? ==> Encode(r) == if r.value == Missing then Encode(Nil) else Encode(r.value)
  {
    hide EncodeItems;
    hide EncodePairs;
  }

  /** The replies that fit one line or one length-prefixed string. */
  method AppendScalar(dst: string, r: Reply) returns (out: Option<string>)
    requires !r.Array? && !r.Set? && !r.Push? && !r.Map? && !r.Attribute?
    ensures out == Prefix(dst, Encode(r))
  {
    hide Decimal;
    hide Fold;
    match r {
      case SimpleString(text) => return Some(dst + LineFrame('+', Fold(text)));
      case Error(kind, message) => return Some(dst + LineFrame('-', Fold(ErrorText(kind, message))));
      case BulkError(kind, message) => return Some(dst + LineFrame('-', Fold(ErrorText(kind, message))));
      case BulkString(bytes) => return Some(dst + BulkFrame(bytes));
      case Verbatim(_, text) => return Some(dst + BulkFrame(text));
      case BigNumber(text) => return Some(dst + BulkFrame(text));
      case Double(text) => return Some(dst + BulkFrame(text));
      case Integer(n) => return Some(dst + LineFrame(':', Decimal(n)));
      case Boolean(b) => return Some(dst + LineFrame(':', if b then "1" else "0"));
      case Nil => return Some(dst + NIL_FRAME);
      case Missing => return None;
    }
  }

  method AppendItems(dst: string, items: seq<Reply>) returns (out: Option<string>)
    ensures out == Prefix(dst, Prefix(LineFrame('*', Decimal(|items|)), EncodeItems(items)))
    decreases items, 0
  {
    hide Encode;
    hide Decimal;
    var buf := dst + LineFrame('*', Decimal(|items|));
    ghost var goal := Prefix(buf, EncodeItems(items));
    assert items[0..] == items;
    for i := 0 to |items|
      invariant Prefix(buf, EncodeItems(items[i..])) == goal
    {
      assert items[i..][0] == items[i] && items[i..][1..] == items[i + 1..];
      ghost var e, rest := Encode(items[i]), EncodeItems(items[i + 1..]);
      var next := AppendReply(buf, items[i]);
      if next == None {
        return None;
      }
      assert rest.Some? ==> buf + (e.value + rest.value) == (buf + e.value) + rest.value;
      buf := next.value;
    }
    assert items[|items|..] == [] && buf + [] == buf;
    out := Some(buf);
    assert EncodeItems(items).Some? ==>
        dst + (LineFrame('*', Decimal(|items|)) + EncodeItems(items).value)
        == dst + LineFrame('*', Decimal(|items|)) + EncodeItems(items).value;
  }

  method AppendPairs(dst: string, pairs: seq<KV>) returns (out: Option<string>)
    ensures out == Prefix(dst, Prefix(LineFrame('*', Decimal(2 * |pairs|)), EncodePairs(pairs)))
    decreases pairs, 0
  {
    hide Encode;
    hide Decimal;
    var buf := dst + LineFrame('*', Decimal(2 * |pairs|));
    ghost var goal := Prefix(buf, EncodePairs(pairs));
    assert pairs[0..] == pairs;
    for i := 0 to |pairs|
      invariant Prefix(buf, EncodePairs(pairs[i..])) == goal
    {
      assert pairs[i..][0] == pairs[i] && pairs[i..][1..] == pairs[i + 1..];
      ghost var e, rest := EncodePair(pairs[i]), EncodePairs(pairs[i + 1..]);
      var next := AppendPair(buf, pairs[i]);
      if next == None {
        return None;
      }
      assert rest.Some? ==> buf + (e.value + rest.value) == (buf + e.value) + rest.value;
      buf := next.value;
    }
    assert pairs[|pairs|..] == [] && buf + [] == buf;
    out := Some(buf);
    assert EncodePairs(pairs).Some? ==>
        dst + (LineFrame('*', Decimal(2 * |pairs|)) + EncodePairs(pairs).value)
        == dst + LineFrame('*', Decimal(2 * |pairs|)) + EncodePairs(pairs).value;
  }

  method AppendPair(dst: string, p: KV) returns (out: Option<string>)
    ensures out == Prefix(dst, EncodePair(p))
    decreases p, 0
  {
    hide Encode;
    out := AppendReply(dst, p.key);
    if out.Some? {
      ghost var k, v := Encode(p.key), Encode(p.value);
      out := AppendReply(out.value, p.value);
      assert v.Some? ==> dst + (k.value + v.value) == dst + k.value + v.value;
    }
  }

  // ---- The client ----

  method ReadALine(r: Reader) returns (l: ReadLine)
    requires r.Valid() && r.size == BUFFER
    modifies r
    ensures r.Valid() && l == LineOf(r.data, old(r.pos))
    ensures l.Text? ==> r.pos == l.next
  {
    ghost var start := r.pos;
    var c := r.ReadSlice();
    match c {
      case Wait => return ShortLine;
      case Rest(_) => return ShortLine;
      case Full(_) => return BadLine;
      case Found(raw) =>
        assert raw == r.data[start..r.pos];
        if |raw| < 2 || raw[|raw| - 2] != '\r' {
          return BadLine;
        }
        assert raw[..|raw| - 2] == r.data[start..r.pos - 2];
        return Text(raw[..|raw| - 2], r.pos);
    }
  }

  method ReadBulk(r: Reader, line: string, verbatim: bool) returns (res: Result)
    requires r.Valid()
    modifies r
    ensures r.Valid() && res == DecodeBulk(r.data, line, old(r.pos), verbatim)
    ensures res.Ok? ==> r.pos == res.next
  {
    hide ParseInt;
    ghost var start := r.pos;
    var n := ParseInt(line);
    if n == None {
      return Bad;
    } else if n.value < 0 {
      return Ok(CNil, r.pos);
    } else if n.value > MAX_BULK {
      return Bad;
    }
    var ok, buf := r.ReadFull(n.value + 2);
    if !ok {
      return Short;
    }
    assert buf[n.value..] == r.data[start + n.value..start + n.value + 2];
    if buf[n.value..] != CRLF {
      return Bad;
    }
    var payload := buf[..n.value];
    assert payload == r.data[start..start + n.value];
    if verbatim {
      if |payload| < 4 || payload[3] != ':' {
        return Bad;
      }
      payload := payload[4..];
    }
    return Ok(CBulk(payload), r.pos);
  }

  method ReadReply(r: Reader, depth: nat) returns (res: Result)
    requires r.Valid() && r.size == BUFFER
    modifies r
    ensures r.Valid() && res == Decode(r.data, old(r.pos), depth)
    ensures res.Ok? ==> r.pos == res.next
    decreases |r.data| - r.pos, 0
  {
    hide ParseInt;
    hide LineOf;
    hide DecodeScalar;
    hide DecodeBulk;
    hide DecodeItems;
    if depth > MAX_DEPTH {
      return Bad;
    }
    var ok, mark := r.ReadByte();
    if !ok {
      return Short;
    }
    var l := ReadALine(r);
    if l.BadLine? {
      return Bad;
    } else if l.ShortLine? {
      return Short;
    }
    match mark {
      case '$' => res := ReadBulk(r, l.text, false);
      case '=' => res := ReadBulk(r, l.text, true);
      case '!' =>
        res := ReadBulk(r, l.text, false);
        res := AsError(res);
      case '*' => res := ReadAggregate(r, l.text, depth, false, false);
      case '~' => res := ReadAggregate(r, l.text, depth, false, false);
      case '>' => res := ReadAggregate(r, l.text, depth, false, true);
      case '%' => res := ReadAggregate(r, l.text, depth, true, false);
      case _ => res := DecodeScalar(mark, l.text, r.pos); ScalarStays(mark, l.text, r.pos);
    }
  }

  lemma ScalarStays(mark: char, line: string, next: nat)
    ensures DecodeScalar(mark, line, next).Ok? ==> DecodeScalar(mark, line, next).next == next
  {
  }

  method ReadAggregate(r: Reader, line: string, depth: nat, pairs: bool, push: bool) returns (res: Result)
    requires r.Valid() && r.size == BUFFER
    modifies r
    ensures r.Valid() && res == Aggregate(r.data, line, old(r.pos), depth, pairs, push)
    ensures res.Ok? ==> r.pos == res.next
    decreases |r.data| - r.pos, MAX64 + MAX64
  {
    hide ParseInt;
    hide DecodeItems;
    var n := ParseInt(line);
    if n == None {
      return Bad;
    } else if n.value < 0 {
      return Ok(CNil, r.pos);
    } else if n.value > MAX_AGGREGATE {
      return Bad;
    }
    var items := ReadItems(r, if pairs then 2 * n.value else n.value, depth);
    match items {
      case BadAll => res := Bad;
      case ShortAll => res := Short;
      case OkAll(replies, next) =>
        res := Ok(if pairs then CMap(replies) else if push then CPush(replies) else CArray(replies), next);
    }
  }

  ghost function After(items: seq<ClientReply>, rs: Results): Results {
    match rs
    case OkAll(replies, next) => OkAll(items + replies, next)
    case _ => rs
  }

  /** Reads `n` consecutive replies. */
  method ReadItems(r: Reader, n: nat, depth: nat) returns (res: Results)
    requires r.Valid() && r.size == BUFFER
    modifies r
    ensures r.Valid() && res == DecodeItems(r.data, old(r.pos), n, depth)
    ensures res.OkAll? ==> r.pos == res.next
    decreases |r.data| - r.pos, n
  {
    hide Decode;
    hide After;
    ghost var start := r.pos;
    AfterNothing(DecodeItems(r.data, r.pos, n, depth));
    var items: seq<ClientReply> := [];
    for i := 0 to n
      invariant r.Valid() && |items| == i && start + i <= r.pos
      invariant DecodeItems(r.data, start, n, depth) == After(items, DecodeItems(r.data, r.pos, n - i, depth))
    {
      AfterFailure(items);
      var item := ReadReply(r, depth + 1);
      if item == Bad {
        return BadAll;
      } else if item == Short {
        return ShortAll;
      }
      AfterOne(items, item.reply, DecodeItems(r.data, r.pos, n - i - 1, depth));
      items := items + [item.reply];
    }
    AfterAll(items, r.pos);
    return OkAll(items, r.pos);
  }

  lemma AfterNothing(rs: Results)
    ensures After([], rs) == rs
  {
    if rs.OkAll? {
      assert [] + rs.replies == rs.replies;
    }
  }

  lemma AfterOne(items: seq<ClientReply>, item: ClientReply, rest: Results)
    ensures After(items, if rest.OkAll? then OkAll([item] + rest.replies, rest.next) else rest) == After(items + [item], rest)
  {
    if rest.OkAll? {
      assert items + ([item] + rest.replies) == (items + [item]) + rest.replies;
    }
  }

  lemma AfterFailure(items: seq<ClientReply>)
    ensures After(items, BadAll) == BadAll && After(items, ShortAll) == ShortAll
  {
  }

  lemma AfterAll(items: seq<ClientReply>, next: nat)
    ensures After(items, OkAll([], next)) == OkAll(items, next)
  {
    assert items + [] == items;
  }
}
