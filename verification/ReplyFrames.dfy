/** Every reply of the protocol, version 3 included, as a tree of frames: how it stands on
    the wire, and what the client makes of it. */
module ReplyFrames {
  import opened Options
  import opened RespText
  import opened ReplyCodec
  import opened ReplyRoundTrip

  datatype Frame =
    | Status(text: string)
    | Failure(text: string)
    | Number(n: int)
    | Null
    | Truth(b: bool)
    | Real(text: string)
    | Big(text: string)
    | Bytes(bytes: string)
    | NoBytes
    | Formatted(format: string, text: string)
    | LongFailure(text: string)
    | List(items: seq<Frame>)
    | NoList
    | Members(items: seq<Frame>)
    | Pushed(items: seq<Frame>)
    | Table(items: seq<Frame>)           // keys and values in turn

  function Sized(mark: char, payload: string): string {
    [mark] + Decimal(|payload|) + CRLF + payload + CRLF
  }

  function Wire(f: Frame): string
    decreases f, 1
  {
    match f
    case Status(text) => "+" + text + CRLF
    case Failure(text) => "-" + text + CRLF
    case Number(n) => ":" + Decimal(n) + CRLF
    case Null => "_" + CRLF
    case Truth(b) => (if b then "#t" else "#f") + CRLF
    case Real(text) => "," + text + CRLF
    case Big(text) => "(" + text + CRLF
    case Bytes(bytes) => Sized('$', bytes)
    case NoBytes => "$-1" + CRLF
    case Formatted(format, text) => Sized('=', format + ":" + text)
    case LongFailure(text) => Sized('!', text)
    case List(items) => "*" + Decimal(|items|) + CRLF + WireAll(items)
    case NoList => "*-1" + CRLF
    case Members(items) => "~" + Decimal(|items|) + CRLF + WireAll(items)
    case Pushed(items) => ">" + Decimal(|items|) + CRLF + WireAll(items)
    case Table(items) => "%" + Decimal(|items| / 2) + CRLF + WireAll(items)
  }

  function WireAll(fs: seq<Frame>): string
    decreases fs, 0
  {
    if fs == [] then "" else Wire(fs[0]) + WireAll(fs[1..])
  }

  /** What the client hands to its caller: sets are lists, a format is dropped, and an error
      is its text and the first word of it. */
  function Received(f: Frame): ClientReply
    decreases f, 1
  {
    match f
    case Status(text) => CStatus(text)
    case Failure(text) => CError(FirstWord(text, 0), text)
    case Number(n) => CInteger(n)
    case Null => CNil
    case Truth(b) => CBool(b)
    case Real(text) => CDouble(text)
    case Big(text) => CBigNumber(text)
    case Bytes(bytes) => CBulk(bytes)
    case NoBytes => CNil
    case Formatted(_, text) => CBulk(text)
    case LongFailure(text) => CError(FirstWord(text, 0), text)
    case List(items) => CArray(ReceivedAll(items))
    case NoList => CNil
    case Members(items) => CArray(ReceivedAll(items))
    case Pushed(items) => CPush(ReceivedAll(items))
    case Table(items) => CMap(ReceivedAll(items))
  }

  function ReceivedAll(fs: seq<Frame>): (rs: seq<ClientReply>)
    ensures |rs| == |fs|
    decreases fs, 0
  {
    if fs == [] then [] else [Received(fs[0])] + ReceivedAll(fs[1..])
  }

  /** The bounds of the client: 32 levels, lines of 16 KiB with their terminator, strings of
      512 MiB, 16777216 elements or pairs. */
  predicate Within(f: Frame, depth: nat)
    decreases f, 1
  {
    && depth <= 32
    && match f {
         case Status(text) => OneLine(text) && |text| <= 16382
         case Failure(text) => OneLine(text) && |text| <= 16382
         case Number(n) => -0x8000_0000_0000_0000 <= n < 0x8000_0000_0000_0000
         case Real(text) => OneLine(text) && |text| <= 16382
         case Big(text) => OneLine(text) && |text| <= 16382
         case Bytes(bytes) => |bytes| <= 536870912
         case Formatted(format, text) => |format| == 3 && |text| + 4 <= 536870912
         case LongFailure(text) => |text| <= 536870912
         case List(items) => |items| <= 16777216 && AllWithin(items, depth + 1)
         case Members(items) => |items| <= 16777216 && AllWithin(items, depth + 1)
         case Pushed(items) => |items| <= 16777216 && AllWithin(items, depth + 1)
         case Table(items) => |items| % 2 == 0 && |items| / 2 <= 16777216 && AllWithin(items, depth + 1)
         case _ => true
       }
  }

  predicate AllWithin(fs: seq<Frame>, depth: nat)
    decreases fs, 0
  {
    fs != [] ==> Within(fs[0], depth) && AllWithin(fs[1..], depth)
  }

  // ---- The client reads them ----

  lemma HeaderRead(pre: string, mark: char, line: string, post: string)
    requires OneLine(line) && |line| <= 16382
    ensures var s := pre + ([mark] + line + CRLF) + post;
            s[|pre|] == mark && LineOf(s, |pre| + 1) == Text(line, |pre| + |line| + 3)
  {
    LineFrameRead(pre, mark, line, post);
  }

  lemma Count(n: nat)
    requires n <= 536870912
    ensures OneLine(Decimal(n)) && |Decimal(n)| <= 16382 && ParseInt(Decimal(n)) == Some(n)
  {
    DecimalOneLine(n);
    DecimalFits(n);
    ParseDecimal(n);
  }

  lemma MinusOneRead()
    ensures OneLine("-1") && ParseInt("-1") == Some(-1)
  {
    MinusOne();
    DecimalOneLine(-1);
    ParseDecimal(-1);
  }

  lemma LineRead(pre: string, mark: char, line: string, post: string, depth: nat)
    requires OneLine(line) && |line| <= 16382 && depth <= 32 && mark !in "$=!*~>%"
    ensures var e := [mark] + line + CRLF;
            Decode(pre + e + post, |pre|, depth) == DecodeScalar(mark, line, |pre| + |e|)
  {
    hide LineOf;
    hide DecodeScalar;
    HeaderRead(pre, mark, line, post);
  }

  lemma SizedRead(pre: string, mark: char, payload: string, post: string, verbatim: bool)
    requires |payload| <= 536870912
    ensures var line := Decimal(|payload|);
            var at := |pre| + |line| + 3;
            var s := pre + Sized(mark, payload) + post;
            && s[|pre|] == mark && LineOf(s, |pre| + 1) == Text(line, at)
            && DecodeBulk(s, line, at, verbatim)
               == if !verbatim then Ok(CBulk(payload), |pre| + |Sized(mark, payload)|)
                  else if |payload| < 4 || payload[3] != ':' then Bad
                  else Ok(CBulk(payload[4..]), |pre| + |Sized(mark, payload)|)
  {
    hide LineOf;
    hide ParseInt;
    hide Decimal;
    var line := Decimal(|payload|);
    var at := |pre| + |line| + 3;
    var s := pre + Sized(mark, payload) + post;
    Count(|payload|);
    HeaderRead(pre, mark, line, payload + CRLF + post);
    assert s == pre + ([mark] + line + CRLF) + (payload + CRLF + post);
    assert s[at..at + |payload|] == payload;
    assert s[at + |payload|..at + |payload| + 2] == CRLF;
  }

  lemma ListRead(pre: string, mark: char, n: nat, body: string, post: string, depth: nat)
    requires n <= 16777216 && depth <= 32 && mark in "*~>%"
    ensures var head := [mark] + Decimal(n) + CRLF;
            var s := pre + (head + body) + post;
            Decode(s, |pre|, depth)
            == match DecodeItems(s, |pre| + |head|, if mark == '%' then 2 * n else n, depth) {
                 case OkAll(rs, next) =>
                   Ok(if mark == '%' then CMap(rs) else if mark == '>' then CPush(rs) else CArray(rs), next)
                 case BadAll => Bad
                 case ShortAll => Short
               }
  {
    hide LineOf;
    hide ParseInt;
    hide Decimal;
    hide DecodeItems;
    Count(n);
    var head := [mark] + Decimal(n) + CRLF;
    HeaderRead(pre, mark, Decimal(n), body + post);
    assert pre + (head + body) + post == pre + head + (body + post);
  }

  lemma NothingRead(pre: string, mark: char, post: string, depth: nat)
    requires depth <= 32 && (mark == '$' || mark == '*')
    ensures var e := [mark] + "-1" + CRLF;
            Decode(pre + e + post, |pre|, depth) == Ok(CNil, |pre| + |e|)
  {
    hide LineOf;
    hide ParseInt;
    MinusOneRead();
    HeaderRead(pre, mark, "-1", post);
  }

  lemma {:induction false} AllRead(pre: string, fs: seq<Frame>, post: string, depth: nat)
    requires AllWithin(fs, depth + 1)
    ensures DecodeItems(pre + WireAll(fs) + post, |pre|, |fs|, depth) == OkAll(ReceivedAll(fs), |pre| + |WireAll(fs)|)
    decreases fs, 0
  {
    hide Decode;
    hide Wire;
    if fs != [] {
      var a, b := Wire(fs[0]), WireAll(fs[1..]);
      var s := pre + WireAll(fs) + post;
      assert s == pre + a + (b + post);
      FrameRead(pre, fs[0], b + post, depth + 1);
      assert s == (pre + a) + b + post;
      AllRead(pre + a, fs[1..], post, depth);
    }
  }

  lemma {:induction false} AggregateFrameRead(pre: string, f: Frame, post: string, depth: nat)
    requires Within(f, depth) && (f.List? || f.Members? || f.Pushed? || f.Table?)
    ensures Decode(pre + Wire(f) + post, |pre|, depth) == Ok(Received(f), |pre| + |Wire(f)|)
    decreases f, 0
  {
    hide Decode;
    hide DecodeItems;
    hide Decimal;
    hide WireAll;
    hide ReceivedAll;
    hide AllWithin;
    var mark := if f.List? then '*' else if f.Members? then '~' else if f.Pushed? then '>' else '%';
    var n := if f.Table? then |f.items| / 2 else |f.items|;
    var head := [mark] + Decimal(n) + CRLF;
    assert Wire(f) == head + WireAll(f.items);
    ListRead(pre, mark, n, WireAll(f.items), post, depth);
    assert pre + (head + WireAll(f.items)) + post == (pre + head) + WireAll(f.items) + post;
    AllRead(pre + head, f.items, post, depth);
  }

  lemma PayloadRead(pre: string, f: Frame, post: string, depth: nat)
    requires Within(f, depth) && (f.Bytes? || f.Formatted? || f.LongFailure?)
    ensures Decode(pre + Wire(f) + post, |pre|, depth) == Ok(Received(f), |pre| + |Wire(f)|)
  {
    hide LineOf;
    hide DecodeBulk;
    hide Sized;
    match f {
      case Bytes(bytes) => SizedRead(pre, '$', bytes, post, false);
      case Formatted(format, text) =>
        SizedRead(pre, '=', format + ":" + text, post, true);
        assert (format + ":" + text)[4..] == text;
      case LongFailure(text) => SizedRead(pre, '!', text, post, false);
    }
  }

  lemma LineFrameIs(pre: string, f: Frame, post: string, depth: nat)
    requires Within(f, depth)
    requires f.Status? || f.Failure? || f.Number? || f.Null? || f.Truth? || f.Real? || f.Big?
    ensures Decode(pre + Wire(f) + post, |pre|, depth) == Ok(Received(f), |pre| + |Wire(f)|)
  {
    hide Decode;
    hide Decimal;
    hide ParseInt;
    match f {
      case Status(text) => LineRead(pre, '+', text, post, depth);
      case Failure(text) => LineRead(pre, '-', text, post, depth);
      case Number(n) =>
        DecimalOneLine(n);
        DecimalFits(n);
        ParseDecimal(n);
        LineRead(pre, ':', Decimal(n), post, depth);
      case Null =>
        assert Wire(f) == ['_'] + "" + CRLF;
        LineRead(pre, '_', "", post, depth);
      case Truth(b) =>
        assert Wire(f) == ['#'] + (if b then "t" else "f") + CRLF;
        LineRead(pre, '#', if b then "t" else "f", post, depth);
      case Real(text) => LineRead(pre, ',', text, post, depth);
      case Big(text) => LineRead(pre, '(', text, post, depth);
    }
  }

  /** Whatever the server sends in version 3 of the protocol, within the client's bounds, is
      read as what it is, and the client is left at the first byte after it. */
  lemma {:induction false} FrameRead(pre: string, f: Frame, post: string, depth: nat)
    requires Within(f, depth)
    ensures Decode(pre + Wire(f) + post, |pre|, depth) == Ok(Received(f), |pre| + |Wire(f)|)
    decreases f, 1
  {
    hide Decode;
    hide Received;
    match f {
      case List(_) => AggregateFrameRead(pre, f, post, depth);
      case Members(_) => AggregateFrameRead(pre, f, post, depth);
      case Pushed(_) => AggregateFrameRead(pre, f, post, depth);
      case Table(_) => AggregateFrameRead(pre, f, post, depth);
      case Bytes(_) => PayloadRead(pre, f, post, depth);
      case Formatted(_, _) => PayloadRead(pre, f, post, depth);
      case LongFailure(_) => PayloadRead(pre, f, post, depth);
      case NoBytes => NothingFrame(pre, f, post, depth);
      case NoList => NothingFrame(pre, f, post, depth);
      case _ => LineFrameIs(pre, f, post, depth);
    }
  }

  lemma NothingFrame(pre: string, f: Frame, post: string, depth: nat)
    requires depth <= 32 && (f.NoBytes? || f.NoList?)
    ensures Decode(pre + Wire(f) + post, |pre|, depth) == Ok(Received(f), |pre| + |Wire(f)|)
  {
    hide Decode;
    var mark := if f.NoBytes? then '$' else '*';
    assert Wire(f) == [mark] + "-1" + CRLF;
    NothingRead(pre, mark, post, depth);
  }

  /** A line that begins with anything else breaks the stream, and so do a null that carries
      data, a truth value other than t and f, and a number that is none. */
  lemma Broken(pre: string, mark: char, line: string, post: string, depth: nat)
    requires OneLine(line) && |line| <= 16382
    requires || mark !in "$=!*~>%+-:_#,("
             || (mark == '_' && line != "")
             || (mark == '#' && line != "t" && line != "f")
             || (mark == ':' && ParseInt(line) == None)
    ensures Decode(pre + ([mark] + line + CRLF) + post, |pre|, depth) == Bad
  {
    if depth <= 32 {
      hide Decode;
      LineRead(pre, mark, line, post, depth);
    }
  }
}
