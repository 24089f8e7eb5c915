/** Decoding what the server encodes. */
module ReplyRoundTrip {
  import opened RespText
  import opened ReplyCodec

  lemma DecimalFits(n: int)
    requires -MAX64 <= n < MAX64
    ensures LineFits(Decimal(n))
  {
    hide Pow10;
    Pow20();
    DigitsLength(if n < 0 then -n else n, 20);
  }

  lemma Pow20()
    ensures MAX64 < Pow10(20)
  {
    Pow18();
    assert Pow10(19) == 10 * Pow10(18);
    assert Pow10(20) == 10 * Pow10(19);
  }

  /** A frame of one line, wherever it stands. */
  lemma LineFrameRead(pre: string, mark: char, text: string, post: string)
    requires OneLine(text)
    ensures var s := pre + LineFrame(mark, text) + post;
            && s[|pre|] == mark
            && LineOf(s, |pre| + 1) == if LineFits(text) then Text(text, |pre| + |LineFrame(mark, text)|) else BadLine
  {
    var s := pre + LineFrame(mark, text) + post;
    LineIsRead(pre + [mark], text, post);
    assert s == (pre + [mark]) + text + CRLF + post;
  }

  lemma FoldOneLine(text: string)
    ensures OneLine(Fold(text))
  {
  }

  lemma ScalarRead(pre: string, mark: char, text: string, post: string, depth: nat)
    requires OneLine(text) && mark in "+-:"
    ensures var s := pre + LineFrame(mark, text) + post;
            var next := |pre| + |LineFrame(mark, text)|;
            Decode(s, |pre|, depth)
            == if depth <= MAX_DEPTH && LineFits(text) then DecodeScalar(mark, text, next) else Bad
  {
    hide LineOf;
    hide DecodeScalar;
    LineFrameRead(pre, mark, text, post);
  }

  lemma IntegerRead(pre: string, n: int, post: string, depth: nat)
    requires -MAX64 <= n < MAX64
    ensures var e := LineFrame(':', Decimal(n));
            Decode(pre + e + post, |pre|, depth) == if depth <= MAX_DEPTH then Ok(CInteger(n), |pre| + |e|) else Bad
  {
    hide Decode;
    hide ParseInt;
    DecimalOneLine(n);
    DecimalFits(n);
    ParseDecimal(n);
    ScalarRead(pre, ':', Decimal(n), post, depth);
  }

  lemma BooleanRead(pre: string, b: bool, post: string, depth: nat)
    ensures var e := LineFrame(':', if b then "1" else "0");
            Decode(pre + e + post, |pre|, depth) == if depth <= MAX_DEPTH then Ok(CInteger(if b then 1 else 0), |pre| + |e|) else Bad
  {
    IntegerRead(pre, if b then 1 else 0, post, depth);
    assert Decimal(1) == "1" && Decimal(0) == "0";
  }

  lemma NilRead(pre: string, post: string, depth: nat)
    ensures Decode(pre + NIL_FRAME + post, |pre|, depth) == if depth <= MAX_DEPTH then Ok(CNil, |pre| + |NIL_FRAME|) else Bad
  {
    hide LineOf;
    hide ParseInt;
    hide Decimal;
    assert Decimal(-1) == "-1" by { MinusOne(); }
    ParseDecimal(-1);
    assert NIL_FRAME == LineFrame('$', "-1");
    LineFrameRead(pre, '$', "-1", post);
  }

  lemma MinusOne()
    ensures Decimal(-1) == "-1"
  {
    assert Digits(1) == "1";
  }

  lemma BulkRead(pre: string, payload: string, post: string, depth: nat)
    requires |payload| < MAX64
    ensures var e := BulkFrame(payload);
            Decode(pre + e + post, |pre|, depth)
            == if depth <= MAX_DEPTH && |payload| <= MAX_BULK then Ok(CBulk(payload), |pre| + |e|) else Bad
  {
    hide LineOf;
    hide ParseInt;
    hide Decimal;
    var n := |payload|;
    var head := LineFrame('$', Decimal(n));
    var s := pre + BulkFrame(payload) + post;
    DecimalOneLine(n);
    DecimalFits(n);
    ParseDecimal(n);
    assert s == pre + head + (payload + CRLF + post);
    LineFrameRead(pre, '$', Decimal(n), payload + CRLF + post);
    var at := |pre| + |head|;
    assert s[at..at + n] == payload;
    assert s[at + n..at + n + 2] == CRLF;
  }

  /** The header of an aggregate. */
  lemma AggregateRead(pre: string, n: nat, body: string, post: string, depth: nat)
    requires n < MAX64
    ensures var head := LineFrame('*', Decimal(n));
            var s := pre + (head + body) + post;
            Decode(s, |pre|, depth)
            == if depth > MAX_DEPTH || n > MAX_AGGREGATE then Bad
               else match DecodeItems(s, |pre| + |head|, n, depth) {
                      case OkAll(replies, next) => Ok(CArray(replies), next)
                      case BadAll => Bad
                      case ShortAll => Short
                    }
  {
    hide LineOf;
    hide ParseInt;
    hide Decimal;
    hide DecodeItems;
    DecimalOneLine(n);
    DecimalFits(n);
    ParseDecimal(n);
    var head := LineFrame('*', Decimal(n));
    LineFrameRead(pre, '*', Decimal(n), body + post);
    assert pre + (head + body) + post == pre + head + (body + post);
  }

  lemma {:induction false} ItemsRead(pre: string, items: seq<Reply>, post: string, depth: nat)
    requires ItemsRepresentable(items) && EncodeItems(items).Some?
    ensures var e := EncodeItems(items).value;
            DecodeItems(pre + e + post, |pre|, |items|, depth)
            == if ItemsFit(items, depth + 1) then OkAll(NormalItems(items), |pre| + |e|) else BadAll
    decreases items, 0
  {
    hide Decode;
    hide Encode;
    if items != [] {
      var a, b := Encode(items[0]).value, EncodeItems(items[1..]).value;
      var s := pre + EncodeItems(items).value + post;
      assert s == pre + a + (b + post);
      RoundTrip(pre, items[0], b + post, depth + 1);
      assert s == (pre + a) + b + post;
      ItemsRead(pre + a, items[1..], post, depth);
    }
  }

  lemma {:induction false} PairsRead(pre: string, pairs: seq<KV>, post: string, depth: nat)
    requires PairsRepresentable(pairs) && EncodePairs(pairs).Some?
    ensures var e := EncodePairs(pairs).value;
            DecodeItems(pre + e + post, |pre|, 2 * |pairs|, depth)
            == if PairsFit(pairs, depth + 1) then OkAll(NormalPairs(pairs), |pre| + |e|) else BadAll
    decreases pairs, 0
  {
    hide Decode;
    hide Encode;
    if pairs != [] {
      var rest := EncodePairs(pairs[1..]).value;
      PairRead(pre, pairs[0], rest + post, depth, 2 * |pairs[1..]|);
      var p := EncodePair(pairs[0]).value;
      var s := pre + EncodePairs(pairs).value + post;
      assert s == pre + p + (rest + post);
      assert s == (pre + p) + rest + post;
      PairsRead(pre + p, pairs[1..], post, depth);
    }
  }

  /** One pair, with `more` replies to come. */
  lemma {:induction false} PairRead(pre: string, p: KV, post: string, depth: nat, more: nat)
    requires PairRepresentable(p) && EncodePair(p).Some?
    ensures var e := EncodePair(p).value;
            var s := pre + e + post;
            DecodeItems(s, |pre|, 2 + more, depth)
            == if !PairFits(p, depth + 1) then BadAll
               else match DecodeItems(s, |pre| + |e|, more, depth) {
                      case OkAll(replies, end) => OkAll(NormalPair(p) + replies, end)
                      case r => r
                    }
    decreases p, 0
  {
    hide Decode;
    hide Encode;
    var a, b := Encode(p.key).value, Encode(p.value).value;
    var s := pre + EncodePair(p).value + post;
    assert s == pre + a + (b + post);
    RoundTrip(pre, p.key, b + post, depth + 1);
    assert s == (pre + a) + b + post;
    RoundTrip(pre + a, p.value, post, depth + 1);
    if PairFits(p, depth + 1) {
      var r := DecodeItems(s, |pre| + |EncodePair(p).value|, more, depth);
      if r.OkAll? {
        assert NormalPair(p) + r.replies == [Normal(p.key)] + ([Normal(p.value)] + r.replies);
      }
    }
  }

  /** The round trip, for every reply the server can encode, wherever it stands in the
      stream: the client gets its normal form and is left at the first byte after it, or,
      when the reply is beyond the client's bounds, reports a broken stream. */
  lemma {:induction false} RoundTrip(pre: string, r: Reply, post: string, depth: nat)
    requires Representable(r) && Encode(r).Some?
    ensures var e := Encode(r).value;
            Decode(pre + e + post, |pre|, depth)
            == if Fits(r, depth) then Ok(Normal(r), |pre| + |e|) else Bad
    decreases r, 1
  {
    hide *;
    match r {
      case Array(items) => AggregateRoundTrip(pre, r, post, depth);
      case Set(items) => AggregateRoundTrip(pre, r, post, depth);
      case Push(items) => AggregateRoundTrip(pre, r, post, depth);
      case Map(pairs) => AggregateRoundTrip(pre, r, post, depth);
      case Attribute(_, value) =>
        if value == Missing {
          NothingAttributed(pre, r, post, depth);
        } else {
          AttributeIsValue(r, depth);
          RoundTrip(pre, value, post, depth);
        }
      case _ => ScalarRoundTrip(pre, r, post, depth);
    }
  }

  lemma AttributeIsValue(r: Reply, depth: nat)
    requires r.Attribute? && r.value != Missing
    ensures Encode(r) == Encode(r.value) && Normal(r) == Normal(r.value) && Fits(r, depth) == Fits(r.value, depth)
    ensures Representable(r) ==> Representable(r.value)
  {
  }

  lemma NothingAttributed(pre: string, r: Reply, post: string, depth: nat)
    requires r.Attribute? && r.value == Missing
    ensures var e := Encode(r).value;
            Encode(r).Some?
            && Decode(pre + e + post, |pre|, depth) == if Fits(r, depth) then Ok(Normal(r), |pre| + |e|) else Bad
  {
    hide Decode;
    NilRead(pre, post, depth);
  }

  lemma {:induction false} AggregateRoundTrip(pre: string, r: Reply, post: string, depth: nat)
    requires (r.Array? || r.Set? || r.Push? || r.Map?) && Representable(r) && Encode(r).Some?
    ensures var e := Encode(r).value;
            Decode(pre + e + post, |pre|, depth)
            == if Fits(r, depth) then Ok(Normal(r), |pre| + |e|) else Bad
    decreases r, 0
  {
    hide Decode;
    hide DecodeItems;
    hide Decimal;
    hide ItemsFit;
    hide PairsFit;
    hide EncodeItems;
    hide EncodePairs;
    hide NormalItems;
    hide NormalPairs;
    hide ItemsRepresentable;
    hide PairsRepresentable;
    match r {
      case Array(items) => ArrayRead(pre, items, post, depth);
      case Set(items) => ArrayRead(pre, items, post, depth);
      case Push(items) => ArrayRead(pre, items, post, depth);
      case Map(pairs) => MapRead(pre, pairs, post, depth);
    }
  }

  lemma ScalarRoundTrip(pre: string, r: Reply, post: string, depth: nat)
    requires !r.Array? && !r.Set? && !r.Push? && !r.Map? && !r.Attribute?
    requires Representable(r) && Encode(r).Some?
    ensures var e := Encode(r).value;
            Decode(pre + e + post, |pre|, depth)
            == if Fits(r, depth) then Ok(Normal(r), |pre| + |e|) else Bad
  {
    hide Decode;
    hide Fold;
    hide Decimal;
    match r {
      case SimpleString(text) =>
        FoldOneLine(text);
        ScalarRead(pre, '+', Fold(text), post, depth);
      case Error(kind, message) => ErrorRead(pre, kind, message, post, depth);
      case BulkError(kind, message) => ErrorRead(pre, kind, message, post, depth);
      case BulkString(bytes) => BulkRead(pre, bytes, post, depth);
      case Verbatim(_, text) => BulkRead(pre, text, post, depth);
      case BigNumber(text) => BulkRead(pre, text, post, depth);
      case Double(text) => BulkRead(pre, text, post, depth);
      case Integer(n) => IntegerRead(pre, n, post, depth);
      case Boolean(b) => BooleanRead(pre, b, post, depth);
      case Nil => NilRead(pre, post, depth);
    }
  }

  lemma ErrorRead(pre: string, kind: string, message: string, post: string, depth: nat)
    ensures var text := Fold(ErrorText(kind, message));
            var e := LineFrame('-', text);
            Decode(pre + e + post, |pre|, depth)
            == if depth <= MAX_DEPTH && LineFits(text) then Ok(ErrorReply(text), |pre| + |e|) else Bad
  {
    hide Decode;
    hide Fold;
    FoldOneLine(ErrorText(kind, message));
    ScalarRead(pre, '-', Fold(ErrorText(kind, message)), post, depth);
  }

  lemma {:induction false} ArrayRead(pre: string, items: seq<Reply>, post: string, depth: nat)
    requires |items| < MAX64 && ItemsRepresentable(items) && EncodeItems(items).Some?
    ensures var e := LineFrame('*', Decimal(|items|)) + EncodeItems(items).value;
            Decode(pre + e + post, |pre|, depth)
            == if depth <= MAX_DEPTH && |items| <= MAX_AGGREGATE && ItemsFit(items, depth + 1)
               then Ok(CArray(NormalItems(items)), |pre| + |e|) else Bad
    decreases items, 1
  {
    hide Decode;
    hide DecodeItems;
    hide Decimal;
    hide EncodeItems;
    hide ItemsFit;
    var head, body := LineFrame('*', Decimal(|items|)), EncodeItems(items).value;
    AggregateRead(pre, |items|, body, post, depth);
    assert pre + (head + body) + post == (pre + head) + body + post;
    ItemsRead(pre + head, items, post, depth);
  }

  lemma {:induction false} MapRead(pre: string, pairs: seq<KV>, post: string, depth: nat)
    requires 2 * |pairs| < MAX64 && PairsRepresentable(pairs) && EncodePairs(pairs).Some?
    ensures var e := LineFrame('*', Decimal(2 * |pairs|)) + EncodePairs(pairs).value;
            Decode(pre + e + post, |pre|, depth)
            == if depth <= MAX_DEPTH && 2 * |pairs| <= MAX_AGGREGATE && PairsFit(pairs, depth + 1)
               then Ok(CArray(NormalPairs(pairs)), |pre| + |e|) else Bad
    decreases pairs, 1
  {
    hide Decode;
    hide DecodeItems;
    hide Decimal;
    hide EncodePairs;
    hide PairsFit;
    var head, body := LineFrame('*', Decimal(2 * |pairs|)), EncodePairs(pairs).value;
    AggregateRead(pre, 2 * |pairs|, body, post, depth);
    assert pre + (head + body) + post == (pre + head) + body + post;
    PairsRead(pre + head, pairs, post, depth);
  }

  // ---- The text of statuses and errors, as the client gets it ----

  /** Every byte as it was sent, but a space for a line break. */
  predicate OnOneLine(sent: string, got: string) {
    && |got| == |sent|
    && forall i | 0 <= i < |sent| :: got[i] == if sent[i] in "\r\n" then ' ' else sent[i]
  }

  lemma FoldIs(text: string)
    ensures OnOneLine(text, Fold(text))
  {
  }

  /** `kind` is the line up to its first space. */
  predicate Begins(kind: string, line: string) {
    kind <= line && ' ' !in kind && (|kind| < |line| ==> line[|kind|] == ' ')
  }

  lemma {:induction false} FirstWordBegins(line: string, i: nat)
    requires i <= |line| && ' ' !in line[..i]
    ensures Begins(FirstWord(line, i), line)
    decreases |line| - i
  {
    if i < |line| && line[i] != ' ' {
      assert line[..i + 1] == line[..i] + [line[i]];
      FirstWordBegins(line, i + 1);
    } else {
      assert line[..i] <= line;
      assert i == |line| ==> line[..i] == line;
    }
  }

  /** A status of up to 16382 bytes arrives, wherever it stands: every byte, with line breaks
      as spaces.  A longer one, or one nested too deep, breaks the stream. */
  lemma StatusReceived(pre: string, text: string, post: string, depth: nat)
    ensures Encode(SimpleString(text)).Some?
    ensures var e := Encode(SimpleString(text)).value;
            var d := Decode(pre + e + post, |pre|, depth);
            if |text| <= 16382 && depth <= 32
            then d.Ok? && d.reply.CStatus? && OnOneLine(text, d.reply.text) && d.next == |pre| + |e|
            else d == Bad
  {
    hide Decode;
    hide Fold;
    FoldIs(text);
    FoldOneLine(text);
    ScalarRead(pre, '+', Fold(text), post, depth);
  }

  lemma UnbrokenStays(sent: string, got: string)
    requires OnOneLine(sent, got) && '\r' !in sent && '\n' !in sent
    ensures got == sent
  {
    forall i | 0 <= i < |sent|
      ensures got[i] == sent[i]
    {
      assert sent[i] in sent;
    }
  }

  /** A status without line breaks arrives unchanged. */
  lemma StatusUnchanged(pre: string, text: string, post: string, depth: nat)
    requires |text| <= 16382 && depth <= 32 && '\r' !in text && '\n' !in text
    ensures Encode(SimpleString(text)).Some?
    ensures var e := Encode(SimpleString(text)).value;
            Decode(pre + e + post, |pre|, depth) == Ok(CStatus(text), |pre| + |e|)
  {
    hide Decode;
    hide Encode;
    hide OnOneLine;
    StatusReceived(pre, text, post, depth);
    var e := Encode(SimpleString(text)).value;
    UnbrokenStays(text, Decode(pre + e + post, |pre|, depth).reply.text);
  }

  /** An error arrives as its kind and message on one line, and its kind is what comes before
      the first space; an error without a kind is its message. */
  lemma ErrorReceived(pre: string, r: Reply, post: string, depth: nat)
    requires (r.Error? || r.BulkError?) && depth <= 32
    requires (if r.kind == "" then |r.message| else |r.kind| + 1 + |r.message|) <= 16382
    ensures Encode(r).Some?
    ensures var sent := if r.kind == "" then r.message else r.kind + " " + r.message;
            var e := Encode(r).value;
            var d := Decode(pre + e + post, |pre|, depth);
            && d.Ok? && d.reply.CError? && d.next == |pre| + |e|
            && OnOneLine(sent, d.reply.line) && Begins(d.reply.kind, d.reply.line)
  {
    hide Decode;
    hide Fold;
    hide FirstWord;
    var text := ErrorText(r.kind, r.message);
    FoldIs(text);
    FirstWordBegins(Fold(text), 0);
    ErrorRead(pre, r.kind, r.message, post, depth);
  }

  /** A plain kind and a message without line breaks arrive unchanged. */
  lemma ErrorUnchanged(pre: string, r: Reply, post: string, depth: nat)
    requires (r.Error? || r.BulkError?) && depth <= 32 && |r.kind| + 1 + |r.message| <= 16382
    requires r.kind != "" && ' ' !in r.kind
    requires forall c | c in r.kind || c in r.message :: c != '\r' && c != '\n'
    ensures Encode(r).Some?
    ensures var e := Encode(r).value;
            Decode(pre + e + post, |pre|, depth) == Ok(CError(r.kind, r.kind + " " + r.message), |pre| + |e|)
  {
    hide Decode;
    hide Encode;
    hide OnOneLine;
    ErrorReceived(pre, r, post, depth);
    var e := Encode(r).value;
    var reply := Decode(pre + e + post, |pre|, depth).reply;
    UnbrokenStays(r.kind + " " + r.message, reply.line);
    BeginsOnce(reply.kind, r.kind, r.message);
  }

  lemma BeginsOnce(got: string, kind: string, message: string)
    requires Begins(got, kind + " " + message) && ' ' !in kind
    ensures got == kind
  {
    var line := kind + " " + message;
    assert line[|kind|] == ' ';
    assert |got| == |kind|;
    assert got == line[..|got|] == kind;
  }
}
