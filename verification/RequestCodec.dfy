/** The client's request encoder, and that the server's decoder and scanner undo it. */
module RequestCodec {
  import opened Options
  import opened RespText
  import opened Framing
  import opened RequestDecoder
  import opened FramingSound

  function EncodeBulk(arg: string): string {
    "$" + Decimal(|arg|) + CRLF + arg + CRLF
  }

  function EncodeBulks(args: seq<string>): string {
    if args == [] then "" else EncodeBulk(args[0]) + EncodeBulks(args[1..])
  }

  /** A command as an array of bulk strings. */
  function Encode(args: seq<string>): string {
    "*" + Decimal(|args|) + CRLF + EncodeBulks(args)
  }

  /** The encoder as the program runs it: it appends to a buffer. */
  method AppendCommand(dst: string, args: seq<string>) returns (r: string)
    ensures r == dst + Encode(args)
  {
    hide Decimal;
    hide EncodeBulks;
    r := dst + "*" + Decimal(|args|) + CRLF;
    assert args[0..] == args;
    for i := 0 to |args|
      invariant r + EncodeBulks(args[i..]) == dst + Encode(args)
    {
      NextBulk(args, i);
      r := AppendBulk(r, args[i], EncodeBulks(args[i + 1..]));
    }
    NoMoreBulks(args[|args|..]);
  }

  method AppendBulk(dst: string, arg: string, ghost rest: string) returns (r: string)
    ensures r + rest == dst + (EncodeBulk(arg) + rest)
  {
    hide Decimal;
    r := dst + "$" + Decimal(|arg|) + CRLF + arg + CRLF;
    assert r == dst + EncodeBulk(arg);
  }

  lemma NextBulk(args: seq<string>, i: nat)
    requires i < |args|
    ensures EncodeBulks(args[i..]) == EncodeBulk(args[i]) + EncodeBulks(args[i + 1..])
  {
    assert args[i..][1..] == args[i + 1..];
  }

  lemma NoMoreBulks(args: seq<string>)
    requires args == []
    ensures EncodeBulks(args) == ""
  {
  }

  /** The line "<mark><n>" with its terminator fits the decoder's line limit. */
  predicate HeaderFits(lim: Limits, n: nat) {
    n < MAX64 && |Decimal(n)| + 3 <= lim.inline
  }

  predicate ArgFits(lim: Limits, arg: string) {
    HeaderFits(lim, |arg|) && |arg| <= lim.bulk
  }

  /** The command is within the decoder's limits, and its name is not empty. */
  predicate Sendable(lim: Limits, args: seq<string>) {
    && args != [] && args[0] != []
    && HeaderFits(lim, |args|) && |args| <= lim.multiBulk
    && forall i | 0 <= i < |args| :: ArgFits(lim, args[i])
  }

  /** A header is read back, wherever it stands. */
  lemma HeaderRead(lim: Limits, s: string, pos: nat, mark: char, n: nat)
    requires ValidLimits(lim) && HeaderFits(lim, n) && mark != '\n' && mark != '\r'
    requires pos + |Decimal(n)| + 3 <= |s|
    requires s[pos..pos + |Decimal(n)| + 3] == [mark] + Decimal(n) + CRLF
    ensures ReadLine(lim, s, pos) == Read(LineAt(s, pos))
    ensures LineAt(s, pos) == Line([mark] + Decimal(n), true, pos + |Decimal(n)| + 3)
  {
    hide Cut;
    hide Decimal;
    DecimalOneLine(n);
    var text := [mark] + Decimal(n);
    var end := pos + |text| + 2;
    assert s == s[..pos] + text + CRLF + s[end..];
    LineIsRead(s[..pos], text, s[end..]);
  }

  lemma Header(mark: char, n: nat)
    requires n < MAX64
    ensures ([mark] + Decimal(n))[1..] == Decimal(n) && ParseInt(Decimal(n)) == Some(n)
  {
    ParseDecimal(n);
  }

  lemma BulkRead(lim: Limits, pre: string, arg: string, post: string)
    requires ValidLimits(lim) && ArgFits(lim, arg)
    ensures ReadBulk(lim, pre + EncodeBulk(arg) + post, |pre|) == Bulk(arg, |pre| + |EncodeBulk(arg)|)
  {
    hide ReadLine;
    hide LineAt;
    hide Decimal;
    hide ParseInt;
    var s := pre + EncodeBulk(arg) + post;
    HeaderRead(lim, s, |pre|, '$', |arg|);
    Header('$', |arg|);
    var at := |pre| + |Decimal(|arg|)| + 3;
    assert s[at..at + |arg|] == arg;
    assert s[at + |arg|..at + |arg| + 2] == CRLF;
  }

  lemma {:induction false} BulksRead(lim: Limits, pre: string, args: seq<string>, post: string)
    requires ValidLimits(lim) && forall i | 0 <= i < |args| :: ArgFits(lim, args[i])
    ensures ReadBulks(lim, pre + EncodeBulks(args) + post, |pre|, |args|) == Bulks(args, |pre| + |EncodeBulks(args)|)
    decreases |args|
  {
    hide ReadBulk;
    hide ReadLine;
    hide EncodeBulk;
    hide ArgFits;
    var s := pre + EncodeBulks(args) + post;
    if args == [] {
      assert s == pre + post;
    } else {
      var first, rest := EncodeBulk(args[0]), EncodeBulks(args[1..]);
      Regrouped(pre, first, rest, post);
      BulkRead(lim, pre, args[0], rest + post);
      BulksRead(lim, pre + first, args[1..], post);
      assert [args[0]] + args[1..] == args;
    }
  }

  lemma Regrouped(pre: string, first: string, rest: string, post: string)
    ensures pre + (first + rest) + post == pre + first + (rest + post) == (pre + first) + rest + post
  {
  }

  /** What becomes of a name: a lower-case letter becomes the byte 32 below it, every other
      byte stays. */
  predicate Raised(sent: string, name: string) {
    && |name| == |sent|
    && forall i | 0 <= i < |sent| :: name[i] as int == sent[i] as int - if 'a' <= sent[i] <= 'z' then 32 else 0
  }

  lemma UpperRaises(name: string)
    ensures Raised(name, ToUpper(name))
  {
  }

  /** The round trip of one request, wherever it stands in the input: the name comes back in
      upper case, the arguments byte for byte, and exactly the request's bytes are taken. */
  lemma RoundTrip(lim: Limits, pre: string, args: seq<string>, post: string)
    requires ValidLimits(lim) && Sendable(lim, args)
    ensures var d := Decode(lim, pre + Encode(args) + post, |pre|);
            d.Command? && Raised(args[0], d.name) && d.args == args[1..] && d.next == |pre| + |Encode(args)|
  {
    hide *;
    SomethingSent(lim, args);
    UpperRaises(args[0]);
    CommandRead(lim, pre, args, post);
  }

  lemma SomethingSent(lim: Limits, args: seq<string>)
    requires Sendable(lim, args)
    ensures args != []
  {
  }

  lemma CommandRead(lim: Limits, pre: string, args: seq<string>, post: string)
    requires ValidLimits(lim) && Sendable(lim, args)
    ensures Decode(lim, pre + Encode(args) + post, |pre|)
            == Command(ToUpper(args[0]), args[1..], |pre| + |Encode(args)|)
  {
    hide ReadLine;
    hide LineAt;
    hide Decimal;
    hide ParseInt;
    hide EncodeBulks;
    hide ReadBulks;
    hide ToUpper;
    hide Fields;
    var head := "*" + Decimal(|args|) + CRLF;
    var s := pre + Encode(args) + post;
    HeaderRead(lim, s, |pre|, '*', |args|);
    Header('*', |args|);
    assert s == (pre + head) + EncodeBulks(args) + post;
    BulksRead(lim, pre + head, args, post);
  }

  // ---- Beyond the limits ----

  /** A header that stands in the input but is longer than the line limit is refused. */
  lemma HeaderTooLong(lim: Limits, pre: string, mark: char, n: nat, post: string)
    requires ValidLimits(lim) && |Decimal(n)| + 3 > lim.inline && mark != '\n' && mark != '\r'
    ensures ReadLine(lim, pre + ([mark] + Decimal(n) + CRLF) + post, |pre|).TooLong?
  {
    hide Cut;
    hide Decimal;
    DecimalOneLine(n);
    var text := [mark] + Decimal(n);
    var s := pre + (text + CRLF) + post;
    var i := |pre| + |text| + 1;
    forall k | |pre| <= k < i
      ensures s[k] != '\n'
    {
      if k < i - 1 {
        assert s[k] == text[k - |pre|];
      }
    }
    assert s[i] == '\n';
    LineFeedIs(s, |pre|, i);
  }

  lemma BulkRefused(lim: Limits, pre: string, arg: string, post: string)
    requires ValidLimits(lim) && |arg| < MAX64 && !ArgFits(lim, arg)
    ensures ReadBulk(lim, pre + EncodeBulk(arg) + post, |pre|).BadBulk?
  {
    hide ReadLine;
    hide LineAt;
    hide Decimal;
    hide ParseInt;
    var s := pre + EncodeBulk(arg) + post;
    if |Decimal(|arg|)| + 3 > lim.inline {
      HeaderTooLong(lim, pre, '$', |arg|, arg + CRLF + post);
      assert s == pre + (['$'] + Decimal(|arg|) + CRLF) + (arg + CRLF + post);
    } else {
      HeaderRead(lim, s, |pre|, '$', |arg|);
      Header('$', |arg|);
    }
  }

  lemma {:induction false} BulksRefused(lim: Limits, pre: string, args: seq<string>, post: string)
    requires ValidLimits(lim) && forall i | 0 <= i < |args| :: |args[i]| < MAX64
    requires exists i | 0 <= i < |args| :: !ArgFits(lim, args[i])
    ensures ReadBulks(lim, pre + EncodeBulks(args) + post, |pre|, |args|).BadBulks?
    decreases |args|
  {
    hide ReadBulk;
    hide ReadLine;
    hide EncodeBulk;
    hide ArgFits;
    var first, rest := EncodeBulk(args[0]), EncodeBulks(args[1..]);
    Regrouped(pre, first, rest, post);
    if ArgFits(lim, args[0]) {
      var i :| 0 <= i < |args| && !ArgFits(lim, args[i]);
      assert args[1..][i - 1] == args[i];
      BulkRead(lim, pre, args[0], rest + post);
      BulksRefused(lim, pre + first, args[1..], post);
    } else {
      BulkRefused(lim, pre, args[0], rest + post);
    }
  }

  lemma CountRefused(lim: Limits, pre: string, args: seq<string>, post: string)
    requires ValidLimits(lim) && |args| < MAX64 && !(HeaderFits(lim, |args|) && |args| <= lim.multiBulk)
    ensures Decode(lim, pre + Encode(args) + post, |pre|).Refused?
  {
    hide LineAt;
    hide ReadLine;
    hide Decimal;
    hide ParseInt;
    hide EncodeBulks;
    hide ReadBulks;
    hide Fields;
    var s := pre + Encode(args) + post;
    assert s == pre + (['*'] + Decimal(|args|) + CRLF) + (EncodeBulks(args) + post);
    if |Decimal(|args|)| + 3 > lim.inline {
      HeaderTooLong(lim, pre, '*', |args|, EncodeBulks(args) + post);
    } else {
      HeaderRead(lim, s, |pre|, '*', |args|);
      Header('*', |args|);
    }
  }

  /** The limits are exact: a command with a name, of lengths that are 64-bit numbers, is
      refused if it is over any of them. */
  lemma RefusedBeyond(lim: Limits, pre: string, args: seq<string>, post: string)
    requires ValidLimits(lim) && args != [] && args[0] != [] && !Sendable(lim, args)
    requires |args| < MAX64 && forall i | 0 <= i < |args| :: |args[i]| < MAX64
    ensures Decode(lim, pre + Encode(args) + post, |pre|).Refused?
  {
    if !(HeaderFits(lim, |args|) && |args| <= lim.multiBulk) {
      CountRefused(lim, pre, args, post);
    } else {
      ArgsRefused(lim, pre, args, post);
    }
  }

  lemma ArgsRefused(lim: Limits, pre: string, args: seq<string>, post: string)
    requires ValidLimits(lim) && HeaderFits(lim, |args|) && |args| <= lim.multiBulk
    requires forall i | 0 <= i < |args| :: |args[i]| < MAX64
    requires exists i | 0 <= i < |args| :: !ArgFits(lim, args[i])
    ensures Decode(lim, pre + Encode(args) + post, |pre|).Refused?
  {
    hide LineAt;
    hide ReadLine;
    hide Decimal;
    hide ParseInt;
    hide EncodeBulks;
    hide ReadBulks;
    hide Fields;
    hide ArgFits;
    var s := pre + Encode(args) + post;
    var head := "*" + Decimal(|args|) + CRLF;
    HeaderRead(lim, s, |pre|, '*', |args|);
    Header('*', |args|);
    assert s == (pre + head) + EncodeBulks(args) + post;
    BulksRefused(lim, pre + head, args, post);
  }

  // ---- The name ----

  /** A name sent without lower-case letters comes back byte for byte. */
  lemma NameAsSent(lim: Limits, pre: string, args: seq<string>, post: string)
    requires ValidLimits(lim) && Sendable(lim, args)
    requires forall i | 0 <= i < |args[0]| :: !('a' <= args[0][i] <= 'z')
    ensures Decode(lim, pre + Encode(args) + post, |pre|) == Command(args[0], args[1..], |pre| + |Encode(args)|)
  {
    hide Decode;
    hide Encode;
    RoundTrip(lim, pre, args, post);
    RaisedStays(args[0], Decode(lim, pre + Encode(args) + post, |pre|).name);
  }

  lemma RaisedStays(sent: string, name: string)
    requires Raised(sent, name) && forall i | 0 <= i < |sent| :: !('a' <= sent[i] <= 'z')
    ensures name == sent
  {
    forall i | 0 <= i < |sent|
      ensures name[i] == sent[i]
    {
      assert name[i] as int == sent[i] as int;
    }
  }

  /** The two bytes are the same letter but for its case, or the same byte. */
  predicate SameLetter(a: char, b: char) {
    a == b || ('a' <= a <= 'z' && b as int == a as int - 32) || ('a' <= b <= 'z' && a as int == b as int - 32)
  }

  predicate SameLetters(a: string, b: string) {
    |a| == |b| && forall i | 0 <= i < |a| :: SameLetter(a[i], b[i])
  }

  lemma RaisedAlike(a: string, b: string, x: string, y: string)
    requires SameLetters(a, b) && Raised(a, x) && Raised(b, y)
    ensures x == y
  {
    forall i | 0 <= i < |a|
      ensures x[i] == y[i]
    {
      assert SameLetter(a[i], b[i]);
      assert x[i] as int == y[i] as int;
    }
  }

  /** Requests that differ only in the case of the name are the same command. */
  lemma CaseIsNothing(lim: Limits, a: seq<string>, b: seq<string>)
    requires ValidLimits(lim) && Sendable(lim, a) && Sendable(lim, b) && a[1..] == b[1..] && SameLetters(a[0], b[0])
    ensures var x, y := Decode(lim, Encode(a), 0), Decode(lim, Encode(b), 0);
            x.Command? && y.Command? && x.name == y.name && x.args == y.args
  {
    hide Decode;
    hide Encode;
    hide Raised;
    assert [] + Encode(a) + [] == Encode(a) && [] + Encode(b) + [] == Encode(b);
    RoundTrip(lim, [], a, []);
    RoundTrip(lim, [], b, []);
    RaisedAlike(a[0], b[0], Decode(lim, Encode(a), 0).name, Decode(lim, Encode(b), 0).name);
  }

  // ---- Pipelines ----

  function EncodeAll(requests: seq<seq<string>>): string {
    if requests == [] then "" else Encode(requests[0]) + EncodeAll(requests[1..])
  }

  /** The commands decoded from `pos` on, and where the decoder stops. */
  function DecodeAll(lim: Limits, s: string, pos: nat): (seq<(string, seq<string>)>, nat)
    requires ValidLimits(lim) && pos <= |s|
    decreases |s| - pos
  {
    match Decode(lim, s, pos)
    case Command(name, args, next) =>
      var (rest, end) := DecodeAll(lim, s, next);
      ([(name, args)] + rest, end)
    case _ => ([], pos)
  }

  /** What a request is read as: its name in upper case, and its arguments. */
  function AsCommand(args: seq<string>): (string, seq<string>) {
    if args == [] then ("", []) else (ToUpper(args[0]), args[1..])
  }

  function AsCommands(requests: seq<seq<string>>): seq<(string, seq<string>)> {
    if requests == [] then [] else [AsCommand(requests[0])] + AsCommands(requests[1..])
  }

  /** The commands are the requests one by one: every argument byte for byte, and the name
      with nothing changed but the case. */
  predicate AreThose(commands: seq<(string, seq<string>)>, requests: seq<seq<string>>) {
    && |commands| == |requests|
    && forall k | 0 <= k < |requests| ::
         requests[k] != [] && Raised(requests[k][0], commands[k].0) && commands[k].1 == requests[k][1..]
  }

  lemma {:induction false} AsCommandsAre(requests: seq<seq<string>>)
    requires forall k | 0 <= k < |requests| :: requests[k] != []
    ensures AreThose(AsCommands(requests), requests)
  {
    hide Raised;
    hide ToUpper;
    if requests != [] {
      UpperRaises(requests[0][0]);
      AsCommandsAre(requests[1..]);
    }
  }

  lemma NothingDecoded(lim: Limits, s: string)
    requires ValidLimits(lim)
    ensures DecodeAll(lim, s, |s|) == ([], |s|)
  {
    EndOfInput(lim, s);
  }

  /** Any pipeline of requests is decoded to those requests, in order, taking exactly the
      bytes sent. */
  lemma PipelineRoundTrip(lim: Limits, pre: string, requests: seq<seq<string>>)
    requires ValidLimits(lim) && forall i | 0 <= i < |requests| :: Sendable(lim, requests[i])
    ensures var (commands, end) := DecodeAll(lim, pre + EncodeAll(requests), |pre|);
            end == |pre| + |EncodeAll(requests)| && AreThose(commands, requests)
  {
    hide *;
    forall k | 0 <= k < |requests|
      ensures requests[k] != []
    {
      SomethingSent(lim, requests[k]);
    }
    PipelineDecoded(lim, pre, requests);
    AsCommandsAre(requests);
  }

  lemma {:induction false} PipelineDecoded(lim: Limits, pre: string, requests: seq<seq<string>>)
    requires ValidLimits(lim) && forall i | 0 <= i < |requests| :: Sendable(lim, requests[i])
    ensures DecodeAll(lim, pre + EncodeAll(requests), |pre|) == (AsCommands(requests), |pre| + |EncodeAll(requests)|)
    decreases |requests|
  {
    hide Encode;
    hide ToUpper;
    hide ArgFits;
    hide HeaderFits;
    hide DecodeAll;
    var s := pre + EncodeAll(requests);
    if requests == [] {
      assert s == pre;
      NothingDecoded(lim, s);
    } else {
      var first, rest := Encode(requests[0]), EncodeAll(requests[1..]);
      FirstDecoded(lim, pre, requests[0], rest);
      assert s == (pre + first) + rest;
      PipelineDecoded(lim, pre + first, requests[1..]);
    }
  }

  lemma FirstDecoded(lim: Limits, pre: string, args: seq<string>, rest: string)
    requires ValidLimits(lim) && Sendable(lim, args)
    ensures var s := pre + Encode(args) + rest;
            var next := |pre| + |Encode(args)|;
            var (more, end) := DecodeAll(lim, s, next);
            DecodeAll(lim, s, |pre|) == ([(ToUpper(args[0]), args[1..])] + more, end)
  {
    hide Decode;
    hide Encode;
    hide ToUpper;
    hide DecodeAll;
    hide ArgFits;
    hide HeaderFits;
    CommandRead(lim, pre, args, rest);
    DecodeAllStep(lim, pre + Encode(args) + rest, |pre|);
  }

  lemma DecodeAllStep(lim: Limits, s: string, pos: nat)
    requires ValidLimits(lim) && pos <= |s| && Decode(lim, s, pos).Command?
    ensures var d := Decode(lim, s, pos);
            var (more, end) := DecodeAll(lim, s, d.next);
            DecodeAll(lim, s, pos) == ([(d.name, d.args)] + more, end)
  {
    hide Decode;
  }

  // ---- The scanner on what clients send ----

  /** Lengths of at most 18 digits. */
  predicate Countable(args: seq<string>) {
    |args| < Pow10(18) && forall i | 0 <= i < |args| :: |args[i]| < Pow10(18)
  }

  lemma ScanDecimal(n: nat)
    requires n < Pow10(18)
    ensures ScanInt(Decimal(n)) == Some(n)
  {
    hide Pow10;
    DigitsLength(n, 18);
    DigitsValue(n);
    assert IsDigit(Decimal(n)[0]);
  }

  lemma ScanOneBulk(pre: string, arg: string, post: string, count: nat)
    requires |arg| < Pow10(18) && count > 0
    ensures var s := pre + EncodeBulk(arg) + post;
            ScanElements(s, |pre|, count) == ScanElements(s, |pre| + |EncodeBulk(arg)|, count - 1)
  {
    hide LineAt;
    hide Decimal;
    hide ScanInt;
    hide Pow10;
    var s := pre + EncodeBulk(arg) + post;
    HeaderLine(pre, '$', |arg|, arg + CRLF + post);
    assert s == pre + (['$'] + Decimal(|arg|)) + CRLF + (arg + CRLF + post);
    ScanDecimal(|arg|);
    assert (['$'] + Decimal(|arg|))[1..] == Decimal(|arg|);
  }

  lemma {:induction false} ScanBulks(pre: string, args: seq<string>, post: string)
    requires forall i | 0 <= i < |args| :: |args[i]| < Pow10(18)
    ensures ScanElements(pre + EncodeBulks(args) + post, |pre|, |args|) == |pre| + |EncodeBulks(args)|
    decreases |args|
  {
    hide LineAt;
    hide EncodeBulk;
    hide ScanInt;
    hide Pow10;
    var s := pre + EncodeBulks(args) + post;
    if args != [] {
      var first, rest := EncodeBulk(args[0]), EncodeBulks(args[1..]);
      hide ScanElements;
      assert s == pre + first + (rest + post);
      ScanOneBulk(pre, args[0], rest + post, |args|);
      assert s == (pre + first) + rest + post;
      ScanBulks(pre + first, args[1..], post);
    }
  }

  lemma HeaderLine(pre: string, mark: char, n: nat, post: string)
    requires mark != '\n' && mark != '\r'
    ensures var text := [mark] + Decimal(n);
            LineAt(pre + text + CRLF + post, |pre|) == Line(text, true, |pre| + |text| + 2)
  {
    hide LineAt;
    DecimalOneLine(n);
    LineIsRead(pre, [mark] + Decimal(n), post);
  }

  lemma {:induction false} BulksAreLonger(args: seq<string>)
    ensures |EncodeBulks(args)| >= |args|
  {
    if args != [] {
      BulksAreLonger(args[1..]);
    }
  }

  /** On a request a client sends the scanner is exact: it finds the request complete, and
      measures precisely its bytes, empty name or not. */
  lemma ScanExact(args: seq<string>, post: string)
    requires args != [] && Countable(args)
    ensures ScanFrom(Encode(args) + post, 0) == |Encode(args)|
  {
    hide LineAt;
    hide Decimal;
    hide ScanInt;
    hide EncodeBulks;
    hide ScanElements;
    hide Pow10;
    var head := "*" + Decimal(|args|) + CRLF;
    var s := Encode(args) + post;
    HeaderLine([], '*', |args|, EncodeBulks(args) + post);
    assert s == [] + (['*'] + Decimal(|args|)) + CRLF + (EncodeBulks(args) + post);
    assert (['*'] + Decimal(|args|))[1..] == Decimal(|args|);
    ScanDecimal(|args|);
    BulksAreLonger(args);
    ScanBulks(head, args, post);
    assert s == head + EncodeBulks(args) + post;
  }

  lemma SomethingEncoded(args: seq<string>)
    ensures |Encode(args)| > 0
    ensures forall lim: Limits | Sendable(lim, args) :: args != []
  {
  }

  /** No request with a name, within the limits, ever makes the decoder diverge. */
  lemma SendableNeverDiverges(lim: Limits, args: seq<string>, post: string)
    requires ValidLimits(lim) && Sendable(lim, args) && Countable(args)
    ensures !Diverges(lim, Encode(args) + post, 0)
  {
    hide *;
    SomethingEncoded(args);
    var s := Encode(args) + post;
    ScanExact(args, post);
    ScannerSound(lim, s);
    assert s[..|Encode(args)|] == [] + Encode(args) + [];
    RoundTrip(lim, [], args, []);
  }

  // ---- Where the scanner's promise fails ----

  /** A multibulk request whose first element is empty: the scanner calls it complete, the
      decoder skips it and waits. */
  lemma NamelessStalls(lim: Limits, args: seq<string>)
    requires ValidLimits(lim) && args != [] && args[0] == [] && Countable(args)
    requires HeaderFits(lim, |args|) && |args| <= lim.multiBulk
    requires forall i | 0 <= i < |args| :: ArgFits(lim, args[i])
    ensures ScanFrom(Encode(args), 0) == |Encode(args)|
    ensures Decode(lim, Encode(args), 0) == More
  {
    hide ReadLine;
    hide LineAt;
    hide Decimal;
    hide ParseInt;
    hide EncodeBulks;
    hide Countable;
    hide ArgFits;
    hide ScanElements;
    hide ReadBulks;
    var head := "*" + Decimal(|args|) + CRLF;
    var s := Encode(args);
    assert s + [] == s;
    ScanExact(args, []);
    HeaderRead(lim, s, 0, '*', |args|);
    Header('*', |args|);
    assert s == head + EncodeBulks(args) + [];
    BulksRead(lim, head, args, []);
    EndOfInput(lim, s);
  }

  lemma AmbiguousHeader(lim: Limits, text: string)
    requires ValidLimits(lim) && ParseInt(text).Some? && |text| + 3 <= lim.inline
    ensures var s := "*" + text + CRLF;
            && |s| == |text| + 3 && LineAt(s, 0) == Line("*" + text, true, |s|)
            && ReadLine(lim, s, 0) == Read(Line("*" + text, true, |s|))
    ensures ("*" + text)[0] == '*' && ("*" + text)[1..] == text
  {
    hide Cut;
    hide ParseInt;
    var s := "*" + text + CRLF;
    NumberOneLine(text);
    LineIsRead([], "*" + text, []);
    assert s == [] + ("*" + text) + CRLF + [];
  }

  lemma AmbiguousScan(lim: Limits, text: string)
    requires ValidLimits(lim) && Ambiguous(text, lim.multiBulk) && |text| + 3 <= lim.inline
    ensures ScanFrom("*" + text + CRLF, 0) == |text| + 3
  {
    hide ReadLine;
    hide LineAt;
    hide ParseInt;
    hide ScanInt;
    AmbiguousHeader(lim, text);
  }

  lemma AmbiguousDecode(lim: Limits, text: string)
    requires ValidLimits(lim) && Ambiguous(text, lim.multiBulk) && |text| + 3 <= lim.inline
    ensures Decode(lim, "*" + text + CRLF, 0) == More
  {
    hide ReadBulks;
    hide ReadLine;
    hide LineAt;
    hide ParseInt;
    hide ScanInt;
    AmbiguousHeader(lim, text);
    EndOfInput(lim, "*" + text + CRLF);
  }

  /** A multibulk header with an ambiguous count: the same. */
  lemma AmbiguousStalls(lim: Limits, text: string)
    requires ValidLimits(lim) && Ambiguous(text, lim.multiBulk) && |text| + 3 <= lim.inline
    ensures ScanFrom("*" + text + CRLF, 0) == |text| + 3
    ensures Decode(lim, "*" + text + CRLF, 0) == More
  {
    hide *;
    AmbiguousScan(lim, text);
    AmbiguousDecode(lim, text);
  }

  lemma NumberOneLine(text: string)
    requires ParseInt(text).Some?
    ensures OneLine(text)
  {
    var body := if text[0] == '-' || text[0] == '+' then text[1..] else text;
    forall i | 0 <= i < |text|
      ensures text[i] != '\n'
    {
      if i > 0 || body == text {
        assert IsDigit(body[if body == text then i else i - 1]);
      }
    }
  }

  /** Two such counts: "+1", and 1 padded to 19 digits. */
  lemma AmbiguousExamples()
    ensures Ambiguous("+1", 1) && Ambiguous("0000000000000000001", 1)
  {
    hide Ambiguous;
    PlusIsAmbiguous();
    PaddingIsAmbiguous();
  }

  lemma PlusIsAmbiguous()
    ensures Ambiguous("+1", 1)
  {
    assert "+1"[1..] == "1" && "1"[..0] == "";
    assert Value("1") == 1;
  }

  const PADDED_ONE: string := "0000000000000000001"

  lemma PaddedValue()
    ensures AllDigits(PADDED_ONE) && Value(PADDED_ONE) == 1 && |PADDED_ONE| == 19
    ensures PADDED_ONE[0] == '0'
  {
    var zeros := "000000000000000000";
    assert PADDED_ONE[..18] == zeros;
    ZeroValue(zeros);
  }

  lemma PaddingIsAmbiguous()
    ensures Ambiguous(PADDED_ONE, 1)
  {
    PaddedValue();
    hide Value;
    assert PADDED_ONE[0] != '-' && PADDED_ONE[0] != '+';
  }

  lemma {:induction false} ZeroValue(s: string)
    requires forall i | 0 <= i < |s| :: s[i] == '0'
    ensures AllDigits(s) && Value(s) == 0
  {
    if s != [] {
      ZeroValue(s[..|s| - 1]);
    }
  }
}
