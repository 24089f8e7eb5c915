/** The server's reply encoder, the client's reply decoder, and that one undoes the other.
    The two were written independently, from the Redis serialization protocol
    specification. */
module ReplyCodec {
  import opened Options
  import opened RespText

  /** A reply as the server builds it.  `Double` carries its text; `Missing` is an absent
      value, which no frame can carry. */
  datatype Reply =
    | SimpleString(text: string)
    | Error(kind: string, message: string)
    | BulkError(kind: string, message: string)
    | BulkString(bytes: string)
    | Verbatim(format: string, text: string)
    | BigNumber(text: string)
    | Double(text: string)
    | Integer(n: int)
    | Boolean(b: bool)
    | Nil
    | Array(items: seq<Reply>)
    | Set(items: seq<Reply>)
    | Push(items: seq<Reply>)
    | Map(pairs: seq<KV>)
    | Attribute(attrs: seq<KV>, value: Reply)
    | Missing

  datatype KV = KV(key: Reply, value: Reply)

  const NIL_FRAME: string := "$-1\r\n"

  // ---- The encoder ----

  function FoldChar(c: char): char {
    if c == '\r' || c == '\n' then ' ' else c
  }

  /** Text made safe for one line. */
  function Fold(text: string): (r: string)
    ensures |r| == |text|
  {
    seq(|text|, i requires 0 <= i < |text| => FoldChar(text[i]))
  }

  function ErrorText(kind: string, message: string): string {
    if kind == "" then message else kind + " " + message
  }

  function LineFrame(mark: char, text: string): string {
    [mark] + text + CRLF
  }

  function BulkFrame(payload: string): string {
    "$" + Decimal(|payload|) + CRLF + payload + CRLF
  }

  /** A reply on the wire, or nothing when some part of it is missing. */
  function Encode(r: Reply): Option<string>
    decreases r, 1
  {
    match r
    case SimpleString(text) => Some(LineFrame('+', Fold(text)))
    case Error(kind, message) => Some(LineFrame('-', Fold(ErrorText(kind, message))))
    case BulkError(kind, message) => Some(LineFrame('-', Fold(ErrorText(kind, message))))
    case BulkString(bytes) => Some(BulkFrame(bytes))
    case Verbatim(_, text) => Some(BulkFrame(text))
    case BigNumber(text) => Some(BulkFrame(text))
    case Double(text) => Some(BulkFrame(text))
    case Integer(n) => Some(LineFrame(':', Decimal(n)))
    case Boolean(b) => Some(LineFrame(':', if b then "1" else "0"))
    case Nil => Some(NIL_FRAME)
    case Array(items) => Prefix(LineFrame('*', Decimal(|items|)), EncodeItems(items))
    case Set(items) => Prefix(LineFrame('*', Decimal(|items|)), EncodeItems(items))
    case Push(items) => Prefix(LineFrame('*', Decimal(|items|)), EncodeItems(items))
    case Map(pairs) => Prefix(LineFrame('*', Decimal(2 * |pairs|)), EncodePairs(pairs))
    case Attribute(_, value) => if value == Missing then Some(NIL_FRAME) else Encode(value)
    case Missing => None
  }

  function Prefix(head: string, tail: Option<string>): Option<string> {
    if tail == None then None else Some(head + tail.value)
  }

  function EncodeItems(items: seq<Reply>): Option<string>
    decreases items, 0
  {
    if items == [] then Some("")
    else
      var head := Encode(items[0]);
      if head == None then None else Prefix(head.value, EncodeItems(items[1..]))
  }

  function EncodePair(p: KV): Option<string>
    decreases p, 0
  {
    var k, v := Encode(p.key), Encode(p.value);
    if k == None || v == None then None else Some(k.value + v.value)
  }

  function EncodePairs(pairs: seq<KV>): Option<string>
    decreases pairs, 0
  {
    if pairs == [] then Some("")
    else
      var head := EncodePair(pairs[0]);
      if head == None then None else Prefix(head.value, EncodePairs(pairs[1..]))
  }

  // ---- The decoder ----

  datatype ClientReply =
    | CNil
    | CStatus(text: string)
    | CError(kind: string, line: string)
    | CInteger(n: int)
    | CBulk(bytes: string)
    | CArray(items: seq<ClientReply>)
    | CMap(items: seq<ClientReply>)
    | CPush(items: seq<ClientReply>)
    | CBool(b: bool)
    | CDouble(text: string)
    | CBigNumber(text: string)

  datatype Result = Ok(reply: ClientReply, next: nat) | Bad | Short

  datatype Results = OkAll(replies: seq<ClientReply>, next: nat) | BadAll | ShortAll

  const MAX_BULK: nat := 512 * 1024 * 1024
  const MAX_AGGREGATE: nat := 16777216
  const MAX_DEPTH: nat := 32
  const BUFFER: nat := 16384

  datatype ReadLine = Text(text: string, next: nat) | BadLine | ShortLine

  /** A line of a reply ends in CRLF and fits the read buffer. */
  function LineOf(s: string, pos: nat): (l: ReadLine)
    requires pos <= |s|
    ensures l.Text? ==> pos < l.next <= |s|
  {
    var i := LineFeed(s, pos);
    if i < |s| && i + 1 - pos <= BUFFER then
      if i > pos && s[i - 1] == '\r' then Text(s[pos..i - 1], i + 1) else BadLine
    else if |s| - pos >= BUFFER then BadLine
    else ShortLine
  }

  function FirstWord(line: string, i: nat): string
    requires i <= |line|
    decreases |line| - i
  {
    if i == |line| then line else if line[i] == ' ' then line[..i] else FirstWord(line, i + 1)
  }

  function ErrorReply(line: string): ClientReply {
    CError(FirstWord(line, 0), line)
  }

  /** The replies that are complete with their line. */
  function DecodeScalar(mark: char, line: string, next: nat): Result {
    match mark
    case '+' => Ok(CStatus(line), next)
    case '-' => Ok(ErrorReply(line), next)
    case ':' => (match ParseInt(line) case Some(n) => Ok(CInteger(n), next) case None => Bad)
    case '_' => if line == "" then Ok(CNil, next) else Bad
    case '#' => if line == "t" then Ok(CBool(true), next) else if line == "f" then Ok(CBool(false), next) else Bad
    case ',' => Ok(CDouble(line), next)
    case '(' => Ok(CBigNumber(line), next)
    case _ => Bad
  }

  /** A length-prefixed string; a negative length is the null reply. */
  function DecodeBulk(s: string, line: string, pos: nat, verbatim: bool): (r: Result)
    requires pos <= |s|
    ensures r.Ok? ==> pos <= r.next <= |s|
  {
    match ParseInt(line)
    case None => Bad
    case Some(n) =>
      if n < 0 then Ok(CNil, pos)
      else if n > MAX_BULK then Bad
      else if |s| - pos < n + 2 then Short
      else if s[pos + n..pos + n + 2] != CRLF then Bad
      else
        var payload := s[pos..pos + n];
        if !verbatim then Ok(CBulk(payload), pos + n + 2)
        else if |payload| < 4 || payload[3] != ':' then Bad
        else Ok(CBulk(payload[4..]), pos + n + 2)
  }

  function AsError(r: Result): Result {
    // a length-prefixed error; the null reply has no text
    if r.Ok? then Ok(ErrorReply(if r.reply.CBulk? then r.reply.bytes else ""), r.next) else r
  }

  function Decode(s: string, pos: nat, depth: nat): (r: Result)
    requires pos <= |s|
    ensures r.Ok? ==> pos < r.next <= |s|
    decreases |s| - pos, 0
  {
    if depth > MAX_DEPTH then Bad
    else if pos == |s| then Short
    else
      match LineOf(s, pos + 1)
      case BadLine => Bad
      case ShortLine => Short
      case Text(line, next) =>
        match s[pos]
        case '$' => DecodeBulk(s, line, next, false)
        case '=' => DecodeBulk(s, line, next, true)
        case '!' => AsError(DecodeBulk(s, line, next, false))
        case '*' => Aggregate(s, line, next, depth, false, false)
        case '~' => Aggregate(s, line, next, depth, false, false)
        case '>' => Aggregate(s, line, next, depth, false, true)
        case '%' => Aggregate(s, line, next, depth, true, false)
        case _ => DecodeScalar(s[pos], line, next)
  }

  /** An array, set, push or map; the length of a map counts pairs. */
  function Aggregate(s: string, line: string, pos: nat, depth: nat, pairs: bool, push: bool): (r: Result)
    requires pos <= |s|
    ensures r.Ok? ==> pos <= r.next <= |s|
    decreases |s| - pos, MAX64 + MAX64
  {
    match ParseInt(line)
    case None => Bad
    case Some(n) =>
      if n < 0 then Ok(CNil, pos)
      else if n > MAX_AGGREGATE then Bad
      else
        match DecodeItems(s, pos, if pairs then 2 * n else n, depth)
        case OkAll(replies, next) =>
          Ok(if pairs then CMap(replies) else if push then CPush(replies) else CArray(replies), next)
        case BadAll => Bad
        case ShortAll => Short
  }

  function DecodeItems(s: string, pos: nat, n: nat, depth: nat): (r: Results)
    requires pos <= |s|
    ensures r.OkAll? ==> pos <= r.next <= |s| && |r.replies| == n
    decreases |s| - pos, n
  {
    if n == 0 then OkAll([], pos)
    else
      match Decode(s, pos, depth + 1)
      case Bad => BadAll
      case Short => ShortAll
      case Ok(reply, next) =>
        match DecodeItems(s, next, n - 1, depth)
        case OkAll(replies, end) => OkAll([reply] + replies, end)
        case r => r
  }

  // ---- What a reply means to a RESP2 client ----

  function FoldedError(kind: string, message: string): ClientReply {
    ErrorReply(Fold(ErrorText(kind, message)))
  }

  /** The RESP2 normal form: sets, pushes and maps are arrays, booleans are integers, an
      attribute is its value, and status and error text is folded onto one line. */
  function Normal(r: Reply): ClientReply
    decreases r, 1
  {
    match r
    case SimpleString(text) => CStatus(Fold(text))
    case Error(kind, message) => FoldedError(kind, message)
    case BulkError(kind, message) => FoldedError(kind, message)
    case BulkString(bytes) => CBulk(bytes)
    case Verbatim(_, text) => CBulk(text)
    case BigNumber(text) => CBulk(text)
    case Double(text) => CBulk(text)
    case Integer(n) => CInteger(n)
    case Boolean(b) => CInteger(if b then 1 else 0)
    case Nil => CNil
    case Array(items) => CArray(NormalItems(items))
    case Set(items) => CArray(NormalItems(items))
    case Push(items) => CArray(NormalItems(items))
    case Map(pairs) => CArray(NormalPairs(pairs))
    case Attribute(_, value) => Normal(value)
    case Missing => CNil
  }

  function NormalItems(items: seq<Reply>): (rs: seq<ClientReply>)
    ensures |rs| == |items|
    decreases items, 0
  {
    if items == [] then [] else [Normal(items[0])] + NormalItems(items[1..])
  }

  function NormalPair(p: KV): (rs: seq<ClientReply>)
    ensures |rs| == 2
    decreases p, 0
  {
    [Normal(p.key), Normal(p.value)]
  }

  function NormalPairs(pairs: seq<KV>): (rs: seq<ClientReply>)
    ensures |rs| == 2 * |pairs|
    decreases pairs, 0
  {
    if pairs == [] then [] else NormalPair(pairs[0]) + NormalPairs(pairs[1..])
  }

  // ---- The client's bounds ----

  predicate LineFits(text: string) {
    |text| + 2 <= BUFFER
  }

  /** The reply, at this nesting depth, is within what the client accepts. */
  predicate Fits(r: Reply, depth: nat)
    decreases r, 1
  {
    match r
    case SimpleString(text) => depth <= MAX_DEPTH && LineFits(text)
    case Error(kind, message) => depth <= MAX_DEPTH && LineFits(ErrorText(kind, message))
    case BulkError(kind, message) => depth <= MAX_DEPTH && LineFits(ErrorText(kind, message))
    case BulkString(bytes) => depth <= MAX_DEPTH && |bytes| <= MAX_BULK
    case Verbatim(_, text) => depth <= MAX_DEPTH && |text| <= MAX_BULK
    case BigNumber(text) => depth <= MAX_DEPTH && |text| <= MAX_BULK
    case Double(text) => depth <= MAX_DEPTH && |text| <= MAX_BULK
    case Integer(_) => depth <= MAX_DEPTH
    case Boolean(_) => depth <= MAX_DEPTH
    case Nil => depth <= MAX_DEPTH
    case Array(items) => depth <= MAX_DEPTH && |items| <= MAX_AGGREGATE && ItemsFit(items, depth + 1)
    case Set(items) => depth <= MAX_DEPTH && |items| <= MAX_AGGREGATE && ItemsFit(items, depth + 1)
    case Push(items) => depth <= MAX_DEPTH && |items| <= MAX_AGGREGATE && ItemsFit(items, depth + 1)
    case Map(pairs) => depth <= MAX_DEPTH && 2 * |pairs| <= MAX_AGGREGATE && PairsFit(pairs, depth + 1)
    case Attribute(_, value) => if value == Missing then depth <= MAX_DEPTH else Fits(value, depth)
    case Missing => false
  }

  predicate ItemsFit(items: seq<Reply>, depth: nat)
    decreases items, 0
  {
    items != [] ==> Fits(items[0], depth) && ItemsFit(items[1..], depth)
  }

  predicate PairFits(p: KV, depth: nat)
    decreases p, 0
  {
    Fits(p.key, depth) && Fits(p.value, depth)
  }

  predicate PairsFit(pairs: seq<KV>, depth: nat)
    decreases pairs, 0
  {
    pairs != [] ==> PairFits(pairs[0], depth) && PairsFit(pairs[1..], depth)
  }

  /** Integers and lengths are 64-bit numbers, as everywhere in the program. */
  predicate Representable(r: Reply)
    decreases r, 1
  {
    match r
    case BulkString(bytes) => |bytes| < MAX64
    case Verbatim(_, text) => |text| < MAX64
    case BigNumber(text) => |text| < MAX64
    case Double(text) => |text| < MAX64
    case Integer(n) => -MAX64 <= n < MAX64
    case Array(items) => |items| < MAX64 && ItemsRepresentable(items)
    case Set(items) => |items| < MAX64 && ItemsRepresentable(items)
    case Push(items) => |items| < MAX64 && ItemsRepresentable(items)
    case Map(pairs) => 2 * |pairs| < MAX64 && PairsRepresentable(pairs)
    case Attribute(_, value) => Representable(value)
    case _ => true
  }

  predicate ItemsRepresentable(items: seq<Reply>)
    decreases items, 0
  {
    items != [] ==> Representable(items[0]) && ItemsRepresentable(items[1..])
  }

  predicate PairRepresentable(p: KV)
    decreases p, 0
  {
    Representable(p.key) && Representable(p.value)
  }

  predicate PairsRepresentable(pairs: seq<KV>)
    decreases pairs, 0
  {
    pairs != [] ==> PairRepresentable(pairs[0]) && PairsRepresentable(pairs[1..])
  }
}
