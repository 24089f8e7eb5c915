/** The server's completeness scanner: is a whole request in the read buffer already?
    It is one-sided, it consumes nothing, and it is not a second parser. */
module Framing {
  import opened Options
  import opened RespText

  predicate AsciiSpace(c: char) {
    c == ' ' || c == '\t' || c == '\n' || c == '\U{B}' || c == '\U{C}' || c == '\r'
  }

  predicate Ascii(c: char) {
    c < '\U{80}'
  }

  /** The line certainly yields a command name. */
  predicate CommandBytes(line: string) {
    exists i | 0 <= i < |line| :: Ascii(line[i]) && !AsciiSpace(line[i])
  }

  const MAX_DIGITS: nat := 18

  /** A plain decimal number of at most 18 digits, with an optional minus sign. */
  function ScanInt(text: string): Option<int> {
    var body := if text != [] && text[0] == '-' then text[1..] else text;
    if body == [] || |body| > MAX_DIGITS || !AllDigits(body) then None
    else if text[0] == '-' then Some(-(Value(body) as int))
    else Some(Value(body))
  }

  /** Where the request that begins at `pos` ends, or 0 when the buffer does not hold all
      of it.  A malformed request ends where the decoder refuses it. */
  function ScanFrom(buf: string, pos: nat): (n: nat)
    requires pos <= |buf|
    ensures n == 0 || pos < n <= |buf|
    decreases |buf| - pos
  {
    match LineAt(buf, pos)
    case NoLine => 0
    case Line(line, _, next) =>
      if line == [] then ScanFrom(buf, next)
      else if line[0] == '*' then
        match ScanInt(line[1..]) {
          case None => next
          case Some(count) =>
            if count < 0 then next
            else if count == 0 then ScanFrom(buf, next)
            else if count > |buf| then 0
            else ScanElements(buf, next, count)
        }
      else if CommandBytes(line) then next
      else 0
  }

  function ScanElements(buf: string, at: nat, count: nat): (n: nat)
    requires at <= |buf|
    ensures n == 0 || at <= n <= |buf|
    decreases count
  {
    if count == 0 then at
    else
      match LineAt(buf, at)
      case NoLine => 0
      case Line(line, _, next) =>
        if line == [] || line[0] != '$' then next
        else
          match ScanInt(line[1..])
          case None => next
          case Some(length) =>
            if length < 0 then next
            else if |buf| - next < length + 2 then 0
            else ScanElements(buf, next + length + 2, count - 1)
  }

  // ---- The scanner as the program runs it ----

  method ScanLine(buf: string, start: nat) returns (line: string, next: nat, ok: bool)
    requires start <= |buf|
    ensures ok == LineAt(buf, start).Line?
    ensures ok ==> line == LineAt(buf, start).text && next == LineAt(buf, start).next
  {
    for i := start to |buf|
      invariant forall k | start <= k < i :: buf[k] != '\n'
    {
      if buf[i] == '\n' {
        LineFeedIs(buf, start, i);
        var end := i;
        if end > start && buf[end - 1] == '\r' {
          end := end - 1;
        }
        return buf[start..end], i + 1, true;
      }
    }
    NoLineFeed(buf, start);
    return [], 0, false;
  }

  lemma NoLineFeed(s: string, pos: nat)
    requires pos <= |s| && forall k | pos <= k < |s| :: s[k] != '\n'
    ensures LineFeed(s, pos) == |s|
  {
  }

  method CertainlyCommand(line: string) returns (yes: bool)
    ensures yes == CommandBytes(line)
    ensures yes <==> exists i | 0 <= i < |line| :: line[i] as int < 128 && line[i] !in " \t\n\r\U{B}\U{C}"
  {
    for i := 0 to |line|
      invariant forall k | 0 <= k < i :: !Ascii(line[k]) || AsciiSpace(line[k])
    {
      if Ascii(line[i]) && !AsciiSpace(line[i]) {
        return true;
      }
    }
    return false;
  }

  method ReadInt(text: string) returns (value: int, ok: bool)
    ensures ok == ScanInt(text).Some?
    ensures ok ==> value == ScanInt(text).value
  {
    if |text| == 0 {
      return 0, false;
    }
    var negative := text[0] == '-';
    var body := if negative then text[1..] else text;
    if |body| == 0 || |body| > MAX_DIGITS {
      return 0, false;
    }
    value := 0;
    for i := 0 to |body|
      invariant AllDigits(body[..i]) && value == Value(body[..i])
    {
      if !IsDigit(body[i]) {
        return 0, false;
      }
      assert body[..i + 1][..i] == body[..i];
      value := value * 10 + DigitValue(body[i]);
    }
    assert body[..|body|] == body;
    return if negative then -value else value, true;
  }

  method MeasureElements(buf: string, start: nat, count: nat) returns (n: nat)
    requires start <= |buf|
    ensures n == ScanElements(buf, start, count)
  {
    hide LineAt;
    hide ScanInt;
    var at: nat := start;
    for k := 0 to count
      invariant at <= |buf|
      invariant ScanElements(buf, at, count - k) == ScanElements(buf, start, count)
    {
      var line, next, ok := ScanLine(buf, at);
      if !ok {
        return 0;
      }
      if |line| == 0 || line[0] != '$' {
        return next;
      }
      var length, lengthOk := ReadInt(line[1..]);
      if !lengthOk || length < 0 {
        return next;
      }
      at := next;
      if |buf| - at < length + 2 {
        return 0;
      }
      at := at + length + 2;
    }
    return at;
  }

  /** The length of the first complete request in the buffer, or 0. */
  method ScanRequest(buf: string) returns (n: nat)
    ensures n == ScanFrom(buf, 0)
  {
    hide LineAt;
    hide ScanInt;
    var pos := 0;
    while true
      invariant pos <= |buf| && ScanFrom(buf, pos) == ScanFrom(buf, 0)
      decreases |buf| - pos
    {
      var line, next, ok := ScanLine(buf, pos);
      if !ok {
        return 0;
      }
      if |line| == 0 {
        pos := next;
      } else if line[0] == '*' {
        var count, countOk := ReadInt(line[1..]);
        if !countOk || count < 0 {
          return next;
        } else if count == 0 {
          pos := next;
        } else if count > |buf| {
          return 0;
        } else {
          n := MeasureElements(buf, next, count);
          return;
        }
      } else {
        var command := CertainlyCommand(line);
        return if command then next else 0;
      }
    }
  }
}
