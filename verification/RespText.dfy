/** The text level of the Redis serialization protocol: decimal numbers and lines.
    A byte is a `char`. */
module RespText {
  import opened Options

  const CRLF: string := "\r\n"

  /** The range of the program's integers. */
  const MAX64: int := 0x8000_0000_0000_0000

  // ---- Decimal numbers ----

  predicate IsDigit(c: char) {
    '0' <= c <= '9'
  }

  predicate AllDigits(s: string) {
    forall i | 0 <= i < |s| :: IsDigit(s[i])
  }

  function DigitValue(c: char): nat
    requires IsDigit(c)
  {
    (c - '0') as nat
  }

  function DigitChar(d: nat): (c: char)
    requires d < 10
    ensures IsDigit(c) && DigitValue(c) == d
  {
    '0' + d as char
  }

  function Value(s: string): nat
    requires AllDigits(s)
  {
    if s == [] then 0 else 10 * Value(s[..|s| - 1]) + DigitValue(s[|s| - 1])
  }

  function Digits(n: nat): (s: string)
    ensures AllDigits(s) && s != []
  {
    if n < 10 then [DigitChar(n)] else Digits(n / 10) + [DigitChar(n % 10)]
  }

  /** A number as `AppendInt` prints it. */
  function Decimal(n: int): string {
    if n < 0 then "-" + Digits(-n) else Digits(n)
  }

  /** A number as `Atoi` and `ParseInt` read it: an optional sign of either kind, then
      digits, within 64 bits. */
  function ParseInt(s: string): Option<int> {
    if s == [] then None
    else
      var signed := s[0] == '-' || s[0] == '+';
      var body := if signed then s[1..] else s;
      if body == [] || !AllDigits(body) then None
      else
        var v: int := Value(body);
        if s[0] == '-' then (if v <= MAX64 then Some(-v) else None)
        else if v < MAX64 then Some(v) else None
  }

  lemma {:induction false} DigitsValue(n: nat)
    ensures Value(Digits(n)) == n
  {
    if n >= 10 {
      DigitsValue(n / 10);
      assert Digits(n)[..|Digits(n)| - 1] == Digits(n / 10);
    }
  }

  /** Printing a number and parsing the text gives the number back exactly if it fits in
      64 bits, and is refused otherwise. */
  lemma ParseDecimal(n: int)
    ensures ParseInt(Decimal(n)) == if -MAX64 <= n < MAX64 then Some(n) else None
  {
    hide Digits;
    hide Value;
    var d := Digits(if n < 0 then -n else n);
    DigitsValue(if n < 0 then -n else n);
    if n < 0 {
      assert Decimal(n)[1..] == d;
    } else {
      assert d[0] != '-' && d[0] != '+' by { assert IsDigit(d[0]); }
    }
  }

  /** What is read besides printed numbers: a plus sign and any number of leading zeros
      change nothing. */
  lemma {:induction false} ParsePadded(n: nat, zeros: string)
    requires forall i | 0 <= i < |zeros| :: zeros[i] == '0'
    ensures ParseInt(zeros + Decimal(n)) == ParseInt(Decimal(n))
    ensures ParseInt("+" + zeros + Decimal(n)) == ParseInt(Decimal(n))
    ensures ParseInt("-" + zeros + Decimal(n)) == ParseInt("-" + Decimal(n))
  {
    hide Digits;
    hide Value;
    var d := Digits(n);
    LeadingZeros(zeros, d);
    assert IsDigit(d[0]) && IsDigit((zeros + d)[0]);
    assert ("+" + zeros + d)[1..] == zeros + d == ("-" + zeros + d)[1..];
    assert ("-" + d)[1..] == d;
  }

  lemma {:induction false} LeadingZeros(zeros: string, d: string)
    requires AllDigits(d)
    requires forall i | 0 <= i < |zeros| :: zeros[i] == '0'
    ensures AllDigits(zeros + d) && Value(zeros + d) == Value(d)
  {
    if d != [] {
      var k := |d| - 1;
      LeadingZeros(zeros, d[..k]);
      assert (zeros + d)[..|zeros + d| - 1] == zeros + d[..k];
    } else if zeros != [] {
      var k := |zeros| - 1;
      LeadingZeros(zeros[..k], []);
      assert (zeros + d)[..|zeros + d| - 1] == zeros[..k] + [];
    }
  }

  /** Nothing else is a number: a text that is read has a digit, and is digits but for a
      sign in front. */
  lemma ParseOnly(s: string)
    ensures ParseInt(s).Some? ==>
              && s != []
              && s[|s| - 1] in "0123456789"
              && (forall i | 0 < i < |s| :: s[i] in "0123456789")
              && s[0] in "+-0123456789"
  {
    forall c: char | IsDigit(c)
      ensures c in "0123456789"
    {
      assert "0123456789"[(c - '0') as int] == c;
    }
    if ParseInt(s).Some? {
      var body := if s[0] == '-' || s[0] == '+' then s[1..] else s;
      assert s[|s| - 1] == body[|body| - 1];
      forall i | 0 < i < |s|
        ensures IsDigit(s[i])
      {
        assert s[i] == body[i - (|s| - |body|)];
      }
    }
  }

  function Pow10(k: nat): nat {
    if k == 0 then 1 else 10 * Pow10(k - 1)
  }

  lemma {:induction false} DigitsLength(n: nat, k: nat)
    requires k > 0 && n < Pow10(k)
    ensures |Digits(n)| <= k
  {
    if n >= 10 {
      DigitsLength(n / 10, k - 1);
    }
  }

  lemma {:induction false} ValueBound(s: string)
    requires AllDigits(s)
    ensures Value(s) < Pow10(|s|)
  {
    if s != [] {
      ValueBound(s[..|s| - 1]);
    }
  }

  /** Up to 18 digits always fit in 64 bits. */
  lemma EighteenFit(s: string)
    requires AllDigits(s) && |s| <= 18
    ensures Value(s) < MAX64
  {
    ValueBound(s);
    PowGrows(|s|, 18);
    Pow18();
  }

  lemma {:induction false} PowGrows(a: nat, b: nat)
    requires a <= b
    ensures Pow10(a) <= Pow10(b)
    decreases b - a
  {
    if a < b {
      PowGrows(a + 1, b);
    }
  }

  lemma Pow18()
    ensures Pow10(18) == 1_000_000_000_000_000_000 < MAX64
  {
    assert Pow10(4) == 10000;
    assert Pow10(8) == 100000000;
    assert Pow10(12) == 1000000000000;
    assert Pow10(16) == 10000000000000000;
  }

  // ---- Lines ----

  /** The index of the first line feed at or after `pos`, or the length when there is none. */
  function LineFeed(s: string, pos: nat): (i: nat)
    requires pos <= |s|
    ensures pos <= i <= |s|
    ensures i < |s| ==> s[i] == '\n'
    ensures forall k | pos <= k < i :: s[k] != '\n'
    decreases |s| - pos
  {
    if pos == |s| || s[pos] == '\n' then pos else LineFeed(s, pos + 1)
  }

  lemma LineFeedIs(s: string, pos: nat, i: nat)
    requires pos <= i < |s| && s[i] == '\n' && forall k | pos <= k < i :: s[k] != '\n'
    ensures LineFeed(s, pos) == i
  {
  }

  lemma {:induction false} LineFeedLater(s: string, t: string, pos: nat)
    requires pos <= |s| && LineFeed(s, pos) == |s|
    ensures LineFeed(s + t, pos) >= |s|
    decreases |s| - pos
  {
    if pos < |s| {
      LineFeedLater(s, t, pos + 1);
    }
  }

  predicate OneLine(s: string) {
    '\n' !in s
  }

  lemma DecimalOneLine(n: int)
    ensures OneLine(Decimal(n)) && '\r' !in Decimal(n) && Decimal(n) != []
  {
  }

  /** A line with its terminator taken off: a line feed, and a carriage return in front of
      it.  `next` is where the line after it begins. */
  datatype Line = Line(text: string, crlf: bool, next: nat) | NoLine

  function LineAt(s: string, pos: nat): (l: Line)
    requires pos <= |s|
    ensures l.Line? ==> pos < l.next <= |s| && l.next == LineFeed(s, pos) + 1
  {
    var i := LineFeed(s, pos);
    if i == |s| then NoLine
    else if i > pos && s[i - 1] == '\r' then Line(s[pos..i - 1], true, i + 1)
    else Line(s[pos..i], false, i + 1)
  }

  /** What follows a complete line does not change it. */
  lemma LineExtends(s: string, t: string, pos: nat)
    requires pos <= |s| && LineAt(s, pos).Line?
    ensures LineAt(s + t, pos) == LineAt(s, pos)
  {
    var i := LineFeed(s, pos);
    assert forall k | 0 <= k < |s| :: (s + t)[k] == s[k];
    LineFeedIs(s + t, pos, i);
    assert (s + t)[pos..i] == s[pos..i];
    if i > pos {
      assert (s + t)[pos..i - 1] == s[pos..i - 1];
    }
  }

  /** A printed line is read back. */
  lemma LineIsRead(pre: string, text: string, post: string)
    requires OneLine(text)
    ensures LineAt(pre + text + CRLF + post, |pre|) == Line(text, true, |pre| + |text| + 2)
  {
    var s := pre + text + CRLF + post;
    var i := |pre| + |text| + 1;
    forall k | |pre| <= k < i
      ensures s[k] != '\n'
    {
      if k < i - 1 {
        assert s[k] == text[k - |pre|];
      }
    }
    LineFeedIs(s, |pre|, i);
    assert s[|pre|..i - 1] == text;
  }
}
