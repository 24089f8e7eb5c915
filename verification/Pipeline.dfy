/** The server's pipelining loop: decode everything already buffered, answer it in order,
    and flush once, but always before a read that could block. */
module Pipeline {
  import opened Options
  import opened Framing
  import opened RequestDecoder
  import opened FramingSound
  import opened RequestCodec
  import BufferedReader
  import ReplyCodec
  import ReplyRoundTrip
  import ReplyStreams
  import RequestReader

  const FLUSH_BYTES: nat := 16384

  /** The replies of one batch. */
  class OutputBuffer {
    var buf: string
    var commands: nat
    const limit: nat

    constructor (limit: nat)
      ensures this.limit == limit && buf == "" && commands == 0
    {
      this.limit, buf, commands := limit, "", 0;
    }

    /** Adds one reply; fails when it cannot be encoded, or when the batch has grown over the
        limit. */
    method Append(reply: ReplyCodec.Reply) returns (ok: bool)
      modifies this
      ensures buf == old(buf) + Text(reply)
      ensures commands == old(commands) + if ReplyCodec.Encode(reply).Some? then 1 else 0
      ensures ok <==> ReplyCodec.Encode(reply).Some? && (limit == 0 || |buf| <= limit)
    {
      hide ReplyCodec.Encode;
      var more := ReplyStreams.AppendReply(buf, reply);
      if more == None {
        return false;
      }
      buf := more.value;
      commands := commands + 1;
      ok := limit == 0 || |buf| <= limit;
    }

    /** Hands the batch to the connection and empties it.  A write that fails may have got
        part of it out. */
    method Flush() returns (out: string, ok: bool)
      modifies this
      ensures buf == "" && commands == 0
      ensures out <= old(buf) && (ok ==> out == old(buf))
    {
      ok := *;
      var k: nat :| k <= |buf|;
      out := if ok || buf == "" then buf else buf[..k];
      buf, commands := "", 0;
    }
  }

  /** The input, whatever pieces it comes in. */
  function Flat(ss: seq<string>): string {
    if ss == [] then "" else ss[0] + Flat(ss[1..])
  }

  /** A reply as it is sent; nothing when it cannot be encoded. */
  function Text(reply: ReplyCodec.Reply): string {
    match ReplyCodec.Encode(reply)
    case None => ""
    case Some(text) => text
  }

  /** The answer to the `n`-th command, and whether it closes the connection. */
  type Dispatch = (nat, (string, seq<string>)) -> (ReplyCodec.Reply, bool)

  /** What a client that sends `s`, and no more, is owed, its first command being the `n`-th:
      the answer to every command in order, up to one that closes the connection or cannot be
      encoded, and a protocol error where one ends the input. */
  function Owed(lim: Limits, s: string, n: nat, dispatch: Dispatch, refusal: ReplyCodec.Reply): string
    requires ValidLimits(lim)
    decreases |s|
  {
    match Decode(lim, s, 0)
    case Command(name, args, next) =>
      var (reply, closes) := dispatch(n, (name, args));
      if closes || ReplyCodec.Encode(reply) == None then Text(reply)
      else Text(reply) + Owed(lim, s[next..], n + 1, dispatch, refusal)
    case Refused(_) => Text(refusal)
    case More => if Decode(AtEnd(lim), s, 0).Refused? then Text(refusal) else ""
  }

  /** The commands from the `n`-th on are answered, and none of them closes the connection. */
  ghost predicate Served(commands: seq<(string, seq<string>)>, n: nat, dispatch: Dispatch) {
    forall k | 0 <= k < |commands| ::
      !dispatch(n + k, commands[k]).1 && ReplyCodec.Encode(dispatch(n + k, commands[k]).0).Some?
  }

  /** The answers to these commands, in order. */
  function Answers(commands: seq<(string, seq<string>)>, n: nat, dispatch: Dispatch): string {
    if commands == [] then "" else Text(dispatch(n, commands[0]).0) + Answers(commands[1..], n + 1, dispatch)
  }

  lemma ServedRest(commands: seq<(string, seq<string>)>, n: nat, dispatch: Dispatch)
    requires commands != [] && Served(commands, n, dispatch)
    ensures !dispatch(n, commands[0]).1 && ReplyCodec.Encode(dispatch(n, commands[0]).0).Some?
    ensures Served(commands[1..], n + 1, dispatch)
  {
    hide ReplyCodec.Encode;
    assert dispatch(n + 0, commands[0]) == dispatch(n, commands[0]);
    forall k | 0 <= k < |commands[1..]|
      ensures !dispatch(n + 1 + k, commands[1..][k]).1 && ReplyCodec.Encode(dispatch(n + 1 + k, commands[1..][k]).0).Some?
    {
      assert dispatch(n + (k + 1), commands[k + 1]) == dispatch(n + 1 + k, commands[1..][k]);
    }
  }

  /** A client that sends requests is owed exactly the answers to them, in order. */
  lemma {:induction false} OwedForRequests(lim: Limits, requests: seq<seq<string>>, n: nat, dispatch: Dispatch,
                                           refusal: ReplyCodec.Reply)
    requires ValidLimits(lim) && forall i | 0 <= i < |requests| :: Sendable(lim, requests[i])
    requires Served(AsCommands(requests), n, dispatch)
    ensures Owed(lim, EncodeAll(requests), n, dispatch, refusal) == Answers(AsCommands(requests), n, dispatch)
    decreases |requests|
  {
    hide Decode;
    hide Encode;
    hide ArgFits;
    hide HeaderFits;
    hide ToUpper;
    hide ReplyCodec.Encode;
    if requests == [] {
      EndOfInput(lim, "");
      EndOfInput(AtEnd(lim), "");
    } else {
      var first, rest := Encode(requests[0]), EncodeAll(requests[1..]);
      FirstDecodes(lim, requests[0], rest);
      assert (first + rest)[|first|..] == rest;
      var commands := AsCommands(requests);
      assert commands[0] == AsCommand(requests[0]) && commands[1..] == AsCommands(requests[1..]);
      ServedRest(commands, n, dispatch);
      hide Served;
      OwedForRequests(lim, requests[1..], n + 1, dispatch, refusal);
    }
  }

  // ---- What the client makes of it ----

  /** The next `n` replies on a connection, and where they end. */
  function ReadReplies(s: string, pos: nat, n: nat): Option<(seq<ReplyCodec.ClientReply>, nat)>
    requires pos <= |s|
    decreases n
  {
    if n == 0 then Some(([], pos))
    else
      match ReplyCodec.Decode(s, pos, 0)
      case Ok(reply, next) =>
        var rest := ReadReplies(s, next, n - 1);
        if rest == None then None else Some(([reply] + rest.value.0, rest.value.1))
      case _ => None
  }

  /** Every answer is one the client can read. */
  ghost predicate Readable(commands: seq<(string, seq<string>)>, n: nat, dispatch: Dispatch) {
    forall k | 0 <= k < |commands| ::
      && ReplyCodec.Representable(dispatch(n + k, commands[k]).0)
      && ReplyCodec.Fits(dispatch(n + k, commands[k]).0, 0)
  }

  function Normals(commands: seq<(string, seq<string>)>, n: nat, dispatch: Dispatch): seq<ReplyCodec.ClientReply>
    decreases |commands|
  {
    if commands == [] then [] else [ReplyCodec.Normal(dispatch(n, commands[0]).0)] + Normals(commands[1..], n + 1, dispatch)
  }

  lemma ReadableRest(commands: seq<(string, seq<string>)>, n: nat, dispatch: Dispatch)
    requires commands != [] && Readable(commands, n, dispatch)
    ensures ReplyCodec.Representable(dispatch(n, commands[0]).0) && ReplyCodec.Fits(dispatch(n, commands[0]).0, 0)
    ensures Readable(commands[1..], n + 1, dispatch)
  {
    hide ReplyCodec.Representable;
    hide ReplyCodec.Fits;
    assert dispatch(n + 0, commands[0]) == dispatch(n, commands[0]);
    forall k | 0 <= k < |commands[1..]|
      ensures ReplyCodec.Representable(dispatch(n + 1 + k, commands[1..][k]).0)
      ensures ReplyCodec.Fits(dispatch(n + 1 + k, commands[1..][k]).0, 0)
    {
      assert dispatch(n + (k + 1), commands[k + 1]) == dispatch(n + 1 + k, commands[1..][k]);
    }
  }

  lemma {:induction false} AnswersRead(pre: string, commands: seq<(string, seq<string>)>, n: nat, dispatch: Dispatch, post: string)
    requires Served(commands, n, dispatch) && Readable(commands, n, dispatch)
    ensures var text := Answers(commands, n, dispatch);
            ReadReplies(pre + text + post, |pre|, |commands|)
            == Some((Normals(commands, n, dispatch), |pre| + |text|))
    decreases |commands|
  {
    hide ReplyCodec.Encode;
    hide ReplyCodec.Decode;
    hide ReplyCodec.Normal;
    hide ReplyCodec.Fits;
    hide ReplyCodec.Representable;
    if commands != [] {
      ServedRest(commands, n, dispatch);
      ReadableRest(commands, n, dispatch);
      hide Served;
      hide Readable;
      var reply := dispatch(n, commands[0]).0;
      var rest := Answers(commands[1..], n + 1, dispatch);
      ReplyRoundTrip.RoundTrip(pre, reply, rest + post, 0);
      assert pre + Text(reply) + (rest + post) == pre + (Text(reply) + rest) + post;
      AnswersRead(pre + Text(reply), commands[1..], n + 1, dispatch, post);
      assert (pre + Text(reply)) + rest + post == pre + (Text(reply) + rest) + post;
    }
  }

  /** From client to client: what is owed for a pipeline of requests is read back, reply by
      reply, as the normal form of the answers to exactly those commands, with nothing left. */
  lemma EndToEnd(lim: Limits, requests: seq<seq<string>>, dispatch: Dispatch, refusal: ReplyCodec.Reply)
    requires ValidLimits(lim) && forall i | 0 <= i < |requests| :: Sendable(lim, requests[i])
    requires Served(AsCommands(requests), 0, dispatch) && Readable(AsCommands(requests), 0, dispatch)
    ensures var text := Owed(lim, EncodeAll(requests), 0, dispatch, refusal);
            ReadReplies(text, 0, |AsCommands(requests)|) == Some((Normals(AsCommands(requests), 0, dispatch), |text|))
  {
    hide *;
    OwedForRequests(lim, requests, 0, dispatch, refusal);
    var text := Answers(AsCommands(requests), 0, dispatch);
    AnswersRead("", AsCommands(requests), 0, dispatch, "");
    assert "" + text + "" == text;
  }

  /** What follows the bytes at hand does not change what is decoded from them. */
  lemma OwedStep(lim: Limits, s: string, more: string, n: nat, dispatch: Dispatch, refusal: ReplyCodec.Reply, d: Decoded)
    requires ValidLimits(lim) && d == Decode(lim, s, 0) && d != More && (d.Command? ==> d.next <= |s|)
    ensures d.Refused? ==> Owed(lim, s + more, n, dispatch, refusal) == Text(refusal)
    ensures d.Command? ==>
              var (reply, closes) := dispatch(n, (d.name, d.args));
              Owed(lim, s + more, n, dispatch, refusal)
              == if closes || ReplyCodec.Encode(reply) == None then Text(reply)
                 else Text(reply) + Owed(lim, s[d.next..] + more, n + 1, dispatch, refusal)
  {
    hide ReplyCodec.Encode;
    hide Text;
    DecodeExtends(lim, s, more, 0);
    if d.Command? {
      assert (s + more)[d.next..] == s[d.next..] + more;
    }
    hide Decode;
  }

  lemma OwedAtEnd(lim: Limits, s: string, n: nat, dispatch: Dispatch, refusal: ReplyCodec.Reply)
    requires ValidLimits(lim) && Decode(lim, s, 0) == More
    ensures Owed(lim, s + Flat([]), n, dispatch, refusal)
            == if LastDecode(lim, s, 0, true).Refused? then Text(refusal) else ""
  {
    assert s + "" == s;
    hide Decode;
    hide Text;
  }

  datatype Settings = Settings(lim: Limits, maxCommands: nat, maxOutput: nat)

  /** Wherever a request begins, nothing that may arrive of the rest of the input diverges. */
  ghost predicate Steady(lim: Limits, s: string)
    requires ValidLimits(lim)
    decreases |s|
  {
    && (forall k | 0 <= k <= |s| :: !Diverges(lim, s[..k], 0))
    && (Decode(lim, s, 0).Command? ==> Steady(lim, s[Decode(lim, s, 0).next..]))
  }

  lemma SteadyRest(lim: Limits, s: string)
    requires ValidLimits(lim) && Decode(lim, s, 0).Command? && Steady(lim, s)
    ensures Steady(lim, s[Decode(lim, s, 0).next..])
  {
    hide Diverges;
    hide Decode;
  }

  lemma SteadyStep(lim: Limits, s: string, more: string)
    requires ValidLimits(lim) && Decode(lim, s, 0).Command? && Steady(lim, s + more)
    ensures Steady(lim, s[Decode(lim, s, 0).next..] + more)
  {
    hide *;
    DecodeExtends(lim, s, more, 0);
    SteadyRest(lim, s + more);
    var next := Decode(lim, s, 0).next;
    assert (s + more)[next..] == s[next..] + more;
  }

  /** What clients send is steady. */
  lemma {:induction false} RequestsAreSteady(lim: Limits, requests: seq<seq<string>>)
    requires ValidLimits(lim) && forall i | 0 <= i < |requests| :: Sendable(lim, requests[i]) && Countable(requests[i])
    ensures Steady(lim, EncodeAll(requests))
    decreases |requests|
  {
    hide Decode;
    hide Diverges;
    hide Encode;
    hide Sendable;
    hide Countable;
    if requests == [] {
      NothingDiverges(lim);
    } else {
      var first, rest := Encode(requests[0]), EncodeAll(requests[1..]);
      RequestsAreSteady(lim, requests[1..]);
      FirstDecodes(lim, requests[0], rest);
      SendableNeverDiverges(lim, requests[0], rest);
      var s := first + rest;
      forall k | 0 <= k <= |s|
        ensures !Diverges(lim, s[..k], 0)
      {
        DivergesExtends(lim, s[..k], s[k..], 0);
        WithinIsPrefix(s, k);
      }
      assert s[|first|..] == rest;
    }
  }

  lemma FirstDecodes(lim: Limits, args: seq<string>, rest: string)
    requires ValidLimits(lim) && Sendable(lim, args)
    ensures Decode(lim, Encode(args) + rest, 0) == Command(ToUpper(args[0]), args[1..], |Encode(args)|)
  {
    hide Decode;
    hide Encode;
    RoundTrip(lim, "", args, rest);
    assert "" + Encode(args) + rest == Encode(args) + rest;
  }

  lemma NothingDiverges(lim: Limits)
    requires ValidLimits(lim)
    ensures Steady(lim, "")
  {
    EndOfInput(lim, "");
    assert ""[..0] == "";
  }

  /** Whether the batch is not over: the next request is complete in what the read buffer
      holds, the first `held` bytes of what has arrived. */
  method RequestBuffered(lim: Limits, arrived: string, held: nat, ghost rest: string) returns (yes: bool)
    requires ValidLimits(lim) && held <= |arrived|
    ensures yes <==> ScanFrom(arrived[..held], 0) > 0
    ensures yes && Steady(lim, arrived + rest) ==> Decode(lim, arrived, 0) != More
  {
    yes := false;
    if held > 0 {
      var n := ScanRequest(arrived[..held]);
      yes := n > 0;
      if yes && Steady(lim, arrived + rest) {
        assert (arrived + rest)[..held] == arrived[..held];
        ScannerSound(lim, arrived[..held]);
        DecodeExtends(lim, arrived[..held], arrived[held..], 0);
        WithinIsPrefix(arrived, held);
      }
    }
  }

  /** What has arrived and has not been decoded, and what is still to arrive. */
  function Unread(arrived: string, incoming: seq<string>): string {
    arrived + Flat(incoming)
  }

  ghost predicate AllAre(waits: seq<nat>, held: nat) {
    forall k | 0 <= k < |waits| :: waits[k] == held
  }

  /** Waits for input until the next request can be decided, or the input is over. */
  method DecodeBlocking(lim: Limits, arrived: string, incoming: seq<string>, held: nat)
    returns (d: Decoded, arrived': string, incoming': seq<string>, ghost waits: seq<nat>)
    requires ValidLimits(lim)
    ensures d == LastDecode(lim, arrived', 0, incoming' == []) && (d == More ==> incoming' == [])
    ensures Unread(arrived', incoming') == Unread(arrived, incoming)
    ensures AllAre(waits, held) && |waits| + |incoming'| == |incoming|
    ensures Decode(lim, arrived, 0) != More ==> waits == []
  {
    hide Decode;
    arrived', incoming', waits := arrived, incoming, [];
    d := DecodeBuffered(lim, arrived', incoming' == []);
    while d == More && incoming' != []
      invariant d == LastDecode(lim, arrived', 0, incoming' == [])
      invariant arrived' + Flat(incoming') == arrived + Flat(incoming)
      invariant AllAre(waits, held) && |waits| + |incoming'| == |incoming|
      invariant Decode(lim, arrived, 0) != More ==> waits == [] && d != More
      decreases |incoming'|
    {
      waits := waits + [held];
      assert arrived' + (incoming'[0] + Flat(incoming'[1..])) == (arrived' + incoming'[0]) + Flat(incoming'[1..]);
      arrived', incoming' := arrived' + incoming'[0], incoming'[1..];
      d := DecodeBuffered(lim, arrived', incoming' == []);
    }
  }

  /** The decoder, on what has arrived. */
  method DecodeBuffered(lim: Limits, arrived: string, ended: bool) returns (d: Decoded)
    requires ValidLimits(lim)
    ensures d == LastDecode(lim, arrived, 0, ended)
  {
    hide Decode;
    var r := new BufferedReader.Reader(arrived, lim.buffer, ended);
    d := RequestReader.DecodeNext(lim, r);
  }

  /** How a connection ended: with its input, with a protocol error, with a command that
      closes it, or cut off before. */
  datatype Ending = Drained | Rejected | Closed | Cut

  /** The batch in hand at every decode was under both caps. */
  ghost predicate UnderCaps(cfg: Settings, decodes: seq<(nat, nat)>) {
    forall k | 0 <= k < |decodes| :: decodes[k].0 < cfg.maxCommands && decodes[k].1 < FLUSH_BYTES
  }

  /** Nothing was in hand at any wait for input. */
  ghost predicate NothingHeld(waits: seq<nat>) {
    forall k | 0 <= k < |waits| :: waits[k] == 0
  }

  /** The connection handler.  `decodes` are the batches (commands, bytes) in hand when a
      command was decoded, `waits` the bytes in hand whenever the server waited for another
      piece of input. */
  method Handle(cfg: Settings, incoming: seq<string>, dispatch: Dispatch, refusal: ReplyCodec.Reply)
    returns (written: string, end: Ending, ghost decodes: seq<(nat, nat)>, ghost waits: seq<nat>)
    requires ValidLimits(cfg.lim) && cfg.maxCommands > 0
    // what the client has received is a prefix of what it is owed, however the input was cut
    // into pieces, and all of it unless the connection was cut off
    ensures written <= Owed(cfg.lim, Flat(incoming), 0, dispatch, refusal)
    ensures end != Cut ==> written == Owed(cfg.lim, Flat(incoming), 0, dispatch, refusal)
    ensures UnderCaps(cfg, decodes)
    ensures Steady(cfg.lim, Flat(incoming)) ==> NothingHeld(waits)
    ensures end == Drained ==> |waits| == |incoming|
  {
    hide Decode;
    hide AllAre;
    hide LastDecode;
    hide Steady;
    hide UnderCaps;
    hide NothingHeld;
    hide Flat;
    hide Owed;
    hide Balance;
    hide Unread;
    var out := new OutputBuffer(cfg.maxOutput);
    var arrived, rest, n := "", incoming, 0;
    written, decodes, waits := "", [], [];
    ghost var owed := Owed(cfg.lim, Flat(incoming), 0, dispatch, refusal);
    NothingYet(cfg, incoming, owed);
    while true
      invariant fresh(out) && out.limit == cfg.maxOutput
      invariant Balance(written, out.buf, Owed(cfg.lim, Unread(arrived, rest), n, dispatch, refusal), owed)
      invariant out.commands < cfg.maxCommands && |out.buf| < FLUSH_BYTES
      invariant UnderCaps(cfg, decodes) && |waits| + |rest| == |incoming|
      invariant Steady(cfg.lim, Flat(incoming)) ==> NothingHeld(waits) && Steady(cfg.lim, Unread(arrived, rest))
      // the loop's promise: replies in hand mean that the next decode does not block
      invariant Steady(cfg.lim, Flat(incoming)) && out.buf != "" ==> Decode(cfg.lim, arrived, 0) != More
      decreases |Unread(arrived, rest)|
    {
      OneMoreDecode(cfg, decodes, out.commands, |out.buf|);
      decodes := decodes + [(out.commands, |out.buf|)];
      ghost var held, more := |out.buf|, [];
      var stopped;
      arrived, rest, written, stopped, more := Turn(cfg, out, arrived, rest, n, dispatch, refusal, written, owed);
      OneMoreWait(waits, more, held);
      waits := waits + more;
      n := n + 1;
      if stopped.Some? {
        return written, stopped.value, decodes, waits;
      }
    }
  }

  /** One turn of the loop: a command decoded and answered, and the batch ended if it must be. */
  method Turn(cfg: Settings, out: OutputBuffer, arrived: string, rest: seq<string>, n: nat,
              dispatch: Dispatch, refusal: ReplyCodec.Reply, written: string, ghost owed: string)
    returns (arrived': string, rest': seq<string>, written': string, stopped: Option<Ending>, ghost waits: seq<nat>)
    requires ValidLimits(cfg.lim) && out.commands < cfg.maxCommands && |out.buf| < FLUSH_BYTES
    requires Balance(written, out.buf, Owed(cfg.lim, Unread(arrived, rest), n, dispatch, refusal), owed)
    modifies out
    ensures AllAre(waits, |old(out.buf)|) && |waits| + |rest'| == |rest|
    ensures Decode(cfg.lim, arrived, 0) != More ==> waits == []
    ensures stopped.Some? ==> written' <= owed && (stopped != Some(Cut) ==> written' == owed)
    ensures stopped == Some(Drained) ==> rest' == []
    ensures stopped.None? ==>
              && Balance(written', out.buf, Owed(cfg.lim, Unread(arrived', rest'), n + 1, dispatch, refusal), owed)
              && out.commands < cfg.maxCommands && |out.buf| < FLUSH_BYTES
              && |Unread(arrived', rest')| < |Unread(arrived, rest)|
              && (Steady(cfg.lim, Unread(arrived, rest)) ==>
                    && Steady(cfg.lim, Unread(arrived', rest'))
                    && (out.buf != "" ==> Decode(cfg.lim, arrived', 0) != More))
  {
    hide Decode;
    hide LastDecode;
    hide AllAre;
    hide Steady;
    hide Flat;
    hide Owed;
    hide Balance;
    hide Unread;
    var d;
    d, arrived', rest', waits := DecodeBlocking(cfg.lim, arrived, rest, |out.buf|);
    if !d.Command? {
      var end;
      written', end := Finish(out, d, cfg.lim, arrived', rest', n, dispatch, refusal, written, owed);
      stopped := Some(end);
      return;
    }
    CommandIsDecoded(cfg.lim, arrived', rest' == []);
    var ok, close;
    ok, close, arrived' := Answer(out, d, cfg.lim, arrived', rest', n, dispatch, refusal, written, owed);
    if !ok {
      written', stopped := written, Some(Cut);
      return;
    }
    ghost var left := if close then "" else Owed(cfg.lim, Unread(arrived', rest'), n + 1, dispatch, refusal);
    // The server may be stopping, and the read buffer holds some first part of what has arrived.
    var halted: bool := *;
    var held: nat :| held <= |arrived'|;
    written', stopped := EndBatch(cfg, out, close, halted, held, arrived', rest', written, left, owed);
  }

  /** Ends the batch, unless it is under the caps and the next request is already here; and
      then the connection, when a command closes it, the server stops, or the write fails. */
  method EndBatch(cfg: Settings, out: OutputBuffer, close: bool, halted: bool, held: nat, arrived: string,
                  ghost rest: seq<string>, written: string, ghost left: string, ghost owed: string)
    returns (written': string, stopped: Option<Ending>)
    requires ValidLimits(cfg.lim) && cfg.maxCommands > 0 && held <= |arrived|
    requires Balance(written, out.buf, left, owed) && (close ==> left == "")
    modifies out
    ensures stopped.None? ==> Balance(written', out.buf, left, owed)
    ensures stopped.Some? ==> written' <= owed && (stopped == Some(Closed) || stopped == Some(Cut))
    ensures stopped == Some(Closed) ==> written' == owed
    ensures stopped.None? ==> !close && out.commands < cfg.maxCommands && |out.buf| < FLUSH_BYTES
    // the batch goes on exactly if nothing ends it and the next request is in the read buffer;
    // otherwise everything in hand goes out, or the connection is cut off
    ensures !close && !halted && old(out.commands) < cfg.maxCommands && |old(out.buf)| < FLUSH_BYTES
            && ScanFrom(arrived[..held], 0) > 0 ==>
              stopped.None? && written' == written && out.buf == old(out.buf) && out.commands == old(out.commands)
    ensures !(!close && !halted && old(out.commands) < cfg.maxCommands && |old(out.buf)| < FLUSH_BYTES
              && ScanFrom(arrived[..held], 0) > 0) ==>
              && out.buf == "" && out.commands == 0
              && (stopped != Some(Cut) ==> written' == written + old(out.buf))
              && (stopped.None? ==> !halted)
    ensures stopped.None? && out.buf != "" && Steady(cfg.lim, Unread(arrived, rest)) ==> Decode(cfg.lim, arrived, 0) != More
  {
    hide Decode;
    hide Steady;
    if !(close || halted || out.commands >= cfg.maxCommands || |out.buf| >= FLUSH_BYTES) {
      var batched := RequestBuffered(cfg.lim, arrived, held, Flat(rest));
      if batched {
        return written, None;
      }
    }
    var w, ok := out.Flush();
    written' := written + w;
    assert ok ==> written + w + "" + left == owed;
    stopped := if !ok then Some(Cut) else if close then Some(Closed) else if halted then Some(Cut) else None;
  }

  /** What has been written, what is in hand, and what is still to come make up what is owed. */
  ghost predicate Balance(written: string, buf: string, left: string, owed: string)
    ensures Balance(written, buf, left, owed) ==> written <= owed
  {
    written + buf + left == owed
  }

  lemma NothingYet(cfg: Settings, incoming: seq<string>, owed: string)
    ensures UnderCaps(cfg, []) && NothingHeld([]) && Balance("", "", owed, owed) && 0 < FLUSH_BYTES
    ensures Unread("", incoming) == Flat(incoming)
  {
  }

  lemma OneMoreDecode(cfg: Settings, decodes: seq<(nat, nat)>, commands: nat, bytes: nat)
    requires UnderCaps(cfg, decodes) && commands < cfg.maxCommands && bytes < FLUSH_BYTES
    ensures UnderCaps(cfg, decodes + [(commands, bytes)])
  {
  }

  lemma OneMoreWait(waits: seq<nat>, more: seq<nat>, held: nat)
    requires AllAre(more, held)
    ensures NothingHeld(waits) && (held != 0 ==> more == []) ==> NothingHeld(waits + more)
  {
  }

  /** Answers one command.  An answer that cannot be encoded, or makes the batch too big,
      ends the connection. */
  method Answer(out: OutputBuffer, d: Decoded, lim: Limits, arrived: string, ghost rest: seq<string>, n: nat,
                dispatch: Dispatch, ghost refusal: ReplyCodec.Reply, ghost written: string, ghost owed: string)
    returns (ok: bool, close: bool, left: string)
    requires ValidLimits(lim) && d == Decode(lim, arrived, 0) && d.Command?
    requires Balance(written, out.buf, Owed(lim, Unread(arrived, rest), n, dispatch, refusal), owed)
    modifies out
    ensures close == dispatch(n, (d.name, d.args)).1
    ensures ok && close ==> Balance(written, out.buf, "", owed)
    ensures ok && !close ==> Balance(written, out.buf, Owed(lim, Unread(left, rest), n + 1, dispatch, refusal), owed)
    ensures out.commands <= old(out.commands) + 1
    ensures |Unread(left, rest)| < |Unread(arrived, rest)|
    ensures Steady(lim, Unread(arrived, rest)) ==> Steady(lim, Unread(left, rest))
  {
    hide Decode;
    hide Owed;
    hide Steady;
    hide ReplyCodec.Encode;
    hide Text;
    NextWithin(lim, arrived);
    OwedStep(lim, arrived, Flat(rest), n, dispatch, refusal, d);
    left := arrived[d.next..];
    assert left + Flat(rest) == (arrived + Flat(rest))[d.next..];
    if Steady(lim, Unread(arrived, rest)) {
      SteadyStep(lim, arrived, Flat(rest));
    }
    var (reply, closes) := dispatch(n, (d.name, d.args));
    close := closes;
    ghost var buf := out.buf;
    ok := out.Append(reply);
    Answered(written, buf, Text(reply), Owed(lim, Unread(left, rest), n + 1, dispatch, refusal));
  }

  lemma Answered(written: string, buf: string, text: string, more: string)
    ensures written + buf + (text + more) == written + (buf + text) + more
    ensures written + buf + text == written + (buf + text) + ""
  {
  }

  lemma CommandIsDecoded(lim: Limits, s: string, ended: bool)
    requires ValidLimits(lim) && LastDecode(lim, s, 0, ended).Command?
    ensures Decode(lim, s, 0) == LastDecode(lim, s, 0, ended)
  {
    hide Decode;
    DecodeAtEnd(lim, s, 0);
  }

  lemma NextWithin(lim: Limits, s: string)
    requires ValidLimits(lim) && Decode(lim, s, 0).Command?
    ensures 0 < Decode(lim, s, 0).next <= |s|
  {
  }

  /** The connection ends: a protocol error is reported behind the replies already owed. */
  method Finish(out: OutputBuffer, d: Decoded, lim: Limits, arrived: string, rest: seq<string>, n: nat,
                dispatch: Dispatch, refusal: ReplyCodec.Reply, written: string, ghost owed: string)
    returns (written': string, end: Ending)
    requires ValidLimits(lim) && d == LastDecode(lim, arrived, 0, rest == []) && !d.Command? && (d == More ==> rest == [])
    requires Balance(written, out.buf, Owed(lim, Unread(arrived, rest), n, dispatch, refusal), owed)
    modifies out
    ensures written' <= owed && (end != Cut ==> written' == owed) && (end == Drained ==> d == More)
  {
    hide Decode;
    hide Owed;
    hide Text;
    if Decode(lim, arrived, 0) == More {
      OwedAtEnd(lim, arrived, n, dispatch, refusal);
    } else {
      OwedStep(lim, arrived, Flat(rest), n, dispatch, refusal, d);
    }
    assert written + (out.buf + Text(refusal)) == written + out.buf + Text(refusal);
    assert written + out.buf + "" == written + out.buf;
    if d.Refused? {
      var fits := out.Append(refusal);
    }
    var w, ok := out.Flush();
    written' := written + w;
    end := if !ok then Cut else if d.Refused? then Rejected else Drained;
  }
}
