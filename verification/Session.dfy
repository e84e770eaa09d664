/** conn.go and writer.go: the sending half of a connection used by one goroutine, over a
    network that may break at any byte, and what the peer's ReadLoop makes of what arrives. */
module Sessions {
  import opened Words
  import opened Bits
  import opened Masks
  import opened PowersOfTwo
  import opened FrameHeaders
  import opened FrameWriters
  import opened Payloads
  import opened Readers
  import opened Frames
  import opened RoundTrips
  import opened CloseCodes
  import Conformance

  /** What the network does with one write: all of it arrives, or it breaks inside the frame. */
  datatype Net = Carries | Breaks(bytes: nat)

  /** One call on the connection. The keys are those drawn for the frames it may write; closeKey
      and closeNet are for the close frame. */
  datatype Call =
    | Send(opcode: Opcode, payload: Payload, key: Key, net: Net, closeKey: Key, closeNet: Net)  // WriteMessage, Writev
    | Close(code: nat, reason: seq<Byte>, closeKey: Key, closeNet: Net)                         // WriteClose
    | Answer(received: seq<Byte>, closeKey: Key, closeNet: Net)                                 // emitClose
    | Abandon(error: Error, text: seq<Byte>, closeKey: Key, closeNet: Net)                      // emitError of ReadLoop

  datatype Failure = Generation(error: WriteError) | Network

  /** The error stored in c.ev. */
  datatype Cause =
    | Requested(code: nat)
    | WriteFailed(failure: Failure)
    | Answered(code: nat, reason: seq<Byte>)
    | ReadFailed(error: Error)

  /** A frame on the wire. */
  datatype Outgoing = Outgoing(opcode: Opcode, content: seq<Byte>, key: Key)

  /** `sent` are the frames that arrive, `torn` what arrives of the one at which the network broke. */
  datatype Sender = Sender(
    closed: bool, disconnected: bool, broken: bool, sent: seq<Outgoing>, torn: seq<Byte>, ev: Option<Cause>)

  const FRESH: Sender := Sender(false, false, false, [], [], None)

  const GOING_AWAY: nat := 1001

  /** "gbs: client going away" */
  const GOING_AWAY_TEXT: seq<Byte> :=
    [103, 98, 115, 58, 32, 99, 108, 105, 101, 110, 116, 32, 103, 111, 105, 110, 103, 32, 97, 119, 97, 121]

  function OutBytes(isServer: bool, o: Outgoing): seq<Byte> {
    FrameBytes(isServer, true, o.opcode, o.content, o.key)
  }

  function SessionBytes(isServer: bool, sent: seq<Outgoing>): seq<Byte>
    decreases |sent|
  {
    if sent == [] then [] else OutBytes(isServer, sent[0]) + SessionBytes(isServer, sent[1..])
  }

  lemma {:induction false} SessionAppend(isServer: bool, sent: seq<Outgoing>, o: Outgoing)
    ensures SessionBytes(isServer, sent + [o]) == SessionBytes(isServer, sent) + OutBytes(isServer, o)
    decreases |sent|
  {
    hide OutBytes;
    if sent == [] {
      assert (sent + [o])[1..] == [];
    } else {
      assert (sent + [o])[1..] == sent[1..] + [o];
      SessionAppend(isServer, sent[1..], o);
    }
  }

  // ---------------------------------------------------------------- one call at a time

  lemma FrameNotEmpty(isServer: bool, o: Outgoing)
    ensures |OutBytes(isServer, o)| >= 2
  {
  }

  /** What arrives of a frame at which the network breaks: never all of it. */
  function Torn(isServer: bool, o: Outgoing, bytes: nat): (t: seq<Byte>)
    ensures |t| < |OutBytes(isServer, o)| && t == OutBytes(isServer, o)[..|t|]
  {
    var b := OutBytes(isServer, o);
    if bytes < |b| then b[..bytes] else b[..|b| - 1]
  }

  /** doWrite. */
  function Attempt(own: Settings, s: Sender, opcode: Opcode, payload: Payload, key: Key, net: Net)
    : (Sender, Option<Failure>)
  {
    if opcode != CLOSE && s.closed then (s, Some(Generation(ConnClosed)))
    else
      match RefusalOf(own, opcode, payload)
      case Some(e) => (s, Some(Generation(e)))
      case None =>
        var o := Outgoing(opcode, payload.Content(), key);
        if s.disconnected || s.broken then (s, Some(Network))
        else
          match net
          case Carries => (s.(sent := s.sent + [o]), None)
          case Breaks(n) => (s.(broken := true, torn := Torn(own.isServer, o, n)), Some(Network))
  }

  /** The compare-and-swap, and writeClose for the caller that wins it. */
  function Closing(own: Settings, s: Sender, cause: Cause, payload: seq<Byte>, key: Key, net: Net): Sender {
    if s.closed then s
    else
      var (s', _) := Attempt(own, s.(closed := true, ev := Some(cause)), CLOSE, Bytes(Truncated(payload)), key, net);
      s'.(disconnected := true)
  }

  function CloseCode(code: nat): nat { if code < 1000 then 1000 else code }

  /** The code and reason that emitClose reports for a received close payload. */
  function Reported(received: seq<Byte>): (nat, seq<Byte>) {
    if received == [] then (0, [])
    else if |received| == 1 then (received[0] as nat, [])
    else (BE(received[..2]), received[2..])
  }

  /** What a call gives as the payload of its close frame. */
  function LastPayload(own: Settings, c: Call): seq<Byte> {
    match c
    case Send(_, _, _, _, _, _) => StatusBytes(GOING_AWAY) + GOING_AWAY_TEXT
    case Close(code, reason, _, _) => WriteClosePayload(code, reason)
    case Answer(received, _, _) => StatusBytes(Reply(own.checkUtf8, received))
    case Abandon(error, text, _, _) => StatusBytes(SendCode(true, error)) + text
  }

  function CauseOf(c: Call, failure: Failure): Cause {
    match c
    case Send(_, _, _, _, _, _) => WriteFailed(failure)
    case Close(code, _, _, _) => Requested(CloseCode(code))
    case Answer(received, _, _) => Answered(Reported(received).0, Reported(received).1)
    case Abandon(error, _, _, _) => ReadFailed(error)
  }

  function Perform(own: Settings, s: Sender, c: Call): Sender {
    if c.Send? then
      var (s', err) := Attempt(own, s, c.opcode, c.payload, c.key, c.net);
      if err.None? then s'
      else Closing(own, s', CauseOf(c, err.value), LastPayload(own, c), c.closeKey, c.closeNet)
    else
      Closing(own, s, CauseOf(c, Network), LastPayload(own, c), c.closeKey, c.closeNet)
  }

  function Run(own: Settings, s: Sender, calls: seq<Call>): Sender
    decreases |calls|
  {
    if calls == [] then s else Run(own, Perform(own, s, calls[0]), calls[1..])
  }

  /** The sending half of Conn. */
  class Writer {
    const own: Settings
    var closed: bool
    var disconnected: bool
    var broken: bool
    var ev: Option<Cause>
    var wire: seq<Byte>
    ghost var sent: seq<Outgoing>
    ghost var torn: seq<Byte>

    ghost predicate Valid()
      reads this
    {
      wire == SessionBytes(own.isServer, sent) + torn && (!broken ==> torn == [])
    }

    ghost function View(): Sender
      reads this
    {
      Sender(closed, disconnected, broken, sent, torn, ev)
    }

    constructor (own: Settings)
      ensures Valid() && View() == FRESH && this.own == own
    {
      this.own := own;
      closed, disconnected, broken, ev, wire, sent, torn := false, false, false, None, [], [], [];
    }

    /** WriteN on a connection that is still there. */
    method WriteN(bytes: seq<Byte>, net: Net, ghost o: Outgoing) returns (err: Option<Failure>)
      requires Valid() && !broken && bytes == OutBytes(own.isServer, o)
      modifies this`wire, this`sent, this`torn, this`broken
      ensures Valid()
      ensures net.Carries? ==> err == None && sent == old(sent) + [o] && torn == [] && !broken
      ensures net.Breaks? ==>
        err == Some(Network) && sent == old(sent) && torn == Torn(own.isServer, o, net.bytes) && broken
    {
      FrameNotEmpty(own.isServer, o);
      hide OutBytes;
      match net {
        case Carries =>
          SessionAppend(own.isServer, sent, o);
          wire := wire + bytes;
          sent := sent + [o];
          err := None;
        case Breaks(n) =>
          var arrived := if n < |bytes| then n else |bytes| - 1;
          wire := wire + bytes[..arrived];
          torn := bytes[..arrived];
          broken := true;
          err := Some(Network);
      }
    }

    method DoWrite(opcode: Opcode, payload: Payload, key: Key, net: Net) returns (err: Option<Failure>)
      requires Valid()
      modifies this`wire, this`sent, this`torn, this`broken
      ensures Valid() && (View(), err) == Attempt(own, old(View()), opcode, payload, key, net)
    {
      hide FrameBytes, PayloadOk, Torn, SessionBytes;
      if opcode != CLOSE && closed {
        return Some(Generation(ConnClosed));
      }
      var frame := GenFrame(own.isServer, own.writeMax, true, own.checkUtf8, opcode, payload, key);
      if frame.Refused? {
        return Some(Generation(frame.error));
      }
      if disconnected || broken {
        return Some(Network);
      }
      err := WriteN(frame.bytes, net, Outgoing(opcode, payload.Content(), key));
    }

    method CloseWith(cause: Cause, payload: seq<Byte>, key: Key, net: Net) returns (err: Option<Failure>)
      requires Valid()
      modifies this`wire, this`sent, this`torn, this`broken, this`ev, this`disconnected
      ensures Valid() && closed == old(closed)
      ensures var (s, e) := Attempt(own, old(View()).(ev := Some(cause)), CLOSE, Bytes(Truncated(payload)), key, net);
        View() == s.(disconnected := true) && err == e
    {
      hide SessionBytes, Torn, RefusalOf;
      var reason := payload;
      if |reason| > THRESHOLD_V1 {
        reason := reason[..THRESHOLD_V1];
      }
      ev := Some(cause);
      err := DoWrite(CLOSE, Bytes(reason), key, net);
      disconnected := true;
    }

    /** The compare-and-swap with which emitError, emitClose and WriteClose start. */
    method TryClose(cause: Cause, payload: seq<Byte>, key: Key, net: Net) returns (won: bool, err: Option<Failure>)
      requires Valid()
      modifies this
      ensures Valid() && View() == Closing(own, old(View()), cause, payload, key, net) && won == !old(closed)
      ensures won ==>
        var s := old(View()).(closed := true, ev := Some(cause));
        err == Attempt(own, s, CLOSE, Bytes(Truncated(payload)), key, net).1
    {
      hide Attempt, SessionBytes;
      won, err := false, None;
      if !closed {
        closed, won := true, true;
        err := CloseWith(cause, payload, key, net);
      }
    }

    /** emitError for an error met while writing. */
    method EmitError(err: Option<Failure>, key: Key, net: Net)
      requires Valid()
      modifies this
      ensures Valid()
      ensures var payload := StatusBytes(GOING_AWAY) + GOING_AWAY_TEXT;
        View() == if err.None? then old(View())
                  else Closing(own, old(View()), WriteFailed(err.value), payload, key, net)
    {
      hide Closing;
      if err.Some? {
        var _, _ := TryClose(WriteFailed(err.value), StatusBytes(GOING_AWAY) + GOING_AWAY_TEXT, key, net);
      }
    }

    /** emitError for the error that ends ReadLoop; `text` is what the error prints as. */
    method EmitReadError(err: Error, text: seq<Byte>, key: Key, net: Net)
      requires Valid()
      modifies this
      ensures Valid() && View() == Perform(own, old(View()), Abandon(err, text, key, net))
    {
      hide Closing;
      var sendCode := 1000;
      match err {
        case Status(code) => sendCode := code;
        case Wrapped(code) => sendCode := code;
        case _ =>
      }
      var _, _ := TryClose(ReadFailed(err), StatusBytes(sendCode) + text, key, net);
    }

    /** emitClose. */
    method AnswerClose(received: seq<Byte>, key: Key, net: Net) returns (error: Error)
      requires Valid()
      modifies this
      ensures Valid() && View() == Perform(own, old(View()), Answer(received, key, net))
      ensures error == Status(CLOSE_NORMAL)
    {
      hide Closing, Reply, StatusBytes, BE;
      var responseCode, realCode, reason := EmitClose(own.checkUtf8, received);
      var _, _ := TryClose(Answered(realCode, reason), StatusBytes(responseCode), key, net);
      error := Status(CLOSE_NORMAL);
    }

    /** WriteMessage and Writev. */
    method WriteMessage(opcode: Opcode, payload: Payload, key: Key, net: Net, closeKey: Key, closeNet: Net)
      returns (err: Option<Failure>)
      requires Valid()
      modifies this
      ensures Valid() && View() == Perform(own, old(View()), Send(opcode, payload, key, net, closeKey, closeNet))
      ensures err == Attempt(own, old(View()), opcode, payload, key, net).1
    {
      hide Attempt, Closing;
      err := DoWrite(opcode, payload, key, net);
      EmitError(err, closeKey, closeNet);
    }

    method WriteClose(code: nat, reason: seq<Byte>, key: Key, net: Net) returns (err: Option<Failure>)
      requires Valid()
      modifies this
      ensures Valid() && View() == Perform(own, old(View()), Close(code, reason, key, net))
      ensures err == if old(closed) then Some(Generation(ConnClosed))
        else Attempt(own, old(View()).(closed := true, ev := Some(Requested(CloseCode(code)))), CLOSE,
                     Bytes(Truncated(WriteClosePayload(code, reason))), key, net).1
    {
      hide Attempt, Closing;
      var sendCode := if code < 1000 then 1000 else code;
      var won, e := TryClose(Requested(sendCode), StatusBytes(sendCode) + reason, key, net);
      err := if won then e else Some(Generation(ConnClosed));
    }
  }

  // ---------------------------------------------------------------- what a run of calls sends

  predicate Known(opcode: Opcode) { opcode == TEXT || opcode == BINARY || opcode == PING || opcode == PONG }

  predicate KnownCall(c: Call) { c.Send? ==> Known(c.opcode) }

  /** The calls that end the session: closing, a message that genFrame refuses, a write that fails. */
  predicate Ends(own: Settings, c: Call) { !c.Send? || RefusalOf(own, c.opcode, c.payload).Some? || c.net.Breaks? }

  function Prefix(own: Settings, calls: seq<Call>): (k: nat)
    ensures k <= |calls|
    decreases |calls|
  {
    if calls == [] || Ends(own, calls[0]) then 0 else 1 + Prefix(own, calls[1..])
  }

  function Output(c: Call): Outgoing
    requires c.Send?
  {
    Outgoing(c.opcode, c.payload.Content(), c.key)
  }

  function Outputs(calls: seq<Call>): seq<Outgoing>
    requires forall i :: 0 <= i < |calls| ==> calls[i].Send?
    decreases |calls|
  {
    if calls == [] then [] else [Output(calls[0])] + Outputs(calls[1..])
  }

  /** The last frame that an ending call tries to send, and how the network takes it: the message
      at which it breaks, or the close frame, if that is not beyond the writer's own limit. */
  function LastFrame(own: Settings, c: Call): Option<(Outgoing, Net)> {
    if c.Send? && RefusalOf(own, c.opcode, c.payload).None? then Some((Output(c), c.net))
    else
      var o := Outgoing(CLOSE, Truncated(LastPayload(own, c)), c.closeKey);
      if |o.content| > own.writeMax then None else Some((o, c.closeNet))
  }

  function LastOutput(own: Settings, c: Call): seq<Outgoing> {
    match LastFrame(own, c)
    case Some((o, Carries)) => [o]
    case _ => []
  }

  function LastTorn(own: Settings, c: Call): seq<Byte> {
    match LastFrame(own, c)
    case Some((o, Breaks(n))) => Torn(own.isServer, o, n)
    case _ => []
  }

  lemma {:induction false} PrefixMeans(own: Settings, calls: seq<Call>)
    ensures var k := Prefix(own, calls);
      (forall i :: 0 <= i < k ==> calls[i].Send? && !Ends(own, calls[i])) && (k < |calls| ==> Ends(own, calls[k]))
    decreases |calls|
  {
    hide Ends, RefusalOf;
    if calls != [] && !Ends(own, calls[0]) {
      PrefixMeans(own, calls[1..]);
      assert calls[0].Send? by { SendUnlessEnds(own, calls[0]); }
      assert forall i :: 0 < i < |calls| ==> calls[i] == calls[1..][i - 1];
    }
  }

  lemma SendUnlessEnds(own: Settings, c: Call)
    requires !Ends(own, c)
    ensures c.Send?
  {
  }

  lemma CloseStep(own: Settings, s: Sender, cause: Cause, payload: seq<Byte>, key: Key, net: Net)
    requires !s.closed && !s.disconnected
    ensures var s' := Closing(own, s, cause, payload, key, net); var o := Outgoing(CLOSE, Truncated(payload), key);
      && s'.closed && s'.disconnected
      && (s.broken || |o.content| > own.writeMax ==> s'.sent == s.sent && s'.torn == s.torn)
      && (!s.broken && |o.content| <= own.writeMax ==>
            && s'.sent == (if net.Carries? then s.sent + [o] else s.sent)
            && s'.torn == (if net.Carries? then s.torn else Torn(own.isServer, o, net.bytes)))
  {
    hide PayloadOk, Truncated, Torn;
  }

  lemma OpenStep(own: Settings, s: Sender, c: Call)
    requires !s.closed && !s.disconnected && !s.broken && s.torn == [] && KnownCall(c)
    ensures var s' := Perform(own, s, c);
      if Ends(own, c) then
        s'.closed && s'.disconnected && s'.sent == s.sent + LastOutput(own, c) && s'.torn == LastTorn(own, c)
      else s' == s.(sent := s.sent + [Output(c)])
  {
    hide PayloadOk, LastPayload, Truncated, StatusBytes, Closing, RefusalOf, Torn, CauseOf;
    if c.Send? {
      var (s', err) := Attempt(own, s, c.opcode, c.payload, c.key, c.net);
      if err.Some? { CloseStep(own, s', CauseOf(c, err.value), LastPayload(own, c), c.closeKey, c.closeNet); }
    } else {
      CloseStep(own, s, CauseOf(c, Network), LastPayload(own, c), c.closeKey, c.closeNet);
    }
  }

  lemma {:induction false} ClosedStays(own: Settings, s: Sender, calls: seq<Call>)
    requires s.closed && forall i :: 0 <= i < |calls| ==> KnownCall(calls[i])
    ensures Run(own, s, calls) == s
    decreases |calls|
  {
    hide RefusalOf;
    if calls != [] {
      assert Perform(own, s, calls[0]) == s;
      ClosedStays(own, s, calls[1..]);
    }
  }

  lemma {:induction false} RunSends(own: Settings, s: Sender, calls: seq<Call>)
    requires !s.closed && !s.disconnected && !s.broken && s.torn == []
    requires forall i :: 0 <= i < |calls| ==> KnownCall(calls[i])
    ensures var k := Prefix(own, calls); var r := Run(own, s, calls);
      && (forall i :: 0 <= i < k ==> calls[i].Send?)
      && r.torn == (if k < |calls| then LastTorn(own, calls[k]) else [])
      && r.closed == (k < |calls|)
      && r.sent == s.sent + Outputs(calls[..k]) + (if k < |calls| then LastOutput(own, calls[k]) else [])
    decreases |calls|
  {
    hide Perform, Ends, Output, LastOutput, LastTorn, KnownCall;
    PrefixMeans(own, calls);
    if calls != [] {
      var c, s' := calls[0], Perform(own, s, calls[0]);
      OpenStep(own, s, c);
      if Ends(own, c) {
        ClosedStays(own, s', calls[1..]);
        assert Outputs(calls[..0]) == [];
      } else {
        RunSends(own, s', calls[1..]);
        var k := Prefix(own, calls[1..]);
        SendUnlessEnds(own, c);
        assert calls[..k + 1] == [c] + calls[1..][..k];
        assert calls[..k + 1][1..] == calls[1..][..k];
      }
    }
  }

  /** What any sequence of calls brings to the peer: the messages before the first call that ends
      the session, in order, then that call's close frame, whole or torn, or the torn message
      at which the network broke, and nothing more. */
  lemma SessionSends(own: Settings, calls: seq<Call>)
    requires forall i :: 0 <= i < |calls| ==> KnownCall(calls[i])
    ensures var k := Prefix(own, calls); var r := Run(own, FRESH, calls);
      && (forall i :: 0 <= i < k ==> calls[i].Send? && !Ends(own, calls[i])) && (k < |calls| ==> Ends(own, calls[k]))
      && r.closed == (k < |calls|)
      && r.sent == Outputs(calls[..k]) + (if k < |calls| then LastOutput(own, calls[k]) else [])
      && r.torn == (if k < |calls| then LastTorn(own, calls[k]) else [])
  {
    hide Prefix, Run, Outputs, LastOutput, LastTorn, Ends, KnownCall;
    RunSends(own, FRESH, calls);
    PrefixMeans(own, calls);
  }

  // ---------------------------------------------------------------- what the peer reads

  predicate Control(opcode: Opcode) { opcode == PING || opcode == PONG || opcode == CLOSE }

  /** Whether a frame is within what the peer reads. */
  predicate Within(cfg: Config, o: Outgoing) {
    && |o.content| <= cfg.readMax
    && (if Control(o.opcode) then |o.content| <= THRESHOLD_V1 else Fits(cfg, |o.content|))
  }

  /** And whether it is also valid text, if the peer checks that. */
  predicate Readable(cfg: Config, o: Outgoing) {
    Within(cfg, o) && (!Control(o.opcode) ==> EncodingOk(cfg.checkUtf8, o.opcode, o.content))
  }

  /** Frames of known opcodes, of which only the last may be a close frame. */
  predicate Proper(sent: seq<Outgoing>) {
    forall i :: 0 <= i < |sent| ==>
      && (Known(sent[i].opcode) || (sent[i].opcode == CLOSE && i == |sent| - 1))
      && |sent[i].content| < 0x8000_0000_0000_0000
  }

  /** What the application is told of a frame. */
  function TraceIn(o: Outgoing): seq<Event> {
    if Control(o.opcode) then ControlEvents(o.opcode, o.content) else [OnMessage(Message(o.opcode, o.content))]
  }

  function TraceSent(sent: seq<Outgoing>): seq<Event>
    decreases |sent|
  {
    if sent == [] then [] else TraceIn(sent[0]) + TraceSent(sent[1..])
  }

  predicate EndsWithClose(sent: seq<Outgoing>) { sent != [] && sent[|sent| - 1].opcode == CLOSE }

  function ResultOf(o: Outgoing): Result {
    if o.opcode == CLOSE then Failed(Status(CLOSE_NORMAL))
    else if Control(o.opcode) then Pending
    else Delivered(Message(o.opcode, o.content))
  }

  /** Neither a stream that ends nor a close frame. */
  predicate Unexpected(e: Error) { !e.Io? && e != Status(CLOSE_NORMAL) }

  /** The reader's step on one whole frame. */
  lemma OutgoingReads(cfg: Config, o: Outgoing, tail: seq<Byte>)
    requires (Known(o.opcode) || o.opcode == CLOSE) && |o.content| < 0x8000_0000_0000_0000
    ensures var step := FrameStep(cfg, IDLE, OutBytes(!cfg.isServer, o) + tail);
      if Within(cfg, o) then
        step.result == ResultOf(o) && step.cont == IDLE && step.events == ControlEvents(o.opcode, o.content)
      else step.result.Failed? && Unexpected(step.result.error)
    ensures var step := FrameStep(cfg, IDLE, OutBytes(!cfg.isServer, o) + tail);
      Within(cfg, o) ==> step.rest == tail
  {
    hide GetFIN, GetOpcode, FirstByte, FrameBytes, Wire, FrameStep, Reserved, IsDataFrame, Masked, Fits;
    if o.opcode == CLOSE {
      assert Truncated(o.content) == o.content || !Within(cfg, o);
      if Within(cfg, o) { CloseFrameIsRead(cfg, IDLE, o.content, o.key, tail); }
      CloseBits();
    } else {
      OpcodeBits(true, o.opcode);
    }
    var f := FrameSent(!cfg.isServer, true, o.opcode, o.content, o.key);
    FrameSentWire(!cfg.isServer, true, o.opcode, o.content, o.key);
    ReadsWholeFrame(cfg, IDLE, f, tail);
  }

  /** One turn of ReadLoop. */
  lemma OutgoingTurn(cfg: Config, o: Outgoing, tail: seq<Byte>)
    requires (Known(o.opcode) || o.opcode == CLOSE) && |o.content| < 0x8000_0000_0000_0000
    ensures var l := LoopFrom(cfg, IDLE, OutBytes(!cfg.isServer, o) + tail);
      if !Readable(cfg, o) then Unexpected(l.error)
      else if o.opcode == CLOSE then l == Loop(TraceIn(o), Status(CLOSE_NORMAL), IDLE, tail)
      else l == Onward(TraceIn(o), LoopFrom(cfg, IDLE, tail))
  {
    hide FrameStep, LoopFrom, OutBytes, Within, EncodingOk;
    OutgoingReads(cfg, o, tail);
    var all := OutBytes(!cfg.isServer, o) + tail;
    LoopTurn(cfg, IDLE, all, []);
    OnwardNothing(LoopFrom(cfg, IDLE, all));
  }

  /** A frame that does not arrive whole ends the reading as a short read, and tells nothing. */
  lemma TornReads(cfg: Config, o: Outgoing, torn: seq<Byte>)
    requires (Known(o.opcode) || o.opcode == CLOSE) && |o.content| < 0x8000_0000_0000_0000 && Within(cfg, o)
    requires |torn| < |OutBytes(!cfg.isServer, o)| && torn == OutBytes(!cfg.isServer, o)[..|torn|]
    ensures var l := LoopFrom(cfg, IDLE, torn); l.trace == [] && l.error.Io?
  {
    hide GetFIN, GetOpcode, FirstByte, FrameBytes, Wire, FrameStep, Reserved, IsDataFrame, Masked, Fits;
    if o.opcode == CLOSE { CloseBits(); } else { OpcodeBits(true, o.opcode); }
    var f := FrameSent(!cfg.isServer, true, o.opcode, o.content, o.key);
    FrameSentWire(!cfg.isServer, true, o.opcode, o.content, o.key);
    Conformance.TornFrame(cfg, IDLE, f, |torn|);
  }

  /** Of an over-long ping or pong as much arrives as shows the length, or not even that. */
  lemma TornLongReads(cfg: Config, o: Outgoing, torn: seq<Byte>)
    requires (o.opcode == PING || o.opcode == PONG) && THRESHOLD_V1 < |o.content| <= cfg.readMax
    requires |o.content| < 0x8000_0000_0000_0000
    requires |torn| < |OutBytes(!cfg.isServer, o)| && torn == OutBytes(!cfg.isServer, o)[..|torn|]
    ensures var l := LoopFrom(cfg, IDLE, torn);
      && l.trace == []
      && (if ParseHeader(torn).Header? then l.error == Status(CLOSE_PROTOCOL_ERROR) else l.error.Io?)
  {
    hide GetFIN, GetOpcode, FirstByte, FrameBytes, Wire, FrameStep, Reserved, IsDataFrame, Masked, Fits, ParseHeader;
    OpcodeBits(true, o.opcode);
    var f := FrameSent(!cfg.isServer, true, o.opcode, o.content, o.key);
    FrameSentWire(!cfg.isServer, true, o.opcode, o.content, o.key);
    Conformance.TornFrame(cfg, IDLE, f, |torn|);
  }

  ghost predicate AllReadable(cfg: Config, sent: seq<Outgoing>) {
    forall i :: 0 <= i < |sent| ==> Readable(cfg, sent[i])
  }

  lemma AllReadableSplit(cfg: Config, sent: seq<Outgoing>)
    requires sent != []
    ensures AllReadable(cfg, sent) <==> Readable(cfg, sent[0]) && AllReadable(cfg, sent[1..])
  {
    hide Readable;
    assert forall i :: 0 < i < |sent| ==> sent[i] == sent[1..][i - 1];
  }

  lemma ProperSplit(sent: seq<Outgoing>)
    requires sent != [] && Proper(sent)
    ensures Proper(sent[1..])
    ensures (Known(sent[0].opcode) || sent[0].opcode == CLOSE) && |sent[0].content| < 0x8000_0000_0000_0000
    ensures sent[0].opcode == CLOSE ==> sent[1..] == [] && EndsWithClose(sent)
    ensures sent[0].opcode != CLOSE ==> EndsWithClose(sent) == EndsWithClose(sent[1..])
  {
  }

  /** ReadLoop on everything a session sent, and whatever comes after: if every frame is readable
      for the peer, it tells exactly what was sent, in order, and stops at the close frame or
      goes on; otherwise it ends with an error of another kind. */
  lemma {:induction false} SessionReads(cfg: Config, sent: seq<Outgoing>, tail: seq<Byte>)
    requires Proper(sent)
    ensures var l := LoopFrom(cfg, IDLE, SessionBytes(!cfg.isServer, sent) + tail);
      if !AllReadable(cfg, sent) then Unexpected(l.error)
      else if EndsWithClose(sent) then l == Loop(TraceSent(sent), Status(CLOSE_NORMAL), IDLE, tail)
      else l == Onward(TraceSent(sent), LoopFrom(cfg, IDLE, tail))
    decreases |sent|
  {
    NoneUnreadable(cfg);
    if sent == [] {
      assert SessionBytes(!cfg.isServer, sent) + tail == tail;
      OnwardNothing(LoopFrom(cfg, IDLE, tail));
    } else {
      hide LoopFrom, OutBytes, Readable, Proper, AllReadable, EndsWithClose, TraceIn, Unexpected;
      var o, more := sent[0], SessionBytes(!cfg.isServer, sent[1..]) + tail;
      assert SessionBytes(!cfg.isServer, sent) + tail == OutBytes(!cfg.isServer, o) + more;
      ProperSplit(sent);
      OutgoingTurn(cfg, o, more);
      AllReadableSplit(cfg, sent);
      SessionReads(cfg, sent[1..], tail);
      OnwardTwice(TraceIn(o), TraceSent(sent[1..]), LoopFrom(cfg, IDLE, tail));
      assert sent[1..] == [] ==> TraceSent(sent[1..]) == [] && more == tail;
    }
  }

  lemma NoneUnreadable(cfg: Config)
    ensures AllReadable(cfg, [])
  {
  }

  // ---------------------------------------------------------------- the whole session

  /** The peer has the other role, reads at least what this side writes, and checks text only
      if this side does. */
  predicate Compatible(own: Settings, cfg: Config) {
    && cfg.isServer == !own.isServer
    && own.writeMax <= cfg.readMax && own.writeMax <= TWO31
    && cfg.poolBegin <= TWO31 && cfg.poolEnd <= TWO31
    && (cfg.checkUtf8 ==> own.checkUtf8)
  }

  lemma {:induction false} OutputsAt(calls: seq<Call>)
    requires forall i :: 0 <= i < |calls| ==> calls[i].Send?
    ensures |Outputs(calls)| == |calls| && forall i :: 0 <= i < |calls| ==> Outputs(calls)[i] == Output(calls[i])
    decreases |calls|
  {
    if calls != [] {
      OutputsAt(calls[1..]);
    }
  }

  /** What genFrame lets through is readable for the peer, unless it is a long control frame. */
  lemma OutputReadable(own: Settings, cfg: Config, c: Call)
    requires Compatible(own, cfg) && c.Send? && KnownCall(c) && RefusalOf(own, c.opcode, c.payload).None?
    ensures |Output(c).content| <= TWO31 && |Output(c).content| <= cfg.readMax && Known(Output(c).opcode)
    ensures Readable(cfg, Output(c)) <==> !LongControl(own, c)
    ensures Within(cfg, Output(c)) <==> !LongControl(own, c)
  {
    hide ValidUtf8, Concat, Fits;
    FitsUpToTwo31(cfg, |c.payload.Content()|);
    if cfg.checkUtf8 && c.opcode == TEXT && c.payload.Buffers? {
      AcceptedSlicesMakeValidText(c.payload.bs, TEXT);
    }
  }

  /** A ping or pong that goes out although it is beyond what section 5.5 of RFC 6455 allows, which
      nothing on this side checks. */
  predicate LongControl(own: Settings, c: Call) {
    && c.Send? && Control(c.opcode) && |c.payload.Content()| > THRESHOLD_V1
    && RefusalOf(own, c.opcode, c.payload).None?
  }

  /** How the reading ends at a frame of this call that does not arrive whole. */
  predicate TornEnd(own: Settings, c: Call, torn: seq<Byte>, e: Error) {
    if LongControl(own, c) && ParseHeader(torn).Header? then e == Status(CLOSE_PROTOCOL_ERROR) else e.Io?
  }

  lemma LastReadable(own: Settings, cfg: Config, c: Call)
    requires Compatible(own, cfg) && KnownCall(c) && Ends(own, c)
    ensures var last := LastOutput(own, c);
      && |last| <= 1
      && (last != [] ==> last[0].opcode == CLOSE && |last[0].content| <= THRESHOLD_V1 && Readable(cfg, last[0]))
    ensures LastTorn(own, c) != [] ==> LastOutput(own, c) == []
    ensures var l := LoopFrom(cfg, IDLE, LastTorn(own, c));
      l.trace == [] && TornEnd(own, c, LastTorn(own, c), l.error)
  {
    hide Truncated, LastPayload, LoopFrom, OutBytes, RefusalOf, Fits, ParseHeader;
    Conformance.EmptyReads(cfg, IDLE);
    NothingParses();
    match LastFrame(own, c) {
      case Some((o, Breaks(n))) =>
        if c.Send? && RefusalOf(own, c.opcode, c.payload).None? {
          OutputReadable(own, cfg, c);
        }
        if LongControl(own, c) {
          TornLongReads(cfg, o, Torn(own.isServer, o, n));
        } else {
          TornReads(cfg, o, Torn(own.isServer, o, n));
        }
      case _ =>
    }
  }

  lemma NothingParses()
    ensures ParseHeader([]).Short?
  {
  }

  /** A whole session, end to end, over a network that may break at any byte. If every ping and
      pong that arrives carries at most 125 bytes, the peer is told exactly of the frames that
      arrived, in order, and its ReadLoop ends at the close frame, or, if none arrived whole, at the
      end of the stream, or with 1002 if that cuts off a longer ping or pong behind its header.
      If a longer one arrives, ReadLoop ends with an error of another kind. */
  lemma SessionRoundTrip(own: Settings, cfg: Config, calls: seq<Call>)
    requires Compatible(own, cfg) && forall i :: 0 <= i < |calls| ==> KnownCall(calls[i])
    ensures var k, r := Prefix(own, calls), Run(own, FRESH, calls);
      var l := LoopFrom(cfg, IDLE, SessionBytes(own.isServer, r.sent) + r.torn);
      && (forall i :: 0 <= i < k ==> calls[i].Send?)
      && r.sent == Outputs(calls[..k]) + (if k < |calls| then LastOutput(own, calls[k]) else [])
      && if exists i :: 0 <= i < k && LongControl(own, calls[i]) then Unexpected(l.error)
         else
           && l.trace == TraceSent(r.sent)
           && (if EndsWithClose(r.sent) then l.error == Status(CLOSE_NORMAL)
               else if k < |calls| then TornEnd(own, calls[k], r.torn, l.error)
               else l.error.Io?)
  {
    hide Prefix, Run, LastOutput, LastTorn, Outputs, Ends, KnownCall, Readable, Known, Control, Output, Compatible,
         EndsWithClose, TraceSent, SessionBytes, LoopFrom, RefusalOf, LongControl, Unexpected, TornEnd, Within;
    SessionSends(own, calls);
    var k, r := Prefix(own, calls), Run(own, FRESH, calls);
    OutputsAt(calls[..k]);
    Conformance.EmptyReads(cfg, IDLE);
    if k < |calls| { LastReadable(own, cfg, calls[k]); }
    forall i | 0 <= i < k
      ensures |r.sent[i].content| <= TWO31 && Known(r.sent[i].opcode)
      ensures Readable(cfg, r.sent[i]) <==> !LongControl(own, calls[i])
    {
      NotRefused(own, calls[i]);
      OutputReadable(own, cfg, calls[i]);
      assert r.sent[i] == Output(calls[i]);
    }
    OppositeRoles(own, cfg);
    SessionReads(cfg, r.sent, r.torn);
  }

  lemma NotRefused(own: Settings, c: Call)
    requires !Ends(own, c)
    ensures c.Send? && RefusalOf(own, c.opcode, c.payload).None?
  {
  }

  lemma OppositeRoles(own: Settings, cfg: Config)
    requires Compatible(own, cfg)
    ensures cfg.isServer == !own.isServer
  {
  }
}
