/** reader.go: decoding frames, and putting fragmented messages back together. */
module Readers {
  import opened Words
  import opened Masks
  import opened PowersOfTwo
  import opened FrameHeaders
  import opened BufferPools
  import opened Payloads

  /** What of the configuration the reader depends on, and the bounds of the buffer pool. */
  datatype Config = Config(isServer: bool, readMax: int, checkUtf8: bool, poolBegin: nat, poolEnd: nat)

  datatype Message = Message(opcode: Opcode, data: seq<Byte>)

  /** continuationFrame: the message being put together, if one is open. */
  datatype Continuation = Continuation(initialized: bool, opcode: Opcode, buffer: seq<Byte>)

  const IDLE: Continuation := Continuation(false, 0, [])

  /** What the application is told, in the order in which it is told. */
  datatype Event =
    | Ping(payload: seq<Byte>)
    | Pong(payload: seq<Byte>)
    | CloseFrame(payload: seq<Byte>)
    | OnMessage(message: Message)

  datatype Error =
    | Io(error: ReadError)
    | Status(code: nat)               // internal.StatusCode
    | Wrapped(code: nat)              // *internal.Error
    | OutOfRange                      // the payload slice exceeds its buffer: a Go run-time panic

  const CLOSE_NORMAL: nat := 1000
  const CLOSE_PROTOCOL_ERROR: nat := 1002
  const CLOSE_UNSUPPORTED_DATA: nat := 1007
  const CLOSE_TOO_LARGE: nat := 1009

  datatype Result = Failed(error: Error) | Pending | Delivered(message: Message)

  datatype Step = Step(cont: Continuation, rest: seq<Byte>, result: Result, events: seq<Event>)

  function Unmasked(p: seq<Byte>, key: seq<Byte>): seq<Byte>
    requires key == [] || |key| == 4
  {
    if key == [] then p else Masked(p, key)
  }

  lemma MaskedNothing(key: seq<Byte>)
    requires key == [] || |key| == 4
    ensures Unmasked([], key) == []
  {
  }

  /** Whether buf.Bytes()[:n] stays within the pooled buffer obtained for n. */
  predicate Fits(cfg: Config, n: int) {
    0 <= n <= Capacity(cfg.poolBegin, cfg.poolEnd, n)
  }

  // ---------------------------------------------------------------- one frame, on values

  predicate Reserved(b0: Byte) { GetRSV1(b0) || GetRSV2(b0) || GetRSV3(b0) }

  /** What readFrame does with a data frame once its payload is unmasked. */
  function AcceptData(cfg: Config, cont: Continuation, fin: bool, opcode: Opcode, p: seq<Byte>): (Continuation, Result)
  {
    if opcode != CONTINUATION && cont.initialized then (cont, Failed(Status(CLOSE_PROTOCOL_ERROR)))
    else if fin && opcode != CONTINUATION then (cont, Delivered(Message(opcode, p)))
    else
      var c1 := if opcode != CONTINUATION then Continuation(true, opcode, []) else cont;
      if !c1.initialized then (c1, Failed(Status(CLOSE_PROTOCOL_ERROR)))
      else
        var c2 := c1.(buffer := c1.buffer + p);
        if |c2.buffer| > cfg.readMax then (c2, Failed(Status(CLOSE_TOO_LARGE)))
        else if !fin then (c2, Pending)
        else (IDLE, Delivered(Message(c2.opcode, c2.buffer)))
  }

  function ControlEvents(opcode: Opcode, p: seq<Byte>): seq<Event> {
    if opcode == PING then [Ping(p)] else if opcode == PONG then [Pong(p)]
    else if opcode == CLOSE then [CloseFrame(p)] else []
  }

  /** emitClose always answers with a normal closure; unknown opcodes are protocol errors. */
  function ControlResult(opcode: Opcode): Result {
    if opcode == PING || opcode == PONG then Pending
    else if opcode == CLOSE then Failed(Status(CLOSE_NORMAL))
    else Failed(Wrapped(CLOSE_PROTOCOL_ERROR))
  }

  function ControlLength(b1: Byte): nat { GetLengthCode(b1) as nat }

  function ControlStep(cont: Continuation, b0: Byte, b1: Byte, key: seq<Byte>, rest: seq<Byte>): Step
    requires key == [] || |key| == 4
  {
    var n := ControlLength(b1);
    if !GetFIN(b0) then Step(cont, rest, Failed(Status(CLOSE_PROTOCOL_ERROR)), [])
    else if n > THRESHOLD_V1 then Step(cont, rest, Failed(Status(CLOSE_PROTOCOL_ERROR)), [])
    else if |rest| < n then Step(cont, [], Failed(Io(ShortRead(|rest|))), [])
    else
      Step(cont, rest[n..], ControlResult(GetOpcode(b0)), ControlEvents(GetOpcode(b0), Unmasked(rest[..n], key)))
  }

  lemma ControlRefused(cont: Continuation, b0: Byte, b1: Byte, key: seq<Byte>, rest: seq<Byte>)
    requires (key == [] || |key| == 4) && (!GetFIN(b0) || ControlLength(b1) > THRESHOLD_V1)
    ensures ControlStep(cont, b0, b1, key, rest) == Step(cont, rest, Failed(Status(CLOSE_PROTOCOL_ERROR)), [])
  {
  }

  lemma ControlAdmitted(cont: Continuation, b0: Byte, b1: Byte, key: seq<Byte>, rest: seq<Byte>)
    requires (key == [] || |key| == 4) && GetFIN(b0) && ControlLength(b1) <= THRESHOLD_V1
    ensures var n := ControlLength(b1);
      ControlStep(cont, b0, b1, key, rest)
      == if |rest| < n then Step(cont, [], Failed(Io(ShortRead(|rest|))), [])
         else
           var opcode := GetOpcode(b0);
           Step(cont, rest[n..], ControlResult(opcode), ControlEvents(opcode, Unmasked(rest[..n], key)))
  {
    hide GetFIN, GetOpcode, Unmasked, ControlResult, ControlEvents, ControlLength;
  }

  function DataStep(cfg: Config, cont: Continuation, b0: Byte, n: int, key: seq<Byte>, rest: seq<Byte>): Step
    requires key == [] || |key| == 4
  {
    if !Fits(cfg, n) then Step(cont, rest, Failed(OutOfRange), [])
    else if |rest| < n then Step(cont, [], Failed(Io(ShortRead(|rest|))), [])
    else
      var (c, r) := AcceptData(cfg, cont, GetFIN(b0), GetOpcode(b0), Unmasked(rest[..n], key));
      Step(c, rest[n..], r, [])
  }

  predicate SoundParse(p: Parsed, s: seq<Byte>) {
    p.Header? ==> |p.rest| <= |s| && (if GetMask(p.b1) then |p.key| == 4 else p.key == [])
  }

  lemma ParseKeySound(b0: Byte, b1: Byte, n: int, s: seq<Byte>)
    ensures SoundParse(ParseKey(b0, b1, n, s), s)
  {
    hide GetMask;
  }

  lemma ParseSound(s: seq<Byte>)
    ensures ParseHeader(s).Header? ==> |s| >= 2 && SoundParse(ParseHeader(s), s[2..])
  {
    hide GetMask, GetLengthCode, BE, ParseKey;
    if |s| >= 2 {
      var b0, b1, t := s[0], s[1], s[2..];
      ParseKeySound(b0, b1, GetLengthCode(b1) as int, t);
      if |t| >= 2 { ParseKeySound(b0, b1, BE(t[..2]), t[2..]); }
      if |t| >= 8 { ParseKeySound(b0, b1, ToInt(BE(t[..8])), t[8..]); }
    }
  }

  function FrameStep(cfg: Config, cont: Continuation, s: seq<Byte>): Step {
    match ParseHeader(s)
    case Short(e) => Step(cont, [], Failed(Io(e)), [])
    case Header(b0, b1, key, n, rest) =>
      ParseSound(s);
      if n > cfg.readMax then Step(cont, rest, Failed(Status(CLOSE_TOO_LARGE)), [])
      else if Reserved(b0) then Step(cont, rest, Failed(Status(CLOSE_PROTOCOL_ERROR)), [])
      else if GetMask(b1) != cfg.isServer then Step(cont, rest, Failed(Status(CLOSE_PROTOCOL_ERROR)), [])
      else if !IsDataFrame(GetOpcode(b0)) then ControlStep(cont, b0, b1, key, rest)
      else DataStep(cfg, cont, b0, n, key, rest)
  }

  lemma FitsNonNegative(cfg: Config, n: int)
    ensures Fits(cfg, n) ==> 0 <= n
  {
  }

  lemma FrameStepConsumes(cfg: Config, cont: Continuation, s: seq<Byte>)
    ensures var step := FrameStep(cfg, cont, s); !step.result.Failed? ==> |step.rest| < |s|
  {
    hide GetMask, GetLengthCode, GetFIN, GetOpcode, ParseHeader, AcceptData, Fits, ControlResult, ControlEvents,
         Unmasked;
    ParseSound(s);
    if ParseHeader(s).Header? {
      FitsNonNegative(cfg, ParseHeader(s).length);
    }
  }

  // ---------------------------------------------------------------- payloads that do not fit

  /** Exactly when readFrame slices past its buffer: the header of a data frame passes every
      check made before, and announces a length that is negative as an int, or beyond 2^31
      while the wrapped size class is one the pool holds. */
  lemma OutOfRangeIff(cfg: Config, cont: Continuation, s: seq<Byte>)
    requires cfg.poolBegin <= TWO31 && cfg.poolEnd <= TWO31
    ensures var p := ParseHeader(s);
      FrameStep(cfg, cont, s).result == Failed(OutOfRange)
      <==> && p.Header? && p.length <= cfg.readMax && !Reserved(p.b0) && GetMask(p.b1) == cfg.isServer
           && IsDataFrame(GetOpcode(p.b0))
           && (p.length < 0 || (p.length > TWO31 && SizeClass(cfg.poolBegin, p.length) <= cfg.poolEnd))
  {
    hide GetMask, GetLengthCode, GetFIN, GetOpcode, ParseHeader, Reserved, IsDataFrame, Unmasked, SizeClass, Capacity;
    ParseSound(s);
    var p := ParseHeader(s);
    if p.Header? {
      if p.length >= 0 { CapacitySufficesIff(cfg.poolBegin, cfg.poolEnd, p.length); }
      ControlFits(cont, p.b0, p.b1, p.key, p.rest);
    }
  }

  lemma ControlFits(cont: Continuation, b0: Byte, b1: Byte, key: seq<Byte>, rest: seq<Byte>)
    requires key == [] || |key| == 4
    ensures ControlStep(cont, b0, b1, key, rest).result != Failed(OutOfRange)
  {
    hide GetFIN, GetOpcode, Unmasked, ControlLength;
  }

  function NegativeLength(): seq<Byte> { [0x82, 0xFF, 0x80, 0, 0, 0, 0, 0, 0, 0, 1, 2, 3, 4] }

  lemma NegativeLengthParses()
    ensures ParseHeader(NegativeLength()) == Header(0x82, 0xFF, [1, 2, 3, 4], -0x8000_0000_0000_0000, [])
  {
    var s := NegativeLength();
    var t := s[2..];
    assert GetLengthCode(0xFF) == 127 && GetMask(0xFF);
    hide GetLengthCode, GetMask, BE;
    assert t[..8] == [0x80, 0, 0, 0, 0, 0, 0, 0];
    TopBit();
    assert t[8..][..4] == [1, 2, 3, 4] && t[8..][4..] == [];
  }

  /** It does happen with the library's default limits: a masked binary frame whose 64-bit
      length is 2^63. */
  lemma OutOfRangeExample(cont: Continuation, checkUtf8: bool)
    ensures var cfg := Config(true, 16 * 1024 * 1024, checkUtf8, 128, 256 * 1024);
      FrameStep(cfg, cont, NegativeLength()).result == Failed(OutOfRange)
  {
    NegativeLengthParses();
    assert GetMask(0xFF) && GetOpcode(0x82) == 2 && !Reserved(0x82) && IsDataFrame(2);
    hide GetLengthCode, GetMask, GetOpcode, Reserved, IsDataFrame, FrameStep, ParseHeader, BE, NegativeLength;
    OutOfRangeIff(Config(true, 16 * 1024 * 1024, checkUtf8, 128, 256 * 1024), cont, NegativeLength());
  }

  lemma TopBit()
    ensures BE([0x80, 0, 0, 0, 0, 0, 0, 0]) == 0x8000_0000_0000_0000
  {
    var b: seq<Byte> := [0x80, 0, 0, 0, 0, 0, 0, 0];
    assert b[..7] == [0x80, 0, 0, 0, 0, 0, 0] && b[..7][..6] == [0x80, 0, 0, 0, 0, 0];
    assert b[..7][..6][..5] == [0x80, 0, 0, 0, 0];
    var c := b[..7][..6][..5];
    assert c[..4] == [0x80, 0, 0, 0] && c[..4][..3] == [0x80, 0, 0];
    assert c[..4][..3][..2] == [0x80, 0] && c[..4][..3][..2][..1] == [0x80];
    assert [0x80 as Byte][..0] == [];
    assert BE([0x80]) == 0x80;
    assert BE(c[..4][..3]) == 0x80_0000;
    assert BE(c) == 0x80_0000_0000;
  }

  // ---------------------------------------------------------------- ReadMessage, on values

  function After(done: seq<Event>, step: Step): Step { step.(events := done + step.events) }

  lemma AfterTwice(d: seq<Event>, e: seq<Event>, step: Step)
    ensures After(d, After(e, step)) == After(d + e, step)
  {
    assert d + (e + step.events) == (d + e) + step.events;
  }

  /** ReadMessage reads frames until one completes a message or fails. */
  function MessageStep(cfg: Config, cont: Continuation, s: seq<Byte>): Step
    decreases |s|
  {
    var step := FrameStep(cfg, cont, s);
    if !step.result.Pending? then step
    else
      FrameStepConsumes(cfg, cont, s);
      After(step.events, MessageStep(cfg, step.cont, step.rest))
  }

  // ---------------------------------------------------------------- ReadLoop, on values

  datatype Loop = Loop(trace: seq<Event>, error: Error, cont: Continuation, rest: seq<Byte>)

  /** ReadLoop reads until the first error; text is checked before it is delivered. */
  function LoopFrom(cfg: Config, cont: Continuation, s: seq<Byte>): Loop
    decreases |s|
  {
    var step := FrameStep(cfg, cont, s);
    match step.result
    case Failed(e) => Loop(step.events, e, step.cont, step.rest)
    case Pending =>
      FrameStepConsumes(cfg, cont, s);
      Onward(step.events, LoopFrom(cfg, step.cont, step.rest))
    case Delivered(m) =>
      if !EncodingOk(cfg.checkUtf8, m.opcode, m.data) then
        Loop(step.events, Wrapped(CLOSE_UNSUPPORTED_DATA), step.cont, step.rest)
      else
        FrameStepConsumes(cfg, cont, s);
        Onward(step.events + [OnMessage(m)], LoopFrom(cfg, step.cont, step.rest))
  }

  function Onward(trace: seq<Event>, l: Loop): Loop { l.(trace := trace + l.trace) }

  lemma OnwardTwice(d: seq<Event>, e: seq<Event>, l: Loop)
    ensures Onward(d, Onward(e, l)) == Onward(d + e, l)
  {
    assert d + (e + l.trace) == (d + e) + l.trace;
  }

  /** One turn of the loop, after the trace d. */
  lemma LoopTurn(cfg: Config, cont: Continuation, s: seq<Byte>, d: seq<Event>)
    ensures var step := FrameStep(cfg, cont, s); var all := Onward(d, LoopFrom(cfg, cont, s));
      match step.result
      case Failed(error) => all == Loop(d + step.events, error, step.cont, step.rest)
      case Pending => all == Onward(d + step.events, LoopFrom(cfg, step.cont, step.rest))
      case Delivered(m) =>
        all == if EncodingOk(cfg.checkUtf8, m.opcode, m.data)
               then Onward(d + (step.events + [OnMessage(m)]), LoopFrom(cfg, step.cont, step.rest))
               else Loop(d + step.events, Wrapped(CLOSE_UNSUPPORTED_DATA), step.cont, step.rest)
  {
    hide FrameStep, EncodingOk;
    var step := FrameStep(cfg, cont, s);
    match step.result
    case Failed(_) =>
    case Pending => OnwardTwice(d, step.events, LoopFrom(cfg, step.cont, step.rest));
    case Delivered(m) => OnwardTwice(d, step.events + [OnMessage(m)], LoopFrom(cfg, step.cont, step.rest));
  }

  lemma OnwardNothing(l: Loop)
    ensures Onward([], l) == l
  {
  }

  // ---------------------------------------------------------------- in place

  function MessageOf(r: Result): Option<Message> { if r.Delivered? then Some(r.message) else None }

  function ErrorOf(r: Result): Option<Error> { if r.Failed? then Some(r.error) else None }

  function KeyIn(h: seq<Byte>): seq<Byte>
    requires |h| == HEADER_SIZE
  {
    if GetMask(h[1]) then h[10..14] else []
  }

  lemma KeySize(h: seq<Byte>)
    requires |h| == HEADER_SIZE
    ensures KeyIn(h) == [] || |KeyIn(h)| == 4
  {
  }

  /** The reading half of Conn. `events` records the calls of the handlers. */
  class Conn {
    const cfg: Config
    const fh: FrameHeader
    const br: ByteReader
    var cont: Continuation
    var events: seq<Event>

    ghost predicate Valid()
    {
      fh.h.Length == HEADER_SIZE
    }

    constructor (cfg: Config, stream: seq<Byte>)
      ensures Valid() && fresh(fh.h) && fresh(br) && this.cfg == cfg
      ensures br.rest == stream && cont == IDLE && events == []
    {
      this.cfg := cfg;
      fh := new FrameHeader();
      br := new ByteReader(stream);
      cont, events := IDLE, [];
    }

    ghost predicate Agrees(step: Step, seen: seq<Event>, msg: Option<Message>, error: Option<Error>)
      reads this, br
    {
      && cont == step.cont && br.rest == step.rest && events == seen + step.events
      && msg == MessageOf(step.result) && error == ErrorOf(step.result)
    }

    /** Reads n payload bytes and unmasks them in place when the frame carries a key. */
    method ReadPayload(n: nat) returns (payload: seq<Byte>, short: Option<ReadError>)
      requires Valid()
      modifies br
      ensures old(|br.rest|) < n ==> short == Some(ShortRead(old(|br.rest|))) && br.rest == []
      ensures old(|br.rest|) >= n ==>
        short.None? && br.rest == old(br.rest)[n..] && payload == Unmasked(old(br.rest)[..n], KeyIn(fh.h[..]))
    {
      hide GetMask, Masked;
      var p := new Byte[n];
      short := br.ReadN(p, 0, n);
      if short.None? {
        assert p[..] == old(br.rest)[..n] && p[0..] == p[..];
        if GetMask(fh.h[1]) {
          assert fh.h[10..14] == fh.h[..][10..14];
          MaskXOR(p, 0, fh.h[10..14]);
        }
      }
      payload := p[..];
    }

    /** A control frame without payload reads nothing. */
    method ReadControlPayload(n: nat) returns (payload: seq<Byte>, short: Option<ReadError>)
      requires Valid()
      modifies br
      ensures old(|br.rest|) < n ==> short == Some(ShortRead(old(|br.rest|))) && br.rest == []
      ensures old(|br.rest|) >= n ==>
        short.None? && br.rest == old(br.rest)[n..] && payload == Unmasked(old(br.rest)[..n], KeyIn(fh.h[..]))
    {
      hide GetMask, Unmasked;
      payload, short := [], None;
      if n > 0 {
        payload, short := ReadPayload(n);
      } else {
        MaskedNothing(KeyIn(fh.h[..]));
        assert br.rest[..0] == [];
      }
    }

    method ReadControl() returns (error: Option<Error>)
      requires Valid()
      modifies this, br
      ensures Agrees(ControlStep(old(cont), fh.h[0], fh.h[1], KeyIn(fh.h[..]), old(br.rest)), old(events), None, error)
    {
      KeySize(fh.h[..]);
      hide GetMask, ControlLength, GetFIN, GetOpcode, Unmasked, ControlEvents, ControlResult, KeyIn, ControlStep;
      ghost var key := KeyIn(fh.h[..]);
      if !GetFIN(fh.h[0]) {
        ControlRefused(cont, fh.h[0], fh.h[1], key, br.rest);
        return Some(Status(CLOSE_PROTOCOL_ERROR));
      }
      var n := ControlLength(fh.h[1]);
      if n > THRESHOLD_V1 {
        ControlRefused(cont, fh.h[0], fh.h[1], key, br.rest);
        return Some(Status(CLOSE_PROTOCOL_ERROR));
      }
      ControlAdmitted(cont, fh.h[0], fh.h[1], key, br.rest);
      error := FinishControl(n);
    }

    /** readControl once the header has been found in order. */
    method FinishControl(n: nat) returns (error: Option<Error>)
      requires Valid()
      modifies this, br
      ensures cont == old(cont)
      ensures old(|br.rest|) < n ==>
        error == Some(Io(ShortRead(old(|br.rest|)))) && br.rest == [] && events == old(events)
      ensures old(|br.rest|) >= n ==>
        var opcode := GetOpcode(fh.h[0]);
        && br.rest == old(br.rest)[n..] && error == ErrorOf(ControlResult(opcode)) && !ControlResult(opcode).Delivered?
        && events == old(events) + ControlEvents(opcode, Unmasked(old(br.rest)[..n], KeyIn(fh.h[..])))
    {
      hide GetMask, GetOpcode, Unmasked, ControlEvents, ControlResult;
      var payload, short := ReadControlPayload(n);
      if short.Some? {
        return Some(Io(short.value));
      }
      error := Dispatch(GetOpcode(fh.h[0]), payload);
    }

    /** The switch that ends readControl. */
    method Dispatch(opcode: Opcode, payload: seq<Byte>) returns (error: Option<Error>)
      modifies this`events
      ensures error == ErrorOf(ControlResult(opcode)) && events == old(events) + ControlEvents(opcode, payload)
      ensures !ControlResult(opcode).Delivered?
    {
      if opcode == PING {
        events := events + [Ping(payload)];
        error := None;
      } else if opcode == PONG {
        events := events + [Pong(payload)];
        error := None;
      } else if opcode == CLOSE {
        events := events + [CloseFrame(payload)];
        error := Some(Status(CLOSE_NORMAL));
      } else {
        error := Some(Wrapped(CLOSE_PROTOCOL_ERROR));
      }
    }

    method ReadFrame() returns (msg: Option<Message>, error: Option<Error>)
      requires Valid()
      modifies this, br, fh.h
      ensures Agrees(FrameStep(cfg, old(cont), old(br.rest)), old(events), msg, error)
    {
      hide GetMask, GetLengthCode, GetFIN, GetOpcode, GetRSV1, GetRSV2, GetRSV3, Masked, Fits, BE, ControlStep;
      msg := None;
      ParseSound(br.rest);
      var contentLength, short := fh.Parse(br);
      if short.Some? {
        return None, Some(Io(short.value));
      }
      if contentLength > cfg.readMax {
        return None, Some(Status(CLOSE_TOO_LARGE));
      }
      if GetRSV1(fh.h[0]) || GetRSV2(fh.h[0]) || GetRSV3(fh.h[0]) {
        return None, Some(Status(CLOSE_PROTOCOL_ERROR));
      }
      var maskEnabled := GetMask(fh.h[1]);
      if (cfg.isServer && !maskEnabled) || (!cfg.isServer && maskEnabled) {
        return None, Some(Status(CLOSE_PROTOCOL_ERROR));
      }
      var opcode := GetOpcode(fh.h[0]);
      if !IsDataFrame(opcode) {
        error := ReadControl();
        return;
      }
      msg, error := ReadData(opcode, contentLength);
    }

    /** readFrame from the point where it is known to be reading a data frame. */
    method ReadData(opcode: Opcode, contentLength: int) returns (msg: Option<Message>, error: Option<Error>)
      requires Valid() && opcode == GetOpcode(fh.h[0])
      modifies this, br
      ensures var step := DataStep(cfg, old(cont), fh.h[0], contentLength, KeyIn(fh.h[..]), old(br.rest));
        Agrees(step, old(events), msg, error)
    {
      hide GetMask, GetFIN, GetOpcode, Masked, Fits, Unmasked, AcceptData;
      FitsNonNegative(cfg, contentLength);
      if !Fits(cfg, contentLength) {
        return None, Some(OutOfRange);
      }
      var p, short := ReadPayload(contentLength);
      if short.Some? {
        return None, Some(Io(short.value));
      }
      msg, error := Accept(GetFIN(fh.h[0]), opcode, p);
    }

    /** What readFrame does with the unmasked payload of a data frame. */
    method Accept(fin: bool, opcode: Opcode, p: seq<Byte>) returns (msg: Option<Message>, error: Option<Error>)
      modifies this`cont
      ensures var (c, r) := AcceptData(cfg, old(cont), fin, opcode, p);
        cont == c && msg == MessageOf(r) && error == ErrorOf(r)
    {
      if opcode != CONTINUATION && cont.initialized {
        return None, Some(Status(CLOSE_PROTOCOL_ERROR));
      }
      if fin && opcode != CONTINUATION {
        return Some(Message(opcode, p)), None;
      }
      if !fin && opcode != CONTINUATION {
        cont := cont.(initialized := true);
        cont := cont.(opcode := opcode);
        cont := cont.(buffer := []);
      }
      if !cont.initialized {
        return None, Some(Status(CLOSE_PROTOCOL_ERROR));
      }
      cont := cont.(buffer := cont.buffer + p);
      if |cont.buffer| > cfg.readMax {
        return None, Some(Status(CLOSE_TOO_LARGE));
      }
      if !fin {
        return None, None;
      }
      msg := Some(Message(cont.opcode, cont.buffer));
      cont := cont.(initialized := false, opcode := 0, buffer := []);
      error := None;
    }

    method ReadMessage() returns (msg: Option<Message>, error: Option<Error>)
      requires Valid()
      modifies this, br, fh.h
      ensures Agrees(MessageStep(cfg, old(cont), old(br.rest)), old(events), msg, error)
    {
      hide FrameStep;
      ghost var cont0, s, seen, done := cont, br.rest, events, [];
      msg, error := None, None;
      while true
        invariant events == seen + done
        invariant MessageStep(cfg, cont0, s) == After(done, MessageStep(cfg, cont, br.rest))
        decreases |br.rest|
      {
        FrameStepConsumes(cfg, cont, br.rest);
        ghost var step := FrameStep(cfg, cont, br.rest);
        msg, error := ReadFrame();
        AfterTwice(done, step.events, MessageStep(cfg, cont, br.rest));
        done := done + step.events;
        if error.Some? || msg.Some? {
          return;
        }
      }
    }

    /** ReadLoop with emitMessage: what the handlers are told, in order, and the error that ends it. */
    method ReadLoop() returns (error: Error)
      requires Valid()
      modifies this, br, fh.h
      ensures var l := LoopFrom(cfg, old(cont), old(br.rest));
        && events == old(events) + l.trace && error == l.error
        && cont == l.cont && br.rest == l.rest
    {
      hide FrameStep, EncodingOk, LoopFrom, Onward;
      ghost var cont0, s, seen, done := cont, br.rest, events, [];
      OnwardNothing(LoopFrom(cfg, cont0, s));
      while true
        invariant events == seen + done
        invariant LoopFrom(cfg, cont0, s) == Onward(done, LoopFrom(cfg, cont, br.rest))
        decreases |br.rest|
      {
        FrameStepConsumes(cfg, cont, br.rest);
        LoopTurn(cfg, cont, br.rest, done);
        ghost var step := FrameStep(cfg, cont, br.rest);
        var msg, err := ReadFrame();
        ghost var was := done;
        done := done + step.events;
        if err.Some? {
          return err.value;
        }
        if msg.Some? {
          if !EncodingOk(cfg.checkUtf8, msg.value.opcode, msg.value.data) {
            return Wrapped(CLOSE_UNSUPPORTED_DATA);
          }
          events := events + [OnMessage(msg.value)];
          done := done + [OnMessage(msg.value)];
          assert done == was + (step.events + [OnMessage(msg.value)]);
        }
      }
    }
  }
}
