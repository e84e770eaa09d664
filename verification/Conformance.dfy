/** Which frame sequences the reader accepts, said by looking back over the frames themselves
    rather than at the reader's state (sections 5.4 and 5.5 of RFC 6455). */
module Conformance {
  import opened Words
  import opened Masks
  import opened FrameHeaders
  import opened Payloads
  import opened Readers
  import opened Frames

  // ---------------------------------------------------------------- looking back

  /** The message left open by a sequence of frames: the last data frame is not final, and
      the payloads since the frame that opened it are joined. */
  function OpenMessage(fs: seq<Frame>): Option<Message>
    decreases |fs|
  {
    if fs == [] then None
    else
      var init, f := fs[..|fs| - 1], fs[|fs| - 1];
      if !f.IsData() then OpenMessage(init)
      else if f.Fin() then None
      else if f.Op() != CONTINUATION then Some(Message(f.Op(), f.payload))
      else
        match OpenMessage(init)
        case None => None
        case Some(m) => Some(Message(m.opcode, m.data + f.payload))
  }

  /** The message a frame completes, given what came before it. */
  function Completed(before: seq<Frame>, f: Frame): Option<Message> {
    if !f.IsData() || !f.Fin() then None
    else if f.Op() != CONTINUATION then Some(Message(f.Op(), f.payload))
    else
      match OpenMessage(before)
      case None => None
      case Some(m) => Some(Message(m.opcode, m.data + f.payload))
  }

  /** The rule that the header of a frame breaks by itself. */
  function HeaderRule(cfg: Config, b0: Byte, masked: bool, form: LengthForm, n: int): Option<Error> {
    if n > cfg.readMax then Some(Status(CLOSE_TOO_LARGE))
    else if Reserved(b0) || masked != cfg.isServer then Some(Status(CLOSE_PROTOCOL_ERROR))
    else if IsDataFrame(GetOpcode(b0)) then if Fits(cfg, n) then None else Some(OutOfRange)
    else if !GetFIN(b0) || !form.Bits7? then Some(Status(CLOSE_PROTOCOL_ERROR))
    else None
  }

  /** The rule that a frame with such a header breaks, given what came before it; CLOSE ends the
      reading normally. */
  function BodyRule(cfg: Config, before: seq<Frame>, f: Frame): Option<Error> {
    if f.IsData() then DataRule(cfg, OpenMessage(before), f)
    else if f.Op() == CLOSE then Some(Status(CLOSE_NORMAL))
    else if f.Op() != PING && f.Op() != PONG then Some(Wrapped(CLOSE_PROTOCOL_ERROR))
    else None
  }

  function DataRule(cfg: Config, open: Option<Message>, f: Frame): Option<Error> {
    if (f.Op() == CONTINUATION) != open.Some? then Some(Status(CLOSE_PROTOCOL_ERROR))
    else
      var m := if open.Some? then Message(open.value.opcode, open.value.data + f.payload)
               else Message(f.Op(), f.payload);
      if |m.data| > cfg.readMax then Some(Status(CLOSE_TOO_LARGE))
      else if f.Fin() && !EncodingOk(cfg.checkUtf8, m.opcode, m.data) then Some(Wrapped(CLOSE_UNSUPPORTED_DATA))
      else None
  }

  function RuleOf(cfg: Config, f: Frame): Option<Error> { HeaderRule(cfg, f.b0, f.masked, f.form, |f.payload|) }

  function Violation(cfg: Config, before: seq<Frame>, f: Frame): Option<Error> {
    match RuleOf(cfg, f)
    case Some(e) => Some(e)
    case None => BodyRule(cfg, before, f)
  }

  ghost predicate Conforming(cfg: Config, fs: seq<Frame>) {
    forall i :: 0 <= i < |fs| ==> Violation(cfg, fs[..i], fs[i]).None?
  }

  // ---------------------------------------------------------------- the reader's state

  /** continuationFrame after these frames. */
  function StateOf(fs: seq<Frame>): Continuation {
    match OpenMessage(fs)
    case None => IDLE
    case Some(m) => Continuation(true, m.opcode, m.data)
  }

  lemma OpenMessageStep(fs: seq<Frame>, f: Frame)
    ensures OpenMessage(fs + [f])
         == if !f.IsData() then OpenMessage(fs)
            else if f.Fin() then None
            else if f.Op() != CONTINUATION then Some(Message(f.Op(), f.payload))
            else match OpenMessage(fs)
                 case None => None
                 case Some(m) => Some(Message(m.opcode, m.data + f.payload))
  {
    assert (fs + [f])[..|fs|] == fs;
  }

  /** Whether the message a frame completes may be handed to the application. */
  predicate Emittable(cfg: Config, r: Result) {
    r.Delivered? ==> EncodingOk(cfg.checkUtf8, r.message.opcode, r.message.data)
  }

  ghost predicate Agreement(cfg: Config, before: seq<Frame>, f: Frame, a: Reading, v: Option<Error>) {
    && (a.result.Failed? ==> v == Some(a.result.error))
    && (!a.result.Failed? && !Emittable(cfg, a.result) ==> v == Some(Wrapped(CLOSE_UNSUPPORTED_DATA)))
    && (!a.result.Failed? && Emittable(cfg, a.result) ==> v.None?)
    && (!a.result.Failed? ==> a.cont == StateOf(before + [f]) && MessageOf(a.result) == Completed(before, f))
  }

  lemma DataAgrees(cfg: Config, before: seq<Frame>, f: Frame)
    requires f.IsData() && |f.payload| <= cfg.readMax
    ensures var (c, r) := AcceptData(cfg, StateOf(before), f.Fin(), f.Op(), f.payload);
      Agreement(cfg, before, f, Reading(c, r, []), DataRule(cfg, OpenMessage(before), f))
  {
    hide Fits, EncodingOk, GetFIN, GetOpcode, IsDataFrame, OpenMessage;
    OpenMessageStep(before, f);
    assert [] + f.payload == f.payload;
  }

  lemma ControlAgrees(cfg: Config, before: seq<Frame>, f: Frame)
    requires !f.IsData() && f.Fin()
    ensures Agreement(cfg, before, f, Reading(StateOf(before), ControlResult(f.Op()), []), BodyRule(cfg, before, f))
  {
    hide GetFIN, GetOpcode, IsDataFrame, OpenMessage;
    OpenMessageStep(before, f);
  }

  /** The state machine and the backward-looking rules agree on one frame. */
  lemma AcceptIffNoViolation(cfg: Config, before: seq<Frame>, f: Frame)
    ensures var a, v := Accept(cfg, StateOf(before), f), Violation(cfg, before, f);
      && (a.result.Failed? ==> v == Some(a.result.error))
      && (!a.result.Failed? && !Emittable(cfg, a.result) ==> v == Some(Wrapped(CLOSE_UNSUPPORTED_DATA)))
      && (!a.result.Failed? && Emittable(cfg, a.result) ==> v.None?)
      && (!a.result.Failed? ==>
            a.cont == StateOf(before + [f]) && MessageOf(a.result) == Completed(before, f))
  {
    hide Fits, EncodingOk, GetFIN, GetOpcode, Reserved, IsDataFrame, AcceptData, StateOf, ControlResult, Completed,
         OpenMessage, Emittable, DataRule, BodyRule;
    if RuleOf(cfg, f).None? {
      if f.IsData() {
        DataAgrees(cfg, before, f);
        DataRuleIsBodyRule(cfg, before, f);
      } else {
        ControlAgrees(cfg, before, f);
      }
    }
  }

  lemma DataRuleIsBodyRule(cfg: Config, before: seq<Frame>, f: Frame)
    requires f.IsData()
    ensures BodyRule(cfg, before, f) == DataRule(cfg, OpenMessage(before), f)
  {
  }

  // ---------------------------------------------------------------- whole streams of frames

  /** What the application is told of a frame that breaks no rule. */
  function FrameTrace(before: seq<Frame>, f: Frame): seq<Event> {
    match Completed(before, f)
    case Some(m) => [OnMessage(m)]
    case None => EventsIn(f)
  }

  /** What it is told of fs, which follow `before`. */
  function Trace(before: seq<Frame>, fs: seq<Frame>): seq<Event>
    decreases |fs|
  {
    if fs == [] then [] else FrameTrace(before, fs[0]) + Trace(before + [fs[0]], fs[1..])
  }

  function EventsIn(f: Frame): seq<Event> {
    if f.IsData() then [] else ControlEvents(f.Op(), f.payload)
  }

  /** What it is told of a frame that breaks a rule: of a close frame, once its header is in order. */
  function LastTrace(cfg: Config, f: Frame): seq<Event> {
    if RuleOf(cfg, f).None? then EventsIn(f) else []
  }

  /** How many frames of fs, following `before`, break no rule before one does. */
  function Prefix(cfg: Config, before: seq<Frame>, fs: seq<Frame>): (k: nat)
    ensures k <= |fs|
    decreases |fs|
  {
    if fs == [] || Violation(cfg, before, fs[0]).Some? then 0
    else 1 + Prefix(cfg, before + [fs[0]], fs[1..])
  }

  lemma {:induction false} PrefixMeans(cfg: Config, before: seq<Frame>, fs: seq<Frame>)
    ensures var k := Prefix(cfg, before, fs);
      && (forall i :: 0 <= i < k ==> Violation(cfg, before + fs[..i], fs[i]).None?)
      && (k < |fs| ==> Violation(cfg, before + fs[..k], fs[k]).Some?)
    decreases |fs|
  {
    hide Violation;
    if fs != [] && Violation(cfg, before, fs[0]).None? {
      var k := Prefix(cfg, before, fs);
      PrefixMeans(cfg, before + [fs[0]], fs[1..]);
      forall i | 0 <= i < |fs|
        ensures before + fs[..i] == if i == 0 then before else (before + [fs[0]]) + fs[1..][..i - 1]
      {
      }
      assert forall i :: 0 < i < |fs| ==> fs[i] == fs[1..][i - 1];
    } else {
      assert before + fs[..0] == before;
    }
  }

  lemma EmptyReads(cfg: Config, cont: Continuation)
    ensures LoopFrom(cfg, cont, []) == Loop([], Io(EOF), cont, [])
  {
  }

  /** How the functions of a stream of frames treat its first frame. */
  lemma FirstFrame(cfg: Config, before: seq<Frame>, f: Frame, fs: seq<Frame>)
    ensures Trace(before, [f] + fs) == FrameTrace(before, f) + Trace(before + [f], fs)
    ensures WireAll([f] + fs) == Wire(f) + WireAll(fs)
    ensures Prefix(cfg, before, [f] + fs) ==
      if Violation(cfg, before, f).Some? then 0 else 1 + Prefix(cfg, before + [f], fs)
  {
    hide Violation, Wire, FrameTrace;
    assert ([f] + fs)[1..] == fs;
  }

  /** The reader's step on a frame: the events are those of the frame. */
  lemma EventsOfAccept(cfg: Config, cont: Continuation, f: Frame)
    ensures Accept(cfg, cont, f).events == LastTrace(cfg, f)
    ensures Accept(cfg, cont, f).result.Delivered? ==> Accept(cfg, cont, f).events == []
  {
    hide Fits, GetFIN, GetOpcode, Reserved, IsDataFrame, AcceptData, ControlEvents;
  }

  lemma CompletedIsData(before: seq<Frame>, f: Frame)
    ensures Completed(before, f).Some? ==> FrameTrace(before, f) == [OnMessage(Completed(before, f).value)]
    ensures Completed(before, f).None? ==> FrameTrace(before, f) == EventsIn(f)
  {
    hide Completed, EventsIn;
  }

  /** One frame that breaks no rule, and then the rest. */
  lemma AcceptedStep(cfg: Config, before: seq<Frame>, f: Frame, tail: seq<Byte>)
    requires Sendable(f) && Violation(cfg, before, f).None?
    ensures LoopFrom(cfg, StateOf(before), Wire(f) + tail)
         == Onward(FrameTrace(before, f), LoopFrom(cfg, StateOf(before + [f]), tail))
  {
    assert RuleOf(cfg, f).None?;
    hide Violation, RuleOf, Accept, Wire, StateOf, Completed, FrameStep, EventsIn, EncodingOk, FrameTrace, LoopFrom;
    ReadsWholeFrame(cfg, StateOf(before), f, tail);
    AcceptIffNoViolation(cfg, before, f);
    EventsOfAccept(cfg, StateOf(before), f);
    CompletedIsData(before, f);
    LoopTurn(cfg, StateOf(before), Wire(f) + tail, []);
    OnwardNothing(LoopFrom(cfg, StateOf(before), Wire(f) + tail));
  }

  /** One frame that breaks a rule. */
  lemma RefusedStep(cfg: Config, before: seq<Frame>, f: Frame, tail: seq<Byte>)
    requires Sendable(f) && Violation(cfg, before, f).Some?
    ensures var l := LoopFrom(cfg, StateOf(before), Wire(f) + tail);
      l.trace == LastTrace(cfg, f) && Violation(cfg, before, f) == Some(l.error)
  {
    hide Violation, Accept, Wire, StateOf, Completed, FrameStep, EncodingOk, LastTrace;
    ReadsWholeFrame(cfg, StateOf(before), f, tail);
    AcceptIffNoViolation(cfg, before, f);
    EventsOfAccept(cfg, StateOf(before), f);
  }

  /** ReadLoop gets through frames that conform, and goes on behind them. */
  lemma {:induction false} ConformingFramesRead(cfg: Config, before: seq<Frame>, fs: seq<Frame>, tail: seq<Byte>)
    requires Prefix(cfg, before, fs) == |fs| && forall i :: 0 <= i < |fs| ==> Sendable(fs[i])
    ensures LoopFrom(cfg, StateOf(before), WireAll(fs) + tail)
         == Onward(Trace(before, fs), LoopFrom(cfg, StateOf(before + fs), tail))
    decreases |fs|
  {
    hide Violation, Wire, StateOf, LoopFrom, Sendable, FrameTrace;
    if fs == [] {
      assert before + fs == before && WireAll(fs) + tail == tail;
      OnwardNothing(LoopFrom(cfg, StateOf(before), tail));
    } else {
      hide Trace, WireAll, Prefix;
      var f, rest := fs[0], fs[1..];
      assert Sendable(f) && fs == [f] + rest;
      FirstFrame(cfg, before, f, rest);
      Joins(Wire(f), WireAll(rest), tail);
      AcceptedStep(cfg, before, f, WireAll(rest) + tail);
      ConformingFramesRead(cfg, before + [f], rest, tail);
      assert before + fs == (before + [f]) + rest;
      OnwardTwice(FrameTrace(before, f), Trace(before + [f], rest), LoopFrom(cfg, StateOf(before + fs), tail));
    }
  }

  lemma {:induction false} WireAllSplit(fs: seq<Frame>, k: nat)
    requires k <= |fs|
    ensures WireAll(fs) == WireAll(fs[..k]) + WireAll(fs[k..])
    decreases k
  {
    hide Wire;
    if k == 0 {
      assert fs[k..] == fs;
    } else {
      WireAllSplit(fs[1..], k - 1);
      assert fs[..k][1..] == fs[1..][..k - 1] && fs[1..][k - 1..] == fs[k..];
    }
  }

  lemma {:induction false} PrefixOfPrefix(cfg: Config, before: seq<Frame>, fs: seq<Frame>)
    ensures var k := Prefix(cfg, before, fs); Prefix(cfg, before, fs[..k]) == k
    decreases |fs|
  {
    hide Violation;
    if fs != [] && Violation(cfg, before, fs[0]).None? {
      var k := Prefix(cfg, before + [fs[0]], fs[1..]);
      PrefixOfPrefix(cfg, before + [fs[0]], fs[1..]);
      assert fs[..k + 1][1..] == fs[1..][..k];
    }
  }

  /** ReadLoop on any frames at all: it gets through the conforming prefix, telling exactly what
      it means, and stops with the rule the next frame breaks, or at the clean end of the stream. */
  lemma LoopOutcome(cfg: Config, before: seq<Frame>, fs: seq<Frame>)
    requires forall i :: 0 <= i < |fs| ==> Sendable(fs[i])
    ensures var l := LoopFrom(cfg, StateOf(before), WireAll(fs)); var k := Prefix(cfg, before, fs);
      && (k < |fs| ==> Violation(cfg, before + fs[..k], fs[k]) == Some(l.error)
                       && l.trace == Trace(before, fs[..k]) + LastTrace(cfg, fs[k]))
      && (k == |fs| ==> l == Loop(Trace(before, fs), Io(EOF), StateOf(before + fs), []))
  {
    hide Violation, Wire, StateOf, LoopFrom, Sendable, Trace, Prefix, LastTrace;
    var k := Prefix(cfg, before, fs);
    var done, rest := fs[..k], WireAll(fs[k..]);
    PrefixOfPrefix(cfg, before, fs);
    PrefixMeans(cfg, before, fs);
    WireAllSplit(fs, k);
    ConformingFramesRead(cfg, before, done, rest);
    if k == |fs| {
      assert done == fs && rest == [];
      EmptyReads(cfg, StateOf(before + fs));
    } else {
      assert Sendable(fs[k]);
      assert fs[k..][1..] == fs[k + 1..];
      RefusedStep(cfg, before + done, fs[k], WireAll(fs[k + 1..]));
    }
  }

  lemma ViolationIsNotEof(cfg: Config, before: seq<Frame>, f: Frame)
    ensures Violation(cfg, before, f) != Some(Io(EOF))
  {
    hide Fits, EncodingOk, GetFIN, GetOpcode, Reserved, IsDataFrame;
  }

  lemma ConformingIff(cfg: Config, fs: seq<Frame>)
    ensures Conforming(cfg, fs) <==> Prefix(cfg, [], fs) == |fs|
  {
    hide Violation, Prefix;
    PrefixMeans(cfg, [], fs);
    forall i | 0 <= i < |fs|
      ensures [] + fs[..i] == fs[..i]
    {
    }
  }

  /** The reader gets through a stream of frames if and only if the frames conform. */
  lemma AcceptedIffConforming(cfg: Config, fs: seq<Frame>)
    requires forall i :: 0 <= i < |fs| ==> Sendable(fs[i])
    ensures LoopFrom(cfg, IDLE, WireAll(fs)).error == Io(EOF) <==> Conforming(cfg, fs)
    ensures Conforming(cfg, fs) ==> LoopFrom(cfg, IDLE, WireAll(fs)) == Loop(Trace([], fs), Io(EOF), StateOf(fs), [])
  {
    assert StateOf([]) == IDLE;
    hide Violation, WireAll, LoopFrom, Trace, StateOf, Prefix, Sendable, Conforming;
    LoopOutcome(cfg, [], fs);
    ConformingIff(cfg, fs);
    var k := Prefix(cfg, [], fs);
    assert [] + fs == fs && fs[..|fs|] == fs;
    if k < |fs| {
      ViolationIsNotEof(cfg, [] + fs[..k], fs[k]);
    }
  }

  /** A continuation with nothing open, or a new message inside an open one, is refused with
      1002, and only after its payload has been read off the stream. */
  lemma MisplacedFrameRefused(cfg: Config, before: seq<Frame>, f: Frame, tail: seq<Byte>)
    requires Sendable(f) && f.IsData() && f.masked == cfg.isServer && !Reserved(f.b0)
    requires |f.payload| <= cfg.readMax && Fits(cfg, |f.payload|)
    requires (f.Op() == CONTINUATION) != OpenMessage(before).Some?
    ensures var step := FrameStep(cfg, StateOf(before), Wire(f) + tail);
      step.result == Failed(Status(CLOSE_PROTOCOL_ERROR)) && step.rest == tail && step.cont == StateOf(before)
  {
    hide GetMask, GetFIN, GetOpcode, ControlLength, Wire, ParseHeader, Unmasked, Fits, Reserved, IsDataFrame,
         OpenMessage, FormOf;
    PayloadOnWire(f, tail);
  }

  // ---------------------------------------------------------------- any byte stream

  /** A message is open exactly when the last data frame so far is not final. */
  lemma {:induction false} OpenIffLastDataFrameUnfinished(cfg: Config, fs: seq<Frame>)
    requires Conforming(cfg, fs)
    ensures OpenMessage(fs).Some? <==>
      exists j :: 0 <= j < |fs| && fs[j].IsData() && !fs[j].Fin() && forall m :: j < m < |fs| ==> !fs[m].IsData()
    decreases |fs|
  {
    hide GetFIN, GetOpcode, IsDataFrame, Reserved, Fits, EncodingOk;
    if fs != [] {
      var init, f := fs[..|fs| - 1], fs[|fs| - 1];
      ConformingInit(cfg, fs);
      OpenIffLastDataFrameUnfinished(cfg, init);
      assert forall m :: 0 <= m < |init| ==> fs[m] == init[m];
      if f.IsData() && !f.Fin() {
        assert fs[|fs| - 1] == f;
      }
    }
  }

  lemma ConformingInit(cfg: Config, fs: seq<Frame>)
    requires Conforming(cfg, fs) && fs != []
    ensures Conforming(cfg, fs[..|fs| - 1]) && Violation(cfg, fs[..|fs| - 1], fs[|fs| - 1]).None?
  {
    hide Violation;
    var init := fs[..|fs| - 1];
    forall i | 0 <= i < |init|
      ensures Violation(cfg, init[..i], init[i]).None?
    {
      assert init[..i] == fs[..i] && init[i] == fs[i];
    }
  }

  /** What is being put together, and what is handed over, never exceeds ReadMaxPayloadSize. */
  lemma WithinLimit(cfg: Config, before: seq<Frame>, f: Frame)
    requires Violation(cfg, before, f).None? && cfg.readMax >= 0
    requires OpenMessage(before).Some? ==> |OpenMessage(before).value.data| <= cfg.readMax
    ensures Completed(before, f).Some? ==> |Completed(before, f).value.data| <= cfg.readMax
    ensures OpenMessage(before + [f]).Some? ==> |OpenMessage(before + [f]).value.data| <= cfg.readMax
  {
    hide GetFIN, GetOpcode, IsDataFrame, Reserved, Fits, EncodingOk, OpenMessage;
    OpenMessageStep(before, f);
  }

  /** The frame at the front of a stream whose first frame is complete. */
  function FrameOf(s: seq<Byte>): Frame {
    match ParseHeader(s)
    case Short(_) => Frame(0, false, [0, 0, 0, 0], [], Bits7)
    case Header(b0, b1, key, n, rest) =>
      ParseSound(s);
      var p := if 0 <= n <= |rest| then rest[..n] else [];
      Frame(b0, GetMask(b1), if GetMask(b1) then key else [0, 0, 0, 0], Unmasked(p, key), FormOf(b1))
  }

  /** A complete frame and the rest are all of the stream. */
  lemma FrameOfWire(s: seq<Byte>)
    requires var p := ParseHeader(s); p.Header? && 0 <= p.length <= |p.rest|
    ensures var p, f := ParseHeader(s), FrameOf(s);
      && Sendable(f) && s == Wire(f) + p.rest[p.length..] && |f.payload| == p.length
      && f.b0 == p.b0 && f.masked == GetMask(p.b1) && f.form == FormOf(p.b1)
  {
    hide GetMask, ParseHeader, FormOf, FormHolds, HeaderIn, Masked;
    var p := ParseHeader(s);
    GenerateInvertsParse(s);
    UnmaskedSize(p.key);
    var raw := p.rest[..p.length];
    if GetMask(p.b1) { MaskTwice(raw, p.key); }
    assert p.rest == raw + p.rest[p.length..];
  }

  /** Why the next frame of a stream is not got through, if it is not: the stream ends inside
      it, or it breaks a rule, which is found as soon as the header shows it. */
  function StopError(cfg: Config, before: seq<Frame>, s: seq<Byte>): Option<Error> {
    match ParseHeader(s)
    case Short(e) => Some(Io(e))
    case Header(b0, b1, key, n, rest) =>
      match HeaderRule(cfg, b0, GetMask(b1), FormOf(b1), n)
      case Some(e) => Some(e)
      case None => if |rest| < n then Some(Io(ShortRead(|rest|))) else BodyRule(cfg, before, FrameOf(s))
  }

  /** Of a complete frame it is the rule it breaks. */
  lemma StopIsViolation(cfg: Config, before: seq<Frame>, s: seq<Byte>)
    requires var p := ParseHeader(s); p.Header? && 0 <= p.length <= |p.rest|
    ensures StopError(cfg, before, s) == Violation(cfg, before, FrameOf(s))
  {
    hide GetMask, ParseHeader, FormOf, FrameOf, HeaderRule, BodyRule;
    FrameOfWire(s);
  }

  lemma HeaderRuleLength(cfg: Config, b0: Byte, b1: Byte, n: int)
    requires HeaderRule(cfg, b0, GetMask(b1), FormOf(b1), n).None?
    ensures IsDataFrame(GetOpcode(b0)) ==> 0 <= n
    ensures !IsDataFrame(GetOpcode(b0)) ==> FormOf(b1).Bits7?
  {
    hide GetFIN, GetOpcode, Reserved, IsDataFrame, GetMask, GetLengthCode;
  }

  lemma LengthBits7(s: seq<Byte>)
    ensures var p := ParseHeader(s);
      p.Header? && FormOf(p.b1).Bits7? ==> p.length == ControlLength(p.b1) >= 0
  {
    hide GetMask, BE;
  }

  /** A frame whose header breaks a rule, or that the stream does not hold in full. */
  lemma StopsAtHeader(cfg: Config, cont: Continuation, s: seq<Byte>)
    requires var p := ParseHeader(s);
      p.Header? ==> HeaderRule(cfg, p.b0, GetMask(p.b1), FormOf(p.b1), p.length).Some? || |p.rest| < p.length
    ensures FrameStep(cfg, cont, s).result.Failed? && FrameStep(cfg, cont, s).events == []
    ensures forall before :: StopError(cfg, before, s) == Some(FrameStep(cfg, cont, s).result.error)
  {
    hide GetMask, GetFIN, GetOpcode, Fits, Reserved, IsDataFrame, ParseHeader, FormOf, ControlLength, Unmasked, FrameOf,
         BodyRule, AcceptData, ControlResult, ControlEvents;
    ParseSound(s);
    var p := ParseHeader(s);
    if p.Header? {
      ControlForm(p.b1);
      LengthBits7(s);
    }
  }

  /** A frame that the stream breaks off: a short read, unless the header is there and breaks a rule. */
  lemma TornFrame(cfg: Config, cont: Continuation, f: Frame, m: nat)
    requires Sendable(f) && m < |Wire(f)|
    ensures var step := FrameStep(cfg, cont, Wire(f)[..m]);
      && step.result.Failed? && step.events == []
      && if RuleOf(cfg, f).Some? && ParseHeader(Wire(f)[..m]).Header? then Some(step.result.error) == RuleOf(cfg, f)
         else step.result.error.Io?
  {
    hide Wire, FrameStep, ParseHeader, GetMask, FormOf, HeaderRule, FrameOf, BodyRule, Unmasked, ControlLength;
    var s, more := Wire(f)[..m], Wire(f)[m..];
    var p := ParseHeader(s);
    assert s + more == Wire(f) && Wire(f) + [] == Wire(f);
    if p.Header? {
      ParseExtends(s, more);
      PayloadOnWire(f, []);
      assert |p.rest + more| == |f.payload|;
    }
    StopsAtHeader(cfg, cont, s);
    assert StopError(cfg, [], s) == Some(FrameStep(cfg, cont, s).result.error);
  }

  /** One step on any stream: it gets through a frame and only that, or stops for StopError. */
  lemma StepOrStop(cfg: Config, before: seq<Frame>, s: seq<Byte>)
    ensures var step, stop := FrameStep(cfg, StateOf(before), s), StopError(cfg, before, s);
      var l := LoopFrom(cfg, StateOf(before), s);
      if stop.None? then
        var f := FrameOf(s);
        && Sendable(f) && s == Wire(f) + step.rest && Violation(cfg, before, f).None?
        && !step.result.Failed? && Emittable(cfg, step.result) && step.cont == StateOf(before + [f])
      else
        && stop == Some(l.error) && l.trace == StopTrace(cfg, s)
        && (step.result.Failed? || !Emittable(cfg, step.result))
  {
    hide FrameStep, HeaderRule, StateOf, EncodingOk, FrameOf, BodyRule, Violation, Accept, Wire, ParseHeader, GetMask,
         FormOf, LastTrace, Sendable, Completed;
    var p := ParseHeader(s);
    if p.Short? || HeaderRule(cfg, p.b0, GetMask(p.b1), FormOf(p.b1), p.length).Some? || |p.rest| < p.length {
      StopsAtHeader(cfg, StateOf(before), s);
    } else {
      LengthNotNegative(cfg, s);
      FrameOfWire(s);
      StopIsViolation(cfg, before, s);
      var f := FrameOf(s);
      ReadsWholeFrame(cfg, StateOf(before), f, p.rest[p.length..]);
      AcceptIffNoViolation(cfg, before, f);
      EventsOfAccept(cfg, StateOf(before), f);
    }
  }

  lemma LengthNotNegative(cfg: Config, s: seq<Byte>)
    requires var p := ParseHeader(s); p.Header? && HeaderRule(cfg, p.b0, GetMask(p.b1), FormOf(p.b1), p.length).None?
    ensures ParseHeader(s).length >= 0
  {
    hide ParseHeader, FormOf, GetMask, GetOpcode, HeaderRule, ControlLength, IsDataFrame;
    var p := ParseHeader(s);
    HeaderRuleLength(cfg, p.b0, p.b1, p.length);
    LengthBits7(s);
  }

  /** What the application is told of the frame at which the reading stops. */
  function StopTrace(cfg: Config, s: seq<Byte>): seq<Event> {
    var p := ParseHeader(s);
    if p.Header? && 0 <= p.length <= |p.rest| && HeaderRule(cfg, p.b0, GetMask(p.b1), FormOf(p.b1), p.length).None?
    then LastTrace(cfg, FrameOf(s)) else []
  }

  /** How far the reader gets: the frames it reads, its own continuation frame then, and what it
      has not read. */
  datatype Reached = Reached(frames: seq<Frame>, cont: Continuation, rest: seq<Byte>)

  function ReadSoFar(cfg: Config, cont: Continuation, s: seq<Byte>): Reached
    decreases |s|
  {
    var step := FrameStep(cfg, cont, s);
    if step.result.Failed? || !Emittable(cfg, step.result) then Reached([], cont, s)
    else
      FrameStepConsumes(cfg, cont, s);
      var more := ReadSoFar(cfg, step.cont, step.rest);
      more.(frames := [FrameOf(s)] + more.frames)
  }

  /** The state and the frames agree all along. */
  lemma {:induction false} ReadSoFarConforms(cfg: Config, before: seq<Frame>, s: seq<Byte>)
    ensures var r := ReadSoFar(cfg, StateOf(before), s);
      && s == WireAll(r.frames) + r.rest && (forall i :: 0 <= i < |r.frames| ==> Sendable(r.frames[i]))
      && Prefix(cfg, before, r.frames) == |r.frames|
      && r.cont == StateOf(before + r.frames) && StopError(cfg, before + r.frames, r.rest).Some?
    decreases |s|
  {
    hide Violation, StateOf, FrameStep, FrameOf, StopError, Emittable, Wire, Sendable, LoopFrom, StopTrace;
    var step, f := FrameStep(cfg, StateOf(before), s), FrameOf(s);
    StepOrStop(cfg, before, s);
    if StopError(cfg, before, s).None? {
      hide WireAll, Prefix;
      FrameStepConsumes(cfg, StateOf(before), s);
      ReadSoFarConforms(cfg, before + [f], step.rest);
      var more := ReadSoFar(cfg, step.cont, step.rest);
      FirstFrame(cfg, before, f, more.frames);
      Joins(Wire(f), WireAll(more.frames), more.rest);
      Joins(before, [f], more.frames);
    } else {
      assert before + [] == before;
    }
  }

  lemma Joins<T>(a: seq<T>, b: seq<T>, c: seq<T>)
    ensures a + (b + c) == (a + b) + c
  {
  }

  lemma {:induction false} TraceWithinLimit(cfg: Config, before: seq<Frame>, fs: seq<Frame>)
    requires cfg.readMax >= 0 && Prefix(cfg, before, fs) == |fs|
    requires OpenMessage(before).Some? ==> |OpenMessage(before).value.data| <= cfg.readMax
    ensures forall i :: 0 <= i < |Trace(before, fs)| && Trace(before, fs)[i].OnMessage? ==>
      |Trace(before, fs)[i].message.data| <= cfg.readMax
    ensures OpenMessage(before + fs).Some? ==> |OpenMessage(before + fs).value.data| <= cfg.readMax
    decreases |fs|
  {
    hide Violation, Completed, OpenMessage, FrameTrace;
    if fs == [] {
      assert before + fs == before;
    } else {
      WithinLimit(cfg, before, fs[0]);
      TraceWithinLimit(cfg, before + [fs[0]], fs[1..]);
      assert before + fs == (before + [fs[0]]) + fs[1..];
      FrameTraceWithin(before, fs[0], cfg.readMax);
    }
  }

  lemma FrameTraceWithin(before: seq<Frame>, f: Frame, limit: int)
    requires Completed(before, f).Some? ==> |Completed(before, f).value.data| <= limit
    ensures forall i :: 0 <= i < |FrameTrace(before, f)| && FrameTrace(before, f)[i].OnMessage? ==>
      |FrameTrace(before, f)[i].message.data| <= limit
  {
    hide Completed;
  }

  /** Any byte stream whatever, up to the first error. The bytes are frames that conform, and then
      something the reader stops at; all along, the continuation frame is the message those frames
      leave open; the application is told what they mean; the error is a short read or the rule
      the next frame breaks; every message, and the open one, is within the limit. */
  lemma AnyStream(cfg: Config, s: seq<Byte>)
    requires cfg.readMax >= 0
    ensures var r, l := ReadSoFar(cfg, IDLE, s), LoopFrom(cfg, IDLE, s); var open := OpenMessage(r.frames);
      && s == WireAll(r.frames) + r.rest && Conforming(cfg, r.frames)
      && r.cont.initialized == open.Some?
      && (open.Some? ==> r.cont.opcode == open.value.opcode && r.cont.buffer == open.value.data)
      && l.trace == Trace([], r.frames) + StopTrace(cfg, r.rest)
      && StopError(cfg, r.frames, r.rest) == Some(l.error)
      && |r.cont.buffer| <= cfg.readMax
      && (forall i :: 0 <= i < |Trace([], r.frames)| && Trace([], r.frames)[i].OnMessage? ==>
            |Trace([], r.frames)[i].message.data| <= cfg.readMax)
  {
    assert StateOf([]) == IDLE && OpenMessage([]).None?;
    var r := ReadSoFar(cfg, IDLE, s);
    assert [] + r.frames == r.frames;
    StateIsOpenMessage(r.frames);
    hide ReadSoFar, StateOf, OpenMessage, WireAll, LoopFrom, Trace, StopTrace, StopError, Prefix, Sendable, Conforming;
    ReadSoFarConforms(cfg, [], s);
    ConformingIff(cfg, r.frames);
    ConformingFramesRead(cfg, [], r.frames, r.rest);
    StepOrStop(cfg, r.frames, r.rest);
    TraceWithinLimit(cfg, [], r.frames);
  }

  lemma StateIsOpenMessage(fs: seq<Frame>)
    ensures var c, open := StateOf(fs), OpenMessage(fs);
      && c.initialized == open.Some?
      && (open.Some? ==> c.opcode == open.value.opcode && c.buffer == open.value.data)
      && (open.None? ==> c.buffer == [])
  {
    hide OpenMessage;
  }

  lemma UnmaskedSize(key: seq<Byte>)
    requires key == [] || |key| == 4
    ensures forall p :: |Unmasked(p, key)| == |p|
  {
  }
}
