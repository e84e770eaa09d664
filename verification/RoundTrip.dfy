/** What one peer sends, the other receives: messages cut into fragments, with pings and
    pongs in between (section 5.4 of RFC 6455), written by genFrame and read by ReadMessage. */
module RoundTrips {
  import opened Words
  import opened Masks
  import opened FrameHeaders
  import opened FrameWriters
  import opened BufferPools
  import opened PowersOfTwo
  import opened Readers
  import opened Frames

  datatype Control = Control(opcode: Opcode, payload: seq<Byte>, key: Key)

  /** One data frame, and the control frames sent just before it. */
  datatype Fragment = Fragment(before: seq<Control>, payload: seq<Byte>, key: Key)

  datatype Sent = Sent(opcode: Opcode, fragments: seq<Fragment>)

  // ---------------------------------------------------------------- what the sender writes

  function ControlBytes(isServer: bool, cs: seq<Control>): seq<Byte> {
    if cs == [] then []
    else FrameBytes(isServer, true, cs[0].opcode, cs[0].payload, cs[0].key) + ControlBytes(isServer, cs[1..])
  }

  /** The first fragment carries the opcode, the others continue; the last one has FIN set. */
  function FragmentBytes(isServer: bool, opcode: Opcode, frs: seq<Fragment>): seq<Byte> {
    if frs == [] then []
    else
      ControlBytes(isServer, frs[0].before)
      + FrameBytes(isServer, |frs| == 1, opcode, frs[0].payload, frs[0].key)
      + FragmentBytes(isServer, CONTINUATION, frs[1..])
  }

  function SentBytes(isServer: bool, ms: seq<Sent>): seq<Byte> {
    if ms == [] then []
    else FragmentBytes(isServer, ms[0].opcode, ms[0].fragments) + SentBytes(isServer, ms[1..])
  }

  // ---------------------------------------------------------------- what it means

  function Joined(frs: seq<Fragment>): seq<Byte> {
    if frs == [] then [] else frs[0].payload + Joined(frs[1..])
  }

  function ControlEventsOf(cs: seq<Control>): seq<Event> {
    if cs == [] then []
    else (if cs[0].opcode == PING then [Ping(cs[0].payload)] else [Pong(cs[0].payload)]) + ControlEventsOf(cs[1..])
  }

  function FragmentEvents(frs: seq<Fragment>): seq<Event> {
    if frs == [] then [] else ControlEventsOf(frs[0].before) + FragmentEvents(frs[1..])
  }

  /** All that is observed, in order; OnMessage stands for what ReadMessage returns. */
  function TraceOf(ms: seq<Sent>): seq<Event> {
    if ms == [] then []
    else
      FragmentEvents(ms[0].fragments) + [OnMessage(Message(ms[0].opcode, Joined(ms[0].fragments)))] + TraceOf(ms[1..])
  }

  // ---------------------------------------------------------------- what the receiver admits

  predicate ControlOk(cfg: Config, c: Control) {
    (c.opcode == PING || c.opcode == PONG) && |c.payload| <= THRESHOLD_V1 && |c.payload| <= cfg.readMax
  }

  predicate FragmentOk(cfg: Config, f: Fragment) {
    && (forall i :: 0 <= i < |f.before| ==> ControlOk(cfg, f.before[i]))
    && |f.payload| < 0x8000_0000_0000_0000 && Fits(cfg, |f.payload|)
  }

  /** A text or binary message whose total is within ReadMaxPayloadSize. */
  predicate Admissible(cfg: Config, m: Sent) {
    && (m.opcode == TEXT || m.opcode == BINARY)
    && m.fragments != []
    && (forall i :: 0 <= i < |m.fragments| ==> FragmentOk(cfg, m.fragments[i]))
    && |Joined(m.fragments)| <= cfg.readMax
  }

  /** Every payload up to 2^31 bytes fits its pooled buffer. */
  lemma FitsUpToTwo31(cfg: Config, n: nat)
    requires n <= TWO31 && cfg.poolBegin <= TWO31 && cfg.poolEnd <= TWO31
    ensures Fits(cfg, n)
  {
    CapacitySufficesIff(cfg.poolBegin, cfg.poolEnd, n);
  }

  // ---------------------------------------------------------------- reading it back

  predicate DataOpcode(opcode: Opcode) { opcode == CONTINUATION || opcode == TEXT || opcode == BINARY }

  lemma OpcodeBits(fin: bool, opcode: Opcode)
    requires DataOpcode(opcode) || opcode == PING || opcode == PONG
    ensures var b0 := FirstByte(fin, opcode);
      GetFIN(b0) == fin && GetOpcode(b0) == opcode && !Reserved(b0)
    ensures IsDataFrame(opcode) <==> DataOpcode(opcode)
  {
    FirstByteBits(fin, opcode);
  }

  lemma ControlReads(cfg: Config, cont: Continuation, c: Control, tail: seq<Byte>)
    requires ControlOk(cfg, c)
    ensures FrameStep(cfg, cont, FrameBytes(!cfg.isServer, true, c.opcode, c.payload, c.key) + tail)
         == Step(cont, tail, Pending, if c.opcode == PING then [Ping(c.payload)] else [Pong(c.payload)])
  {
    hide GetFIN, GetOpcode, FirstByte, FrameBytes, Wire, FrameStep, Reserved, IsDataFrame, Masked;
    var f := FrameSent(!cfg.isServer, true, c.opcode, c.payload, c.key);
    FrameSentWire(!cfg.isServer, true, c.opcode, c.payload, c.key);
    OpcodeBits(true, c.opcode);
    ReadsWholeFrame(cfg, cont, f, tail);
  }

  lemma DataReads(cfg: Config, cont: Continuation, fin: bool, opcode: Opcode, f: Fragment, tail: seq<Byte>)
    requires FragmentOk(cfg, f) && DataOpcode(opcode)
    requires |f.payload| <= cfg.readMax
    ensures var step := FrameStep(cfg, cont, FrameBytes(!cfg.isServer, fin, opcode, f.payload, f.key) + tail);
      && (step.cont, step.result) == AcceptData(cfg, cont, fin, opcode, f.payload)
      && step.events == [] && (!step.result.Failed? ==> step.rest == tail)
  {
    hide GetFIN, GetOpcode, FirstByte, FrameBytes, Wire, FrameStep, Reserved, IsDataFrame, Masked, AcceptData, Fits;
    var w := FrameSent(!cfg.isServer, fin, opcode, f.payload, f.key);
    FrameSentWire(!cfg.isServer, fin, opcode, f.payload, f.key);
    OpcodeBits(fin, opcode);
    ReadsWholeFrame(cfg, cont, w, tail);
  }

  lemma {:induction false} ControlsRead(cfg: Config, cont: Continuation, cs: seq<Control>, tail: seq<Byte>)
    requires forall i :: 0 <= i < |cs| ==> ControlOk(cfg, cs[i])
    ensures MessageStep(cfg, cont, ControlBytes(!cfg.isServer, cs) + tail)
         == After(ControlEventsOf(cs), MessageStep(cfg, cont, tail))
    decreases |cs|
  {
    hide FrameStep, FrameBytes, ControlOk;
    if cs == [] {
      assert ControlBytes(!cfg.isServer, cs) + tail == tail;
    } else {
      var more := ControlBytes(!cfg.isServer, cs[1..]) + tail;
      assert ControlBytes(!cfg.isServer, cs) + tail
          == FrameBytes(!cfg.isServer, true, cs[0].opcode, cs[0].payload, cs[0].key) + more;
      ControlReads(cfg, cont, cs[0], more);
      ControlsRead(cfg, cont, cs[1..], tail);
      AfterTwice(if cs[0].opcode == PING then [Ping(cs[0].payload)] else [Pong(cs[0].payload)],
                 ControlEventsOf(cs[1..]), MessageStep(cfg, cont, tail));
    }
  }

  /** The state of the reader before a data frame with this opcode. */
  predicate Ready(cont: Continuation, opcode: Opcode) {
    if opcode == CONTINUATION then cont.initialized else cont == IDLE
  }

  function MessageOpcode(cont: Continuation, opcode: Opcode): Opcode {
    if opcode == CONTINUATION then cont.opcode else opcode
  }

  lemma OpenIsReady(cont: Continuation)
    ensures cont.initialized ==> Ready(cont, CONTINUATION) && MessageOpcode(cont, CONTINUATION) == cont.opcode
  {
  }

  lemma AcceptReady(cfg: Config, cont: Continuation, fin: bool, opcode: Opcode, p: seq<Byte>)
    requires Ready(cont, opcode) && |cont.buffer| + |p| <= cfg.readMax
    ensures var opcode', buffer := MessageOpcode(cont, opcode), cont.buffer + p;
      AcceptData(cfg, cont, fin, opcode, p)
      == if fin then (IDLE, Delivered(Message(opcode', buffer))) else (Continuation(true, opcode', buffer), Pending)
  {
    assert [] + p == p;
  }

  /** One fragment and the control frames before it. */
  lemma FragmentRead(cfg: Config, cont: Continuation, fin: bool, opcode: Opcode, f: Fragment, tail: seq<Byte>)
    requires DataOpcode(opcode) && Ready(cont, opcode) && FragmentOk(cfg, f)
    requires |cont.buffer| + |f.payload| <= cfg.readMax
    ensures var data := FrameBytes(!cfg.isServer, fin, opcode, f.payload, f.key);
      var opcode', buffer := MessageOpcode(cont, opcode), cont.buffer + f.payload;
      MessageStep(cfg, cont, ControlBytes(!cfg.isServer, f.before) + (data + tail))
      == After(ControlEventsOf(f.before),
               if fin then Step(IDLE, tail, Delivered(Message(opcode', buffer)), [])
               else MessageStep(cfg, Continuation(true, opcode', buffer), tail))
  {
    hide FrameStep, FrameBytes, ControlBytes, Fits, ControlOk, AcceptData, Ready, MessageOpcode, DataOpcode;
    var data := FrameBytes(!cfg.isServer, fin, opcode, f.payload, f.key);
    ControlsRead(cfg, cont, f.before, data + tail);
    DataReads(cfg, cont, fin, opcode, f, tail);
    AcceptReady(cfg, cont, fin, opcode, f.payload);
    AfterNothing(MessageStep(cfg, Continuation(true, MessageOpcode(cont, opcode), cont.buffer + f.payload), tail));
  }

  lemma AfterNothing(step: Step)
    ensures After([], step) == step
  {
  }

  lemma {:induction false} FragmentsRead(
    cfg: Config, cont: Continuation, opcode: Opcode, frs: seq<Fragment>, tail: seq<Byte>)
    requires frs != [] && DataOpcode(opcode) && Ready(cont, opcode)
    requires forall i :: 0 <= i < |frs| ==> FragmentOk(cfg, frs[i])
    requires |cont.buffer| + |Joined(frs)| <= cfg.readMax
    ensures MessageStep(cfg, cont, FragmentBytes(!cfg.isServer, opcode, frs) + tail)
         == Step(IDLE, tail, Delivered(Message(MessageOpcode(cont, opcode), cont.buffer + Joined(frs))),
                 FragmentEvents(frs))
    decreases |frs|
  {
    hide FrameBytes, ControlBytes, FragmentOk, Ready, MessageOpcode, MessageStep, DataOpcode;
    var me, f, rest := !cfg.isServer, frs[0], frs[1..];
    var more := FragmentBytes(me, CONTINUATION, rest) + tail;
    var data := FrameBytes(me, |frs| == 1, opcode, f.payload, f.key);
    assert FragmentBytes(me, opcode, frs) + tail == ControlBytes(me, f.before) + (data + more);
    FragmentRead(cfg, cont, |frs| == 1, opcode, f, more);
    if |frs| == 1 {
      assert more == tail;
      assert Joined(frs) == f.payload;
    } else {
      var open := Continuation(true, MessageOpcode(cont, opcode), cont.buffer + f.payload);
      OpenIsReady(open);
      ContinuationIsData();
      FragmentsRead(cfg, open, CONTINUATION, rest, tail);
      assert cont.buffer + Joined(frs) == open.buffer + Joined(rest);
    }
  }

  lemma ContinuationIsData()
    ensures DataOpcode(CONTINUATION)
  {
  }

  /** One ReadMessage returns one message, whole, and stops exactly where its bytes end. */
  lemma ReadMessageReturnsWhatWasSent(cfg: Config, m: Sent, tail: seq<Byte>)
    requires Admissible(cfg, m)
    ensures MessageStep(cfg, IDLE, FragmentBytes(!cfg.isServer, m.opcode, m.fragments) + tail)
         == Step(IDLE, tail, Delivered(Message(m.opcode, Joined(m.fragments))), FragmentEvents(m.fragments))
  {
    FragmentsRead(cfg, IDLE, m.opcode, m.fragments, tail);
    assert [] + Joined(m.fragments) == Joined(m.fragments);
  }

  datatype Received = Received(trace: seq<Event>, cont: Continuation, rest: seq<Byte>)

  /** The outcome of up to n calls of ReadMessage, ending early at an error: the control frames
      reported and the messages returned, in order. */
  function ReadMessages(cfg: Config, cont: Continuation, s: seq<Byte>, n: nat): Received
    decreases n
  {
    if n == 0 then Received([], cont, s)
    else
      var step := MessageStep(cfg, cont, s);
      if !step.result.Delivered? then Received(step.events, step.cont, step.rest)
      else
        var more := ReadMessages(cfg, step.cont, step.rest, n - 1);
        more.(trace := step.events + [OnMessage(step.result.message)] + more.trace)
  }

  /** Any list of messages, however fragmented and interleaved with pings and pongs, comes back
      as exactly those messages and control frames in order, with exactly the bytes written
      consumed. */
  lemma {:induction false} MessagesRoundTrip(cfg: Config, ms: seq<Sent>, tail: seq<Byte>)
    requires forall i :: 0 <= i < |ms| ==> Admissible(cfg, ms[i])
    ensures ReadMessages(cfg, IDLE, SentBytes(!cfg.isServer, ms) + tail, |ms|) == Received(TraceOf(ms), IDLE, tail)
    decreases |ms|
  {
    hide MessageStep, FragmentBytes, Admissible;
    if ms == [] {
      assert SentBytes(!cfg.isServer, ms) + tail == tail;
    } else {
      var more := SentBytes(!cfg.isServer, ms[1..]) + tail;
      assert SentBytes(!cfg.isServer, ms) + tail == FragmentBytes(!cfg.isServer, ms[0].opcode, ms[0].fragments) + more;
      ReadMessageReturnsWhatWasSent(cfg, ms[0], more);
      MessagesRoundTrip(cfg, ms[1..], tail);
    }
  }
}
