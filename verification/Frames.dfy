/** Whole frames on the wire, and the reader's step on one of them. */
module Frames {
  import opened Words
  import opened Masks
  import opened FrameHeaders
  import opened FrameWriters
  import opened Payloads
  import opened Readers

  /** A frame as some peer sends it: any first byte, masked or not, its length in any form. */
  datatype Frame = Frame(b0: Byte, masked: bool, key: Key, payload: seq<Byte>, form: LengthForm) {
    function Fin(): bool { GetFIN(b0) }
    function Op(): Opcode { GetOpcode(b0) }
    predicate IsData() { IsDataFrame(GetOpcode(b0)) }
  }

  function Wire(f: Frame): seq<Byte> {
    HeaderIn(f.form, f.b0, f.masked, |f.payload|, f.key) + (if f.masked then Masked(f.payload, f.key) else f.payload)
  }

  function WireAll(fs: seq<Frame>): seq<Byte> {
    if fs == [] then [] else Wire(fs[0]) + WireAll(fs[1..])
  }

  /** The length can be said in the form chosen; Go slices are shorter than 2^63. */
  predicate Sendable(f: Frame) { FormHolds(f.form, |f.payload|) }

  /** The frame that genFrame builds. */
  function FrameSent(isServer: bool, fin: bool, opcode: Opcode, content: seq<Byte>, key: Key): Frame {
    Frame(FirstByte(fin, opcode), !isServer, key, content, MinimalForm(|content|))
  }

  lemma FrameSentWire(isServer: bool, fin: bool, opcode: Opcode, content: seq<Byte>, key: Key)
    ensures Wire(FrameSent(isServer, fin, opcode, content, key)) == FrameBytes(isServer, fin, opcode, content, key)
    ensures |content| < 0x8000_0000_0000_0000 ==> Sendable(FrameSent(isServer, fin, opcode, content, key))
  {
    hide HeaderIn, HeaderFrom, Masked;
    MinimalHeader(FirstByte(fin, opcode), !isServer, |content|, key);
  }

  datatype Reading = Reading(cont: Continuation, result: Result, events: seq<Event>)

  /** What the reader makes of a frame that arrives whole. */
  function Accept(cfg: Config, cont: Continuation, f: Frame): Reading {
    if |f.payload| > cfg.readMax then Reading(cont, Failed(Status(CLOSE_TOO_LARGE)), [])
    else if Reserved(f.b0) || f.masked != cfg.isServer then Reading(cont, Failed(Status(CLOSE_PROTOCOL_ERROR)), [])
    else if !f.IsData() then
      if !f.Fin() || !f.form.Bits7? then Reading(cont, Failed(Status(CLOSE_PROTOCOL_ERROR)), [])
      else Reading(cont, ControlResult(f.Op()), ControlEvents(f.Op(), f.payload))
    else if !Fits(cfg, |f.payload|) then Reading(cont, Failed(OutOfRange), [])
    else
      var (c, r) := AcceptData(cfg, cont, f.Fin(), f.Op(), f.payload);
      Reading(c, r, [])
  }

  lemma PayloadOnWire(f: Frame, tail: seq<Byte>)
    requires Sendable(f)
    ensures var p := ParseHeader(Wire(f) + tail); var n := |f.payload|;
      && p.Header? && p.b0 == f.b0 && GetMask(p.b1) == f.masked && FormOf(p.b1) == f.form && p.length == n
      && (p.key == [] || |p.key| == 4)
      && |p.rest| >= n && Unmasked(p.rest[..n], p.key) == f.payload && p.rest[n..] == tail
      && (f.form.Bits7? ==> ControlLength(p.b1) == n)
  {
    hide GetMask, GetLengthCode, HeaderIn, ParseHeader, Masked, FormOf, FormHolds;
    var header := HeaderIn(f.form, f.b0, f.masked, |f.payload|, f.key);
    var body := if f.masked then Masked(f.payload, f.key) else f.payload;
    MaskedSize(f.payload, f.key);
    assert Wire(f) + tail == header + (body + tail);
    ParseHeaderIn(f.form, f.b0, f.masked, |f.payload|, f.key, body + tail);
    assert (body + tail)[..|f.payload|] == body && (body + tail)[|f.payload|..] == tail;
    MaskTwice(f.payload, f.key);
  }

  /** The form decides what readControl sees as the length. */
  lemma ControlForm(b1: Byte)
    ensures ControlLength(b1) <= THRESHOLD_V1 <==> FormOf(b1).Bits7?
  {
    CodeRange(b1);
    LongCodes(b1);
  }

  lemma LongCodes(b1: Byte)
    ensures GetLengthCode(b1) == 126 || GetLengthCode(b1) == 127 ==> ControlLength(b1) > THRESHOLD_V1
  {
  }

  lemma MaskedSize(s: seq<Byte>, key: Key)
    ensures |Masked(s, key)| == |s|
  {
  }

  /** On a frame that arrives whole, the byte-level reader does what Accept says, and when it
      does not fail it has consumed exactly that frame. */
  lemma ReadsWholeFrame(cfg: Config, cont: Continuation, f: Frame, tail: seq<Byte>)
    requires Sendable(f)
    ensures var step := FrameStep(cfg, cont, Wire(f) + tail);
      Reading(step.cont, step.result, step.events) == Accept(cfg, cont, f)
    ensures var step := FrameStep(cfg, cont, Wire(f) + tail);
      !step.result.Failed? ==> step.rest == tail
  {
    hide GetMask, GetFIN, GetOpcode, ControlLength, Wire, ParseHeader, AcceptData, Unmasked, Fits,
         Reserved, ControlResult, ControlEvents, IsDataFrame, FormOf;
    PayloadOnWire(f, tail);
    ControlForm(ParseHeader(Wire(f) + tail).b1);
  }
}
