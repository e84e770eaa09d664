/** reader.go: what becomes of a frame, bit by bit and code by code (sections 5.2 to 5.5 and 7.4.1
    of RFC 6455). The bits are masked out here, and the numbers written out, without the getters
    and constants that the reader is made of. */
module Refusals {
  import opened Words
  import opened Masks
  import opened PowersOfTwo
  import opened FrameHeaders
  import opened Payloads
  import opened Readers
  import opened RoundTrips

  /** The first two bytes of a stream whose first header is complete. */
  lemma HeaderStarts(s: seq<Byte>)
    requires ParseHeader(s).Header?
    ensures var p := ParseHeader(s);
      |s| >= 2 && p.b0 == s[0] && p.b1 == s[1] && (if s[1] & 0x80 != 0 then |p.key| == 4 else p.key == [])
  {
    hide GetLengthCode, GetMask, BE;
    ParseSound(s);
    ParseSecond(s);
    BitsOf(s[0], s[1]);
    hide ParseHeader;
    var t := s[2..];
    if GetLengthCode(s[1]) == 126 {
      ParsedKey(s[0], s[1], BE(t[..2]), t[2..]);
    } else if GetLengthCode(s[1]) == 127 {
      ParsedKey(s[0], s[1], ToInt(BE(t[..8])), t[8..]);
    } else {
      ParsedKey(s[0], s[1], GetLengthCode(s[1]) as int, t);
    }
  }

  lemma ReservedIff(b0: Byte)
    ensures Reserved(b0) <==> b0 & 0x70 != 0
  {
  }

  lemma DataOpcodeIff(b0: Byte)
    ensures IsDataFrame(b0 & 0x0F) <==> b0 & 0x0F in {0, 1, 2}
  {
  }

  lemma LengthCodeIff(b1: Byte)
    ensures ControlLength(b1) == (b1 & 0x7F) as nat
  {
    BitsOf(0, b1);
  }

  /** What the reader refuses for the header alone, whatever message is open: too long is 1009; a
      reserved bit, the wrong masking for the role, a fragmented or long control frame are 1002. */
  lemma HeaderRefusals(cfg: Config, cont: Continuation, s: seq<Byte>)
    requires ParseHeader(s).Header? && |s| >= 2
    ensures var p, step := ParseHeader(s), FrameStep(cfg, cont, s);
      && (p.length > cfg.readMax ==> step == Step(cont, p.rest, Failed(Status(1009)), []))
      && (p.length <= cfg.readMax
          && (|| s[0] & 0x70 != 0
              || (s[1] & 0x80 != 0) != cfg.isServer
              || (s[0] & 0x0F !in {0, 1, 2} && (s[0] & 0x80 == 0 || s[1] & 0x7F > 125)))
          ==> step == Step(cont, p.rest, Failed(Status(1002)), []))
  {
    HeaderStarts(s);
    ParseSound(s);
    BitsOf(s[0], s[1]);
    ReservedIff(s[0]);
    DataOpcodeIff(s[0]);
    LengthCodeIff(s[1]);
    CodeOrder(s[1]);
    hide ParseHeader, GetFIN, GetOpcode, GetMask, GetLengthCode, Reserved, IsDataFrame, ControlLength, DataStep,
         Unmasked;
  }

  lemma CodeOrder(b1: Byte)
    ensures (b1 & 0x7F) as nat > 125 <==> b1 & 0x7F > 125
  {
  }

  /** A header that none of that refuses. */
  predicate Admitted(cfg: Config, s: seq<Byte>) {
    && ParseHeader(s).Header? && |s| >= 2 && ParseHeader(s).length <= cfg.readMax
    && s[0] & 0x70 == 0 && (s[1] & 0x80 != 0) == cfg.isServer
    && (s[0] & 0x0F !in {0, 1, 2} ==> s[0] & 0x80 != 0 && s[1] & 0x7F <= 125)
  }

  /** The payload under the key: each byte exclusive-or the key byte of its index modulo four. */
  predicate Plain(raw: seq<Byte>, key: seq<Byte>, data: seq<Byte>)
    requires key == [] || |key| == 4
  {
    && |data| == |raw|
    && forall i :: 0 <= i < |raw| ==> data[i] == if key == [] then raw[i] else raw[i] ^ key[i % 4]
  }

  lemma UnmaskedIsPlain(raw: seq<Byte>, key: seq<Byte>)
    requires key == [] || |key| == 4
    ensures Plain(raw, key, Unmasked(raw, key))
  {
    hide Masked;
    if key != [] {
      MaskedLength(raw, key);
      forall i | 0 <= i < |raw|
        ensures Masked(raw, key)[i] == raw[i] ^ key[i % 4]
      {
        MaskedAt(raw, key, i);
      }
    }
  }

  /** A stream that ends inside a read: nothing of it there is EOF, a part of it ErrUnexpectedEOF. */
  function CutShort(available: nat): Error { Io(if available == 0 then EOF else UnexpectedEOF) }

  function ControlTable(cont: Continuation, opcode: Byte, data: seq<Byte>, rest: seq<Byte>): Step {
    match opcode
    case 8 => Step(cont, rest, Failed(Status(1000)), [CloseFrame(data)])
    case 9 => Step(cont, rest, Pending, [Ping(data)])
    case 10 => Step(cont, rest, Pending, [Pong(data)])
    case _ => Step(cont, rest, Failed(Wrapped(1002)), [])
  }

  /** Control frames: opcodes 8, 9 and 10 are reported, the others refused with 1002 once read. */
  lemma ControlFrames(cfg: Config, cont: Continuation, s: seq<Byte>)
    requires Admitted(cfg, s) && s[0] & 0x0F !in {0, 1, 2}
    ensures var p, step := ParseHeader(s), FrameStep(cfg, cont, s);
      var n, opcode := (s[1] & 0x7F) as nat, s[0] & 0x0F;
      if |p.rest| < n then step == Step(cont, [], Failed(CutShort(|p.rest|)), [])
      else
        && (p.key == [] || |p.key| == 4)
        && (exists data :: Plain(p.rest[..n], p.key, data) && step == ControlTable(cont, opcode, data, p.rest[n..]))
  {
    HeaderStarts(s);
    ParseSound(s);
    BitsOf(s[0], s[1]);
    ReservedIff(s[0]);
    DataOpcodeIff(s[0]);
    LengthCodeIff(s[1]);
    CodeOrder(s[1]);
    hide ParseHeader, GetFIN, GetOpcode, GetMask, GetLengthCode, Reserved, IsDataFrame, ControlLength, DataStep,
         Unmasked, Plain;
    var p := ParseHeader(s);
    ControlAdmitted(cont, s[0], s[1], p.key, p.rest);
    var n := (s[1] & 0x7F) as nat;
    if |p.rest| >= n { UnmaskedIsPlain(p.rest[..n], p.key); }
  }

  /** What data frames do to the message being put together, given the unmasked payload. */
  function DataTable(cfg: Config, cont: Continuation, fin: bool, opcode: Byte, data: seq<Byte>): (Continuation, Result)
  {
    if opcode == 0 && !cont.initialized then (cont, Failed(Status(1002)))
    else if opcode != 0 && cont.initialized then (cont, Failed(Status(1002)))
    else if opcode != 0 then
      if fin then (cont, Delivered(Message(opcode, data))) else (Continuation(true, opcode, data), Pending)
    else
      var joined := cont.buffer + data;
      if |joined| > cfg.readMax then (cont.(buffer := joined), Failed(Status(1009)))
      else if fin then (Continuation(false, 0, []), Delivered(Message(cont.opcode, joined)))
      else (cont.(buffer := joined), Pending)
  }

  function DataStepTable(
    cfg: Config, cont: Continuation, fin: bool, opcode: Byte, data: seq<Byte>, rest: seq<Byte>): Step
  {
    var (c, r) := DataTable(cfg, cont, fin, opcode, data);
    Step(c, rest, r, [])
  }

  lemma AcceptIsTable(cfg: Config, cont: Continuation, fin: bool, opcode: Byte, data: seq<Byte>)
    requires |data| <= cfg.readMax
    ensures AcceptData(cfg, cont, fin, opcode, data) == DataTable(cfg, cont, fin, opcode, data)
  {
    assert [] + data == data;
  }

  /** Data frames, their lengths in any form: what they complete, leave open, or break. */
  lemma DataFrames(cfg: Config, cont: Continuation, s: seq<Byte>)
    requires Admitted(cfg, s) && s[0] & 0x0F in {0, 1, 2}
    requires cfg.poolBegin <= TWO31 && cfg.poolEnd <= TWO31 && 0 <= ParseHeader(s).length <= TWO31
    ensures var p, step := ParseHeader(s), FrameStep(cfg, cont, s);
      if |p.rest| < p.length then step == Step(cont, [], Failed(CutShort(|p.rest|)), [])
      else
        && (p.key == [] || |p.key| == 4)
        && (exists data :: Plain(p.rest[..p.length], p.key, data)
              && step == DataStepTable(cfg, cont, s[0] & 0x80 != 0, s[0] & 0x0F, data, p.rest[p.length..]))
  {
    HeaderStarts(s);
    ParseSound(s);
    BitsOf(s[0], s[1]);
    ReservedIff(s[0]);
    DataOpcodeIff(s[0]);
    var p := ParseHeader(s);
    FitsUpToTwo31(cfg, p.length);
    hide ParseHeader, GetFIN, GetOpcode, GetMask, GetLengthCode, Reserved, IsDataFrame, ControlLength, ControlStep,
         Unmasked, Plain, Fits, AcceptData, DataTable;
    if |p.rest| >= p.length {
      var raw := p.rest[..p.length];
      var data := Unmasked(raw, p.key);
      UnmaskedIsPlain(raw, p.key);
      PlainLength(raw, p.key, data);
      AcceptIsTable(cfg, cont, s[0] & 0x80 != 0, s[0] & 0x0F, data);
      assert Plain(raw, p.key, data);
    }
  }

  lemma PlainLength(raw: seq<Byte>, key: seq<Byte>, data: seq<Byte>)
    requires (key == [] || |key| == 4) && Plain(raw, key, data)
    ensures |data| == |raw|
  {
  }

  /** A header that is cut: by the first two bytes, by the extended length, or by the mask key. */
  lemma CutHeaders(cfg: Config, cont: Continuation, s: seq<Byte>)
    ensures |s| < 2 ==> FrameStep(cfg, cont, s) == Step(cont, [], Failed(CutShort(|s|)), [])
    ensures |s| >= 2 ==>
      var code := s[1] & 0x7F;
      var w := if code == 126 then 2 else if code == 127 then 8 else 0;
      && (|s| - 2 < w ==> FrameStep(cfg, cont, s) == Step(cont, [], Failed(CutShort(|s| - 2)), []))
      && (w <= |s| - 2 < w + 4 && s[1] & 0x80 != 0 ==>
            FrameStep(cfg, cont, s) == Step(cont, [], Failed(CutShort(|s| - 2 - w)), []))
  {
    hide GetMask, GetLengthCode, ControlStep, DataStep, BE;
    if |s| >= 2 {
      BitsOf(s[0], s[1]);
    }
  }

  /** The length that a complete header announces. */
  lemma LengthAnnounced(s: seq<Byte>)
    requires ParseHeader(s).Header? && |s| >= 2
    ensures var n, code := ParseHeader(s).length, s[1] & 0x7F;
      && (code < 126 ==> n == code as int)
      && (code == 126 ==> |s| >= 4 && n == 256 * s[2] as int + s[3] as int)
      && (code == 127 ==> |s| >= 10 && n == ToInt(BE(s[2..10])))
  {
    hide GetMask, GetLengthCode, BE;
    BitsOf(s[0], s[1]);
    CodeBelow(s[1]);
    ParseSecond(s);
    if s[1] & 0x7F == 126 {
      assert s[2..][..2] == [s[2], s[3]];
      BETwo([s[2], s[3]]);
    } else if s[1] & 0x7F == 127 {
      assert s[2..][..8] == s[2..10];
    }
  }

  lemma CodeBelow(b1: Byte)
    ensures b1 & 0x7F < 126 ==> b1 & 0x7F != 126 && b1 & 0x7F != 127
    ensures b1 & 0x7F == 126 ==> !(b1 & 0x7F < 126) && b1 & 0x7F != 127
    ensures b1 & 0x7F == 127 ==> !(b1 & 0x7F < 126) && b1 & 0x7F != 126
  {
  }

  /** ReadLoop hands a message on unless it is text, checked and invalid: then it ends with 1007. */
  lemma TextIsChecked(cfg: Config, cont: Continuation, s: seq<Byte>)
    requires FrameStep(cfg, cont, s).result.Delivered?
    ensures var step, l := FrameStep(cfg, cont, s), LoopFrom(cfg, cont, s);
      var m := step.result.message;
      if cfg.checkUtf8 && m.opcode in {1, 8} && !ValidUtf8(m.data) then
        l.error == Wrapped(1007) && l.trace == step.events
      else
        && |step.rest| < |s|
        && l.trace == step.events + [OnMessage(m)] + LoopFrom(cfg, step.cont, step.rest).trace
        && l.error == LoopFrom(cfg, step.cont, step.rest).error
  {
    hide FrameStep, ValidUtf8;
    FrameStepConsumes(cfg, cont, s);
  }
}
