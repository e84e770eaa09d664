/** conn.go and writer.go: which close code answers which, and what a close frame may carry
    (sections 5.5.1 and 7.4 of RFC 6455). */
module CloseCodes {
  import opened Words
  import opened Masks
  import opened FrameHeaders
  import opened FrameWriters
  import opened Payloads
  import opened Readers
  import opened Frames
  import opened RoundTrips

  /** StatusCode.Bytes: code 0 stands for no code. */
  function StatusBytes(code: nat): seq<Byte> { if code == 0 then [] else PutBE(code, 2) }

  lemma StatusBytesRoundTrip(code: nat)
    requires 0 < code < 0x1_0000
    ensures |StatusBytes(code)| == 2 && BE(StatusBytes(code)) == code
  {
    Powers();
    PutBERoundTrip(code, 2);
  }

  // ---------------------------------------------------------------- emitClose

  /** The codes section 7.4 lets an endpoint put in a close frame: defined or registered
      below 3000, or in the range for libraries and applications. */
  predicate MayBeSent(code: nat) {
    1000 <= code <= 1003 || 1007 <= code <= 1013 || 3000 <= code <= 4999
  }

  predicate Utf8Refused(checkUtf8: bool, reason: seq<Byte>) { checkUtf8 && !ValidUtf8(reason) }

  /** The code that answers a received close payload; 0 answers an empty one. */
  function Reply(checkUtf8: bool, payload: seq<Byte>): nat {
    if payload == [] then 0
    else if |payload| == 1 then 1002
    else if Utf8Refused(checkUtf8, payload[2..]) then 1007
    else
      var code := BE(payload[..2]);
      if !MayBeSent(code) then 1002 else if code < 3000 then 1000 else code
  }

  /** emitClose as written: the code to answer with, and the code and reason to report. */
  method EmitClose(checkUtf8: bool, payload: seq<Byte>) returns (responseCode: nat, realCode: nat, reason: seq<Byte>)
    ensures responseCode == Reply(checkUtf8, payload)
    ensures |payload| >= 2 ==> realCode == BE(payload[..2]) && reason == payload[2..]
    ensures |payload| == 1 ==> realCode == payload[0] as nat && reason == []
    ensures |payload| == 0 ==> realCode == 0 && reason == []
  {
    var buf := payload;
    responseCode, realCode := 1000, 1000;
    if |buf| == 0 {
      responseCode, realCode := 0, 0;
    } else if |buf| == 1 {
      responseCode := 1002;
      realCode := buf[0] as nat;
      buf := [];
    } else {
      var b := buf[..2];
      buf := buf[2..];
      realCode := BE(b);
      if realCode in {1004, 1005, 1006, 1014, 1015} {
        responseCode := 1002;
      } else if realCode < 1000 || realCode >= 5000 || (realCode >= 1016 && realCode < 3000) {
        responseCode := 1002;
      } else if realCode < 1016 {
        responseCode := 1000;
      } else {
        responseCode := realCode;
      }
      if !EncodingOk(checkUtf8, 8, buf) {
        responseCode := 1007;
      }
    }
    reason := buf;
  }

  /** Which payload gets which reply, number by number. A reason is acceptable unless it is checked
      and no valid text. */
  lemma ReplyIff(checkUtf8: bool, payload: seq<Byte>)
    ensures var reply, two := Reply(checkUtf8, payload), |payload| >= 2;
      var code := if two then 256 * payload[0] as nat + payload[1] as nat else 0;
      var acceptable := two && (checkUtf8 ==> ValidUtf8(payload[2..]));
      && (reply == 0 <==> payload == [])
      && (reply == 1007 <==> two && !acceptable)
      && (reply == 1002 <==>
            || |payload| == 1
            || (acceptable && (code < 1000 || code in {1004, 1005, 1006} || 1014 <= code <= 2999 || code >= 5000)))
      && (reply == 1000 <==> acceptable && (1000 <= code <= 1003 || 1007 <= code <= 1013))
      && (reply >= 3000 <==> acceptable && 3000 <= code <= 4999)
      && (reply >= 3000 ==> reply == code)
  {
    hide ValidUtf8, BE;
    if |payload| >= 2 {
      BETwo(payload[..2]);
    }
  }

  /** Whatever was received, the reply is empty or two bytes holding a code that may be sent:
      1000, 1002, 1007, or an application's own code sent back. */
  lemma ReplyIsLegal(checkUtf8: bool, payload: seq<Byte>)
    ensures var reply := StatusBytes(Reply(checkUtf8, payload));
      && (reply == [] <==> payload == [])
      && (reply != [] ==>
            && |reply| == 2 && BE(reply) == Reply(checkUtf8, payload) && MayBeSent(BE(reply))
            && (BE(reply) in {1000, 1002, 1007} || (3000 <= BE(reply) <= 4999 && BE(reply) == BE(payload[..2]))))
  {
    var code := Reply(checkUtf8, payload);
    if code != 0 {
      StatusBytesRoundTrip(code);
    }
  }

  /** A reply is never itself answered as an error: read by the peer, it counts as a normal or
      application-defined close. */
  lemma ReplyEndsTheHandshake(checkUtf8: bool, peerChecks: bool, payload: seq<Byte>)
    ensures Reply(peerChecks, StatusBytes(Reply(checkUtf8, payload))) !in {1002, 1007}
  {
    var reply := StatusBytes(Reply(checkUtf8, payload));
    ReplyIsLegal(checkUtf8, payload);
    if reply != [] {
      assert reply[..2] == reply && reply[2..] == [];
      EmptyValid();
    }
  }

  // ---------------------------------------------------------------- writeClose

  /** writeClose cuts the payload to what a control frame may hold. */
  function Truncated(reason: seq<Byte>): (r: seq<Byte>)
    ensures |r| <= THRESHOLD_V1
  {
    if |reason| > THRESHOLD_V1 then reason[..THRESHOLD_V1] else reason
  }

  /** Every close frame is taken for one by the opposite peer, provided its size limit admits
      the payload; otherwise it is refused as too large. */
  lemma CloseFrameIsRead(cfg: Config, cont: Continuation, reason: seq<Byte>, key: Key, tail: seq<Byte>)
    ensures var p := Truncated(reason);
      var step := FrameStep(cfg, cont, FrameBytes(!cfg.isServer, true, CLOSE, p, key) + tail);
      if |p| <= cfg.readMax
        then step == Step(cont, tail, Failed(Status(CLOSE_NORMAL)), [CloseFrame(p)])
        else step.result == Failed(Status(CLOSE_TOO_LARGE)) && step.events == []
  {
    hide GetMask, GetFIN, GetOpcode, ControlLength, FormOf, FirstByte, FrameBytes, Wire, ParseHeader, Unmasked, Masked,
         Reserved, IsDataFrame;
    var p := Truncated(reason);
    var f := FrameSent(!cfg.isServer, true, CLOSE, p, key);
    CloseBits();
    FrameSentWire(!cfg.isServer, true, CLOSE, p, key);
    PayloadOnWire(f, tail);
    ControlForm(ParseHeader(Wire(f) + tail).b1);
  }

  lemma CloseBits()
    ensures var b0 := FirstByte(true, CLOSE);
      GetFIN(b0) && GetOpcode(b0) == CLOSE && !Reserved(b0) && !IsDataFrame(CLOSE) && CLOSE != PING && CLOSE != PONG
  {
  }

  // ---------------------------------------------------------------- WriteClose

  /** WriteClose's payload, before truncation: codes below 1000 are replaced by 1000. */
  function WriteClosePayload(code: nat, reason: seq<Byte>): seq<Byte> {
    StatusBytes(if code < 1000 then 1000 else code) + reason
  }

  /** Cutting valid text before byte i leaves valid text exactly when byte i starts a character. */
  lemma {:induction false} CutIsValidIff(s: seq<Byte>, i: nat)
    requires ValidUtf8(s) && i < |s|
    ensures ValidUtf8(s[..i]) <==> !Tail(s[i])
    decreases |s|
  {
    hide In, Second;
    var n := RuneLen(s);
    RuneBytes(s);
    if i == 0 {
      EmptyValid();
    } else if i < n {
      RuneLenOfCut(s, i);
    } else {
      CutBehind(s, n, i);
      CutIsValidIff(s[n..], i - n);
      RuneLenOfWhole(s);
      RuneLenOfPrefix(s[..n], s[n..i]);
    }
  }

  lemma CutBehind(s: seq<Byte>, n: nat, i: nat)
    requires n <= i < |s|
    ensures s[..i][n..] == s[n..][..i - n] && s[i] == s[n..][i - n] && s[..n] + s[n..i] == s[..i]
  {
  }

  lemma RuneBytes(s: seq<Byte>)
    requires RuneLen(s) > 0
    ensures !Tail(s[0]) && forall i :: 0 < i < RuneLen(s) ==> Tail(s[i])
  {
  }

  lemma RuneLenOfCut(s: seq<Byte>, i: nat)
    requires 0 < i < RuneLen(s)
    ensures RuneLen(s[..i]) == 0
  {
    hide Second, Tail;
  }

  lemma RuneLenOfWhole(s: seq<Byte>)
    requires RuneLen(s) > 0
    ensures RuneLen(s[..RuneLen(s)]) == RuneLen(s)
  {
    hide In, Second, Tail;
  }

  /** The reason given to WriteClose arrives as valid text if and only if it is short enough,
      or the byte at which it is cut starts a character. */
  lemma CloseReasonArrivesValidIff(code: nat, reason: seq<Byte>)
    requires ValidUtf8(reason) && code < 0x1_0000
    ensures var p := Truncated(WriteClosePayload(code, reason));
      |p| >= 2 && (ValidUtf8(p[2..]) <==> |reason| <= 123 || !Tail(reason[123]))
  {
    hide ValidUtf8, Tail, BE;
    var status := StatusBytes(if code < 1000 then 1000 else code);
    var all := status + reason;
    assert |status| == 2;
    if |reason| > 123 {
      assert all[..THRESHOLD_V1][2..] == reason[..123];
      CutIsValidIff(reason, 123);
    } else {
      assert all[2..] == reason;
    }
  }

  /** It can fail: 122 bytes of "a" and then a two-byte character. */
  lemma CutReasonExample()
    ensures var reason: seq<Byte> := seq(122, _ => 0x61) + [0xC3, 0xA9];
      ValidUtf8(reason) && !ValidUtf8(Truncated(WriteClosePayload(1000, reason))[2..])
  {
    hide BE;
    var a: seq<Byte> := seq(122, _ => 0x61);
    AsciiValid(a);
    assert [0xC3, 0xA9][2..] == [] && RuneLen([0xC3, 0xA9]) == 2;
    assert ValidUtf8([0xC3, 0xA9]);
    ValidUtf8Concat(a, [0xC3, 0xA9]);
    assert (a + [0xC3, 0xA9])[123] == 0xA9;
    CloseReasonArrivesValidIff(1000, a + [0xC3, 0xA9]);
  }

  lemma {:induction false} AsciiValid(s: seq<Byte>)
    requires forall i :: 0 <= i < |s| ==> s[i] < 0x80
    ensures ValidUtf8(s)
    decreases |s|
  {
    if s != [] {
      AsciiValid(s[1..]);
    }
  }

  // ---------------------------------------------------------------- emitError

  /** The code emitError sends; `reading` says whether the error came from ReadLoop. */
  function SendCode(reading: bool, err: Error): nat {
    if !reading then 1001
    else match err
      case Status(code) => code
      case Wrapped(code) => code
      case _ => 1000
  }

  /** Every error the read loop can end with is reported to the peer under a code that may be sent. */
  lemma ReadErrorsHaveLegalCodes(cfg: Config, cont: Continuation, s: seq<Byte>, reading: bool)
    ensures MayBeSent(SendCode(reading, LoopFrom(cfg, cont, s).error))
  {
    hide FrameStep;
    ReadErrorKinds(cfg, cont, s);
  }

  lemma {:induction false} ReadErrorKinds(cfg: Config, cont: Continuation, s: seq<Byte>)
    ensures var e := LoopFrom(cfg, cont, s).error;
      e.Io? || e.OutOfRange? || e in {Status(1000), Status(1002), Status(1009), Wrapped(1002), Wrapped(1007)}
    decreases |s|
  {
    hide FrameStep, EncodingOk;
    var step := FrameStep(cfg, cont, s);
    FrameErrorKinds(cfg, cont, s);
    if !step.result.Failed? {
      FrameStepConsumes(cfg, cont, s);
      ReadErrorKinds(cfg, step.cont, step.rest);
    }
  }

  lemma FrameErrorKinds(cfg: Config, cont: Continuation, s: seq<Byte>)
    ensures var r := FrameStep(cfg, cont, s).result;
      r.Failed? ==>
        r.error.Io? || r.error.OutOfRange? || r.error in {Status(1000), Status(1002), Status(1009), Wrapped(1002)}
  {
    hide GetMask, GetFIN, GetOpcode, ControlLength, ParseHeader, Unmasked, Fits, Reserved, IsDataFrame;
  }
}
