/** conn.go and writer.go: what the calls of a session put on the wire, in numbers: which messages
    are sent, and which code and reason the close frame of each kind of closing carries. */
module SessionCodes {
  import opened Words
  import opened Masks
  import opened FrameHeaders
  import opened FrameWriters
  import opened Payloads
  import opened Readers
  import opened CloseCodes
  import opened Sessions

  predicate Open(s: Sender) { !s.closed && !s.disconnected && !s.broken }

  /** A message that nothing stands in the way of: within the limit, its text valid if checked. */
  predicate Fine(own: Settings, c: Call) {
    && c.Send? && c.net.Carries? && |c.payload.Content()| <= own.writeMax
    && !(c.opcode == 1 && own.checkUtf8 && !SlicesAreText(c.payload))
  }

  /** It is sent, and leaves the connection as it was. */
  lemma FineIsSent(own: Settings, s: Sender, c: Call)
    requires Open(s) && Fine(own, c)
    ensures Perform(own, s, c) == s.(sent := s.sent + [Outgoing(c.opcode, c.payload.Content(), c.key)])
  {
    BuiltIff(own, true, c.opcode, c.payload, c.key);
    hide SlicesAreText, PayloadOk, FrameBytes, Closing;
  }

  /** The frame of a message. */
  predicate FrameOfCall(o: Outgoing, c: Call) {
    c.Send? && o == Outgoing(c.opcode, c.payload.Content(), c.key)
  }

  /** However many there are, all of them are sent, in order, and nothing else. */
  lemma {:induction false} AllFineAreSent(own: Settings, s: Sender, calls: seq<Call>)
    requires Open(s) && forall i :: 0 <= i < |calls| ==> Fine(own, calls[i])
    ensures var r := Run(own, s, calls);
      && Open(r) && |r.sent| == |s.sent| + |calls| && r.sent[..|s.sent|] == s.sent
      && forall i :: 0 <= i < |calls| ==> FrameOfCall(r.sent[|s.sent| + i], calls[i])
    decreases |calls|
  {
    hide Perform, Fine, FrameOfCall;
    if calls != [] {
      var c := calls[0];
      var s' := Perform(own, s, c);
      assert Fine(own, c);
      FineStep(own, s, c);
      AllFineAreSent(own, s', calls[1..]);
      var r := Run(own, s', calls[1..]);
      forall i | 0 <= i < |calls|
        ensures FrameOfCall(r.sent[|s.sent| + i], calls[i])
      {
        if i == 0 {
          assert r.sent[..|s'.sent|][|s.sent|] == s'.sent[|s.sent|];
        } else {
          assert calls[i] == calls[1..][i - 1];
        }
      }
      assert r.sent[..|s.sent|] == r.sent[..|s'.sent|][..|s.sent|];
    }
  }

  lemma FineStep(own: Settings, s: Sender, c: Call)
    requires Open(s) && Fine(own, c)
    ensures var s' := Perform(own, s, c);
      && Open(s') && |s'.sent| == |s.sent| + 1 && s'.sent[..|s.sent|] == s.sent
      && FrameOfCall(s'.sent[|s.sent|], c)
  {
    FineIsSent(own, s, c);
    hide Perform, SlicesAreText;
  }

  /** Once closed, every message is refused with ErrConnClosed, and nothing changes. */
  lemma ClosedRefuses(own: Settings, s: Sender, c: Call)
    requires s.closed && c.Send? && c.opcode != 8
    ensures Attempt(own, s, c.opcode, c.payload, c.key, c.net) == (s, Some(Generation(ConnClosed)))
    ensures Perform(own, s, c) == s
  {
    hide RefusalOf, LastPayload;
  }

  // ---------------------------------------------------------------- the close frame

  /** The close frame carries this code and reason. */
  predicate Says(p: seq<Byte>, code: nat, reason: seq<Byte>) {
    |p| >= 2 && 256 * p[0] as nat + p[1] as nat == code && p[2..] == if |reason| <= 123 then reason else reason[..123]
  }

  lemma StatusSays(code: nat, reason: seq<Byte>)
    requires 0 < code < 0x1_0000
    ensures |StatusBytes(code)| == 2 && Says(Truncated(StatusBytes(code) + reason), code, reason)
    ensures |Truncated(StatusBytes(code) + reason)| <= 125
  {
    hide BE;
    StatusBytesRoundTrip(code);
    var status := StatusBytes(code);
    var all := status + reason;
    BETwo(status);
    assert |reason| > 123 ==> all[..125][2..] == reason[..123];
    assert all[2..] == reason;
  }

  /** Closing sends one close frame, if the limit lets it, and stores why. */
  lemma ClosingSends(own: Settings, s: Sender, cause: Cause, payload: seq<Byte>, key: Key)
    requires Open(s) && own.writeMax >= 125
    ensures var s' := Closing(own, s, cause, payload, key, Carries);
      s' == s.(closed := true, disconnected := true, ev := Some(cause),
               sent := s.sent + [Outgoing(8, Truncated(payload), key)])
  {
    BuiltIff(own, true, CLOSE, Bytes(Truncated(payload)), key);
    hide Truncated, PayloadOk, SlicesAreText, FrameBytes;
  }

  /** WriteClose sends its code, or 1000 for one below that, and its reason, as far as it fits. */
  lemma WriteCloseSays(own: Settings, s: Sender, code: nat, reason: seq<Byte>, key: Key)
    returns (p: seq<Byte>)
    requires Open(s) && own.writeMax >= 125 && code < 0x1_0000
    ensures Says(p, if code < 1000 then 1000 else code, reason) && |p| <= 125
    ensures Perform(own, s, Close(code, reason, key, Carries))
         == s.(closed := true, disconnected := true, sent := s.sent + [Outgoing(8, p, key)],
               ev := Some(Requested(if code < 1000 then 1000 else code)))
  {
    hide Truncated, StatusBytes, Closing;
    var c := if code < 1000 then 1000 else code;
    p := Truncated(StatusBytes(c) + reason);
    StatusSays(c, reason);
    ClosingSends(own, s, Requested(c), StatusBytes(c) + reason, key);
  }

  /** The peer's ReadLoop, whatever it was in the middle of, is told exactly that. */
  lemma WriteCloseArrives(
    own: Settings, cfg: Config, cont: Continuation, s: Sender, code: nat, reason: seq<Byte>, key: Key)
    requires Open(s) && own.writeMax >= 125 && cfg.readMax >= 125 && cfg.isServer == !own.isServer
    requires code < 0x1_0000
    ensures var r := Perform(own, s, Close(code, reason, key, Carries));
      && |r.sent| == |s.sent| + 1 && r.sent[..|s.sent|] == s.sent
      && var l := LoopFrom(cfg, cont, OutBytes(own.isServer, r.sent[|s.sent|]));
         && |l.trace| == 1 && l.trace[0].CloseFrame? && l.error == Status(1000)
         && Says(l.trace[0].payload, if code < 1000 then 1000 else code, reason)
  {
    var p := WriteCloseSays(own, s, code, reason, key);
    CloseReads(cfg, cont, p, key);
  }

  lemma CloseReads(cfg: Config, cont: Continuation, p: seq<Byte>, key: Key)
    requires |p| <= 125 <= cfg.readMax
    ensures LoopFrom(cfg, cont, OutBytes(!cfg.isServer, Outgoing(8, p, key)))
         == Loop([CloseFrame(p)], Status(1000), cont, [])
  {
    hide FrameStep, FrameBytes;
    CloseFrameIsRead(cfg, cont, p, key, []);
    var bytes := FrameBytes(!cfg.isServer, true, CLOSE, p, key);
    assert bytes + [] == bytes;
  }

  /** A message that cannot be sent closes the connection with 1001. */
  lemma FailedWriteSays(own: Settings, s: Sender, c: Call) returns (p: seq<Byte>)
    requires Open(s) && own.writeMax >= 125 && c.Send? && c.closeNet.Carries?
    requires RefusalOf(own, c.opcode, c.payload).Some?
    ensures |p| == 24 && 256 * p[0] as nat + p[1] as nat == 1001
    ensures forall i :: 0 <= i < 22 ==> p[2 + i] as int == "gbs: client going away"[i] as int
    ensures Perform(own, s, c)
         == s.(closed := true, disconnected := true, sent := s.sent + [Outgoing(8, p, c.closeKey)],
               ev := Some(WriteFailed(Generation(RefusalOf(own, c.opcode, c.payload).value))))
  {
    hide RefusalOf, Truncated, StatusBytes, Closing;
    p := Truncated(StatusBytes(GOING_AWAY) + GOING_AWAY_TEXT);
    StatusSays(GOING_AWAY, GOING_AWAY_TEXT);
    GoingAwayText();
    ClosingSends(own, s, CauseOf(c, Generation(RefusalOf(own, c.opcode, c.payload).value)),
                 StatusBytes(GOING_AWAY) + GOING_AWAY_TEXT, c.closeKey);
  }

  /** A message inside which the network breaks closes the connection too: nothing more arrives, and
      the error that is stored is the network's. */
  lemma BrokenWriteCloses(own: Settings, s: Sender, c: Call)
    requires Open(s) && s.torn == [] && c.Send? && c.net.Breaks? && RefusalOf(own, c.opcode, c.payload).None?
    ensures var r := Perform(own, s, c);
      var frame := OutBytes(own.isServer, Outgoing(c.opcode, c.payload.Content(), c.key));
      && r.closed && r.disconnected && r.broken && r.ev == Some(WriteFailed(Network))
      && r.sent == s.sent && |r.torn| < |frame| && r.torn == frame[..|r.torn|]
  {
    hide RefusalOf, OutBytes, LastPayload, Truncated;
  }

  lemma GoingAwayText()
    ensures |GOING_AWAY_TEXT| == 22
    ensures forall i :: 0 <= i < 22 ==> GOING_AWAY_TEXT[i] as int == "gbs: client going away"[i] as int
  {
    FirstHalf();
    SecondHalf();
    hide GOING_AWAY_TEXT;
  }

  lemma FirstHalf()
    ensures |GOING_AWAY_TEXT| == 22
    ensures forall i :: 0 <= i < 11 ==> GOING_AWAY_TEXT[i] as int == "gbs: client going away"[i] as int
  {
  }

  lemma SecondHalf()
    ensures forall i :: 11 <= i < 22 ==> GOING_AWAY_TEXT[i] as int == "gbs: client going away"[i] as int
  {
  }

  /** The error that ends ReadLoop is sent under its own code, and under 1000 if it has none. */
  lemma ReadErrorSays(own: Settings, s: Sender, error: Error, text: seq<Byte>, key: Key) returns (p: seq<Byte>)
    requires Open(s) && own.writeMax >= 125
    requires error.Status? || error.Wrapped? ==> 0 < error.code < 0x1_0000
    ensures Says(p, if error.Status? || error.Wrapped? then error.code else 1000, text)
    ensures Perform(own, s, Abandon(error, text, key, Carries))
         == s.(closed := true, disconnected := true, sent := s.sent + [Outgoing(8, p, key)],
               ev := Some(ReadFailed(error)))
  {
    hide Truncated, StatusBytes, Closing;
    var code := SendCode(true, error);
    p := Truncated(StatusBytes(code) + text);
    StatusSays(code, text);
    ClosingSends(own, s, ReadFailed(error), StatusBytes(code) + text, key);
  }

  /** A received close payload is answered with nothing, if it is empty, and otherwise with the two
      bytes of its reply; the code and the reason it holds are what OnClose is to be given. */
  lemma AnswerSays(own: Settings, s: Sender, received: seq<Byte>, key: Key) returns (p: seq<Byte>)
    requires Open(s) && own.writeMax >= 125
    ensures if received == [] then p == []
            else |p| == 2 && 256 * p[0] as nat + p[1] as nat == Reply(own.checkUtf8, received)
    ensures var r := Perform(own, s, Answer(received, key, Carries));
      && r.closed && r.disconnected && r.sent == s.sent + [Outgoing(8, p, key)]
      && r.ev.Some? && r.ev.value.Answered?
      && (|received| >= 2 ==>
            && r.ev.value.code == 256 * received[0] as nat + received[1] as nat
            && r.ev.value.reason == received[2..])
  {
    hide Reply, Closing, BE, ValidUtf8;
    ReplyIff(own.checkUtf8, received);
    ReplyIsLegal(own.checkUtf8, received);
    var reply := Reply(own.checkUtf8, received);
    p := StatusBytes(reply);
    if received != [] { BETwo(p); }
    if |received| >= 2 { BETwo(received[..2]); }
    ClosingSends(own, s, CauseOf(Answer(received, key, Carries), Network), p, key);
  }
}
