/** writer.go: genFrame builds a whole frame in one buffer, the header back-filled into a pad. */
module FrameWriters {
  import opened Words
  import opened Masks
  import opened FrameHeaders
  import opened Payloads

  /** The bytes a peer in the given role puts on the wire for one frame. */
  function FrameBytes(isServer: bool, fin: bool, opcode: Opcode, content: seq<Byte>, key: Key): seq<Byte> {
    HeaderBytes(isServer, fin, opcode, |content|, key) + (if isServer then content else Masked(content, key))
  }

  datatype WriteError = TextEncoding | MessageTooLarge | ConnClosed

  datatype Generated = Built(bytes: seq<Byte>) | Refused(error: WriteError)

  /** What of a connection decides about the frames it writes. */
  datatype Settings = Settings(isServer: bool, writeMax: int, checkUtf8: bool)

  /** genFrame's reason to refuse a payload. */
  function RefusalOf(own: Settings, opcode: Opcode, payload: Payload): Option<WriteError> {
    if opcode == TEXT && !PayloadOk(payload, own.checkUtf8, opcode) then Some(TextEncoding)
    else if |payload.Content()| > own.writeMax then Some(MessageTooLarge)
    else None
  }

  function Outcome(own: Settings, fin: bool, opcode: Opcode, payload: Payload, key: Key): Generated {
    match RefusalOf(own, opcode, payload)
    case Some(e) => Refused(e)
    case None => Built(FrameBytes(own.isServer, fin, opcode, payload.Content(), key))
  }

  method GenFrame(
    isServer: bool, writeMax: int, fin: bool, checkEncoding: bool, opcode: Opcode, payload: Payload, key: Key)
    returns (r: Generated)
    ensures r == Outcome(Settings(isServer, writeMax, checkEncoding), fin, opcode, payload, key)
  {
    hide HeaderBytes, Masked;
    var n := Len(payload);
    if opcode == TEXT {
      var ok := CheckEncoding(payload, checkEncoding, opcode);
      if !ok {
        return Refused(TextEncoding);
      }
    }
    if n > writeMax {
      return Refused(MessageTooLarge);
    }
    var frame := BackFill(isServer, fin, opcode, payload, n, key);
    r := Built(frame);
  }

  /** genFrame's buffer: pad, payload, masking, then the header written back over the pad's end. */
  method BackFill(isServer: bool, fin: bool, opcode: Opcode, payload: Payload, n: nat, key: Key)
    returns (frame: seq<Byte>)
    requires n == |payload.Content()|
    ensures frame == FrameBytes(isServer, fin, opcode, payload.Content(), key)
  {
    hide HeaderBytes, Masked;
    var header := new FrameHeader();
    var headerLength := header.GenerateHeader(isServer, fin, opcode, n, key);
    var padding := seq(HEADER_SIZE, _ => 0 as Byte);
    var buf := WriteTo(payload, padding);
    var contents := new Byte[|buf|](i requires 0 <= i < |buf| => buf[i]);
    assert contents[..] == padding + payload.Content();
    assert contents[HEADER_SIZE..] == payload.Content();
    if !isServer {
      var maskBytes := header.h[headerLength - 4..headerLength];
      MaskXOR(contents, HEADER_SIZE, maskBytes);
      assert contents[HEADER_SIZE..] == Masked(payload.Content(), key);
    }
    var m := HEADER_SIZE - headerLength;
    ghost var before, head := contents[..], header.h[..headerLength];
    assert contents[HEADER_SIZE..] == before[HEADER_SIZE..];
    Copy(contents, m, header.h[..headerLength]);
    HeaderInPlace(before, head, contents[..]);
    assert contents[m..] == contents[..][m..];
    frame := contents[m..];
  }

  /** Written at the end of the pad, the header runs straight into the payload. */
  lemma HeaderInPlace(before: seq<Byte>, head: seq<Byte>, after: seq<Byte>)
    requires |head| <= HEADER_SIZE <= |before|
    requires var m := HEADER_SIZE - |head|; after == before[..m] + head + before[m + |head|..]
    ensures after[HEADER_SIZE - |head|..] == head + before[HEADER_SIZE..]
  {
  }

  /** Every slice of a payload, by itself, is valid text. */
  predicate SlicesAreText(payload: Payload) {
    match payload
    case Bytes(b) => ValidUtf8(b)
    case Buffers(bs) => forall i :: 0 <= i < |bs| ==> ValidUtf8(bs[i])
  }

  /** Exactly when genFrame builds a frame: the payload is within the limit, and text that is
      checked (opcode 1) is valid slice by slice. Bad text is found first, then length. */
  lemma BuiltIff(own: Settings, fin: bool, opcode: Opcode, payload: Payload, key: Key)
    ensures var r := Outcome(own, fin, opcode, payload, key);
      var bad := opcode == 1 && own.checkUtf8 && !SlicesAreText(payload);
      && (r.Built? <==> |payload.Content()| <= own.writeMax && !bad)
      && (r == Refused(TextEncoding) <==> bad)
      && (r == Refused(MessageTooLarge) <==> |payload.Content()| > own.writeMax && !bad)
  {
    hide ValidUtf8, FrameBytes, Concat;
  }

  /** And what it builds: the header for this role, and the payload, which a client has masked. */
  lemma BuiltBytes(own: Settings, fin: bool, opcode: Opcode, payload: Payload, key: Key)
    requires Outcome(own, fin, opcode, payload, key).Built?
    ensures var bytes, content := Outcome(own, fin, opcode, payload, key).bytes, payload.Content();
      var header := HeaderBytes(own.isServer, fin, opcode, |content|, key);
      && |bytes| == |header| + |content| && bytes[..|header|] == header
      && forall i :: 0 <= i < |content| ==>
           bytes[|header| + i] == if own.isServer then content[i] else content[i] ^ key[i % 4]
  {
    hide HeaderBytes, Masked, RefusalOf;
    var content := payload.Content();
    MaskedLength(content, key);
    forall i | 0 <= i < |content|
      ensures Masked(content, key)[i] == content[i] ^ key[i % 4]
    {
      MaskedAt(content, key, i);
    }
  }

  /** Writev does what Write does with the concatenation, the same frame or the same refusal, if
      and only if it is not valid checked text with a slice boundary inside a character. */
  lemma WritevActsAsWriteIff(own: Settings, fin: bool, opcode: Opcode, bs: seq<seq<Byte>>, key: Key)
    ensures Outcome(own, fin, opcode, Buffers(bs), key) == Outcome(own, fin, opcode, Bytes(Concat(bs)), key)
       <==> !(opcode == TEXT && own.checkUtf8 && ValidUtf8(Concat(bs)) && !CutsValid(bs))
  {
    hide FrameBytes, ValidUtf8, Concat;
    SlicesValidIffCutsValid(bs);
    assert bs[..|bs|] == bs;
    if opcode == TEXT && own.checkUtf8 {
      TextOk(bs);
    }
  }

  lemma TextOk(bs: seq<seq<Byte>>)
    ensures PayloadOk(Buffers(bs), true, TEXT) <==> SlicesValid(bs)
    ensures PayloadOk(Bytes(Concat(bs)), true, TEXT) <==> ValidUtf8(Concat(bs))
  {
    hide ValidUtf8, Concat;
  }

  /** A broadcast's frame is built once, by the connection of the first call, and written to
      all. It is a frame another connection could have built itself, under some mask key, if and
      only if that one has the same role and does not refuse the payload. */
  lemma BroadcastFitsIff(first: Settings, own: Settings, opcode: Opcode, payload: Payload, key: Key)
    requires opcode < 16 && |payload.Content()| < 0x8000_0000_0000_0000
    requires Outcome(first, true, opcode, payload, key).Built?
    ensures (exists k: Key :: Outcome(own, true, opcode, payload, k) == Outcome(first, true, opcode, payload, key))
       <==> own.isServer == first.isServer && RefusalOf(own, opcode, payload).None?
  {
    hide HeaderBytes, Masked, RefusalOf;
    if own.isServer == first.isServer && RefusalOf(own, opcode, payload).None? {
      assert Outcome(own, true, opcode, payload, key) == Outcome(first, true, opcode, payload, key);
    } else if k: Key :| Outcome(own, true, opcode, payload, k) == Outcome(first, true, opcode, payload, key) {
      RolesDiffer(own.isServer, first.isServer, opcode, payload.Content(), k, key);
    }
  }

  /** The mask bit tells a client's frame from a server's. */
  lemma RolesDiffer(isServer: bool, isServer': bool, opcode: Opcode, content: seq<Byte>, key: Key, key': Key)
    requires opcode < 16 && |content| < 0x8000_0000_0000_0000
    requires FrameBytes(isServer, true, opcode, content, key) == FrameBytes(isServer', true, opcode, content, key')
    ensures isServer == isServer'
  {
    hide HeaderBytes, Masked, ParseHeader, GetMask, GetFIN, GetOpcode, GetRSV1, GetRSV2, GetRSV3;
    var body := if isServer then content else Masked(content, key);
    var body' := if isServer' then content else Masked(content, key');
    ParseInvertsGenerate(isServer, true, opcode, |content|, key, body);
    ParseInvertsGenerate(isServer', true, opcode, |content|, key', body');
  }
}
