/** types.go: the frame header (section 5.2 of RFC 6455), written by GenerateHeader into a
    14-byte array and read back by Parse into another one that is reused frame after frame. */
module FrameHeaders {
  import opened Words
  import opened Masks

  const HEADER_SIZE: nat := 14
  const THRESHOLD_V1: nat := 125
  const THRESHOLD_V2: nat := 0xFFFF

  type Opcode = Byte
  const CONTINUATION: Opcode := 0
  const TEXT: Opcode := 1
  const BINARY: Opcode := 2
  const CLOSE: Opcode := 8
  const PING: Opcode := 9
  const PONG: Opcode := 10

  predicate IsDataFrame(op: Opcode) { op <= BINARY }

  function GetFIN(b0: Byte): bool { b0 >> 7 == 1 }
  function GetRSV1(b0: Byte): bool { (b0 << 1) >> 7 == 1 }
  function GetRSV2(b0: Byte): bool { (b0 << 2) >> 7 == 1 }
  function GetRSV3(b0: Byte): bool { (b0 << 3) >> 7 == 1 }
  function GetOpcode(b0: Byte): Opcode { (b0 << 4) >> 4 }
  function GetMask(b1: Byte): bool { b1 >> 7 == 1 }
  function GetLengthCode(b1: Byte): Byte { (b1 << 1) >> 1 }

  // ---------------------------------------------------------------- what is written

  function Plus(a: Byte, b: Byte): Byte { a + b }

  function FirstByte(fin: bool, opcode: Opcode): Byte { if fin then Plus(opcode, 128) else opcode }

  function WithMaskBit(b1: Byte): Byte { b1 | 128 }

  function LengthCode(n: nat): Byte {
    if n <= THRESHOLD_V1 then n as Byte else if n <= THRESHOLD_V2 then 126 else 127
  }

  function ExtendedLength(n: nat): seq<Byte> {
    if n <= THRESHOLD_V1 then [] else if n <= THRESHOLD_V2 then PutBE(n, 2) else PutBE(n, 8)
  }

  /** The header a peer in the given role sends: the mask key follows the length directly. */
  function HeaderBytes(isServer: bool, fin: bool, opcode: Opcode, n: nat, key: Key): seq<Byte> {
    HeaderFrom(FirstByte(fin, opcode), !isServer, n, key)
  }

  function HeaderFrom(b0: Byte, masked: bool, n: nat, key: Key): seq<Byte> {
    [b0, if masked then WithMaskBit(LengthCode(n)) else LengthCode(n)]
    + ExtendedLength(n) + (if masked then key else [])
  }

  /** The three forms of a length; a peer need not choose the shortest. */
  datatype LengthForm = Bits7 | Bits16 | Bits64

  predicate FormHolds(form: LengthForm, n: nat) {
    match form
    case Bits7 => n <= THRESHOLD_V1
    case Bits16 => n < 0x1_0000
    case Bits64 => n < 0x8000_0000_0000_0000
  }

  function MinimalForm(n: nat): LengthForm {
    if n <= THRESHOLD_V1 then Bits7 else if n <= THRESHOLD_V2 then Bits16 else Bits64
  }

  function FormCode(form: LengthForm, n: nat): Byte {
    match form
    case Bits7 => (n % 256) as Byte
    case Bits16 => 126
    case Bits64 => 127
  }

  function FormBytes(form: LengthForm, n: nat): seq<Byte> {
    match form
    case Bits7 => []
    case Bits16 => PutBE(n, 2)
    case Bits64 => PutBE(n, 8)
  }

  /** A header whose length has the given form. */
  function HeaderIn(form: LengthForm, b0: Byte, masked: bool, n: nat, key: Key): seq<Byte> {
    [b0, if masked then WithMaskBit(FormCode(form, n)) else FormCode(form, n)]
    + FormBytes(form, n) + (if masked then key else [])
  }

  lemma MinimalHeader(b0: Byte, masked: bool, n: nat, key: Key)
    ensures HeaderIn(MinimalForm(n), b0, masked, n, key) == HeaderFrom(b0, masked, n, key)
  {
    hide WithMaskBit;
  }

  /** The form a second byte announces. */
  function FormOf(b1: Byte): LengthForm {
    if GetLengthCode(b1) == 126 then Bits16 else if GetLengthCode(b1) == 127 then Bits64 else Bits7
  }

  // ---------------------------------------------------------------- what is read

  /** io.ReadFull's two failures: nothing to read, or the stream ends inside the read. */
  datatype ReadError = EOF | UnexpectedEOF

  function ShortRead(available: nat): ReadError { if available == 0 then EOF else UnexpectedEOF }

  datatype Parsed =
    | Short(error: ReadError)
    | Header(b0: Byte, b1: Byte, key: seq<Byte>, length: int, rest: seq<Byte>)

  /** int(uint64): the high half of the unsigned range is negative. */
  function ToInt(n: nat): int {
    if n < 0x8000_0000_0000_0000 then n else n - 0x1_0000_0000_0000_0000
  }

  function ParseKey(b0: Byte, b1: Byte, length: int, s: seq<Byte>): Parsed {
    if !GetMask(b1) then Header(b0, b1, [], length, s)
    else if |s| < 4 then Short(ShortRead(|s|))
    else Header(b0, b1, s[..4], length, s[4..])
  }

  function ParseHeader(s: seq<Byte>): Parsed {
    if |s| < 2 then Short(ShortRead(|s|))
    else
      var b0, b1, t := s[0], s[1], s[2..];
      match GetLengthCode(b1)
      case 126 => if |t| < 2 then Short(ShortRead(|t|)) else ParseKey(b0, b1, BE(t[..2]), t[2..])
      case 127 => if |t| < 8 then Short(ShortRead(|t|)) else ParseKey(b0, b1, ToInt(BE(t[..8])), t[8..])
      case code => ParseKey(b0, b1, code as int, t)
  }

  // ---------------------------------------------------------------- the two agree

  lemma FirstByteBits(fin: bool, opcode: Opcode)
    requires opcode < 16
    ensures var b0 := FirstByte(fin, opcode);
      GetFIN(b0) == fin && GetOpcode(b0) == opcode && !GetRSV1(b0) && !GetRSV2(b0) && !GetRSV3(b0)
  {
  }

  lemma SecondByteBits(code: Byte)
    requires code < 128
    ensures GetLengthCode(code) == code && !GetMask(code)
    ensures GetLengthCode(WithMaskBit(code)) == code && GetMask(WithMaskBit(code))
  {
  }

  lemma SmallCode(n: nat)
    requires n <= THRESHOLD_V1
    ensures (n as Byte) < 126 && (n as Byte) as nat == n
  {
    ByteValue(n);
    ByteOrder(n as Byte);
  }

  lemma ByteOrder(b: Byte)
    ensures b as nat <= THRESHOLD_V1 ==> b < 126
  {
  }

  lemma Powers()
    ensures Pow256(2) == 0x1_0000 && Pow256(8) == 0x1_0000_0000_0000_0000
  {
    assert Pow256(4) == 0x1_0000_0000;
  }

  /** Parsing a header in any form gives back its parts and leaves what follows unread. */
  lemma ParseHeaderIn(form: LengthForm, b0: Byte, masked: bool, n: nat, key: Key, tail: seq<Byte>)
    requires FormHolds(form, n)
    ensures var p := ParseHeader(HeaderIn(form, b0, masked, n, key) + tail);
      && p.Header? && p.b0 == b0 && GetMask(p.b1) == masked && FormOf(p.b1) == form
      && p.key == (if masked then key else [])
      && p.length == n && p.rest == tail
      && (form.Bits7? ==> GetLengthCode(p.b1) as nat == n)
  {
    hide GetMask, GetLengthCode, WithMaskBit, BE, PutBE;
    var code := FormCode(form, n);
    var k := if masked then key else [];
    var s := HeaderIn(form, b0, masked, n, key) + tail;
    if form.Bits7? { SmallCode(n); }
    SecondByteBits(code);
    Powers();
    assert s[0] == b0 && s[1] == if masked then WithMaskBit(code) else code;
    assert s[2..] == FormBytes(form, n) + (k + tail);
    match form {
      case Bits7 =>
        assert s[2..] == k + tail;
      case Bits16 =>
        assert s[2..][..2] == PutBE(n, 2) && s[2..][2..] == k + tail;
        PutBERoundTrip(n, 2);
      case Bits64 =>
        assert s[2..][..8] == PutBE(n, 8) && s[2..][8..] == k + tail;
        PutBERoundTrip(n, 8);
    }
    assert masked ==> (k + tail)[..4] == key && (k + tail)[4..] == tail;
    assert !masked ==> k + tail == tail;
  }

  lemma ParseHeaderFrom(b0: Byte, masked: bool, n: nat, key: Key, tail: seq<Byte>)
    requires n < 0x8000_0000_0000_0000
    ensures var p := ParseHeader(HeaderFrom(b0, masked, n, key) + tail);
      && p.Header? && p.b0 == b0 && GetMask(p.b1) == masked && FormOf(p.b1) == MinimalForm(n)
      && p.key == (if masked then key else [])
      && p.length == n && p.rest == tail
  {
    hide HeaderIn, HeaderFrom, ParseHeader, GetMask, FormOf;
    MinimalHeader(b0, masked, n, key);
    ParseHeaderIn(MinimalForm(n), b0, masked, n, key, tail);
  }

  /** Bytes that follow a header do not change how it parses. */
  lemma ParseExtends(s: seq<Byte>, t: seq<Byte>)
    requires ParseHeader(s).Header?
    ensures ParseHeader(s + t) == ParseHeader(s).(rest := ParseHeader(s).rest + t)
  {
    hide GetMask, GetLengthCode, BE;
    var b1, u := s[1], s[2..];
    assert (s + t)[0] == s[0] && (s + t)[1] == b1 && (s + t)[2..] == u + t;
    match GetLengthCode(b1) {
      case 126 =>
        assert (u + t)[..2] == u[..2] && (u + t)[2..] == u[2..] + t;
        KeyExtends(s[0], b1, BE(u[..2]), u[2..], t);
      case 127 =>
        assert (u + t)[..8] == u[..8] && (u + t)[8..] == u[8..] + t;
        KeyExtends(s[0], b1, ToInt(BE(u[..8])), u[8..], t);
      case code => KeyExtends(s[0], b1, code as int, u, t);
    }
  }

  lemma KeyExtends(b0: Byte, b1: Byte, n: int, s: seq<Byte>, t: seq<Byte>)
    requires ParseKey(b0, b1, n, s).Header?
    ensures ParseKey(b0, b1, n, s + t) == ParseKey(b0, b1, n, s).(rest := ParseKey(b0, b1, n, s).rest + t)
  {
    hide GetMask;
    if |s| >= 4 { SliceExtends(s, t); }
  }

  lemma SliceExtends(s: seq<Byte>, t: seq<Byte>)
    requires |s| >= 4
    ensures (s + t)[..4] == s[..4] && (s + t)[4..] == s[4..] + t
  {
  }

  /** Parse inverts GenerateHeader for either role, and leaves what follows the header unread. */
  lemma ParseInvertsGenerate(isServer: bool, fin: bool, opcode: Opcode, n: nat, key: Key, tail: seq<Byte>)
    requires opcode < 16 && n < 0x8000_0000_0000_0000
    ensures var p := ParseHeader(HeaderBytes(isServer, fin, opcode, n, key) + tail);
      && p.Header?
      && GetFIN(p.b0) == fin && GetOpcode(p.b0) == opcode
      && !GetRSV1(p.b0) && !GetRSV2(p.b0) && !GetRSV3(p.b0)
      && GetMask(p.b1) == !isServer
      && p.key == (if isServer then [] else key)
      && p.length == n && p.rest == tail
  {
    hide GetFIN, GetRSV1, GetRSV2, GetRSV3, GetOpcode, GetMask, GetLengthCode, FirstByte, HeaderFrom, ParseHeader;
    FirstByteBits(fin, opcode);
    ParseHeaderFrom(FirstByte(fin, opcode), !isServer, n, key, tail);
  }

  /** No shorter header announces the same length with the same mask bit. */
  lemma HeaderIsMinimal(isServer: bool, fin: bool, opcode: Opcode, n: nat, key: Key, other: seq<Byte>)
    requires var p := ParseHeader(other); p.Header? && p.length == n && GetMask(p.b1) == !isServer && p.rest == []
    ensures |HeaderBytes(isServer, fin, opcode, n, key)| <= |other|
  {
    var code := GetLengthCode(other[1]);
    CodeRange(other[1]);
    if code == 126 {
      BEBound(other[2..][..2]);
      Powers();
    }
  }

  lemma ParsedKey(b0: Byte, b1: Byte, n: int, s: seq<Byte>)
    requires ParseKey(b0, b1, n, s).Header?
    ensures var p := ParseKey(b0, b1, n, s);
      && p.b0 == b0 && p.b1 == b1 && p.length == n
      && (if GetMask(b1) then |p.key| == 4 else p.key == [])
      && s == p.key + p.rest
  {
    hide GetMask;
  }

  /** What the length consists of; `after` is what follows it. */
  lemma ParsedLength(s: seq<Byte>) returns (after: seq<Byte>)
    requires ParseHeader(s).Header? && ParseHeader(s).length >= 0
    ensures var p := ParseHeader(s);
      && |s| >= 2 && p == ParseKey(s[0], s[1], p.length, after) && FormHolds(FormOf(s[1]), p.length)
      && s[2..] == FormBytes(FormOf(s[1]), p.length) + after
      && GetLengthCode(s[1]) == FormCode(FormOf(s[1]), p.length)
      && (FormOf(s[1]).Bits7? ==> GetLengthCode(s[1]) as int == p.length)
  {
    hide GetLengthCode, BE, PutBE, ParseKey;
    ParseSecond(s);
    var b1, t := s[1], s[2..];
    var code := GetLengthCode(b1);
    Powers();
    if code == 126 {
      after := t[2..];
      BEBound(t[..2]);
      BERoundTrip(t[..2]);
    } else if code == 127 {
      after := t[8..];
      BEBound(t[..8]);
      BERoundTrip(t[..8]);
    } else {
      after := t;
      CodeRange(b1);
      ValueByte(code);
    }
  }

  lemma ParseSecond(s: seq<Byte>)
    requires ParseHeader(s).Header?
    ensures |s| >= 2
    ensures var p, b0, b1, t := ParseHeader(s), s[0], s[1], s[2..]; var code := GetLengthCode(b1);
      if code == 126 then |t| >= 2 && p == ParseKey(b0, b1, BE(t[..2]), t[2..]) && p.length == BE(t[..2])
      else if code == 127 then
        |t| >= 8 && p == ParseKey(b0, b1, ToInt(BE(t[..8])), t[8..]) && p.length == ToInt(BE(t[..8]))
      else p == ParseKey(b0, b1, code as int, t) && p.length == code as int
  {
    hide GetLengthCode, BE, GetMask;
  }

  /** Whatever parses is a header in some form: writing its parts again gives the same bytes. */
  lemma GenerateInvertsParse(s: seq<Byte>)
    requires ParseHeader(s).Header? && ParseHeader(s).length >= 0
    ensures var p := ParseHeader(s); var form := FormOf(p.b1);
      && FormHolds(form, p.length) && (form.Bits7? ==> GetLengthCode(p.b1) as int == p.length)
      && (if GetMask(p.b1) then |p.key| == 4 else p.key == [])
      && s == HeaderIn(form, p.b0, GetMask(p.b1), p.length, if GetMask(p.b1) then p.key else [0, 0, 0, 0]) + p.rest
  {
    var p := ParseHeader(s);
    var after := ParsedLength(s);
    hide GetMask, GetLengthCode, WithMaskBit, ParseHeader, ParseKey, FormHolds, FormOf, FormBytes, FormCode, HeaderIn;
    ParsedKey(s[0], s[1], p.length, after);
    SecondByteParts(s[1]);
    var key: Key := if GetMask(p.b1) then p.key else [0, 0, 0, 0];
    HeaderParts(FormOf(p.b1), p.b0, GetMask(p.b1), p.length, key);
    HeadTail(s);
    Reassociate([s[0], s[1]], FormBytes(FormOf(p.b1), p.length), p.key, p.rest);
  }

  lemma HeaderParts(form: LengthForm, b0: Byte, masked: bool, n: nat, key: Key)
    ensures HeaderIn(form, b0, masked, n, key)
         == ([b0, if masked then WithMaskBit(FormCode(form, n)) else FormCode(form, n)] + FormBytes(form, n))
            + (if masked then key else [])
  {
  }

  lemma HeadTail(s: seq<Byte>)
    requires |s| >= 2
    ensures s == [s[0], s[1]] + s[2..]
  {
  }

  lemma Reassociate(a: seq<Byte>, b: seq<Byte>, c: seq<Byte>, d: seq<Byte>)
    ensures a + (b + (c + d)) == ((a + b) + c) + d
  {
  }

  lemma SecondByteParts(b1: Byte)
    ensures b1 == if GetMask(b1) then WithMaskBit(GetLengthCode(b1)) else GetLengthCode(b1)
  {
  }

  lemma CodeRange(b1: Byte)
    ensures GetLengthCode(b1) as int < 128
    ensures GetLengthCode(b1) != 126 && GetLengthCode(b1) != 127 ==> GetLengthCode(b1) as int <= THRESHOLD_V1
  {
  }

  // ---------------------------------------------------------------- the layout, bit by bit

  /** The fields of the first two bytes (section 5.2 of RFC 6455). */
  lemma BitsOf(b0: Byte, b1: Byte)
    ensures GetFIN(b0) <==> b0 & 0x80 != 0
    ensures GetRSV1(b0) <==> b0 & 0x40 != 0
    ensures GetRSV2(b0) <==> b0 & 0x20 != 0
    ensures GetRSV3(b0) <==> b0 & 0x10 != 0
    ensures GetOpcode(b0) == b0 & 0x0F
    ensures GetMask(b1) <==> b1 & 0x80 != 0
    ensures GetLengthCode(b1) == b1 & 0x7F
  {
  }

  lemma FirstBits(fin: bool, opcode: Opcode, masked: bool, code: Byte)
    requires opcode < 16 && code < 128
    ensures FirstByte(fin, opcode) == opcode | (if fin then 0x80 else 0)
    ensures (if masked then WithMaskBit(code) else code) == code | (if masked then 0x80 else 0)
  {
  }

  /** How many bytes of extended length a frame of n bytes gets. */
  function Width(n: nat): nat { if n <= 125 then 0 else if n <= 65535 then 2 else 8 }

  /** The header byte by byte: FIN and opcode, mask bit and length code, the length with its most
      significant byte first, and the mask key of a client. */
  lemma HeaderLayout(isServer: bool, fin: bool, opcode: Opcode, n: nat, key: Key)
    requires opcode < 16 && n < 0x8000_0000_0000_0000
    ensures var h, w := HeaderBytes(isServer, fin, opcode, n, key), Width(n);
      && |h| == 2 + w + (if isServer then 0 else 4)
      && h[0] == opcode | (if fin then 0x80 else 0)
      && h[1] == (if n <= 125 then n as Byte else if n <= 65535 then 126 else 127) | (if isServer then 0 else 0x80)
      && (w > 0 ==> BE(h[2..2 + w]) == n)
      && (!isServer ==> h[2 + w..] == key)
  {
    hide PutBE, BE, FirstByte, WithMaskBit;
    var h, w := HeaderBytes(isServer, fin, opcode, n, key), Width(n);
    Powers();
    if n <= 125 { SmallCode(n); }
    FirstBits(fin, opcode, !isServer, LengthCode(n));
    if w > 0 {
      PutBERoundTrip(n, w);
      assert h[2..2 + w] == PutBE(n, w);
    }
  }

  // ---------------------------------------------------------------- in place

  /** Go's copy: src overwrites dst from position `at` on. */
  method Copy(dst: array<Byte>, at: nat, src: seq<Byte>)
    requires at + |src| <= dst.Length
    modifies dst
    ensures dst[..] == old(dst[..at]) + src + old(dst[at + |src|..])
  {
    forall i | 0 <= i < |src| {
      dst[at + i] := src[i];
    }
    assert dst[..] == old(dst[..at]) + src + old(dst[at + |src|..]);
  }

  /** The unread part of a connection, behind internal.ReadN. */
  class ByteReader {
    var rest: seq<Byte>

    constructor (stream: seq<Byte>)
      ensures rest == stream
    {
      rest := stream;
    }

    /** Fills dst[lo..hi] or fails; a failing read has consumed whatever was left. */
    method ReadN(dst: array<Byte>, lo: nat, hi: nat) returns (error: Option<ReadError>)
      requires lo <= hi <= dst.Length
      modifies this, dst
      ensures old(|rest|) >= hi - lo ==>
        error.None? && rest == old(rest)[hi - lo..]
        && dst[..] == old(dst[..lo]) + old(rest)[..hi - lo] + old(dst[hi..])
      ensures old(|rest|) < hi - lo ==> error == Some(ShortRead(old(|rest|))) && rest == []
    {
      var n := hi - lo;
      if |rest| < n {
        error := Some(ShortRead(|rest|));
        Copy(dst, lo, rest);
        rest := [];
      } else {
        error := None;
        Copy(dst, lo, rest[..n]);
        rest := rest[n..];
      }
    }
  }

  class FrameHeader {
    const h: array<Byte>

    constructor ()
      ensures fresh(h) && h.Length == HEADER_SIZE
      ensures forall i :: 0 <= i < HEADER_SIZE ==> h[i] == 0
    {
      h := new Byte[HEADER_SIZE](_ => 0);
    }

    /** SetLength adds the length code to byte 1. */
    method SetLength(n: nat) returns (offset: nat)
      requires h.Length == HEADER_SIZE
      modifies h
      ensures offset == |ExtendedLength(n)| <= 8
      ensures h[0] == old(h[0]) && h[1] == Plus(old(h[1]), LengthCode(n))
      ensures h[2..2 + offset] == ExtendedLength(n) && h[2 + offset..] == old(h[2 + offset..])
    {
      hide PutBE, Plus;
      if n <= THRESHOLD_V1 {
        h[1] := Plus(h[1], n as Byte);
        offset := 0;
      } else if n <= THRESHOLD_V2 {
        h[1] := Plus(h[1], 126);
        Copy(h, 2, PutBE(n, 2));
        offset := 2;
      } else {
        h[1] := Plus(h[1], 127);
        Copy(h, 2, PutBE(n, 8));
        offset := 8;
      }
    }

    /** GenerateHeader on a header whose second byte is still zero, as genFrame calls it; the
        random mask key is the parameter `key`. */
    method GenerateHeader(isServer: bool, fin: bool, opcode: Opcode, length: nat, key: Key) returns (headerLength: nat)
      requires h.Length == HEADER_SIZE && h[1] == 0
      modifies h
      ensures headerLength == |HeaderBytes(isServer, fin, opcode, length, key)| <= HEADER_SIZE
      ensures h[..headerLength] == HeaderBytes(isServer, fin, opcode, length, key)
      ensures !isServer ==> headerLength >= 4 && h[headerLength - 4..headerLength] == key
    {
      hide PutBE, Plus, WithMaskBit, LengthCode, ExtendedLength;
      headerLength := 2;
      var b0 := opcode;
      if fin {
        b0 := Plus(b0, 128);
      }
      h[0] := b0;
      var offset := SetLength(length);
      headerLength := headerLength + offset;
      ZeroPlus(LengthCode(length));
      if !isServer {
        h[1] := WithMaskBit(h[1]);
        assert h[..headerLength] == HeaderBytes(isServer, fin, opcode, length, key)[..headerLength];
        Copy(h, headerLength, key);
        headerLength := headerLength + 4;
      } else {
        assert h[..headerLength] == [h[0], h[1]] + h[2..headerLength];
      }
    }

    /** Parse, into an array that still holds an earlier frame's header: nothing stale shows. */
    method Parse(reader: ByteReader) returns (length: int, error: Option<ReadError>)
      requires h.Length == HEADER_SIZE
      modifies h, reader
      ensures match ParseHeader(old(reader.rest))
        case Short(e) => error == Some(e) && reader.rest == []
        case Header(b0, b1, key, n, rest) =>
          error.None? && h[0] == b0 && h[1] == b1 && length == n && reader.rest == rest
          && (GetMask(b1) ==> h[10..14] == key)
    {
      hide GetMask, GetLengthCode, BE;
      length := 0;
      error := reader.ReadN(h, 0, 2);
      if error.Some? {
        return;
      }
      var lengthCode := GetLengthCode(h[1]);
      match lengthCode {
        case 126 =>
          error := reader.ReadN(h, 2, 4);
          if error.Some? {
            return;
          }
          length := BE(h[2..4]);
        case 127 =>
          error := reader.ReadN(h, 2, 10);
          if error.Some? {
            return;
          }
          length := ToInt(BE(h[2..10]));
        case _ =>
          length := lengthCode as int;
      }
      var maskOn := GetMask(h[1]);
      if maskOn {
        error := reader.ReadN(h, 10, 14);
      }
    }
  }

  lemma ZeroPlus(b: Byte)
    ensures Plus(0, b) == b
  {
  }
}
