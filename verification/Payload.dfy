/** internal/io.go: payloads of one or several slices, and the UTF-8 check (RFC 3629). */
module Payloads {
  import opened Words

  // ---------------------------------------------------------------- UTF-8

  predicate In(b: Byte, lo: Byte, hi: Byte) { lo <= b <= hi }

  predicate Tail(b: Byte) { In(b, 0x80, 0xBF) }

  /** The second byte a leading byte allows in a sequence of three or four. */
  predicate Second(b0: Byte, b1: Byte) {
    if b0 == 0xE0 then In(b1, 0xA0, 0xBF)
    else if b0 == 0xED then In(b1, 0x80, 0x9F)
    else if b0 == 0xF0 then In(b1, 0x90, 0xBF)
    else if b0 == 0xF4 then In(b1, 0x80, 0x8F)
    else Tail(b1)
  }

  /** The length of the encoded character s starts with; 0 when it starts with none. */
  function RuneLen(s: seq<Byte>): (n: nat)
    ensures n <= |s|
  {
    if s == [] then 0
    else if s[0] < 0x80 then 1
    else if In(s[0], 0xC2, 0xDF) then if |s| >= 2 && Tail(s[1]) then 2 else 0
    else if In(s[0], 0xE0, 0xEF) then if |s| >= 3 && Second(s[0], s[1]) && Tail(s[2]) then 3 else 0
    else if In(s[0], 0xF0, 0xF4) then if |s| >= 4 && Second(s[0], s[1]) && Tail(s[2]) && Tail(s[3]) then 4 else 0
    else 0
  }

  /** utf8.Valid. */
  predicate ValidUtf8(s: seq<Byte>)
    decreases |s|
  {
    s == [] || (RuneLen(s) > 0 && ValidUtf8(s[RuneLen(s)..]))
  }

  lemma RuneLenOfPrefix(s: seq<Byte>, t: seq<Byte>)
    requires RuneLen(s) > 0
    ensures RuneLen(s + t) == RuneLen(s)
  {
    hide In, Tail, Second;
  }

  /** After valid text, what follows decides. */
  lemma {:induction false} ValidUtf8Concat(s: seq<Byte>, t: seq<Byte>)
    requires ValidUtf8(s)
    ensures ValidUtf8(s + t) <==> ValidUtf8(t)
    decreases |s|
  {
    if s == [] {
      assert s + t == t;
    } else {
      var n := RuneLen(s);
      RuneLenOfPrefix(s, t);
      hide RuneLen;
      ValidUtf8Concat(s[n..], t);
      DropPrefix(s, t, n);
    }
  }

  lemma DropPrefix(s: seq<Byte>, t: seq<Byte>, n: nat)
    requires n <= |s|
    ensures (s + t)[n..] == s[n..] + t
  {
  }

  // ---------------------------------------------------------------- payloads

  function Concat(bs: seq<seq<Byte>>): seq<Byte> {
    if bs == [] then [] else Concat(bs[..|bs| - 1]) + bs[|bs| - 1]
  }

  /** The slices one after the other. */
  lemma ConcatIs(bs: seq<seq<Byte>>, b: seq<Byte>)
    ensures Concat([]) == [] && Concat(bs + [b]) == Concat(bs) + b
  {
    assert (bs + [b])[..|bs|] == bs;
  }

  datatype Payload = Bytes(b: seq<Byte>) | Buffers(bs: seq<seq<Byte>>) {
    /** The bytes the payload stands for. */
    function Content(): seq<Byte> {
      if Bytes? then b else Concat(bs)
    }
  }

  /** internal.CheckEncoding: only text (1) and close (8) payloads are checked. */
  predicate EncodingOk(enabled: bool, opcode: Byte, payload: seq<Byte>) {
    enabled && (opcode == 1 || opcode == 8) ==> ValidUtf8(payload)
  }

  predicate PayloadOk(p: Payload, enabled: bool, opcode: Byte) {
    match p
    case Bytes(b) => EncodingOk(enabled, opcode, b)
    case Buffers(bs) => forall i :: 0 <= i < |bs| ==> EncodingOk(enabled, opcode, bs[i])
  }

  predicate SlicesValid(bs: seq<seq<Byte>>) {
    forall i :: 0 <= i < |bs| ==> ValidUtf8(bs[i])
  }

  /** No boundary between slices cuts a character: what lies before each one is valid. */
  predicate CutsValid(bs: seq<seq<Byte>>) {
    forall k :: 0 <= k <= |bs| ==> ValidUtf8(Concat(bs[..k]))
  }

  lemma CutsOfPrefix(bs: seq<seq<Byte>>)
    requires bs != []
    ensures CutsValid(bs) <==> CutsValid(bs[..|bs| - 1]) && ValidUtf8(Concat(bs))
  {
    hide ValidUtf8, Concat, CutsValid;
    if CutsValid(bs) { CutsOfInit(bs); }
    if CutsValid(bs[..|bs| - 1]) && ValidUtf8(Concat(bs)) { CutsExtend(bs); }
  }

  lemma CutsOfInit(bs: seq<seq<Byte>>)
    requires bs != [] && CutsValid(bs)
    ensures CutsValid(bs[..|bs| - 1]) && ValidUtf8(Concat(bs))
  {
    hide ValidUtf8, Concat;
    var init := bs[..|bs| - 1];
    forall k | 0 <= k <= |init|
      ensures ValidUtf8(Concat(init[..k]))
    {
      assert init[..k] == bs[..k];
    }
    assert bs[..|bs|] == bs;
  }

  lemma CutsExtend(bs: seq<seq<Byte>>)
    requires bs != [] && CutsValid(bs[..|bs| - 1]) && ValidUtf8(Concat(bs))
    ensures CutsValid(bs)
  {
    hide ValidUtf8, Concat;
    var init := bs[..|bs| - 1];
    forall k | 0 <= k <= |bs|
      ensures ValidUtf8(Concat(bs[..k]))
    {
      assert if k == |bs| then bs[..k] == bs else bs[..k] == init[..k];
    }
  }

  /** Writev's slice-by-slice check passes if and only if no slice boundary cuts a character. */
  lemma {:induction false} SlicesValidIffCutsValid(bs: seq<seq<Byte>>)
    ensures SlicesValid(bs) <==> CutsValid(bs)
    decreases |bs|
  {
    hide ValidUtf8;
    if bs == [] {
      assert bs[..0] == [];
      EmptyValid();
    } else {
      var init, last := bs[..|bs| - 1], bs[|bs| - 1];
      SlicesValidIffCutsValid(init);
      CutsOfPrefix(bs);
      if CutsValid(init) {
        assert init[..|init|] == init;
        ValidUtf8Concat(Concat(init), last);
      }
    }
  }

  lemma EmptyValid()
    ensures ValidUtf8([])
  {
  }

  /** What Writev accepts, the receiver of the concatenation accepts. */
  lemma AcceptedSlicesMakeValidText(bs: seq<seq<Byte>>, opcode: Byte)
    requires PayloadOk(Buffers(bs), true, opcode)
    ensures EncodingOk(true, opcode, Concat(bs))
  {
    if opcode == 1 || opcode == 8 {
      assert SlicesValid(bs);
      SlicesValidIffCutsValid(bs);
      assert bs[..|bs|] == bs;
    }
  }

  /** The converse fails: a character cut in two is refused although the whole is valid. */
  lemma SplitCharacterIsRefused()
    ensures ValidUtf8(Concat([[0xC3], [0xA9]])) && !PayloadOk(Buffers([[0xC3], [0xA9]]), true, 1)
  {
    var s: seq<Byte> := [0xC3, 0xA9];
    assert [[0xC3], [0xA9]][..1] == [[0xC3]];
    assert Concat([[0xC3]]) == [0xC3] by { assert [[0xC3]][..0] == []; }
    assert Concat([[0xC3], [0xA9]]) == s;
    assert RuneLen(s) == 2 && s[2..] == [];
    assert RuneLen([0xC3]) == 0;
  }

  // ---------------------------------------------------------------- the loops

  method CheckEncoding(p: Payload, enabled: bool, opcode: Byte) returns (ok: bool)
    ensures ok == PayloadOk(p, enabled, opcode)
  {
    match p
    case Bytes(b) => ok := EncodingOk(enabled, opcode, b);
    case Buffers(bs) =>
      for i := 0 to |bs|
        invariant forall j :: 0 <= j < i ==> EncodingOk(enabled, opcode, bs[j])
      {
        if !EncodingOk(enabled, opcode, bs[i]) {
          return false;
        }
      }
      ok := true;
  }

  method Len(p: Payload) returns (sum: nat)
    ensures sum == |p.Content()|
  {
    match p
    case Bytes(b) => sum := |b|;
    case Buffers(bs) =>
      sum := 0;
      for i := 0 to |bs|
        invariant sum == |Concat(bs[..i])|
      {
        assert bs[..i + 1][..i] == bs[..i];
        sum := sum + |bs[i]|;
      }
      assert bs[..|bs|] == bs;
  }

  /** WriteTo appends every slice in turn to what the buffer already holds. */
  method WriteTo(p: Payload, written: seq<Byte>) returns (buf: seq<Byte>)
    ensures buf == written + p.Content()
  {
    match p
    case Bytes(b) => buf := written + b;
    case Buffers(bs) =>
      buf := written;
      for i := 0 to |bs|
        invariant buf == written + Concat(bs[..i])
      {
        assert bs[..i + 1][..i] == bs[..i];
        assert written + (Concat(bs[..i]) + bs[i]) == (written + Concat(bs[..i])) + bs[i];
        buf := buf + bs[i];
      }
      assert bs[..|bs|] == bs;
  }
}
