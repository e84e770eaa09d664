/** Bytes and the fixed-width words built from them. */
module Words {

  type Byte = bv8

  datatype Option<+T> = None | Some(value: T)

  function OneOf<T>(o: Option<T>): seq<T> { if o.Some? then [o.value] else [] }

  // ---------------------------------------------------------------- big-endian words

  /** The low `width` bytes of n, most significant first, as encoding/binary's PutUint16 and
      PutUint64 write them. */
  function PutBE(n: nat, width: nat): (s: seq<Byte>)
    ensures |s| == width
  {
    if width == 0 then [] else PutBE(n / 256, width - 1) + [(n % 256) as Byte]
  }

  function BE(s: seq<Byte>): nat {
    if s == [] then 0 else 256 * BE(s[..|s| - 1]) + s[|s| - 1] as nat
  }

  function Pow256(width: nat): nat {
    if width == 0 then 1 else 256 * Pow256(width - 1)
  }

  lemma ByteValue(n: int)
    requires 0 <= n < 256
    ensures (n as Byte) as int == n
  {
    // by cases: the solver converts small ranges of numbers quickly, the whole range slowly
    if n < 128 {
      if n < 64 { if n < 32 {} else {} } else { if n < 96 {} else {} }
    } else {
      if n < 192 { if n < 160 {} else {} } else { if n < 224 {} else {} }
    }
  }

  lemma ValueByte(b: Byte)
    ensures b as nat < 256 && (b as nat) as Byte == b
  {
  }

  lemma Split(q: nat, r: nat)
    requires r < 256
    ensures (256 * q + r) / 256 == q && (256 * q + r) % 256 == r
  {
  }

  lemma {:induction false} BEBound(s: seq<Byte>)
    ensures BE(s) < Pow256(|s|)
  {
    if s != [] {
      BEBound(s[..|s| - 1]);
      assert s[|s| - 1] as nat < 256;
    }
  }

  lemma {:induction false} PutBERoundTrip(n: nat, width: nat)
    requires n < Pow256(width)
    ensures BE(PutBE(n, width)) == n
  {
    if width > 0 {
      PutBERoundTrip(n / 256, width - 1);
      var s := PutBE(n, width);
      assert s[..width - 1] == PutBE(n / 256, width - 1);
      ByteValue(n % 256);
    }
  }

  lemma {:induction false} BERoundTrip(s: seq<Byte>)
    ensures PutBE(BE(s), |s|) == s
  {
    if s != [] {
      var init, last := s[..|s| - 1], s[|s| - 1];
      BERoundTrip(init);
      Split(BE(init), last as nat);
      ValueByte(last);
    }
  }

  // ---------------------------------------------------------------- the order of the bytes

  lemma TimesAssociates(a: nat, p: nat)
    ensures 256 * (a * p) == a * (256 * p)
  {
  }

  lemma WithoutEnds(s: seq<Byte>, n: nat)
    requires 0 < n == |s| - 1
    ensures s[..n][1..] == s[1..][..n - 1] && s[1..][n - 1] == s[n]
  {
  }

  /** The byte read first is the most significant one. */
  lemma {:induction false} BEFirst(s: seq<Byte>)
    requires s != []
    ensures BE(s) == s[0] as nat * Pow256(|s| - 1) + BE(s[1..])
    decreases |s|
  {
    var n := |s| - 1;
    if n > 0 {
      BEFirst(s[..n]);
      WithoutEnds(s, n);
      TimesAssociates(s[0] as nat, Pow256(n - 1));
      BELast(s);
      BELast(s[1..]);
      hide BE;
    }
  }

  lemma BELast(s: seq<Byte>)
    requires s != []
    ensures BE(s) == 256 * BE(s[..|s| - 1]) + s[|s| - 1] as nat
  {
  }

  lemma BETwo(s: seq<Byte>)
    requires |s| == 2
    ensures BE(s) == 256 * s[0] as nat + s[1] as nat
  {
    BEFirst(s);
    BEFirst(s[1..]);
    assert s[1..][1..] == [];
  }
}
