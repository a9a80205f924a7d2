/** The bit-stream collaborator the message components read from and write to.

    The stream is modelled by value: a writer appends bits to the sequence written so far, a
    reader consumes a prefix of the sequence not yet read. Only the primitive surface the
    components use is modelled (raw bits, signed 32-bit integers, 32-bit floats as opaque
    payloads, terminated strings, bytes). Bits of a value are laid out least significant first;
    the real bit order belongs to the stream, and no property below depends on it. */
module BitStream {

  type byte = x: nat | x < 256

  datatype Option<T> = None | Some(value: T)

  const TwoTo32: nat := 0x1_0000_0000

  /** Bits in a byte and in a 32-bit word. */
  const ByteBits: nat := 8
  const WordBits: nat := 32
  const TwoTo31: int := 0x8000_0000

  function Pow2(n: nat): (r: nat)
    ensures r >= 1
  {
    if n == 0 then 1 else 2 * Pow2(n - 1)
  }

  lemma Pow2Is32()
    ensures Pow2(32) == TwoTo32
  {
    assert Pow2(8) == 256;
    Pow2Add(8, 8);
    Pow2Add(16, 16);
  }

  lemma {:induction false} Pow2Add(a: nat, b: nat)
    ensures Pow2(a + b) == Pow2(a) * Pow2(b)
  {
    if a > 0 {
      Pow2Add(a - 1, b);
    }
  }

  /** The `n` low bits of `v`, least significant first. */
  function ToBits(v: nat, n: nat): (r: seq<bool>)
    ensures |r| == n
  {
    if n == 0 then [] else [v % 2 == 1] + ToBits(v / 2, n - 1)
  }

  /** The unsigned number whose low bits, least significant first, are `b`. */
  function FromBits(b: seq<bool>): (v: nat)
    ensures v < Pow2(|b|)
  {
    if b == [] then 0 else (if b[0] then 1 else 0) + 2 * FromBits(b[1..])
  }

  lemma {:induction false} FromToBits(v: nat, n: nat)
    requires v < Pow2(n)
    ensures FromBits(ToBits(v, n)) == v
  {
    if n > 0 {
      FromToBits(v / 2, n - 1);
      assert ToBits(v, n)[1..] == ToBits(v / 2, n - 1);
    }
  }

  lemma {:induction false} ToFromBits(b: seq<bool>)
    ensures ToBits(FromBits(b), |b|) == b
  {
    if b != [] {
      ToFromBits(b[1..]);
      var v := FromBits(b);
      assert v / 2 == FromBits(b[1..]);
      assert (v % 2 == 1) == b[0];
    }
  }

  lemma AppendAssoc(a: seq<bool>, b: seq<bool>, c: seq<bool>)
    ensures (a + b) + c == a + (b + c)
  {
  }

  // ---------------------------------------------------------------------------
  // writeBits / readBits
  // ---------------------------------------------------------------------------

  /** writeBits(v, n): the `n` low bits of `v` (a negative `v` in two's complement). */
  function WriteBits(v: int, n: nat): (r: seq<bool>)
    ensures |r| == n
  {
    ToBits(v % Pow2(n), n)
  }

  /** readBits(n): the unsigned value of the next `n` bits, or None when fewer remain. */
  function ReadBits(input: seq<bool>, n: nat): (r: Option<(nat, seq<bool>)>)
    ensures r.Some? <==> n <= |input|
    ensures r.Some? ==> r.value.0 < Pow2(n) && r.value.1 == input[n..]
  {
    if |input| < n then None else Some((FromBits(input[..n]), input[n..]))
  }

  lemma ReadWriteBits(v: int, n: nat, rest: seq<bool>)
    ensures ReadBits(WriteBits(v, n) + rest, n) == Some((v % Pow2(n), rest))
  {
    var b := WriteBits(v, n);
    assert (b + rest)[..n] == b;
    assert (b + rest)[n..] == rest;
    FromToBits(v % Pow2(n), n);
  }

  // ---------------------------------------------------------------------------
  // writeS32 / readS32: two's complement 32-bit integers
  // ---------------------------------------------------------------------------

  predicate IsS32(v: int) {
    -TwoTo31 <= v < TwoTo31
  }

  function WriteS32(v: int): (r: seq<bool>)
    ensures |r| == 32
  {
    WriteBits(v, WordBits)
  }

  /** Reinterprets a 32-bit pattern as a signed integer. */
  function SignedOf32(u: nat): (v: int)
    requires u < TwoTo32
    ensures IsS32(v)
  {
    if u < TwoTo31 then u else u - TwoTo32
  }

  function ReadS32(input: seq<bool>): (r: Option<(int, seq<bool>)>)
    ensures r.Some? <==> 32 <= |input|
    ensures r.Some? ==> IsS32(r.value.0) && r.value.1 == input[32..]
  {
    Pow2Is32();
    match ReadBits(input, WordBits)
    case None => None
    case Some((u, rest)) => Some((SignedOf32(u), rest))
  }

  lemma ReadWriteS32(v: int, rest: seq<bool>)
    requires IsS32(v)
    ensures ReadS32(WriteS32(v) + rest) == Some((v, rest))
  {
    ReadWriteBits(v, WordBits, rest);
    Pow2Is32();
  }

  // ---------------------------------------------------------------------------
  // writeFloat / readFloat: the IEEE-754 value is an opaque 32-bit payload, written as the
  // word WriteBits(payload, WordBits)
  // ---------------------------------------------------------------------------

  function ReadFloat(input: seq<bool>): (r: Option<(nat, seq<bool>)>)
    ensures r.Some? <==> 32 <= |input|
    ensures r.Some? ==> r.value.0 < TwoTo32 && r.value.1 == input[32..]
  {
    Pow2Is32();
    ReadBits(input, WordBits)
  }

  lemma ReadWriteFloat(payload: nat, rest: seq<bool>)
    requires payload < TwoTo32
    ensures ReadFloat(WriteBits(payload, WordBits) + rest) == Some((payload, rest))
  {
    ReadWriteBits(payload, WordBits, rest);
    Pow2Is32();
  }

  // ---------------------------------------------------------------------------
  // Bytes, and writeString / readString: the bytes of the text, then a zero byte
  // ---------------------------------------------------------------------------

  function WriteBytes(bs: seq<byte>): (r: seq<bool>)
    ensures |r| == 8 * |bs|
  {
    if bs == [] then [] else WriteBits(bs[0], ByteBits) + WriteBytes(bs[1..])
  }

  function ReadBytes(input: seq<bool>, k: nat): (r: Option<(seq<byte>, seq<bool>)>)
    ensures r.Some? <==> 8 * k <= |input|
    ensures r.Some? ==> |r.value.0| == k && r.value.1 == input[8 * k..]
  {
    if k == 0 then Some(([], input))
    else
      match ReadBits(input, ByteBits)
      case None => None
      case Some((b, rest)) =>
        match ReadBytes(rest, k - 1)
        case None => None
        case Some((bs, rest')) => Some(([b] + bs, rest'))
  }

  lemma {:induction false} ReadWriteBytes(bs: seq<byte>, rest: seq<bool>)
    ensures ReadBytes(WriteBytes(bs) + rest, |bs|) == Some((bs, rest))
  {
    if bs != [] {
      var tail := WriteBytes(bs[1..]) + rest;
      assert WriteBytes(bs) + rest == WriteBits(bs[0], ByteBits) + tail;
      ReadWriteBits(bs[0], ByteBits, tail);
      assert bs[0] % Pow2(ByteBits) == bs[0] by { assert Pow2(ByteBits) == 256; }
      ReadWriteBytes(bs[1..], rest);
      assert [bs[0]] + bs[1..] == bs;
    }
  }

  predicate NoZeroByte(s: seq<byte>) {
    forall i :: 0 <= i < |s| ==> s[i] != 0
  }

  /** writeString: each byte of the text, then the terminating zero byte. */
  function WriteString(s: seq<byte>): (r: seq<bool>)
    ensures |r| == 8 * (|s| + 1)
  {
    WriteBytes(s) + WriteBits(0, ByteBits)
  }

  /** readString: bytes up to (and consuming) the first zero byte. */
  function ReadString(input: seq<bool>): (r: Option<(seq<byte>, seq<bool>)>)
    ensures r.Some? ==> NoZeroByte(r.value.0) && |input| == 8 * (|r.value.0| + 1) + |r.value.1|
    ensures r.Some? ==> r.value.1 == input[8 * (|r.value.0| + 1)..]
    decreases |input|
  {
    match ReadBits(input, ByteBits)
    case None => None
    case Some((b, rest)) =>
      if b == 0 then Some(([], rest))
      else
        match ReadString(rest)
        case None => None
        case Some((s, rest')) => Some(([b] + s, rest'))
  }

  lemma ReadStringByte(b: byte, tail: seq<bool>)
    ensures ReadString(WriteBits(b, ByteBits) + tail) ==
      if b == 0 then Some(([], tail))
      else match ReadString(tail)
        case None => None
        case Some((t, rest)) => Some(([b] + t, rest))
  {
    ReadWriteBits(b, ByteBits, tail);
    assert b % Pow2(ByteBits) == b by { assert Pow2(ByteBits) == 256; }
  }

  lemma {:induction false} ReadWriteString(s: seq<byte>, rest: seq<bool>)
    requires NoZeroByte(s)
    ensures ReadString(WriteString(s) + rest) == Some((s, rest))
  {
    if s == [] {
      assert WriteString(s) + rest == WriteBits(0, ByteBits) + rest;
      ReadStringByte(0, rest);
    } else {
      var tail := WriteString(s[1..]) + rest;
      assert WriteString(s) + rest == WriteBits(s[0], ByteBits) + tail;
      ReadStringByte(s[0], tail);
      ReadWriteString(s[1..], rest);
      assert [s[0]] + s[1..] == s;
    }
  }
}
