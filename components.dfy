/** The message-component tree as values.

    Every MessageComponent subclass is one constructor of `Component`; the composites (the
    homogeneous array and the field group) hold their children as `Component` values. The
    functions here are the specification the component classes are proved against:
    `Size` is size(), `Encode` is what write() appends to the stream, `Decode` is what read()
    makes of a component when it consumes bits, and `Cleared` is clear(). */
module Components {
  import opened BitStream

  // ---------------------------------------------------------------------------
  // Errors and value types
  // ---------------------------------------------------------------------------

  datatype Error = StreamExhausted | ValueOutOfRange | CountOutOfBounds | MalformedDigestText

  datatype Result<T> = Ok(value: T) | Err(error: Error)

  const MinInt: int := -0x8000_0000
  const MaxInt: int := 0x7FFF_FFFF

  type int32 = x: int | MinInt <= x <= MaxInt
  type uint32 = x: nat | x < 0x1_0000_0000

  /** The 16 raw bytes of an MD5 digest. */
  type Digest = d: seq<byte> | |d| == 16 witness [0, 0, 0, 0, 0, 0, 0, 0, 0, 0, 0, 0, 0, 0, 0, 0]

  function Zeros(n: nat): (r: seq<byte>)
    ensures |r| == n && forall i :: 0 <= i < n ==> r[i] == 0
  {
    if n == 0 then [] else [0] + Zeros(n - 1)
  }

  /** The digest clear() leaves: sixteen zero bytes. */
  const ZeroDigest: Digest := Zeros(DigestBytes)

  const DigestBytes: nat := 16

  /** The C++ integral types an IntegralMessageComponent is instantiated with. */
  datatype IntType = Bool | U8 | S8 | U16 | S16 | U32 | S32

  /** Number of value bits of the type (a bool holds 0 or 1). */
  function TypeWidth(t: IntType): nat {
    match t
    case Bool => 1
    case U8 => 8
    case S8 => 8
    case U16 => 16
    case S16 => 16
    case U32 => 32
    case S32 => 32
  }

  predicate IsSigned(t: IntType) {
    t == S8 || t == S16 || t == S32
  }

  /** The values a variable of type `t` can hold. */
  predicate InType(t: IntType, v: int) {
    if t == Bool then v == 0 || v == 1
    else if IsSigned(t) then -(Pow2(TypeWidth(t) - 1) as int) <= v < Pow2(TypeWidth(t) - 1)
    else 0 <= v < Pow2(TypeWidth(t))
  }

  /** Conversion of the unsigned number readBits returns into the type `t`: nonzero is true
      for bool; otherwise the low bits of the type's width, two's complement when signed. */
  function FromUnsigned(t: IntType, u: nat): (v: int)
    ensures InType(t, v)
  {
    if t == Bool then (if u == 0 then 0 else 1)
    else
      var m := u % Pow2(TypeWidth(t));
      if IsSigned(t) && m >= Pow2(TypeWidth(t) - 1) then m - Pow2(TypeWidth(t)) else m
  }

  /** The value survives a write/read at width `size`: it is a non-negative number below
      2^size, or the width is the type's own. */
  predicate FitsIn(t: IntType, size: nat, v: int) {
    InType(t, v) && ((0 <= v < Pow2(size)) || size == TypeWidth(t))
  }

  lemma ModOfSmall(x: int, m: int)
    requires 0 <= x < m
    ensures x % m == x
  {
  }

  lemma ModOfNegative(x: int, m: int)
    requires -m <= x < 0
    ensures x % m == x + m
  {
  }

  lemma FromUnsignedOfFitting(t: IntType, size: nat, v: int)
    requires FitsIn(t, size, v)
    ensures FromUnsigned(t, v % Pow2(size)) == v
  {
    if t == Bool {
      FromUnsignedOfBool(size, v);
    } else if v < 0 {
      FromUnsignedOfNegative(t, v);
    } else {
      FromUnsignedOfNatural(t, size, v);
    }
  }

  lemma FromUnsignedOfBool(size: nat, v: int)
    requires FitsIn(Bool, size, v)
    ensures FromUnsigned(Bool, v % Pow2(size)) == v
  {
    var m := Pow2(size);
    if size == 1 {
      assert m == 2;
    }
    ModOfSmall(v, m);
  }

  lemma FromUnsignedOfNegative(t: IntType, v: int)
    requires t != Bool && InType(t, v) && v < 0
    ensures FromUnsigned(t, v % Pow2(TypeWidth(t))) == v
  {
    var m, h := Pow2(TypeWidth(t)), Pow2(TypeWidth(t) - 1);
    assert m == 2 * h;
    ModOfNegative(v, m);
    ModOfSmall(v + m, m);
  }

  lemma FromUnsignedOfNatural(t: IntType, size: nat, v: int)
    requires t != Bool && FitsIn(t, size, v) && 0 <= v
    ensures FromUnsigned(t, v % Pow2(size)) == v
  {
    var m, h := Pow2(TypeWidth(t)), Pow2(TypeWidth(t) - 1);
    assert m == 2 * h;
    assert v < m;
    if size == TypeWidth(t) {
      ModOfSmall(v, m);
    } else {
      ModOfSmall(v, Pow2(size));
    }
    ModOfSmall(v, m);
  }

  // ---------------------------------------------------------------------------
  // The width of a range-bounded integer: ceil(log2(upper - lower + 1))
  // ---------------------------------------------------------------------------

  /** The least number of bits that can tell `n` values apart. */
  function BitsFor(n: nat): (k: nat)
    ensures Pow2(k) >= n
    ensures k == 0 || Pow2(k - 1) < n
  {
    if n <= 1 then 0 else 1 + BitsFor((n + 1) / 2)
  }

  /** ceil(log2) is unique: any `k` with the two properties of BitsFor is BitsFor(n). */
  lemma {:induction false} BitsForUnique(n: nat, k: nat)
    requires Pow2(k) >= n
    requires k == 0 || Pow2(k - 1) < n
    ensures k == BitsFor(n)
  {
    var j := BitsFor(n);
    if k < j {
      Pow2Monotone(k, j - 1);
    } else if j < k {
      Pow2Monotone(j, k - 1);
    }
  }

  lemma {:induction false} Pow2Monotone(a: nat, b: nat)
    requires a <= b
    ensures Pow2(a) <= Pow2(b)
  {
    if a < b {
      Pow2Monotone(a, b - 1);
    }
  }

  function RangeWidth(lower: int, upper: int): nat {
    if upper < lower then 0 else BitsFor(upper - lower + 1)
  }

  /** Every offset from lower up to upper fits in RangeWidth bits, and no
      narrower width would do. */
  lemma RangeWidthIsTight(lower: int, upper: int)
    requires lower <= upper
    ensures upper - lower < Pow2(RangeWidth(lower, upper))
    ensures RangeWidth(lower, upper) == 0 || Pow2(RangeWidth(lower, upper) - 1) <= upper - lower
  {
  }

  lemma RangeWidthExamples()
    ensures RangeWidth(0, 255) == 8
    ensures RangeWidth(-5, 5) == 4
  {
    SmallPowers();
    BitsForUnique(256, 8);
    BitsForUnique(11, 4);
  }

  /** The default bounds of a range component take a full 32-bit word. */
  lemma RangeWidthDefault()
    ensures RangeWidth(MinInt, MaxInt) == 32
  {
    Pow2Is32();
    assert Pow2(31) < MaxInt - MinInt + 1 by { assert 2 * Pow2(31) == Pow2(32); }
    BitsForUnique(MaxInt - MinInt + 1, 32);
  }

  /** The default bounds of an array count, [0, 65535], take 16 bits. */
  lemma CountWidthDefault()
    ensures RangeWidth(0, 65535) == 16
  {
    SmallPowers();
    BitsForUnique(65536, 16);
  }

  lemma SmallPowers()
    ensures Pow2(3) == 8 && Pow2(4) == 16 && Pow2(7) == 128 && Pow2(8) == 256
    ensures Pow2(15) == 32768 && Pow2(16) == 65536
  {
    assert Pow2(4) == 16;
    assert Pow2(8) == 256 by { Pow2Add(4, 4); }
    Pow2Add(8, 7);
    Pow2Add(8, 8);
  }

  // ---------------------------------------------------------------------------
  // Message types
  // ---------------------------------------------------------------------------

  datatype MessageType = NoOp | Replication | Ticcmd | LoadMap | ClientStatus | Chat | Obituary

  /** The fixed wire value of each message type. */
  function WireValue(t: MessageType): nat {
    match t
    case NoOp => 0
    case Replication => 1
    case Ticcmd => 2
    case LoadMap => 10
    case ClientStatus => 11
    case Chat => 20
    case Obituary => 21
  }

  function MessageTypeOf(n: nat): (r: Option<MessageType>)
    ensures r.Some? ==> WireValue(r.value) == n
  {
    if n == 0 then Some(NoOp)
    else if n == 1 then Some(Replication)
    else if n == 2 then Some(Ticcmd)
    else if n == 10 then Some(LoadMap)
    else if n == 11 then Some(ClientStatus)
    else if n == 20 then Some(Chat)
    else if n == 21 then Some(Obituary)
    else None
  }

  /** Every message type is recovered from its wire value, so no two types share one. */
  lemma MessageTypeWireRoundTrip(t: MessageType)
    ensures MessageTypeOf(WireValue(t)) == Some(t)
  {
  }

  // ---------------------------------------------------------------------------
  // The component tree
  // ---------------------------------------------------------------------------

  datatype Component =
    | Integral(name: string, kind: IntType, width: nat, ival: int)
    | Range(name: string, rval: int32, lower: int32, upper: int32)
    | Float(name: string, payload: uint32)
    | Str(name: string, text: seq<byte>)
    | V2Fixed(name: string, x: int32, y: int32)
    | V3Fixed(name: string, x: int32, y: int32, z: int32)
    | BitField(name: string, flags: seq<bool>)
    | Md5Sum(name: string, digest: Digest)
    | Array(name: string, minCount: uint32, maxCount: uint32, prototype: Component, elements: seq<Component>)
    | Group(name: string, required: seq<Component>, optional: seq<Component>, present: seq<bool>)
    | Message(name: string, msgType: MessageType)

  /** The first flag of a presence indicator (false once it is exhausted) and the rest. */
  function HeadFlag(flags: seq<bool>): bool {
    flags != [] && flags[0]
  }

  function TailFlags(flags: seq<bool>): seq<bool> {
    if flags == [] then [] else flags[1..]
  }

  // ---------------------------------------------------------------------------
  // size()
  // ---------------------------------------------------------------------------

  function Size(c: Component): nat
    decreases c
  {
    match c
    case Integral(_, _, width, _) => width
    case Range(_, _, lower, upper) => RangeWidth(lower, upper)
    case Float(_, _) => 32
    case Str(_, text) => 8 * (|text| + 1)
    case V2Fixed(_, _, _) => 2 * 32
    case V3Fixed(_, _, _, _) => 3 * 32
    case BitField(_, flags) => |flags|
    case Md5Sum(_, _) => 128
    case Array(_, lo, hi, _, es) => RangeWidth(lo, hi) + SizeSeq(es)
    case Group(_, req, opt, pres) => |pres| + SizeSeq(req) + SizePresent(opt, pres)
    case Message(_, _) => 0
  }

  function SizeSeq(cs: seq<Component>): nat
    decreases cs
  {
    if cs == [] then 0 else Size(cs[0]) + SizeSeq(cs[1..])
  }

  /** Total size of the optional fields whose presence flag is set. */
  function SizePresent(cs: seq<Component>, flags: seq<bool>): nat
    decreases cs
  {
    if cs == [] then 0
    else (if HeadFlag(flags) then Size(cs[0]) else 0) + SizePresent(cs[1..], TailFlags(flags))
  }

  // ---------------------------------------------------------------------------
  // write(): the bits a component appends to the stream
  // ---------------------------------------------------------------------------

  /** Concatenation of two writes; the first error wins. */
  function Then(a: Result<seq<bool>>, b: Result<seq<bool>>): (r: Result<seq<bool>>)
    ensures r.Ok? <==> a.Ok? && b.Ok?
    ensures r.Ok? ==> r.value == a.value + b.value
    ensures r.Err? ==> r.error == (if a.Err? then a.error else b.error)
  {
    match a
    case Err(e) => Err(e)
    case Ok(x) =>
      match b
      case Err(e) => Err(e)
      case Ok(y) => Ok(x + y)
  }

  /** A range-bounded value is written as its offset from the lower bound. */
  function EncodeRange(v: int, lower: int, upper: int): Result<seq<bool>> {
    if lower <= v <= upper then Ok(WriteBits(v - lower, RangeWidth(lower, upper)))
    else Err(ValueOutOfRange)
  }

  function Encode(c: Component): Result<seq<bool>>
    decreases c
  {
    match c
    case Integral(_, _, width, v) => Ok(WriteBits(v, width))
    case Range(_, v, lower, upper) => EncodeRange(v, lower, upper)
    case Float(_, p) => Ok(WriteBits(p, WordBits))
    case Str(_, text) => Ok(WriteString(text))
    case V2Fixed(_, x, y) => Ok(WriteS32(x) + WriteS32(y))
    case V3Fixed(_, x, y, z) => Ok(WriteS32(x) + WriteS32(y) + WriteS32(z))
    case BitField(_, flags) => Ok(flags)
    case Md5Sum(_, d) => Ok(WriteBytes(d))
    case Array(_, lo, hi, _, es) =>
      if lo <= |es| <= hi then Then(EncodeRange(|es|, lo, hi), EncodeSeq(es))
      else Err(CountOutOfBounds)
    case Group(_, req, opt, pres) => Then(Ok(pres), Then(EncodeSeq(req), EncodeOptional(opt, pres)))
    case Message(_, _) => Ok([])
  }

  function EncodeSeq(cs: seq<Component>): Result<seq<bool>>
    decreases cs
  {
    if cs == [] then Ok([]) else Then(Encode(cs[0]), EncodeSeq(cs[1..]))
  }

  /** The optional fields whose presence flag is set, in declaration order. */
  function EncodeOptional(cs: seq<Component>, flags: seq<bool>): Result<seq<bool>>
    decreases cs
  {
    if cs == [] then Ok([])
    else Then(if HeadFlag(flags) then Encode(cs[0]) else Ok([]), EncodeOptional(cs[1..], TailFlags(flags)))
  }

  // ---------------------------------------------------------------------------
  // read(): what a component becomes when it consumes bits
  // ---------------------------------------------------------------------------

  function DecodeRange(bits: seq<bool>, lower: int, upper: int): (r: Result<(int, seq<bool>)>)
    ensures r.Ok? ==> lower <= r.value.0 <= upper
  {
    match ReadBits(bits, RangeWidth(lower, upper))
    case None => Err(StreamExhausted)
    case Some((u, rest)) => if lower + u <= upper then Ok((lower + u, rest)) else Err(ValueOutOfRange)
  }

  /** Reads into a component shaped like `p`: the result has p's type, name, bounds and
      structure, and the values found in the stream. */
  function Decode(p: Component, bits: seq<bool>): Result<(Component, seq<bool>)>
    decreases p, 0
  {
    match p
    case Integral(n, t, width, _) =>
      (match ReadBits(bits, width)
       case None => Err(StreamExhausted)
       case Some((u, rest)) => Ok((Integral(n, t, width, FromUnsigned(t, u)), rest)))
    case Range(n, _, lower, upper) =>
      (match DecodeRange(bits, lower, upper)
       case Err(e) => Err(e)
       case Ok((v, rest)) => Ok((Range(n, v, lower, upper), rest)))
    case Float(n, _) =>
      (match ReadFloat(bits)
       case None => Err(StreamExhausted)
       case Some((u, rest)) => Ok((Float(n, u), rest)))
    case Str(n, _) =>
      (match ReadString(bits)
       case None => Err(StreamExhausted)
       case Some((s, rest)) => Ok((Str(n, s), rest)))
    case V2Fixed(n, _, _) =>
      (match ReadS32(bits)
       case None => Err(StreamExhausted)
       case Some((x, r1)) =>
         match ReadS32(r1)
         case None => Err(StreamExhausted)
         case Some((y, r2)) => Ok((V2Fixed(n, x, y), r2)))
    case V3Fixed(n, _, _, _) =>
      (match ReadS32(bits)
       case None => Err(StreamExhausted)
       case Some((x, r1)) =>
         match ReadS32(r1)
         case None => Err(StreamExhausted)
         case Some((y, r2)) =>
           match ReadS32(r2)
           case None => Err(StreamExhausted)
           case Some((z, r3)) => Ok((V3Fixed(n, x, y, z), r3)))
    case BitField(n, flags) =>
      if |bits| < |flags| then Err(StreamExhausted)
      else Ok((BitField(n, bits[..|flags|]), bits[|flags|..]))
    case Md5Sum(n, _) =>
      (match ReadBytes(bits, DigestBytes)
       case None => Err(StreamExhausted)
       case Some((d, rest)) => Ok((Md5Sum(n, d), rest)))
    case Array(n, lo, hi, proto, _) =>
      (match DecodeRange(bits, lo, hi)
       case Err(e) => Err(if e == ValueOutOfRange then CountOutOfBounds else e)
       case Ok((count, r1)) =>
         match DecodeElems(proto, count, r1)
         case Err(e) => Err(e)
         case Ok((es, r2)) => Ok((Array(n, lo, hi, proto, es), r2)))
    case Group(n, req, opt, pres) =>
      if |bits| < |pres| then Err(StreamExhausted)
      else
        var flags := bits[..|pres|];
        (match DecodeSeq(req, bits[|pres|..])
         case Err(e) => Err(e)
         case Ok((req', r1)) =>
           match DecodeOptional(opt, flags, r1)
           case Err(e) => Err(e)
           case Ok((opt', r2)) => Ok((Group(n, req', opt', flags), r2)))
    case Message(_, _) => Ok((p, bits))
  }

  /** Reads one component shaped like each of `ps`, in order. */
  function DecodeSeq(ps: seq<Component>, bits: seq<bool>): Result<(seq<Component>, seq<bool>)>
    decreases ps, 0
  {
    if ps == [] then Ok(([], bits))
    else
      match Decode(ps[0], bits)
      case Err(e) => Err(e)
      case Ok((c, r1)) =>
        match DecodeSeq(ps[1..], r1)
        case Err(e) => Err(e)
        case Ok((cs, r2)) => Ok(([c] + cs, r2))
  }

  /** Reads the optional fields whose flag is set; the others keep their current value. */
  function DecodeOptional(ps: seq<Component>, flags: seq<bool>, bits: seq<bool>): Result<(seq<Component>, seq<bool>)>
    decreases ps, 0
  {
    if ps == [] then Ok(([], bits))
    else
      match (if HeadFlag(flags) then Decode(ps[0], bits) else Ok((ps[0], bits)))
      case Err(e) => Err(e)
      case Ok((c, r1)) =>
        match DecodeOptional(ps[1..], TailFlags(flags), r1)
        case Err(e) => Err(e)
        case Ok((cs, r2)) => Ok(([c] + cs, r2))
  }

  /** Materialises `count` array elements, each read into a copy of the element prototype. */
  function DecodeElems(proto: Component, count: nat, bits: seq<bool>): Result<(seq<Component>, seq<bool>)>
    decreases proto, 1, count
  {
    if count == 0 then Ok(([], bits))
    else
      match Decode(proto, bits)
      case Err(e) => Err(e)
      case Ok((c, r1)) =>
        match DecodeElems(proto, count - 1, r1)
        case Err(e) => Err(e)
        case Ok((cs, r2)) => Ok(([c] + cs, r2))
  }

  // ---------------------------------------------------------------------------
  // clear()
  // ---------------------------------------------------------------------------

  function Cleared(c: Component): Component
    decreases c
  {
    match c
    case Integral(n, t, width, _) => Integral(n, t, width, 0)
    case Range(n, _, lower, upper) => Range(n, 0, lower, upper)
    case Float(n, _) => Float(n, 0)
    case Str(n, _) => Str(n, [])
    case V2Fixed(n, _, _) => V2Fixed(n, 0, 0)
    case V3Fixed(n, _, _, _) => V3Fixed(n, 0, 0, 0)
    case BitField(n, flags) => BitField(n, AllFalse(|flags|))
    case Md5Sum(n, _) => Md5Sum(n, ZeroDigest)
    case Array(n, lo, hi, proto, _) => Array(n, lo, hi, proto, [])
    case Group(n, req, opt, pres) => Group(n, ClearedSeq(req), ClearedSeq(opt), AllFalse(|pres|))
    case Message(_, _) => c
  }

  function ClearedSeq(cs: seq<Component>): (r: seq<Component>)
    ensures |r| == |cs|
    decreases cs
  {
    if cs == [] then [] else [Cleared(cs[0])] + ClearedSeq(cs[1..])
  }

  function AllFalse(n: nat): (r: seq<bool>)
    ensures |r| == n && forall i :: 0 <= i < n ==> !r[i]
  {
    seq(n, _ => false)
  }

  lemma {:induction false} ClearIdempotent(c: Component)
    ensures Cleared(Cleared(c)) == Cleared(c)
    decreases c
  {
    match c
    case Group(n, req, opt, pres) =>
      ClearSeqIdempotent(req);
      ClearSeqIdempotent(opt);
    case _ =>
  }

  lemma {:induction false} ClearSeqIdempotent(cs: seq<Component>)
    ensures ClearedSeq(ClearedSeq(cs)) == ClearedSeq(cs)
    decreases cs
  {
    if cs != [] {
      ClearIdempotent(cs[0]);
      ClearSeqIdempotent(cs[1..]);
      assert ClearedSeq(cs)[1..] == ClearedSeq(cs[1..]);
    }
  }

  /** Clearing never changes the type, name, bounds or structure of a component. */
  lemma {:induction false} ClearKeepsShape(c: Component)
    ensures SameShape(Cleared(c), c)
    decreases c
  {
    match c
    case Group(n, req, opt, pres) =>
      ClearSeqKeepsShape(req);
      ClearSeqKeepsShape(opt);
    case _ =>
  }

  lemma {:induction false} ClearSeqKeepsShape(cs: seq<Component>)
    ensures |ClearedSeq(cs)| == |cs|
    ensures forall i :: 0 <= i < |cs| ==> SameShape(ClearedSeq(cs)[i], cs[i])
    decreases cs
  {
    if cs != [] {
      ClearKeepsShape(cs[0]);
      ClearSeqKeepsShape(cs[1..]);
      forall i | 1 <= i < |cs|
        ensures SameShape(ClearedSeq(cs)[i], cs[i])
      {
        assert ClearedSeq(cs)[i] == ClearedSeq(cs[1..])[i - 1];
      }
    }
  }

  // ---------------------------------------------------------------------------
  // Shapes
  // ---------------------------------------------------------------------------

  /** `p` and `c` have the same type, field name, bounds and structure: what read() keeps and
      the wire does not carry. */
  predicate SameShape(p: Component, c: Component)
    decreases c
  {
    match c
    case Integral(n, t, width, _) => p.Integral? && p.name == n && p.kind == t && p.width == width
    case Range(n, _, lower, upper) => p.Range? && p.name == n && p.lower == lower && p.upper == upper
    case Float(n, _) => p.Float? && p.name == n
    case Str(n, _) => p.Str? && p.name == n
    case V2Fixed(n, _, _) => p.V2Fixed? && p.name == n
    case V3Fixed(n, _, _, _) => p.V3Fixed? && p.name == n
    case BitField(n, flags) => p.BitField? && p.name == n && |p.flags| == |flags|
    case Md5Sum(n, _) => p.Md5Sum? && p.name == n
    case Array(n, lo, hi, proto, _) =>
      p.Array? && p.name == n && p.minCount == lo && p.maxCount == hi && p.prototype == proto
    case Group(n, req, opt, pres) =>
      && p.Group? && p.name == n
      && |p.required| == |req| && |p.optional| == |opt| && |p.present| == |pres|
      && (forall i :: 0 <= i < |req| ==> SameShape(p.required[i], req[i]))
      && (forall i :: 0 <= i < |opt| ==> SameShape(p.optional[i], opt[i]))
    case Message(_, _) => p == c
  }

  /** `p` can be read into to obtain `c`: the same shape, and every optional field of `c`
      that is absent (and so not on the wire) already holds c's value in `p`. */
  predicate Like(p: Component, c: Component)
    decreases c
  {
    match c
    case Group(n, req, opt, pres) =>
      && p.Group? && p.name == n
      && |p.required| == |req| && |p.optional| == |opt| && |p.present| == |pres|
      && (forall i :: 0 <= i < |req| ==> Like(p.required[i], req[i]))
      && (forall i :: 0 <= i < |opt| ==> if i < |pres| && pres[i] then Like(p.optional[i], opt[i]) else p.optional[i] == opt[i])
    case _ => SameShape(p, c)
  }

  lemma {:induction false} LikeReflexive(c: Component)
    ensures Like(c, c)
    decreases c
  {
    match c
    case Group(n, req, opt, pres) =>
      forall i | 0 <= i < |req| ensures Like(req[i], req[i]) { LikeReflexive(req[i]); }
      forall i | 0 <= i < |opt| ensures Like(opt[i], opt[i]) { LikeReflexive(opt[i]); }
    case _ =>
  }

  /** The value survives the wire: an integral value fits its width, a string holds no zero
      byte, a group's presence indicator has one flag per optional field, and array elements
      are shaped like the array's element prototype. */
  predicate Representable(c: Component)
    decreases c
  {
    match c
    case Integral(_, t, width, v) => FitsIn(t, width, v)
    case Str(_, text) => NoZeroByte(text)
    case Array(_, _, _, proto, es) => forall i :: 0 <= i < |es| ==> Like(proto, es[i]) && Representable(es[i])
    case Group(_, req, opt, pres) =>
      && |pres| == |opt|
      && (forall i :: 0 <= i < |req| ==> Representable(req[i]))
      && (forall i :: 0 <= i < |opt| ==> Representable(opt[i]))
    case _ => true
  }

  /** Every range-bounded value and every array count lies within its bounds. */
  predicate InBounds(c: Component)
    decreases c
  {
    match c
    case Range(_, v, lower, upper) => lower <= v <= upper
    case Array(_, lo, hi, _, es) => lo <= |es| <= hi && forall i :: 0 <= i < |es| ==> InBounds(es[i])
    case Group(_, req, opt, pres) =>
      && (forall i :: 0 <= i < |req| ==> InBounds(req[i]))
      && (forall i :: 0 <= i < |opt| ==> i < |pres| && pres[i] ==> InBounds(opt[i]))
    case _ => true
  }
}
