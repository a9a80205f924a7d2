/** Laws relating size(), write() and read() over the whole component tree. */
module WireLaws {
  import opened BitStream
  import opened Components

  // ---------------------------------------------------------------------------
  // write() emits exactly size() bits
  // ---------------------------------------------------------------------------

  lemma {:induction false} EncodeSize(c: Component)
    ensures Encode(c).Ok? ==> |Encode(c).value| == Size(c)
    decreases c
  {
    match c
    case Array(_, lo, hi, _, es) => EncodeSeqSize(es);
    case Group(_, req, opt, pres) =>
      EncodeSeqSize(req);
      EncodeOptionalSize(opt, pres);
    case _ =>
  }

  lemma {:induction false} EncodeSeqSize(cs: seq<Component>)
    ensures EncodeSeq(cs).Ok? ==> |EncodeSeq(cs).value| == SizeSeq(cs)
    decreases cs
  {
    if cs != [] {
      EncodeSize(cs[0]);
      EncodeSeqSize(cs[1..]);
    }
  }

  lemma {:induction false} EncodeOptionalSize(cs: seq<Component>, flags: seq<bool>)
    ensures EncodeOptional(cs, flags).Ok? ==> |EncodeOptional(cs, flags).value| == SizePresent(cs, flags)
    decreases cs
  {
    if cs != [] {
      EncodeSize(cs[0]);
      EncodeOptionalSize(cs[1..], TailFlags(flags));
    }
  }

  // ---------------------------------------------------------------------------
  // write() fails exactly when a bound is violated
  // ---------------------------------------------------------------------------

  lemma {:induction false} EncodeOkIffInBounds(c: Component)
    ensures Encode(c).Ok? <==> InBounds(c)
    decreases c
  {
    match c
    case Array(_, lo, hi, _, es) => EncodeSeqOkIffInBounds(es);
    case Group(_, req, opt, pres) =>
      EncodeSeqOkIffInBounds(req);
      EncodeOptionalOkIffInBounds(opt, pres);
    case _ =>
  }

  lemma {:induction false} EncodeSeqOkIffInBounds(cs: seq<Component>)
    ensures EncodeSeq(cs).Ok? <==> forall i :: 0 <= i < |cs| ==> InBounds(cs[i])
    decreases cs
  {
    if cs != [] {
      EncodeOkIffInBounds(cs[0]);
      EncodeSeqOkIffInBounds(cs[1..]);
      assert forall i :: 1 <= i < |cs| ==> cs[i] == cs[1..][i - 1];
    }
  }

  lemma {:induction false} EncodeOptionalOkIffInBounds(cs: seq<Component>, flags: seq<bool>)
    ensures EncodeOptional(cs, flags).Ok? <==>
      forall i :: 0 <= i < |cs| ==> i < |flags| && flags[i] ==> InBounds(cs[i])
    decreases cs
  {
    if cs != [] {
      EncodeOkIffInBounds(cs[0]);
      EncodeOptionalOkIffInBounds(cs[1..], TailFlags(flags));
      assert forall i :: 1 <= i < |cs| ==> cs[i] == cs[1..][i - 1];
      assert forall i :: 1 <= i < |flags| ==> flags[i] == TailFlags(flags)[i - 1];
    }
  }

  // ---------------------------------------------------------------------------
  // read() consumes exactly size() bits of what it read
  // ---------------------------------------------------------------------------

  lemma {:induction false} DecodeConsumesSize(p: Component, bits: seq<bool>)
    ensures Decode(p, bits).Ok? ==>
      var (d, rest) := Decode(p, bits).value;
      Size(d) <= |bits| && rest == bits[Size(d)..]
    decreases p, 0
  {
    match p
    case Array(n, lo, hi, proto, _) =>
      var r := DecodeRange(bits, lo, hi);
      if r.Ok? {
        DecodeElemsConsumesSize(proto, r.value.0, r.value.1);
      }
    case Group(n, req, opt, pres) =>
      if |pres| <= |bits| {
        var flags := bits[..|pres|];
        var r1 := DecodeSeq(req, bits[|pres|..]);
        DecodeSeqConsumesSize(req, bits[|pres|..]);
        if r1.Ok? {
          DecodeOptionalConsumesSize(opt, flags, r1.value.1);
        }
      }
    case Str(_, _) => TextConsumesSize(p, bits);
    case Md5Sum(_, _) => TextConsumesSize(p, bits);
    case V2Fixed(_, _, _) => VectorConsumesSize(p, bits);
    case V3Fixed(_, _, _, _) => VectorConsumesSize(p, bits);
    case _ =>
  }

  lemma TextConsumesSize(p: Component, bits: seq<bool>)
    requires p.Str? || p.Md5Sum?
    ensures Decode(p, bits).Ok? ==>
      var (d, rest) := Decode(p, bits).value;
      Size(d) <= |bits| && rest == bits[Size(d)..]
  {
  }

  lemma VectorConsumesSize(p: Component, bits: seq<bool>)
    requires p.V2Fixed? || p.V3Fixed?
    ensures Decode(p, bits).Ok? ==>
      var (d, rest) := Decode(p, bits).value;
      Size(d) <= |bits| && rest == bits[Size(d)..]
  {
  }

  lemma {:induction false} DecodeSeqConsumesSize(ps: seq<Component>, bits: seq<bool>)
    ensures DecodeSeq(ps, bits).Ok? ==>
      var (ds, rest) := DecodeSeq(ps, bits).value;
      SizeSeq(ds) <= |bits| && rest == bits[SizeSeq(ds)..]
    decreases ps, 0
  {
    if ps != [] {
      DecodeConsumesSize(ps[0], bits);
      var r := Decode(ps[0], bits);
      if r.Ok? {
        DecodeSeqConsumesSize(ps[1..], r.value.1);
        var r2 := DecodeSeq(ps[1..], r.value.1);
        if r2.Ok? {
          assert [r.value.0] + r2.value.0 == DecodeSeq(ps, bits).value.0;
          assert ([r.value.0] + r2.value.0)[1..] == r2.value.0;
        }
      }
    }
  }

  lemma {:induction false} DecodeOptionalConsumesSize(ps: seq<Component>, flags: seq<bool>, bits: seq<bool>)
    ensures DecodeOptional(ps, flags, bits).Ok? ==>
      var (ds, rest) := DecodeOptional(ps, flags, bits).value;
      SizePresent(ds, flags) <= |bits| && rest == bits[SizePresent(ds, flags)..]
    decreases ps, 0
  {
    if ps != [] {
      DecodeConsumesSize(ps[0], bits);
      var r := if HeadFlag(flags) then Decode(ps[0], bits) else Ok((ps[0], bits));
      if r.Ok? {
        var here := if HeadFlag(flags) then Size(r.value.0) else 0;
        assert here <= |bits| && r.value.1 == bits[here..];
        DecodeOptionalConsumesSize(ps[1..], TailFlags(flags), r.value.1);
        var r2 := DecodeOptional(ps[1..], TailFlags(flags), r.value.1);
        if r2.Ok? {
          assert [r.value.0] + r2.value.0 == DecodeOptional(ps, flags, bits).value.0;
          assert ([r.value.0] + r2.value.0)[1..] == r2.value.0;
        }
      }
    }
  }

  lemma {:induction false} DecodeElemsConsumesSize(proto: Component, count: nat, bits: seq<bool>)
    ensures DecodeElems(proto, count, bits).Ok? ==>
      var (ds, rest) := DecodeElems(proto, count, bits).value;
      |ds| == count && SizeSeq(ds) <= |bits| && rest == bits[SizeSeq(ds)..]
    decreases proto, 1, count
  {
    if count > 0 {
      DecodeConsumesSize(proto, bits);
      var r := Decode(proto, bits);
      if r.Ok? {
        DecodeElemsConsumesSize(proto, count - 1, r.value.1);
        var r2 := DecodeElems(proto, count - 1, r.value.1);
        if r2.Ok? {
          assert [r.value.0] + r2.value.0 == DecodeElems(proto, count, bits).value.0;
          assert ([r.value.0] + r2.value.0)[1..] == r2.value.0;
        }
      }
    }
  }

  // ---------------------------------------------------------------------------
  // read() after write() gives back the component
  // ---------------------------------------------------------------------------

  /** Writing `c` and reading the bits into a component `p` that can stand for it (a clone of
      `c`, or a fresh component of the same shape whose absent optional fields agree) gives
      back `c` and leaves the stream just after what was written. */
  lemma {:induction false} RoundTrip(p: Component, c: Component, rest: seq<bool>)
    requires Like(p, c) && Representable(c) && Encode(c).Ok?
    ensures Decode(p, Encode(c).value + rest) == Ok((c, rest))
    decreases c, 1
  {
    match c
    case Integral(n, t, width, v) =>
      ReadWriteBits(v, width, rest);
      FromUnsignedOfFitting(t, width, v);
    case Range(n, v, lower, upper) =>
      RoundTripRange(v, lower, upper, rest);
    case Float(n, payload) =>
      ReadWriteFloat(payload, rest);
    case Str(n, text) =>
      ReadWriteString(text, rest);
    case V2Fixed(n, x, y) =>
      RoundTripV2(p, c, rest);
    case V3Fixed(n, x, y, z) =>
      RoundTripV3(p, c, rest);
    case BitField(n, flags) =>
      assert (flags + rest)[..|flags|] == flags;
      assert (flags + rest)[|flags|..] == rest;
    case Md5Sum(n, d) =>
      ReadWriteBytes(d, rest);
    case Array(n, lo, hi, proto, es) =>
      RoundTripArray(p, c, rest);
    case Group(n, req, opt, pres) =>
      RoundTripGroup(p, c, rest);
    case Message(_, _) =>
      assert [] + rest == rest;
  }

  lemma RoundTripRange(v: int, lower: int, upper: int, rest: seq<bool>)
    requires lower <= v <= upper
    ensures DecodeRange(EncodeRange(v, lower, upper).value + rest, lower, upper) == Ok((v, rest))
  {
    var w := RangeWidth(lower, upper);
    ReadWriteBits(v - lower, w, rest);
    ModOfSmall(v - lower, Pow2(w));
  }

  lemma RoundTripV2(p: Component, c: Component, rest: seq<bool>)
    requires c.V2Fixed? && Like(p, c)
    ensures Decode(p, Encode(c).value + rest) == Ok((c, rest))
  {
    var bits := WriteS32(c.x) + WriteS32(c.y) + rest;
    assert bits == WriteS32(c.x) + (WriteS32(c.y) + rest);
    ReadWriteS32(c.x, WriteS32(c.y) + rest);
    ReadWriteS32(c.y, rest);
  }

  lemma RoundTripV3(p: Component, c: Component, rest: seq<bool>)
    requires c.V3Fixed? && Like(p, c)
    ensures Decode(p, Encode(c).value + rest) == Ok((c, rest))
  {
    var bits := WriteS32(c.x) + WriteS32(c.y) + WriteS32(c.z) + rest;
    assert bits == WriteS32(c.x) + (WriteS32(c.y) + (WriteS32(c.z) + rest));
    ReadWriteS32(c.x, WriteS32(c.y) + (WriteS32(c.z) + rest));
    ReadWriteS32(c.y, WriteS32(c.z) + rest);
    ReadWriteS32(c.z, rest);
  }

  lemma {:induction false} RoundTripArray(p: Component, c: Component, rest: seq<bool>)
    requires c.Array? && Like(p, c) && Representable(c) && Encode(c).Ok?
    ensures Decode(p, Encode(c).value + rest) == Ok((c, rest))
    decreases c, 0
  {
    var es := c.elements;
    var head := EncodeRange(|es|, c.minCount, c.maxCount).value;
    var tail := EncodeSeq(es).value;
    assert Encode(c).value + rest == head + (tail + rest);
    RoundTripRange(|es|, c.minCount, c.maxCount, tail + rest);
    RoundTripElems(c.prototype, es, rest);
  }

  lemma {:induction false} RoundTripGroup(p: Component, c: Component, rest: seq<bool>)
    requires c.Group? && Like(p, c) && Representable(c) && Encode(c).Ok?
    ensures Decode(p, Encode(c).value + rest) == Ok((c, rest))
    decreases c, 0
  {
    var pres := c.present;
    var req := EncodeSeq(c.required).value;
    var opt := EncodeOptional(c.optional, pres).value;
    var bits := Encode(c).value + rest;
    assert bits == pres + (req + (opt + rest));
    assert bits[..|pres|] == pres;
    assert bits[|pres|..] == req + (opt + rest);
    RoundTripSeq(p.required, c.required, opt + rest);
    RoundTripOptional(p.optional, c.optional, pres, rest);
  }

  lemma {:induction false} RoundTripSeq(ps: seq<Component>, cs: seq<Component>, rest: seq<bool>)
    requires |ps| == |cs|
    requires forall i :: 0 <= i < |cs| ==> Like(ps[i], cs[i]) && Representable(cs[i])
    requires EncodeSeq(cs).Ok?
    ensures DecodeSeq(ps, EncodeSeq(cs).value + rest) == Ok((cs, rest))
    decreases cs
  {
    if cs == [] {
      assert [] + rest == rest;
    } else {
      var tail := EncodeSeq(cs[1..]).value + rest;
      assert EncodeSeq(cs).value + rest == Encode(cs[0]).value + tail;
      RoundTrip(ps[0], cs[0], tail);
      RoundTripSeq(ps[1..], cs[1..], rest);
      assert [cs[0]] + cs[1..] == cs;
    }
  }

  lemma {:induction false} RoundTripOptional(ps: seq<Component>, cs: seq<Component>, flags: seq<bool>, rest: seq<bool>)
    requires |ps| == |cs| == |flags|
    requires forall i :: 0 <= i < |cs| ==> Representable(cs[i])
    requires forall i :: 0 <= i < |cs| ==> if flags[i] then Like(ps[i], cs[i]) else ps[i] == cs[i]
    requires EncodeOptional(cs, flags).Ok?
    ensures DecodeOptional(ps, flags, EncodeOptional(cs, flags).value + rest) == Ok((cs, rest))
    decreases cs
  {
    if cs == [] {
      assert [] + rest == rest;
    } else {
      var tail := EncodeOptional(cs[1..], flags[1..]).value + rest;
      var bits := EncodeOptional(cs, flags).value + rest;
      EncodeOptionalSplit(cs, flags, rest);
      OptionalTailStandsFor(ps, cs, flags);
      RoundTripOptionalHead(ps[0], cs[0], flags[0], tail);
      RoundTripOptional(ps[1..], cs[1..], flags[1..], rest);
      DecodeOptionalStep(ps, flags, bits, cs[0], tail);
      assert [cs[0]] + cs[1..] == cs;
    }
  }

  lemma EncodeOptionalSplit(cs: seq<Component>, flags: seq<bool>, rest: seq<bool>)
    requires cs != [] && |flags| == |cs| && EncodeOptional(cs, flags).Ok?
    ensures flags[0] ==> Encode(cs[0]).Ok?
    ensures EncodeOptional(cs[1..], flags[1..]).Ok?
    ensures EncodeOptional(cs, flags).value + rest ==
      (if flags[0] then Encode(cs[0]).value else []) + (EncodeOptional(cs[1..], flags[1..]).value + rest)
  {
    assert HeadFlag(flags) == flags[0] && TailFlags(flags) == flags[1..];
    var h := if flags[0] then Encode(cs[0]) else Ok([]);
    var t := EncodeOptional(cs[1..], flags[1..]);
    assert EncodeOptional(cs, flags) == Then(h, t);
    AppendAssoc(h.value, t.value, rest);
  }

  lemma OptionalTailStandsFor(ps: seq<Component>, cs: seq<Component>, flags: seq<bool>)
    requires cs != [] && |ps| == |cs| == |flags|
    requires forall i :: 0 <= i < |cs| ==> Representable(cs[i])
    requires forall i :: 0 <= i < |cs| ==> if flags[i] then Like(ps[i], cs[i]) else ps[i] == cs[i]
    ensures Representable(cs[0]) && if flags[0] then Like(ps[0], cs[0]) else ps[0] == cs[0]
    ensures forall i :: 0 <= i < |cs[1..]| ==> Representable(cs[1..][i])
    ensures forall i :: 0 <= i < |cs[1..]| ==>
      if flags[1..][i] then Like(ps[1..][i], cs[1..][i]) else ps[1..][i] == cs[1..][i]
  {
    forall i | 0 <= i < |cs[1..]|
      ensures Representable(cs[1..][i])
      ensures if flags[1..][i] then Like(ps[1..][i], cs[1..][i]) else ps[1..][i] == cs[1..][i]
    {
      assert cs[1..][i] == cs[i + 1] && ps[1..][i] == ps[i + 1] && flags[1..][i] == flags[i + 1];
    }
  }

  /** One optional field: read when its flag is set, kept as it is otherwise. */
  lemma RoundTripOptionalHead(p: Component, c: Component, flag: bool, tail: seq<bool>)
    requires Representable(c) && (if flag then Like(p, c) else p == c)
    requires flag ==> Encode(c).Ok?
    ensures var bits := (if flag then Encode(c).value else []) + tail;
      (if flag then Decode(p, bits) else Ok((p, bits))) == Ok((c, tail))
    decreases c, 2
  {
    if flag {
      RoundTrip(p, c, tail);
    } else {
      assert [] + tail == tail;
    }
  }

  lemma DecodeOptionalStep(ps: seq<Component>, flags: seq<bool>, bits: seq<bool>, c: Component, tail: seq<bool>)
    requires ps != [] && flags != []
    requires (if flags[0] then Decode(ps[0], bits) else Ok((ps[0], bits))) == Ok((c, tail))
    ensures DecodeOptional(ps, flags, bits) ==
      match DecodeOptional(ps[1..], flags[1..], tail)
      case Err(e) => Err(e)
      case Ok((cs, r2)) => Ok(([c] + cs, r2))
  {
  }

  lemma {:induction false} RoundTripElems(proto: Component, cs: seq<Component>, rest: seq<bool>)
    requires forall i :: 0 <= i < |cs| ==> Like(proto, cs[i]) && Representable(cs[i])
    requires EncodeSeq(cs).Ok?
    ensures DecodeElems(proto, |cs|, EncodeSeq(cs).value + rest) == Ok((cs, rest))
    decreases cs
  {
    if cs == [] {
      assert [] + rest == rest;
    } else {
      RoundTripHead(proto, cs, EncodeSeq(cs[1..]).value + rest);
      RoundTripElems(proto, cs[1..], rest);
      RoundTripElemsStep(proto, cs, rest);
    }
  }

  lemma RoundTripHead(proto: Component, cs: seq<Component>, tail: seq<bool>)
    requires cs != [] && Encode(cs[0]).Ok?
    requires forall i :: 0 <= i < |cs| ==> Like(proto, cs[i]) && Representable(cs[i])
    ensures Decode(proto, Encode(cs[0]).value + tail) == Ok((cs[0], tail))
    decreases cs, 0
  {
    RoundTrip(proto, cs[0], tail);
  }

  /** One more element in front: decoding its bits, then the bits of the others, decodes the
      longer sequence. */
  lemma RoundTripElemsStep(proto: Component, cs: seq<Component>, rest: seq<bool>)
    requires cs != [] && EncodeSeq(cs).Ok?
    requires Decode(proto, Encode(cs[0]).value + (EncodeSeq(cs[1..]).value + rest)) == Ok((cs[0], EncodeSeq(cs[1..]).value + rest))
    requires DecodeElems(proto, |cs[1..]|, EncodeSeq(cs[1..]).value + rest) == Ok((cs[1..], rest))
    ensures DecodeElems(proto, |cs|, EncodeSeq(cs).value + rest) == Ok((cs, rest))
  {
    EncodeSeqSplit(cs, rest);
    DecodeElemsStep(proto, cs, EncodeSeq(cs).value + rest, EncodeSeq(cs[1..]).value + rest, rest);
  }

  lemma EncodeSeqSplit(cs: seq<Component>, rest: seq<bool>)
    requires cs != [] && EncodeSeq(cs).Ok?
    ensures Encode(cs[0]).Ok? && EncodeSeq(cs[1..]).Ok?
    ensures EncodeSeq(cs).value + rest == Encode(cs[0]).value + (EncodeSeq(cs[1..]).value + rest)
  {
  }

  lemma DecodeElemsStep(proto: Component, cs: seq<Component>, bits: seq<bool>, tail: seq<bool>, rest: seq<bool>)
    requires cs != [] && Decode(proto, bits) == Ok((cs[0], tail))
    requires DecodeElems(proto, |cs| - 1, tail) == Ok((cs[1..], rest))
    ensures DecodeElems(proto, |cs|, bits) == Ok((cs, rest))
  {
    assert [cs[0]] + cs[1..] == cs;
  }

  /** The bit count read() reports equals the one write() reported. */
  lemma ReadCountEqualsWriteCount(p: Component, c: Component, rest: seq<bool>)
    requires Like(p, c) && Representable(c) && Encode(c).Ok?
    ensures var bits := Encode(c).value + rest;
      Decode(p, bits).Ok? && |bits| - |Decode(p, bits).value.1| == |Encode(c).value| == Size(c)
  {
    RoundTrip(p, c, rest);
    EncodeSize(c);
  }
}
