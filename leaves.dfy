/** The leaf message components: each class keeps the fields of its C++ counterpart, and its
    `Abs()` is the `Component` value the wire laws are stated about. read() and write() take
    the stream as a value and hand back what remains of it or what it has become. */
module Leaves {
  import opened BitStream
  import opened Components

  // ---------------------------------------------------------------------------
  // IntegralMessageComponent<T, SIZE> (bool, u8, s8, u16, s16, u32, s32)
  // ---------------------------------------------------------------------------

  class IntegralComponent {
    const kind: IntType
    const width: nat
    var fieldName: string
    var value: int

    ghost predicate Valid()
      reads this
    {
      InType(kind, value)
    }

    function Abs(): Component
      reads this
    {
      Integral(fieldName, kind, width, value)
    }

    /** The default constructor: the value is 0. */
    constructor (kind: IntType, width: nat)
      ensures Valid() && Abs() == Integral("", kind, width, 0)
    {
      this.kind := kind;
      this.width := width;
      fieldName := "";
      value := 0;
    }

    constructor WithValue(kind: IntType, width: nat, v: int)
      requires InType(kind, v)
      ensures Valid() && Abs() == Integral("", kind, width, v)
    {
      this.kind := kind;
      this.width := width;
      fieldName := "";
      value := v;
    }

    function Size(): (n: nat)
      reads this
      ensures n == Components.Size(Abs()) && n == width
    {
      width
    }

    method Set(v: int)
      requires InType(kind, v)
      modifies this
      ensures Valid() && Abs() == Integral(old(fieldName), kind, width, v)
    {
      value := v;
    }

    method SetFieldName(name: string)
      modifies this
      ensures fieldName == name && value == old(value)
    {
      fieldName := name;
    }

    method Clear()
      modifies this
      ensures Valid() && Abs() == Cleared(old(Abs())) && value == 0
    {
      value := 0;
    }

    /** Reads SIZE bits and converts them to the component's type. */
    method Read(input: seq<bool>) returns (r: Result<nat>, rest: seq<bool>)
      requires Valid()
      modifies this
      ensures Valid()
      ensures var d := Decode(old(Abs()), input);
        && (d.Ok? ==> Abs() == d.value.0 && rest == d.value.1 && r == Ok(width))
        && (d.Err? ==> Abs() == old(Abs()) && rest == input && r == Err(d.error))
    {
      var o := ReadBits(input, width);
      if o.None? {
        r, rest := Err(StreamExhausted), input;
      } else {
        value := FromUnsigned(kind, o.value.0);
        r, rest := Ok(width), o.value.1;
      }
    }

    /** Appends the low SIZE bits of the value; the component does not change. */
    method Write(out: seq<bool>) returns (n: nat, out': seq<bool>)
      ensures Encode(Abs()).Ok? && out' == out + Encode(Abs()).value
      ensures n == Components.Size(Abs()) && n == |out'| - |out|
    {
      out' := out + WriteBits(value, width);
      n := width;
    }

    method Clone() returns (c: IntegralComponent)
      ensures fresh(c) && c.Abs() == Abs() && (Valid() ==> c.Valid())
    {
      c := new IntegralComponent.WithValue(kind, width, if InType(kind, value) then value else 0);
      if !InType(kind, value) {
        c.value := value;
      }
      c.fieldName := fieldName;
    }
  }

  // ---------------------------------------------------------------------------
  // RangeMessageComponent
  // ---------------------------------------------------------------------------

  /** The number of bits of `d`: how many halvings bring it to zero. */
  ghost function BitLength(d: nat): nat {
    if d == 0 then 0 else 1 + BitLength(d / 2)
  }

  /** A value `d` needs BitLength(d) bits, which is ceil(log2(d + 1)). */
  lemma {:induction false} BitLengthIsBitsFor(d: nat)
    ensures BitLength(d) == BitsFor(d + 1)
  {
    BitLengthBounds(d);
    BitsForUnique(d + 1, BitLength(d));
  }

  lemma {:induction false} BitLengthBounds(d: nat)
    ensures d < Pow2(BitLength(d))
    ensures BitLength(d) == 0 || Pow2(BitLength(d) - 1) <= d
  {
    if d > 0 {
      BitLengthBounds(d / 2);
    }
  }

  /** The width of a range component, by repeated halving of upper - lower. */
  method ComputeWidth(lower: int, upper: int) returns (k: nat)
    ensures k == RangeWidth(lower, upper)
    ensures lower <= upper ==> upper - lower < Pow2(k)
  {
    k := 0;
    if upper < lower {
      return;
    }
    var d: nat := upper - lower;
    while d > 0
      invariant k + BitLength(d) == BitLength(upper - lower)
      decreases d
    {
      d := d / 2;
      k := k + 1;
    }
    BitLengthIsBitsFor(upper - lower);
    RangeWidthIsTight(lower, upper);
  }

  class RangeComponent {
    const lower: int32
    const upper: int32
    var fieldName: string
    var value: int32
    var cachedSizeValid: bool
    var cachedSize: nat

    /** A valid size cache holds the width of the bounds. */
    ghost predicate Valid()
      reads this
    {
      cachedSizeValid ==> cachedSize == RangeWidth(lower, upper)
    }

    function Abs(): Component
      reads this
    {
      Range(fieldName, value, lower, upper)
    }

    /** The default constructor: value 0 within the whole signed 32-bit range. */
    constructor ()
      ensures Valid() && Abs() == Range("", 0, MinInt, MaxInt) && !cachedSizeValid
    {
      lower, upper := MinInt, MaxInt;
      fieldName, value := "", 0;
      cachedSizeValid, cachedSize := false, 0;
    }

    /** A given value within [lower, upper], by default the whole signed 32-bit range. */
    constructor WithValue(v: int32, lower: int32 := MinInt, upper: int32 := MaxInt)
      ensures Valid() && Abs() == Range("", v, lower, upper) && !cachedSizeValid
    {
      this.lower, this.upper := lower, upper;
      fieldName, value := "", v;
      cachedSizeValid, cachedSize := false, 0;
    }

    /** size(): computed from the bounds on first use, then served from the cache. */
    method Size() returns (n: nat)
      requires Valid()
      modifies this
      ensures Valid() && cachedSizeValid && Abs() == old(Abs())
      ensures n == Components.Size(Abs())
    {
      if !cachedSizeValid {
        cachedSize := ComputeWidth(lower, upper);
        cachedSizeValid := true;
      }
      n := cachedSize;
    }

    /** set() changes the value and leaves the size cache alone: the width depends only on
        the bounds. */
    method Set(v: int32)
      modifies this
      ensures Abs() == Range(old(fieldName), v, lower, upper)
      ensures cachedSizeValid == old(cachedSizeValid) && cachedSize == old(cachedSize)
      ensures old(Valid()) ==> Valid()
    {
      value := v;
    }

    method SetFieldName(name: string)
      modifies this
      ensures fieldName == name && value == old(value)
      ensures cachedSizeValid == old(cachedSizeValid) && cachedSize == old(cachedSize)
    {
      fieldName := name;
    }

    /** clear() sets the value to 0, whether or not 0 lies within the bounds. */
    method Clear()
      modifies this
      ensures Abs() == Cleared(old(Abs())) && value == 0
      ensures cachedSizeValid == old(cachedSizeValid) && cachedSize == old(cachedSize)
      ensures old(Valid()) ==> Valid()
    {
      value := 0;
    }

    /** Reads the offset from the lower bound; an offset beyond the upper bound is an error. */
    method Read(input: seq<bool>) returns (r: Result<nat>, rest: seq<bool>)
      requires Valid()
      modifies this
      ensures Valid()
      ensures var d := Decode(old(Abs()), input);
        && (d.Ok? ==> Abs() == d.value.0 && rest == d.value.1 && r == Ok(Components.Size(Abs())))
        && (d.Err? ==> Abs() == old(Abs()) && rest == input && r == Err(d.error))
    {
      var w := Size();
      var o := ReadBits(input, w);
      if o.None? {
        r, rest := Err(StreamExhausted), input;
      } else if lower + o.value.0 <= upper {
        value := lower + o.value.0;
        r, rest := Ok(w), o.value.1;
      } else {
        r, rest := Err(ValueOutOfRange), input;
      }
    }

    /** Writes value - lower in the width of the bounds; a value outside the bounds is an
        error and nothing is written. */
    method Write(out: seq<bool>) returns (r: Result<nat>, out': seq<bool>)
      requires Valid()
      modifies this
      ensures Valid() && Abs() == old(Abs())
      ensures Encode(Abs()).Ok? ==> r == Ok(Components.Size(Abs())) && out' == out + Encode(Abs()).value
      ensures Encode(Abs()).Err? ==> r == Err(ValueOutOfRange) && out' == out
    {
      var w := Size();
      if lower <= value <= upper {
        out' := out + WriteBits(value - lower, w);
        r := Ok(w);
      } else {
        r, out' := Err(ValueOutOfRange), out;
      }
    }

    method Clone() returns (c: RangeComponent)
      ensures fresh(c) && c.Abs() == Abs()
      ensures c.cachedSizeValid == cachedSizeValid && c.cachedSize == cachedSize
    {
      c := new RangeComponent.WithValue(value, lower, upper);
      c.fieldName := fieldName;
      c.cachedSizeValid, c.cachedSize := cachedSizeValid, cachedSize;
    }
  }

  // ---------------------------------------------------------------------------
  // FloatMessageComponent: the IEEE-754 value is kept as its 32-bit payload
  // ---------------------------------------------------------------------------

  class FloatComponent {
    var fieldName: string
    var payload: uint32

    function Abs(): Component
      reads this
    {
      Float(fieldName, payload)
    }

    constructor (payload: uint32)
      ensures Abs() == Float("", payload)
    {
      fieldName := "";
      this.payload := payload;
    }

    function Size(): (n: nat)
      reads this
      ensures n == Components.Size(Abs()) && n == 32
    {
      32
    }

    method Set(payload: uint32)
      modifies this
      ensures Abs() == Float(old(fieldName), payload)
    {
      this.payload := payload;
    }

    method SetFieldName(name: string)
      modifies this
      ensures fieldName == name && payload == old(payload)
    {
      fieldName := name;
    }

    method Clear()
      modifies this
      ensures Abs() == Cleared(old(Abs())) && payload == 0
    {
      payload := 0;
    }

    method Read(input: seq<bool>) returns (r: Result<nat>, rest: seq<bool>)
      modifies this
      ensures var d := Decode(old(Abs()), input);
        && (d.Ok? ==> Abs() == d.value.0 && rest == d.value.1 && r == Ok(32))
        && (d.Err? ==> Abs() == old(Abs()) && rest == input && r == Err(d.error))
    {
      var o := ReadFloat(input);
      if o.None? {
        r, rest := Err(StreamExhausted), input;
      } else {
        payload := o.value.0;
        r, rest := Ok(32), o.value.1;
      }
    }

    method Write(out: seq<bool>) returns (n: nat, out': seq<bool>)
      ensures Encode(Abs()).Ok? && out' == out + Encode(Abs()).value
      ensures n == Components.Size(Abs()) && n == |out'| - |out|
    {
      out' := out + WriteBits(payload, WordBits);
      n := 32;
    }

    method Clone() returns (c: FloatComponent)
      ensures fresh(c) && c.Abs() == Abs()
    {
      c := new FloatComponent(payload);
      c.fieldName := fieldName;
    }
  }

  // ---------------------------------------------------------------------------
  // StringMessageComponent
  // ---------------------------------------------------------------------------

  /** size() as the source computes it: 8 * (length + 1) returned as a 16-bit count. */
  function StringSizeAsWritten(text: seq<byte>): (n: nat)
    ensures n < 0x1_0000
    ensures 8 * (|text| + 1) < 0x1_0000 ==> n == Components.Size(Str("", text))
  {
    (8 * (|text| + 1)) % 0x1_0000
  }

  /** A string of 8191 bytes occupies 65536 bits on the wire, yet its 16-bit size() is 0. */
  lemma StringSizeWraps()
    ensures var text := seq(8191, _ => 65 as byte);
      StringSizeAsWritten(text) == 0 && |WriteString(text)| == 65536 &&
      Components.Size(Str("", text)) == 65536
  {
  }

  class StringComponent {
    var fieldName: string
    var text: seq<byte>

    function Abs(): Component
      reads this
    {
      Str(fieldName, text)
    }

    constructor (text: seq<byte>)
      ensures Abs() == Str("", text)
    {
      fieldName := "";
      this.text := text;
    }

    /** The exact width, 8 bits per byte plus the terminator, without the 16-bit wrap. */
    function Size(): (n: nat)
      reads this
      ensures n == Components.Size(Abs()) && n == 8 * (|text| + 1)
      ensures n < 0x1_0000 ==> n == StringSizeAsWritten(text)
    {
      8 * (|text| + 1)
    }

    method Set(text: seq<byte>)
      modifies this
      ensures Abs() == Str(old(fieldName), text)
    {
      this.text := text;
    }

    method SetFieldName(name: string)
      modifies this
      ensures fieldName == name && text == old(text)
    {
      fieldName := name;
    }

    method Clear()
      modifies this
      ensures Abs() == Cleared(old(Abs())) && text == []
    {
      text := [];
    }

    /** Reads up to the terminator and returns the size of the string just read. */
    method Read(input: seq<bool>) returns (r: Result<nat>, rest: seq<bool>)
      modifies this
      ensures var d := Decode(old(Abs()), input);
        && (d.Ok? ==> Abs() == d.value.0 && rest == d.value.1 && r == Ok(Size()))
        && (d.Err? ==> Abs() == old(Abs()) && rest == input && r == Err(d.error))
    {
      var o := ReadString(input);
      if o.None? {
        r, rest := Err(StreamExhausted), input;
      } else {
        text := o.value.0;
        r, rest := Ok(8 * (|text| + 1)), o.value.1;
      }
    }

    method Write(out: seq<bool>) returns (n: nat, out': seq<bool>)
      ensures Encode(Abs()).Ok? && out' == out + Encode(Abs()).value
      ensures n == Components.Size(Abs()) && n == |out'| - |out|
    {
      out' := out + WriteString(text);
      n := 8 * (|text| + 1);
    }

    method Clone() returns (c: StringComponent)
      ensures fresh(c) && c.Abs() == Abs()
    {
      c := new StringComponent(text);
      c.fieldName := fieldName;
    }
  }

  // ---------------------------------------------------------------------------
  // V2FixedMessageComponent and V3FixedMessageComponent
  // ---------------------------------------------------------------------------

  class V2FixedComponent {
    var fieldName: string
    var x: int32
    var y: int32

    function Abs(): Component
      reads this
    {
      V2Fixed(fieldName, x, y)
    }

    constructor (x: int32, y: int32)
      ensures Abs() == V2Fixed("", x, y)
    {
      fieldName := "";
      this.x, this.y := x, y;
    }

    function Size(): (n: nat)
      reads this
      ensures n == Components.Size(Abs()) && n == 64
    {
      2 * 32
    }

    method Set(x: int32, y: int32)
      modifies this
      ensures Abs() == V2Fixed(old(fieldName), x, y)
    {
      this.x, this.y := x, y;
    }

    method SetFieldName(name: string)
      modifies this
      ensures fieldName == name && x == old(x) && y == old(y)
    {
      fieldName := name;
    }

    method Clear()
      modifies this
      ensures Abs() == Cleared(old(Abs())) && x == 0 && y == 0
    {
      x, y := 0, 0;
    }

    /** Reads x, then y. */
    method Read(input: seq<bool>) returns (r: Result<nat>, rest: seq<bool>)
      modifies this
      ensures var d := Decode(old(Abs()), input);
        && (d.Ok? ==> Abs() == d.value.0 && rest == d.value.1 && r == Ok(64))
        && (d.Err? ==> Abs() == old(Abs()) && rest == input && r == Err(d.error))
    {
      var ox := ReadS32(input);
      if ox.None? {
        return Err(StreamExhausted), input;
      }
      var oy := ReadS32(ox.value.1);
      if oy.None? {
        return Err(StreamExhausted), input;
      }
      x, y := ox.value.0, oy.value.0;
      r, rest := Ok(64), oy.value.1;
    }

    /** Writes x, then y. */
    method Write(out: seq<bool>) returns (n: nat, out': seq<bool>)
      ensures Encode(Abs()).Ok? && out' == out + Encode(Abs()).value
      ensures n == Components.Size(Abs()) && n == |out'| - |out|
    {
      out' := out + WriteS32(x);
      out' := out' + WriteS32(y);
      AppendAssoc(out, WriteS32(x), WriteS32(y));
      n := 2 * 32;
    }

    method Clone() returns (c: V2FixedComponent)
      ensures fresh(c) && c.Abs() == Abs()
    {
      c := new V2FixedComponent(x, y);
      c.fieldName := fieldName;
    }
  }

  class V3FixedComponent {
    var fieldName: string
    var x: int32
    var y: int32
    var z: int32

    function Abs(): Component
      reads this
    {
      V3Fixed(fieldName, x, y, z)
    }

    constructor (x: int32, y: int32, z: int32)
      ensures Abs() == V3Fixed("", x, y, z)
    {
      fieldName := "";
      this.x, this.y, this.z := x, y, z;
    }

    function Size(): (n: nat)
      reads this
      ensures n == Components.Size(Abs()) && n == 96
    {
      3 * 32
    }

    method Set(x: int32, y: int32, z: int32)
      modifies this
      ensures Abs() == V3Fixed(old(fieldName), x, y, z)
    {
      this.x, this.y, this.z := x, y, z;
    }

    method SetFieldName(name: string)
      modifies this
      ensures fieldName == name && x == old(x) && y == old(y) && z == old(z)
    {
      fieldName := name;
    }

    method Clear()
      modifies this
      ensures Abs() == Cleared(old(Abs())) && x == 0 && y == 0 && z == 0
    {
      x, y, z := 0, 0, 0;
    }

    /** Reads x, then y, then z. */
    method Read(input: seq<bool>) returns (r: Result<nat>, rest: seq<bool>)
      modifies this
      ensures var d := Decode(old(Abs()), input);
        && (d.Ok? ==> Abs() == d.value.0 && rest == d.value.1 && r == Ok(96))
        && (d.Err? ==> Abs() == old(Abs()) && rest == input && r == Err(d.error))
    {
      var ox := ReadS32(input);
      if ox.None? {
        return Err(StreamExhausted), input;
      }
      var oy := ReadS32(ox.value.1);
      if oy.None? {
        return Err(StreamExhausted), input;
      }
      var oz := ReadS32(oy.value.1);
      if oz.None? {
        return Err(StreamExhausted), input;
      }
      x, y, z := ox.value.0, oy.value.0, oz.value.0;
      r, rest := Ok(96), oz.value.1;
    }

    /** Writes x, then y, then z. */
    method Write(out: seq<bool>) returns (n: nat, out': seq<bool>)
      ensures Encode(Abs()).Ok? && out' == out + Encode(Abs()).value
      ensures n == Components.Size(Abs()) && n == |out'| - |out|
    {
      out' := out + WriteS32(x);
      out' := out' + WriteS32(y);
      out' := out' + WriteS32(z);
      AppendAssoc(out, WriteS32(x), WriteS32(y));
      AppendAssoc(out, WriteS32(x) + WriteS32(y), WriteS32(z));
      n := 3 * 32;
    }

    method Clone() returns (c: V3FixedComponent)
      ensures fresh(c) && c.Abs() == Abs()
    {
      c := new V3FixedComponent(x, y, z);
      c.fieldName := fieldName;
    }
  }

  // ---------------------------------------------------------------------------
  // BitFieldMessageComponent
  // ---------------------------------------------------------------------------

  class BitFieldComponent {
    var fieldName: string
    var flags: seq<bool>

    function Abs(): Component
      reads this
    {
      BitField(fieldName, flags)
    }

    /** A field of `numFields` cleared flags (32 by default). */
    constructor (numFields: uint32 := 32)
      ensures Abs() == BitField("", AllFalse(numFields))
    {
      fieldName := "";
      flags := AllFalse(numFields);
    }

    constructor WithValue(value: seq<bool>)
      ensures Abs() == BitField("", value)
    {
      fieldName := "";
      flags := value;
    }

    function Size(): (n: nat)
      reads this
      ensures n == Components.Size(Abs()) && n == |flags|
    {
      |flags|
    }

    method Set(value: seq<bool>)
      modifies this
      ensures Abs() == BitField(old(fieldName), value)
    {
      flags := value;
    }

    method SetFieldName(name: string)
      modifies this
      ensures fieldName == name && flags == old(flags)
    {
      fieldName := name;
    }

    /** Clears every flag; the number of flags stays. */
    method Clear()
      modifies this
      ensures Abs() == Cleared(old(Abs()))
      ensures |flags| == |old(flags)| && forall i :: 0 <= i < |flags| ==> !flags[i]
    {
      flags := AllFalse(|flags|);
    }

    method Read(input: seq<bool>) returns (r: Result<nat>, rest: seq<bool>)
      modifies this
      ensures var d := Decode(old(Abs()), input);
        && (d.Ok? ==> Abs() == d.value.0 && rest == d.value.1 && r == Ok(|flags|))
        && (d.Err? ==> Abs() == old(Abs()) && rest == input && r == Err(d.error))
    {
      if |input| < |flags| {
        r, rest := Err(StreamExhausted), input;
      } else {
        var n := |flags|;
        flags := input[..n];
        r, rest := Ok(n), input[n..];
      }
    }

    method Write(out: seq<bool>) returns (n: nat, out': seq<bool>)
      ensures Encode(Abs()).Ok? && out' == out + Encode(Abs()).value
      ensures n == Components.Size(Abs()) && n == |out'| - |out|
    {
      out' := out + flags;
      n := |flags|;
    }

    method Clone() returns (c: BitFieldComponent)
      ensures fresh(c) && c.Abs() == Abs()
    {
      c := new BitFieldComponent.WithValue(flags);
      c.fieldName := fieldName;
    }
  }

  // ---------------------------------------------------------------------------
  // Md5SumMessageComponent: 16 raw bytes and their cached lowercase hex text
  // ---------------------------------------------------------------------------

  /** The lowercase hex digit of a nibble. */
  function HexDigit(n: nat): (c: char)
    requires n < 16
    ensures IsLowerHexChar(c)
  {
    if n < 10 then ('0' as int + n) as char else ('a' as int + n - 10) as char
  }

  predicate IsLowerHexChar(c: char) {
    '0' <= c <= '9' || 'a' <= c <= 'f'
  }

  function HexValue(c: char): (r: Option<nat>)
    ensures r.Some? ==> r.value < 16
    ensures IsLowerHexChar(c) ==> r.Some? && HexDigit(r.value) == c
  {
    if '0' <= c <= '9' then Some(c as int - '0' as int)
    else if 'a' <= c <= 'f' then Some(c as int - 'a' as int + 10)
    else if 'A' <= c <= 'F' then Some(c as int - 'A' as int + 10)
    else None
  }

  /** Two lowercase hex digits per byte, high nibble first. */
  function FormatHex(bs: seq<byte>): (s: string)
    ensures |s| == 2 * |bs|
    decreases bs
  {
    if bs == [] then [] else [HexDigit(bs[0] / 16), HexDigit(bs[0] % 16)] + FormatHex(bs[1..])
  }

  /** Pairs of hex digits (either case) as bytes; None on any other character or an odd length. */
  function ParseHex(s: string): (r: Option<seq<byte>>)
    ensures r.Some? ==> 2 * |r.value| == |s|
    decreases |s|
  {
    if s == [] then Some([])
    else if |s| == 1 || HexValue(s[0]).None? || HexValue(s[1]).None? then None
    else
      var tail := ParseHex(s[2..]);
      if tail.None? then None
      else Some([(16 * HexValue(s[0]).value + HexValue(s[1]).value) as byte] + tail.value)
  }

  /** The digest a text names: exactly 32 hex digits. */
  function ParseDigest(s: string): (r: Option<Digest>)
    ensures r.Some? <==> |s| == 32 && ParseHex(s).Some?
  {
    if |s| != 32 then None
    else match ParseHex(s)
      case None => None
      case Some(bs) => var d: Digest := bs; Some(d)
  }

  predicate IsLowerHex(s: string) {
    forall i :: 0 <= i < |s| ==> IsLowerHexChar(s[i])
  }

  lemma HexValueOfDigit(n: nat)
    requires n < 16
    ensures HexValue(HexDigit(n)) == Some(n)
  {
  }

  lemma NibblesOfByte(b: byte)
    ensures b / 16 < 16 && b == 16 * (b / 16) + b % 16
  {
  }

  lemma ByteOfNibbles(hi: nat, lo: nat)
    requires hi < 16 && lo < 16
    ensures 16 * hi + lo < 256 && (16 * hi + lo) / 16 == hi && (16 * hi + lo) % 16 == lo
  {
  }

  lemma {:induction false} ParseFormatHex(bs: seq<byte>)
    ensures ParseHex(FormatHex(bs)) == Some(bs)
    decreases bs
  {
    if bs != [] {
      var s := FormatHex(bs);
      NibblesOfByte(bs[0]);
      HexValueOfDigit(bs[0] / 16);
      HexValueOfDigit(bs[0] % 16);
      assert s[0] == HexDigit(bs[0] / 16) && s[1] == HexDigit(bs[0] % 16);
      assert s[2..] == FormatHex(bs[1..]);
      ParseFormatHex(bs[1..]);
      assert [bs[0]] + bs[1..] == bs;
    }
  }

  lemma {:induction false} FormatParseHex(s: string)
    requires IsLowerHex(s) && |s| % 2 == 0
    ensures ParseHex(s).Some? && FormatHex(ParseHex(s).value) == s
    decreases |s|
  {
    if s != [] {
      assert IsLowerHexChar(s[0]) && IsLowerHexChar(s[1]);
      var hi, lo := HexValue(s[0]).value, HexValue(s[1]).value;
      assert IsLowerHex(s[2..]) by {
        forall i | 0 <= i < |s[2..]| ensures IsLowerHexChar(s[2..][i]) { assert s[2..][i] == s[i + 2]; }
      }
      FormatParseHex(s[2..]);
      ByteOfNibbles(hi, lo);
      var bs := ParseHex(s).value;
      assert bs == [(16 * hi + lo) as byte] + ParseHex(s[2..]).value;
      assert bs[1..] == ParseHex(s[2..]).value;
      assert FormatHex(bs) == [HexDigit(hi), HexDigit(lo)] + s[2..];
      assert s == [s[0], s[1]] + s[2..];
    }
  }

  /** Every digest has a 32-digit text, and reading it back gives the digest. */
  lemma DigestTextRoundTrip(d: Digest)
    ensures |FormatHex(d)| == 32 && ParseDigest(FormatHex(d)) == Some(d)
  {
    ParseFormatHex(d);
  }

  /** A well-formed lowercase digest text is given back unchanged by get() after set(). */
  lemma DigestTextCanonical(s: string)
    requires |s| == 32 && IsLowerHex(s)
    ensures ParseDigest(s).Some? && FormatHex(ParseDigest(s).value) == s
  {
    FormatParseHex(s);
  }

  class Md5SumComponent {
    var fieldName: string
    var digest: Digest
    var cachedString: string

    /** The cached text always shows the current digest. */
    ghost predicate Valid()
      reads this
    {
      cachedString == FormatHex(digest)
    }

    function Abs(): Component
      reads this
    {
      Md5Sum(fieldName, digest)
    }

    /** The default constructor: the zero digest. */
    constructor ()
      ensures Valid() && Abs() == Md5Sum("", ZeroDigest)
    {
      fieldName := "";
      digest := ZeroDigest;
      new;
      cachedString := FormatHex(digest);
    }

    /** Construction from text; malformed text leaves the zero digest. */
    constructor FromText(text: string)
      ensures Valid() && fieldName == ""
      ensures digest == (if ParseDigest(text).Some? then ParseDigest(text).value else ZeroDigest)
    {
      fieldName := "";
      var p := ParseDigest(text);
      var d := if p.Some? then p.value else ZeroDigest;
      digest, cachedString := d, FormatHex(d);
    }

    function Size(): (n: nat)
      reads this
      ensures n == Components.Size(Abs()) && n == 128
    {
      128
    }

    /** get(): the cached hex text. */
    function Get(): (s: string)
      reads this
      requires Valid()
      ensures |s| == 32 && ParseDigest(s) == Some(digest)
    {
      DigestTextRoundTrip(digest);
      cachedString
    }

    /** set(text): parses the text into the digest and refreshes the cache; malformed text is
        an error and changes nothing. */
    method Set(text: string) returns (r: Result<()>)
      requires Valid()
      modifies this
      ensures Valid() && fieldName == old(fieldName)
      ensures ParseDigest(text).Some? ==> r.Ok? && digest == ParseDigest(text).value
      ensures ParseDigest(text).None? ==> r == Err(MalformedDigestText) && digest == old(digest)
    {
      var p := ParseDigest(text);
      if p.None? {
        return Err(MalformedDigestText);
      }
      digest := p.value;
      cachedString := FormatHex(digest);
      r := Ok(());
    }

    method SetFieldName(name: string)
      modifies this
      ensures fieldName == name && digest == old(digest) && cachedString == old(cachedString)
    {
      fieldName := name;
    }

    method Clear()
      modifies this
      ensures Valid() && Abs() == Cleared(old(Abs()))
    {
      digest := ZeroDigest;
      cachedString := FormatHex(digest);
    }

    /** Reads the 16 raw bytes and refreshes the cached text. */
    method Read(input: seq<bool>) returns (r: Result<nat>, rest: seq<bool>)
      requires Valid()
      modifies this
      ensures Valid()
      ensures var d := Decode(old(Abs()), input);
        && (d.Ok? ==> Abs() == d.value.0 && rest == d.value.1 && r == Ok(128))
        && (d.Err? ==> Abs() == old(Abs()) && rest == input && r == Err(d.error))
    {
      var o := ReadBytes(input, DigestBytes);
      if o.None? {
        r, rest := Err(StreamExhausted), input;
      } else {
        digest := o.value.0;
        cachedString := FormatHex(digest);
        r, rest := Ok(128), o.value.1;
      }
    }

    method Write(out: seq<bool>) returns (n: nat, out': seq<bool>)
      ensures Encode(Abs()).Ok? && out' == out + Encode(Abs()).value
      ensures n == Components.Size(Abs()) && n == |out'| - |out|
    {
      out' := out + WriteBytes(digest);
      n := 128;
    }

    /** The implicit copy constructor: digest, cached text and field name. */
    constructor Copy(other: Md5SumComponent)
      ensures Abs() == other.Abs() && cachedString == other.cachedString
    {
      fieldName, digest, cachedString := other.fieldName, other.digest, other.cachedString;
    }

    method Clone() returns (c: Md5SumComponent)
      ensures fresh(c) && c.Abs() == Abs() && c.cachedString == cachedString
    {
      c := new Md5SumComponent.Copy(this);
    }
  }

  // ---------------------------------------------------------------------------
  // Message: a type tag with nothing on the wire
  // ---------------------------------------------------------------------------

  class BaseMessage {
    const msgType: MessageType
    var fieldName: string

    function Abs(): Component
      reads this
    {
      Message(fieldName, msgType)
    }

    constructor (msgType: MessageType)
      ensures Abs() == Message("", msgType)
    {
      this.msgType := msgType;
      fieldName := "";
    }

    function GetMessageType(): (t: MessageType)
      reads this
      ensures MessageTypeOf(WireValue(t)) == Some(msgType)
    {
      MessageTypeWireRoundTrip(msgType);
      msgType
    }

    function Size(): (n: nat)
      reads this
      ensures n == Components.Size(Abs()) && n == 0
    {
      0
    }

    method Clear()
      ensures Cleared(Abs()) == Abs()
    {
    }

    method Read(input: seq<bool>) returns (n: nat, rest: seq<bool>)
      ensures Decode(Abs(), input) == Ok((Abs(), rest)) && rest == input && n == 0
    {
      n, rest := 0, input;
    }

    method Write(out: seq<bool>) returns (n: nat, out': seq<bool>)
      ensures Encode(Abs()).Ok? && out' == out + Encode(Abs()).value && out' == out && n == 0
    {
      n, out' := 0, out;
    }

    method Clone() returns (c: BaseMessage)
      ensures fresh(c) && c.Abs() == Abs()
    {
      c := new BaseMessage(msgType);
      c.fieldName := fieldName;
    }
  }
}
