/** The composite message components: the count-prefixed homogeneous array and the group of
    required and optional fields with its presence indicator and name index. Children are
    held as `Component` values; each loop below walks them in declaration order and is proved
    against Size, Encode and Decode. */
module Composites {
  import opened BitStream
  import opened Components
  import opened WireLaws
  import opened Leaves

  // ---------------------------------------------------------------------------
  // One step of the walks over a sequence of children
  // ---------------------------------------------------------------------------

  lemma SizeSeqStep(cs: seq<Component>, i: nat)
    requires i < |cs|
    ensures SizeSeq(cs[i..]) == Components.Size(cs[i]) + SizeSeq(cs[i + 1..])
  {
    assert cs[i..][1..] == cs[i + 1..];
  }

  lemma SizePresentStep(cs: seq<Component>, flags: seq<bool>, i: nat)
    requires i < |cs| == |flags|
    ensures SizePresent(cs[i..], flags[i..]) ==
      (if flags[i] then Components.Size(cs[i]) else 0) + SizePresent(cs[i + 1..], flags[i + 1..])
  {
    assert cs[i..][1..] == cs[i + 1..];
    assert TailFlags(flags[i..]) == flags[i + 1..];
  }

  lemma EncodeSeqStep(cs: seq<Component>, i: nat)
    requires i < |cs|
    ensures EncodeSeq(cs[i..]) == Then(Encode(cs[i]), EncodeSeq(cs[i + 1..]))
  {
    assert cs[i..][1..] == cs[i + 1..];
  }

  lemma EncodeOptionalStep(cs: seq<Component>, flags: seq<bool>, i: nat)
    requires i < |cs| == |flags|
    ensures EncodeOptional(cs[i..], flags[i..]) ==
      Then(if flags[i] then Encode(cs[i]) else Ok([]), EncodeOptional(cs[i + 1..], flags[i + 1..]))
  {
    assert cs[i..][1..] == cs[i + 1..];
    assert TailFlags(flags[i..]) == flags[i + 1..];
  }

  lemma ThenOkEmpty(r: Result<seq<bool>>)
    ensures Then(Ok([]), r) == r
  {
    if r.Ok? {
      assert [] + r.value == r.value;
    }
  }

  lemma ThenOkAssoc(acc: seq<bool>, x: seq<bool>, r: Result<seq<bool>>)
    ensures Then(Ok(acc), Then(Ok(x), r)) == Then(Ok(acc + x), r)
  {
    if r.Ok? {
      AppendAssoc(acc, x, r.value);
    }
  }

  /** A decoding result with `acc` put in front of the components it read. */
  function Prefixed(acc: seq<Component>, r: Result<(seq<Component>, seq<bool>)>): Result<(seq<Component>, seq<bool>)> {
    match r
    case Err(e) => Err(e)
    case Ok((cs, rest)) => Ok((acc + cs, rest))
  }

  lemma PrefixedEmpty(r: Result<(seq<Component>, seq<bool>)>)
    ensures Prefixed([], r) == r
  {
    if r.Ok? {
      assert [] + r.value.0 == r.value.0;
    }
  }

  lemma PrefixedAssoc(acc: seq<Component>, c: Component, r: Result<(seq<Component>, seq<bool>)>)
    ensures Prefixed(acc, Prefixed([c], r)) == Prefixed(acc + [c], r)
  {
    if r.Ok? {
      assert acc + ([c] + r.value.0) == (acc + [c]) + r.value.0;
    }
  }

  lemma DecodeSeqStep(ps: seq<Component>, i: nat, bits: seq<bool>)
    requires i < |ps|
    ensures DecodeSeq(ps[i..], bits) ==
      match Decode(ps[i], bits)
      case Err(e) => Err(e)
      case Ok((c, r1)) => Prefixed([c], DecodeSeq(ps[i + 1..], r1))
  {
    assert ps[i..][1..] == ps[i + 1..];
  }

  lemma DecodeOptionalAt(ps: seq<Component>, flags: seq<bool>, i: nat, bits: seq<bool>)
    requires i < |ps| == |flags|
    ensures DecodeOptional(ps[i..], flags[i..], bits) ==
      match (if flags[i] then Decode(ps[i], bits) else Ok((ps[i], bits)))
      case Err(e) => Err(e)
      case Ok((c, r1)) => Prefixed([c], DecodeOptional(ps[i + 1..], flags[i + 1..], r1))
  {
    assert ps[i..][1..] == ps[i + 1..];
    assert TailFlags(flags[i..]) == flags[i + 1..];
  }

  /** read() keeps a component's field name. */
  lemma DecodeKeepsName(p: Component, bits: seq<bool>)
    ensures Decode(p, bits).Ok? ==> Decode(p, bits).value.0.name == p.name
  {
  }

  lemma SameShapeKeepsName(p: Component, c: Component)
    requires SameShape(p, c)
    ensures p.name == c.name
  {
  }

  /** The count of bits read off the front of `input`, when `rest` is what remains. */
  lemma ConsumedIsSize(p: Component, input: seq<bool>)
    requires Decode(p, input).Ok?
    ensures |input| - |Decode(p, input).value.1| == Components.Size(Decode(p, input).value.0)
  {
    DecodeConsumesSize(p, input);
  }

  // ---------------------------------------------------------------------------
  // The walks over a sequence of children, in declaration order
  // ---------------------------------------------------------------------------

  /** Writes each field in turn; the first field that cannot be written stops the walk. */
  method WriteFields(cs: seq<Component>) returns (r: Result<seq<bool>>)
    ensures r == EncodeSeq(cs)
  {
    var acc: seq<bool> := [];
    ThenOkEmpty(EncodeSeq(cs));
    assert cs[0..] == cs;
    var i := 0;
    while i < |cs|
      invariant 0 <= i <= |cs|
      invariant EncodeSeq(cs) == Then(Ok(acc), EncodeSeq(cs[i..]))
    {
      EncodeSeqStep(cs, i);
      var e := Encode(cs[i]);
      if e.Err? {
        return Err(e.error);
      }
      ThenOkAssoc(acc, e.value, EncodeSeq(cs[i + 1..]));
      acc := acc + e.value;
      i := i + 1;
    }
    assert acc + [] == acc;
    r := Ok(acc);
  }

  /** Writes each optional field whose presence flag is set. */
  method WriteOptionalFields(cs: seq<Component>, flags: seq<bool>) returns (r: Result<seq<bool>>)
    requires |flags| == |cs|
    ensures r == EncodeOptional(cs, flags)
  {
    var acc: seq<bool> := [];
    ThenOkEmpty(EncodeOptional(cs, flags));
    assert cs[0..] == cs && flags[0..] == flags;
    var i := 0;
    while i < |cs|
      invariant 0 <= i <= |cs|
      invariant EncodeOptional(cs, flags) == Then(Ok(acc), EncodeOptional(cs[i..], flags[i..]))
    {
      EncodeOptionalStep(cs, flags, i);
      if flags[i] {
        var e := Encode(cs[i]);
        if e.Err? {
          return Err(e.error);
        }
        ThenOkAssoc(acc, e.value, EncodeOptional(cs[i + 1..], flags[i + 1..]));
        acc := acc + e.value;
      } else {
        ThenOkEmpty(EncodeOptional(cs[i + 1..], flags[i + 1..]));
      }
      i := i + 1;
    }
    assert acc + [] == acc;
    r := Ok(acc);
  }

  /** Reads into each field in turn; the fields keep their names. */
  method ReadFields(ps: seq<Component>, bits: seq<bool>) returns (r: Result<(seq<Component>, seq<bool>)>)
    ensures r == DecodeSeq(ps, bits)
    ensures r.Ok? ==> |r.value.0| == |ps| && forall j :: 0 <= j < |ps| ==> r.value.0[j].name == ps[j].name
  {
    var acc: seq<Component> := [];
    var cur := bits;
    PrefixedEmpty(DecodeSeq(ps, bits));
    assert ps[0..] == ps;
    var i := 0;
    while i < |ps|
      invariant 0 <= i <= |ps| && |acc| == i
      invariant forall j :: 0 <= j < i ==> acc[j].name == ps[j].name
      invariant DecodeSeq(ps, bits) == Prefixed(acc, DecodeSeq(ps[i..], cur))
    {
      DecodeSeqStep(ps, i, cur);
      var d := Decode(ps[i], cur);
      if d.Err? {
        return Err(d.error);
      }
      DecodeKeepsName(ps[i], cur);
      PrefixedAssoc(acc, d.value.0, DecodeSeq(ps[i + 1..], d.value.1));
      acc := acc + [d.value.0];
      cur := d.value.1;
      i := i + 1;
    }
    assert acc + [] == acc;
    r := Ok((acc, cur));
  }

  /** Reads into each optional field whose flag is set; the others are kept as they are. */
  method ReadOptionalFields(ps: seq<Component>, flags: seq<bool>, bits: seq<bool>)
    returns (r: Result<(seq<Component>, seq<bool>)>)
    requires |flags| == |ps|
    ensures r == DecodeOptional(ps, flags, bits)
    ensures r.Ok? ==> |r.value.0| == |ps| && forall j :: 0 <= j < |ps| ==> r.value.0[j].name == ps[j].name
  {
    var acc: seq<Component> := [];
    var cur := bits;
    PrefixedEmpty(DecodeOptional(ps, flags, bits));
    assert ps[0..] == ps && flags[0..] == flags;
    var i := 0;
    while i < |ps|
      invariant 0 <= i <= |ps| && |acc| == i
      invariant forall j :: 0 <= j < i ==> acc[j].name == ps[j].name
      invariant DecodeOptional(ps, flags, bits) == Prefixed(acc, DecodeOptional(ps[i..], flags[i..], cur))
    {
      DecodeOptionalAt(ps, flags, i, cur);
      var d := if flags[i] then Decode(ps[i], cur) else Ok((ps[i], cur));
      if d.Err? {
        return Err(d.error);
      }
      DecodeKeepsName(ps[i], cur);
      PrefixedAssoc(acc, d.value.0, DecodeOptional(ps[i + 1..], flags[i + 1..], d.value.1));
      acc := acc + [d.value.0];
      cur := d.value.1;
      i := i + 1;
    }
    assert acc + [] == acc;
    r := Ok((acc, cur));
  }

  /** Materialises `count` elements, each read into a copy of the prototype. */
  method ReadElements(proto: Component, count: nat, bits: seq<bool>) returns (r: Result<(seq<Component>, seq<bool>)>)
    ensures r == DecodeElems(proto, count, bits)
    ensures r.Ok? ==> |r.value.0| == count
  {
    var acc: seq<Component> := [];
    var cur := bits;
    PrefixedEmpty(DecodeElems(proto, count, bits));
    var i := 0;
    while i < count
      invariant 0 <= i <= count && |acc| == i
      invariant DecodeElems(proto, count, bits) == Prefixed(acc, DecodeElems(proto, count - i, cur))
    {
      var d := Decode(proto, cur);
      if d.Err? {
        return Err(d.error);
      }
      PrefixedAssoc(acc, d.value.0, DecodeElems(proto, count - i - 1, d.value.1));
      acc := acc + [d.value.0];
      cur := d.value.1;
      i := i + 1;
    }
    assert acc + [] == acc;
    r := Ok((acc, cur));
  }

  // ---------------------------------------------------------------------------
  // MessageComponentArray
  // ---------------------------------------------------------------------------

  const DefaultMinCount: uint32 := 0
  const DefaultMaxCount: uint32 := 65535

  /** How reading an array ends when its count cannot be read or is out of bounds. */
  lemma DecodeArrayCount(a: Component, bits: seq<bool>)
    requires a.Array?
    ensures ReadBits(bits, RangeWidth(a.minCount, a.maxCount)).None? ==> Decode(a, bits) == Err(StreamExhausted)
    ensures ReadBits(bits, RangeWidth(a.minCount, a.maxCount)).Some? &&
            a.minCount + ReadBits(bits, RangeWidth(a.minCount, a.maxCount)).value.0 > a.maxCount ==>
            Decode(a, bits) == Err(CountOutOfBounds)
  {
  }

  /** Once the count is read, reading an array is reading that many elements. */
  lemma DecodeArrayElements(a: Component, bits: seq<bool>, count: nat, r1: seq<bool>)
    requires a.Array?
    requires DecodeRange(bits, a.minCount, a.maxCount) == Ok((count, r1))
    ensures DecodeElems(a.prototype, count, r1).Err? ==> Decode(a, bits) == Err(DecodeElems(a.prototype, count, r1).error)
    ensures DecodeElems(a.prototype, count, r1).Ok? ==>
      Decode(a, bits) == Ok((a.(elements := DecodeElems(a.prototype, count, r1).value.0), DecodeElems(a.prototype, count, r1).value.1))
  {
  }

  class ArrayComponent {
    const minCount: uint32
    const maxCount: uint32
    const prototype: Component
    var fieldName: string
    var elements: seq<Component>
    var cachedSizeValid: bool
    var cachedSize: nat

    /** A valid size cache holds the current size. */
    ghost predicate Valid()
      reads this
    {
      cachedSizeValid ==> cachedSize == Components.Size(Abs())
    }

    function Abs(): Component
      reads this
    {
      Array(fieldName, minCount, maxCount, prototype, elements)
    }

    /** An empty array whose count lies in [minCount, maxCount] (by default [0, 65535]) and
        whose elements are read into copies of `prototype`. */
    constructor (prototype: Component, minCount: uint32 := 0, maxCount: uint32 := 65535)
      ensures Valid() && Abs() == Array("", minCount, maxCount, prototype, []) && !cachedSizeValid
    {
      this.prototype, this.minCount, this.maxCount := prototype, minCount, maxCount;
      fieldName, elements := "", [];
      cachedSizeValid, cachedSize := false, 0;
    }

    /** The copy constructor: a deep copy of bounds, prototype and elements. */
    constructor Copy(other: ArrayComponent)
      ensures Abs() == other.Abs() && Valid() && !cachedSizeValid
    {
      prototype, minCount, maxCount := other.prototype, other.minCount, other.maxCount;
      fieldName, elements := other.fieldName, other.elements;
      cachedSizeValid, cachedSize := false, 0;
    }

    /** size(): the width of the count field plus every element's size, cached. */
    method Size() returns (n: nat)
      requires Valid()
      modifies this
      ensures Valid() && cachedSizeValid && Abs() == old(Abs())
      ensures n == Components.Size(Abs())
    {
      if cachedSizeValid {
        return cachedSize;
      }
      n := ComputeWidth(minCount, maxCount);
      var i := 0;
      while i < |elements|
        invariant unchanged(this)
        invariant 0 <= i <= |elements|
        invariant n + SizeSeq(elements[i..]) == Components.Size(Abs())
      {
        SizeSeqStep(elements, i);
        n := n + Components.Size(elements[i]);
        i := i + 1;
      }
      cachedSize, cachedSizeValid := n, true;
    }

    /** clear(): no elements. */
    method Clear()
      modifies this
      ensures Valid() && Abs() == Cleared(old(Abs())) && elements == []
    {
      elements := [];
      cachedSizeValid := false;
    }

    method SetFieldName(name: string)
      modifies this
      ensures fieldName == name && elements == old(elements)
      ensures old(Valid()) ==> Valid()
    {
      fieldName := name;
      cachedSizeValid := false;
    }

    /** write(): the element count through the count field, then every element in order. A
        count outside [minCount, maxCount] or an element that cannot be written is an error
        and nothing is written. */
    method Write(out: seq<bool>) returns (r: Result<nat>, out': seq<bool>)
      ensures Encode(Abs()).Ok? ==> r == Ok(Components.Size(Abs())) && out' == out + Encode(Abs()).value
      ensures Encode(Abs()).Err? ==> r == Err(Encode(Abs()).error) && out' == out
    {
      if !(minCount <= |elements| <= maxCount) {
        return Err(CountOutOfBounds), out;
      }
      var w := ComputeWidth(minCount, maxCount);
      var head := WriteBits(|elements| - minCount, w);
      var body := WriteFields(elements);
      if body.Err? {
        return Err(body.error), out;
      }
      EncodeSize(Abs());
      out' := out + (head + body.value);
      r := Ok(|head + body.value|);
    }

    /** read(): the count through the count field, then that many elements, each read into
        a copy of the prototype; the elements replace the previous ones. */
    method Read(input: seq<bool>) returns (r: Result<nat>, rest: seq<bool>)
      requires Valid()
      modifies this
      ensures Valid()
      ensures var d := Decode(old(Abs()), input);
        && (d.Ok? ==> Abs() == d.value.0 && rest == d.value.1 && r == Ok(Components.Size(Abs())))
        && (d.Err? ==> Abs() == old(Abs()) && rest == input && r == Err(d.error))
    {
      ghost var before := Abs();
      var w := ComputeWidth(minCount, maxCount);
      var o := ReadBits(input, w);
      if o.None? {
        DecodeArrayCount(before, input);
        return Err(StreamExhausted), input;
      }
      if minCount + o.value.0 > maxCount {
        DecodeArrayCount(before, input);
        return Err(CountOutOfBounds), input;
      }
      var es := ReadElements(prototype, minCount + o.value.0, o.value.1);
      DecodeArrayElements(before, input, minCount + o.value.0, o.value.1);
      if es.Err? {
        return Err(es.error), input;
      }
      ConsumedIsSize(before, input);
      ghost var after := Decode(before, input).value.0;
      elements := es.value.0;
      cachedSizeValid := false;
      assert Abs() == after;
      r, rest := Ok(|input| - |es.value.1|), es.value.1;
    }

    method Clone() returns (c: ArrayComponent)
      ensures fresh(c) && c.Abs() == Abs() && c.Valid()
    {
      c := new ArrayComponent.Copy(this);
    }
  }

  // ---------------------------------------------------------------------------
  // MessageComponentGroup
  // ---------------------------------------------------------------------------

  /** Where a name-table entry points: a required or an optional field, by position. */
  /** Clearing a field sequence keeps every field's name. */
  lemma ClearedSeqKeepsNames(cs: seq<Component>)
    ensures |ClearedSeq(cs)| == |cs|
    ensures forall j :: 0 <= j < |cs| ==> ClearedSeq(cs)[j].name == cs[j].name
  {
    ClearSeqKeepsShape(cs);
    forall j | 0 <= j < |cs| ensures ClearedSeq(cs)[j].name == cs[j].name {
      SameShapeKeepsName(ClearedSeq(cs)[j], cs[j]);
    }
  }

  datatype FieldRef = RequiredAt(index: nat) | OptionalAt(index: nat)

  /** The field a name-table entry points at carries that name. */
  predicate Refers(ref: FieldRef, name: string, required: seq<Component>, optional: seq<Component>) {
    match ref
    case RequiredAt(i) => i < |required| && required[i].name == name
    case OptionalAt(i) => i < |optional| && optional[i].name == name
  }

  /** Every named field is in the table and every table entry points at a field of that
      name. */
  predicate Indexes(table: map<string, FieldRef>, required: seq<Component>, optional: seq<Component>) {
    && (forall name | name in table :: name != "" && Refers(table[name], name, required, optional))
    && (forall i | 0 <= i < |required| :: required[i].name != "" ==> required[i].name in table)
    && (forall i | 0 <= i < |optional| :: optional[i].name != "" ==> optional[i].name in table)
  }

  /** The table entry written for a field appended to the optional fields. */
  function Registered(table: map<string, FieldRef>, f: Component, ref: FieldRef): map<string, FieldRef> {
    if f.name != "" then table[f.name := ref] else table
  }

  lemma IndexAddOptional(table: map<string, FieldRef>, required: seq<Component>, optional: seq<Component>, f: Component)
    requires Indexes(table, required, optional)
    ensures Indexes(Registered(table, f, OptionalAt(|optional|)), required, optional + [f])
  {
    var table', optional' := Registered(table, f, OptionalAt(|optional|)), optional + [f];
    forall name | name in table' ensures name != "" && Refers(table'[name], name, required, optional') {
      if name != f.name || f.name == "" {
        assert table'[name] == table[name];
        assert Refers(table[name], name, required, optional);
      }
    }
    forall i | 0 <= i < |optional'| && optional'[i].name != "" ensures optional'[i].name in table' {
      if i < |optional| {
        assert optional'[i] == optional[i];
      }
    }
  }

  lemma IndexAddRequired(table: map<string, FieldRef>, required: seq<Component>, optional: seq<Component>, f: Component)
    requires Indexes(table, required, optional)
    ensures Indexes(Registered(table, f, RequiredAt(|required|)), required + [f], optional)
  {
    var table', required' := Registered(table, f, RequiredAt(|required|)), required + [f];
    forall name | name in table' ensures name != "" && Refers(table'[name], name, required', optional) {
      if name != f.name || f.name == "" {
        assert table'[name] == table[name];
        assert Refers(table[name], name, required, optional);
      }
    }
    forall i | 0 <= i < |required'| && required'[i].name != "" ensures required'[i].name in table' {
      if i < |required| {
        assert required'[i] == required[i];
      }
    }
  }

  /** Fields replaced by fields of the same names are indexed by the same table. */
  lemma IndexSameNames(table: map<string, FieldRef>, required: seq<Component>, optional: seq<Component>,
                       req: seq<Component>, opt: seq<Component>)
    requires Indexes(table, required, optional)
    requires |req| == |required| && forall j :: 0 <= j < |req| ==> req[j].name == required[j].name
    requires |opt| == |optional| && forall j :: 0 <= j < |opt| ==> opt[j].name == optional[j].name
    ensures Indexes(table, req, opt)
  {
    forall name | name in table ensures name != "" && Refers(table[name], name, req, opt) {
      assert Refers(table[name], name, required, optional);
    }
  }

  class GroupComponent {
    var fieldName: string
    var required: seq<Component>
    var optional: seq<Component>
    /** The presence indicator: one flag per optional field. */
    var present: seq<bool>
    var nameTable: map<string, FieldRef>
    var cachedSizeValid: bool
    var cachedSize: nat

    /** The presence indicator is as wide as the optional fields are many, the name table
        indexes the fields, and a valid size cache holds the current size. */
    ghost predicate Valid()
      reads this
    {
      && |present| == |optional|
      && Indexes(nameTable, required, optional)
      && (cachedSizeValid ==> cachedSize == Components.Size(Abs()))
    }

    function Abs(): Component
      reads this
    {
      Group(fieldName, required, optional, present)
    }

    constructor ()
      ensures Valid() && Abs() == Group("", [], [], []) && nameTable == map[]
    {
      fieldName, required, optional, present := "", [], [], [];
      nameTable := map[];
      cachedSizeValid, cachedSize := false, 0;
    }

    /** The copy constructor: copies of every field, the presence indicator and the index. */
    constructor Copy(other: GroupComponent)
      requires other.Valid()
      ensures Valid() && Abs() == other.Abs() && nameTable == other.nameTable
    {
      fieldName, required, optional, present := other.fieldName, other.required, other.optional, other.present;
      nameTable := other.nameTable;
      cachedSizeValid, cachedSize := false, 0;
    }

    /** hasField(name): a field, present or not, is registered under the name. */
    function HasField(name: string): (b: bool)
      reads this
      requires Valid()
      ensures b <==> (name != "" &&
        ((exists i :: 0 <= i < |required| && required[i].name == name) ||
         (exists i :: 0 <= i < |optional| && optional[i].name == name)))
    {
      if name in nameTable then
        assert Refers(nameTable[name], name, required, optional);
        true
      else false
    }

    /** addField(f, optional): f joins the end of exactly one of the two field sequences, an
        optional field widens the presence indicator by one absent flag, and a named field is
        indexed (a later field of the same name shadows an earlier one). */
    method AddField(f: Component, isOptional: bool)
      requires Valid()
      modifies this
      ensures Valid() && fieldName == old(fieldName)
      ensures isOptional ==>
        optional == old(optional) + [f] && present == old(present) + [false] && required == old(required)
      ensures !isOptional ==>
        required == old(required) + [f] && optional == old(optional) && present == old(present)
      ensures f.name != "" ==> (nameTable ==
        old(nameTable)[f.name := if isOptional then OptionalAt(|old(optional)|) else RequiredAt(|old(required)|)])
      ensures f.name == "" ==> nameTable == old(nameTable)
      ensures f.name != "" ==> HasField(f.name)
    {
      if isOptional {
        IndexAddOptional(nameTable, required, optional, f);
        nameTable := Registered(nameTable, f, OptionalAt(|optional|));
        optional := optional + [f];
        present := present + [false];
      } else {
        IndexAddRequired(nameTable, required, optional, f);
        nameTable := Registered(nameTable, f, RequiredAt(|required|));
        required := required + [f];
      }
      cachedSizeValid := false;
      if f.name != "" {
        assert Refers(nameTable[f.name], f.name, required, optional);
      }
    }

    /** size(): the presence indicator, every required field and every present optional
        field, cached. */
    method Size() returns (n: nat)
      requires Valid()
      modifies this
      ensures Valid() && cachedSizeValid && Abs() == old(Abs()) && nameTable == old(nameTable)
      ensures n == Components.Size(Abs())
    {
      if cachedSizeValid {
        return cachedSize;
      }
      n := |present|;
      var i := 0;
      while i < |required|
        invariant unchanged(this)
        invariant 0 <= i <= |required|
        invariant n + SizeSeq(required[i..]) == |present| + SizeSeq(required)
      {
        SizeSeqStep(required, i);
        n := n + Components.Size(required[i]);
        i := i + 1;
      }
      i := 0;
      while i < |optional|
        invariant unchanged(this)
        invariant 0 <= i <= |optional|
        invariant n + SizePresent(optional[i..], present[i..]) == Components.Size(Abs())
      {
        SizePresentStep(optional, present, i);
        if present[i] {
          n := n + Components.Size(optional[i]);
        }
        i := i + 1;
      }
      cachedSize, cachedSizeValid := n, true;
    }

    /** clear(): every field cleared and every optional field marked absent; the fields
        and the name table stay. */
    method Clear()
      requires Valid()
      modifies this
      ensures Valid() && Abs() == Cleared(old(Abs())) && nameTable == old(nameTable)
    {
      ClearedSeqKeepsNames(required);
      ClearedSeqKeepsNames(optional);
      Replace(ClearedSeq(required), ClearedSeq(optional), AllFalse(|present|));
    }

    method SetFieldName(name: string)
      requires Valid()
      modifies this
      ensures Valid() && fieldName == name
      ensures required == old(required) && optional == old(optional) && present == old(present)
      ensures nameTable == old(nameTable)
    {
      fieldName := name;
      cachedSizeValid := false;
    }

    /** write(): the presence indicator, then the required fields, then the present optional
        fields, each in declaration order. */
    method Write(out: seq<bool>) returns (r: Result<nat>, out': seq<bool>)
      requires Valid()
      ensures Encode(Abs()).Ok? ==> r == Ok(Components.Size(Abs())) && out' == out + Encode(Abs()).value
      ensures Encode(Abs()).Err? ==> r == Err(Encode(Abs()).error) && out' == out
    {
      var req := WriteFields(required);
      if req.Err? {
        return Err(req.error), out;
      }
      var opt := WriteOptionalFields(optional, present);
      if opt.Err? {
        return Err(opt.error), out;
      }
      EncodeSize(Abs());
      out' := out + (present + (req.value + opt.value));
      r := Ok(|present + (req.value + opt.value)|);
    }

    /** read(): the presence indicator, then the required fields, then the optional fields
        whose flag is set; the others keep their value. */
    method Read(input: seq<bool>) returns (r: Result<nat>, rest: seq<bool>)
      requires Valid()
      modifies this
      ensures Valid() && nameTable == old(nameTable)
      ensures var d := Decode(old(Abs()), input);
        && (d.Ok? ==> Abs() == d.value.0 && rest == d.value.1 && r == Ok(Components.Size(Abs())))
        && (d.Err? ==> Abs() == old(Abs()) && rest == input && r == Err(d.error))
    {
      if |input| < |present| {
        return Err(StreamExhausted), input;
      }
      var flags := input[..|present|];
      var req := ReadFields(required, input[|present|..]);
      if req.Err? {
        return Err(req.error), input;
      }
      var opt := ReadOptionalFields(optional, flags, req.value.1);
      if opt.Err? {
        return Err(opt.error), input;
      }
      ghost var before := Abs();
      assert Decode(before, input) == Ok((Group(fieldName, req.value.0, opt.value.0, flags), opt.value.1));
      ConsumedIsSize(before, input);
      Replace(req.value.0, opt.value.0, flags);
      r, rest := Ok(|input| - |opt.value.1|), opt.value.1;
    }

    /** Puts new values in place of the fields of the same names. */
    method Replace(req: seq<Component>, opt: seq<Component>, flags: seq<bool>)
      requires Valid()
      requires |req| == |required| && forall j :: 0 <= j < |req| ==> req[j].name == required[j].name
      requires |opt| == |optional| && forall j :: 0 <= j < |opt| ==> opt[j].name == optional[j].name
      requires |flags| == |optional|
      modifies this
      ensures Valid() && Abs() == Group(old(fieldName), req, opt, flags) && nameTable == old(nameTable)
    {
      IndexSameNames(nameTable, required, optional, req, opt);
      required, optional, present := req, opt, flags;
      cachedSizeValid := false;
    }

    method Clone() returns (c: GroupComponent)
      requires Valid()
      ensures fresh(c) && c.Valid() && c.Abs() == Abs() && c.nameTable == nameTable
    {
      c := new GroupComponent.Copy(this);
    }
  }
}
