# Odamex message components and component-manager iteration, in Dafny

This project models two parts of Odamex.

The first is the network **MessageComponent** framework. Messages are built from typed
components, and each component knows its `size()` in bits, how to `write` itself to a bit
stream and `read` itself back, how to `clear()` to its default, and how to `clone()` itself.
The leaf components are:

- integral values of a fixed bit width;
- range-bounded integers;
- 32-bit floats;
- NUL-terminated strings;
- 2- and 3-axis fixed-point vectors;
- bit fields;
- MD5 digests;
- the empty base `Message`.

There are two composites:

- `MessageComponentArray`: a counted sequence of elements, with the count written in a
  range-bounded field.
- `MessageComponentGroup`: required fields, optional fields, a presence indicator for the
  optional ones, and a name table for `hasField`.

The second part is the **ComponentManager** child index. This covers the
parent-to-children multimap, `getChildren`, both `getAttribute` overloads, and
`const_iterator` (its list, position, `==`, `!=`, `*`, both `++` and
`addComponent`/`removeComponent`).

How it is organised:

- `bitstream.dfy` (module `BitStream`): an abstract bit stream of value type `seq<bool>`. A
  writer appends bits. A reader consumes a prefix and returns the remaining stream, or
  reports that the stream is exhausted. It defines the primitive encodings (`writeBits`,
  `writeS32`, `writeFloat`, `writeString`, raw bytes) and their read-after-write laws.
- `components.dfy` (module `Components`): the component tree as a closed datatype
  `Component`. It also holds the specification functions `Size`, `Encode`, `Decode` and
  `Cleared` that every component class is proved against.
- `wire_laws.dfy` (module `WireLaws`): the wire laws over all component trees.
  - The number of bits written equals `size()`.
  - Writing succeeds exactly when every range and array count is within bounds.
  - Reading consumes exactly `size()` bits.
  - Reading back what was written restores the component and leaves the rest of the stream
    untouched.
- `leaves.dfy` (module `Leaves`): one class per leaf component, with methods that update the
  component in place. It also holds the range-width computation and the MD5 text form.
- `composites.dfy` (module `Composites`): `ArrayComponent` and `GroupComponent`, plus the loops
  that write and read their field sequences.
- `manager.dfy` (module `GoManager`): `ConstIterator` and `ComponentManager`, and the findings
  about them.

Modelling choices:

- **Component classes.** Each component class exposes `Abs()`, its value as a `Component`.
  Every `Read`, `Write`, `Clear` and `Set` states the new `Abs()` in terms of the
  specification functions.
- **Read and write.** `Write(out)` returns the count and the extended stream. A write that
  cannot be encoded returns an error and leaves the stream alone; this happens for a range
  value outside its bounds, or an array count outside `[mincnt, maxcnt]`.
- **Failed reads.** `Read(input)` returns the count and the rest of the stream. A read that
  runs out of bits, or meets an out-of-range value, returns an error and leaves the component
  unchanged. The header's `read` bodies have no error path, so this error is the model's
  abstraction of a stream that runs dry (see "Left out").
- **Integral values.** An integral value is written as its low `SIZE` bits. The `SIZE` bits
  read back are converted to the declared type, as `set(readBits(SIZE))` does. For a signed
  type the conversion wraps at the type's own width, not at `SIZE`, so a field narrower than its
  type is not sign-extended: an 8-bit signed field of 4 bits reads `1111` as 15.
- **Range components.** A range component writes `value - lower` in `ceil(log2(upper - lower +
  1))` bits. The width is computed by a halving loop and cached: `set` and `clear` leave the
  cache alone, because the width depends only on the bounds.
- **Array element prototype.** An array holds the prototype of its elements explicitly.
  Reading materialises `count` copies of the prototype, each read from the stream. The C++
  constructor `MessageComponentArray(mincnt, maxcnt)` takes no prototype, and the header gives
  the array no element type at all. The model therefore passes the prototype to the
  constructor.
- **Group wire format.** A group writes the presence indicator, then all required fields,
  then the optional fields whose presence flag is set. `AddField` of an optional field adds a
  presence flag that is off. The name table maps a field's name to its slot, and a later
  field shadows an earlier field of the same name.
- **MD5 text form.** The digest's cached string is its 32-character lowercase hex form.
  `Set` accepts hex text of either case. Malformed text is reported as an error and the
  digest is left unchanged. The bodies of `cacheString` and `setFromString` are not part of
  this model, so this text format is the model's own choice.
- **Multimap order.** The multimap is a sequence of `(parent, child)` pairs, sorted by parent,
  with equal parents kept in insertion order. `find(parent)` is the first pair with that
  parent.
- **Iterator positions.** An iterator position is `Singular` (default-constructed), an element
  of some iterator's list, or that list's end.

## Model

| member | source | states |
|---|---|---|
| Components.RangeWidthIsTight | common/net_messagecomponent.h:148-177 | the range width is the least number of bits that can hold every offset `value - lower` of the range |
| Components.RangeWidthExamples | common/net_messagecomponent.h:155 | `[0, 255]` needs 8 bits and `[-5, 5]` needs 4 |
| Components.RangeWidthDefault | common/net_messagecomponent.h:152 | the default bounds `[MININT, MAXINT]` need 32 bits |
| Components.CountWidthDefault | common/net_messagecomponent.h:430 | the default array count bounds `[0, 65535]` need 16 bits |
| Components.FromUnsignedOfBool | common/net_messagecomponent.h:122-125 | a `bool` written as its low bits is read back as the same truth value |
| Components.MessageTypeWireRoundTrip | common/net_messagecomponent.h:523-532 | each message type has its own wire number (0, 1, 2, 10, 11, 20, 21) and is recovered from it |
| Components.ClearIdempotent | common/net_messagecomponent.h:86 | clearing a cleared component changes nothing |
| Components.ClearKeepsShape | common/net_messagecomponent.h:86 | clear keeps the name, bounds, widths and field structure; only values reset |
| Components.FromUnsignedOfFitting | common/net_messagecomponent.h:122-125 | an integral value written as its low bits is read back as the same value of its declared type |
| WireLaws.EncodeSize | common/net_messagecomponent.h:85-89 | a successful write emits exactly `Size(c)` bits, the count write() returns |
| WireLaws.EncodeOkIffInBounds | common/net_messagecomponent.h:89 | writing succeeds exactly when every range value and array count in the tree is within its bounds |
| WireLaws.DecodeConsumesSize | common/net_messagecomponent.h:88 | a successful read consumes exactly the size of the component read, and the rest of the stream is untouched |
| WireLaws.RoundTrip | common/net_messagecomponent.h:88-89 | reading, into a component of the same shape, what a component wrote gives back that component and the rest of the stream |
| WireLaws.RoundTripArray | common/net_messagecomponent.h:438-439 | an array's count and elements survive write then read |
| WireLaws.RoundTripGroup | common/net_messagecomponent.h:490-491 | a group's presence flags, required fields and present optional fields survive write then read; absent optional fields keep their value |
| WireLaws.ReadCountEqualsWriteCount | common/net_messagecomponent.h:88-89 | the count read() reports on the bits write() produced equals the count write() reported, and both equal size() |
| BitStream.ReadWriteBits | common/net_messagecomponent.h:122-125 | `readBits(n)` after `writeBits(v, n)` returns `v` for `v < 2^n` |
| BitStream.ReadWriteS32 | common/net_messagecomponent.h:280-285 | a signed 32-bit value survives writeS32 then readS32 |
| BitStream.ReadWriteFloat | common/net_messagecomponent.h:202-205 | a 32-bit float payload survives writeFloat then readFloat |
| BitStream.ReadWriteString | common/net_messagecomponent.h:242-245 | a string without NUL bytes survives writeString then readString, and the terminator is consumed |
| BitStream.ReadWriteBytes | common/net_messagecomponent.h:397-398 | raw bytes survive write then read |
| Leaves.IntegralComponent.constructor | common/net_messagecomponent.h:111-112 | the default value is 0 |
| Leaves.IntegralComponent.WithValue | common/net_messagecomponent.h:113-114 | the component holds the given value |
| Leaves.IntegralComponent.Size | common/net_messagecomponent.h:117-118 | size is the template width `SIZE`, whatever the value |
| Leaves.IntegralComponent.Set | common/net_messagecomponent.h:129-130 | the value is replaced; name, type and width stay |
| Leaves.IntegralComponent.SetFieldName | common/net_messagecomponent.h:82-83 | the name is replaced and the value kept |
| Leaves.IntegralComponent.Clear | common/net_messagecomponent.h:119-120 | the value becomes 0 |
| Leaves.IntegralComponent.Read | common/net_messagecomponent.h:122-123 | reads `SIZE` bits into the value and returns `SIZE`; with too few bits, an error and no change |
| Leaves.IntegralComponent.Write | common/net_messagecomponent.h:124-125 | appends the value's encoding and returns its length, `SIZE` |
| Leaves.IntegralComponent.Clone | common/net_messagecomponent.h:132-133 | a fresh object with equal value and name |
| Leaves.BitLengthBounds | common/net_messagecomponent.h:155 | the bit length of `d` is the least `k` with `d < 2^k` |
| Leaves.ComputeWidth | common/net_messagecomponent.h:155 | the halving loop computes the range width `ceil(log2(upper - lower + 1))` |
| Leaves.RangeComponent.constructor | common/net_messagecomponent.h:151 | value 0 with bounds `[MININT, MAXINT]`; the size cache starts invalid |
| Leaves.RangeComponent.WithValue | common/net_messagecomponent.h:152 | the given value and bounds, which default to `[MININT, MAXINT]`; the size cache starts invalid |
| Leaves.RangeComponent.Size | common/net_messagecomponent.h:155-172 | returns the range width of the bounds and leaves the cache valid and consistent |
| Leaves.RangeComponent.Set | common/net_messagecomponent.h:164-165 | the value is replaced, the bounds and the size cache are untouched, and a consistent cache stays consistent |
| Leaves.RangeComponent.SetFieldName | common/net_messagecomponent.h:82-83 | the name is replaced and the value and cache kept |
| Leaves.RangeComponent.Clear | common/net_messagecomponent.h:156-157 | the value becomes 0, even when 0 is outside the bounds; the cache is untouched |
| Leaves.RangeComponent.Read | common/net_messagecomponent.h:159 | reads an offset of range-width bits and stores `lower + offset`; an offset past `upper` or too few bits is an error and no change |
| Leaves.RangeComponent.Write | common/net_messagecomponent.h:160 | writes `value - lower` in range-width bits and returns the width; a value outside the bounds is an error and nothing is written |
| Leaves.RangeComponent.Clone | common/net_messagecomponent.h:167-168 | a fresh object with equal value, bounds, name and cache |
| Leaves.FloatComponent.constructor | common/net_messagecomponent.h:191-194 | holds the given 32-bit payload |
| Leaves.FloatComponent.Size | common/net_messagecomponent.h:197-216 | size is 32 |
| Leaves.FloatComponent.Set | common/net_messagecomponent.h:209-210 | the payload is replaced |
| Leaves.FloatComponent.SetFieldName | common/net_messagecomponent.h:82-83 | the name is replaced and the payload kept |
| Leaves.FloatComponent.Clear | common/net_messagecomponent.h:199-200 | the payload becomes 0 |
| Leaves.FloatComponent.Read | common/net_messagecomponent.h:202-203 | reads 32 bits into the payload; with too few bits, an error and no change |
| Leaves.FloatComponent.Write | common/net_messagecomponent.h:204-205 | appends the 32-bit payload and returns 32 |
| Leaves.FloatComponent.Clone | common/net_messagecomponent.h:212-213 | a fresh object with equal payload and name |
| Leaves.StringSizeAsWritten | common/net_messagecomponent.h:237-238 | `8*(length+1)` truncated to 16 bits; it agrees with the true size while that fits |
| Leaves.StringSizeWraps | common/net_messagecomponent.h:237-238 | an 8191-byte string has 16-bit size 0 while its write emits 65536 bits |
| Leaves.StringComponent.constructor | common/net_messagecomponent.h:232-234 | holds the given text |
| Leaves.StringComponent.Size | common/net_messagecomponent.h:237-238 | size is `8*(length+1)`, the bits of the text and its terminator; below 65536 it is the 16-bit value the source returns |
| Leaves.StringComponent.Set | common/net_messagecomponent.h:249-250 | the text is replaced |
| Leaves.StringComponent.SetFieldName | common/net_messagecomponent.h:82-83 | the name is replaced and the text kept |
| Leaves.StringComponent.Clear | common/net_messagecomponent.h:239-240 | the text becomes empty |
| Leaves.StringComponent.Read | common/net_messagecomponent.h:242-243 | reads a NUL-terminated string and returns the size of the string just read; without a terminator, an error and no change |
| Leaves.StringComponent.Write | common/net_messagecomponent.h:244-245 | writes the text and its terminator and returns the size of the current text |
| Leaves.StringComponent.Clone | common/net_messagecomponent.h:252-253 | a fresh object with equal text and name |
| Leaves.V2FixedComponent.constructor | common/net_messagecomponent.h:270-272 | holds the given axes |
| Leaves.V2FixedComponent.Size | common/net_messagecomponent.h:275-276 | size is 64 |
| Leaves.V2FixedComponent.Set | common/net_messagecomponent.h:289-290 | both axes are replaced |
| Leaves.V2FixedComponent.SetFieldName | common/net_messagecomponent.h:82-83 | the name is replaced and the axes kept |
| Leaves.V2FixedComponent.Clear | common/net_messagecomponent.h:277-278 | both axes become 0 |
| Leaves.V2FixedComponent.Read | common/net_messagecomponent.h:280-282 | reads x then y as signed 32-bit values; with too few bits, an error and no change |
| Leaves.V2FixedComponent.Write | common/net_messagecomponent.h:283-285 | writes x then y and returns 64 |
| Leaves.V2FixedComponent.Clone | common/net_messagecomponent.h:292-293 | a fresh object with equal axes and name |
| Leaves.V3FixedComponent.constructor | common/net_messagecomponent.h:311-313 | holds the given axes |
| Leaves.V3FixedComponent.Size | common/net_messagecomponent.h:316-317 | size is 96 |
| Leaves.V3FixedComponent.Set | common/net_messagecomponent.h:330-331 | all three axes are replaced |
| Leaves.V3FixedComponent.SetFieldName | common/net_messagecomponent.h:82-83 | the name is replaced and the axes kept |
| Leaves.V3FixedComponent.Clear | common/net_messagecomponent.h:318-319 | all three axes become 0 |
| Leaves.V3FixedComponent.Read | common/net_messagecomponent.h:321-323 | reads x, y, z in that order; with too few bits, an error and no change |
| Leaves.V3FixedComponent.Write | common/net_messagecomponent.h:324-326 | writes x, y, z in that order and returns 96 |
| Leaves.V3FixedComponent.Clone | common/net_messagecomponent.h:333-334 | a fresh object with equal axes and name |
| Leaves.BitFieldComponent.constructor | common/net_messagecomponent.h:352 | `num_fields` flags, all off; `num_fields` defaults to 32 |
| Leaves.BitFieldComponent.WithValue | common/net_messagecomponent.h:353 | holds the given flags |
| Leaves.BitFieldComponent.Size | common/net_messagecomponent.h:356-357 | size is the number of flags |
| Leaves.BitFieldComponent.Set | common/net_messagecomponent.h:366-367 | the flags are replaced |
| Leaves.BitFieldComponent.SetFieldName | common/net_messagecomponent.h:82-83 | the name is replaced and the flags kept |
| Leaves.BitFieldComponent.Clear | common/net_messagecomponent.h:358-359 | every flag turns off and the number of flags stays |
| Leaves.BitFieldComponent.Read | common/net_messagecomponent.h:361 | reads one bit per flag; with too few bits, an error and no change |
| Leaves.BitFieldComponent.Write | common/net_messagecomponent.h:362 | writes one bit per flag and returns their number |
| Leaves.BitFieldComponent.Clone | common/net_messagecomponent.h:369-370 | a fresh object with equal flags and name |
| Leaves.ParseFormatHex | common/net_messagecomponent.h:409-410 | parsing the hex text of any bytes gives back those bytes |
| Leaves.FormatParseHex | common/net_messagecomponent.h:409-410 | lowercase hex text of even length is the formatted form of the bytes it parses to |
| Leaves.DigestTextRoundTrip | common/net_messagecomponent.h:409-416 | the cached text of a 16-byte digest has 32 characters and parses back to the digest |
| Leaves.DigestTextCanonical | common/net_messagecomponent.h:409-416 | every 32-character lowercase hex text is the cached text of exactly the digest it parses to |
| Leaves.Md5SumComponent.constructor | common/net_messagecomponent.h:389 | a zero digest with its cached text consistent |
| Leaves.Md5SumComponent.FromText | common/net_messagecomponent.h:390 | the digest the text denotes, or zero for malformed text, with the cache consistent |
| Leaves.Md5SumComponent.Size | common/net_messagecomponent.h:393-412 | size is 128 |
| Leaves.Md5SumComponent.Get | common/net_messagecomponent.h:400-401 | returns the 32-character cached text, which parses back to the stored digest |
| Leaves.Md5SumComponent.Set | common/net_messagecomponent.h:402-403 | well-formed text sets the digest it denotes and refreshes the cache; malformed text is an error and changes nothing |
| Leaves.Md5SumComponent.SetFieldName | common/net_messagecomponent.h:82-83 | the name is replaced and digest and cache kept |
| Leaves.Md5SumComponent.Clear | common/net_messagecomponent.h:395 | the digest becomes zero and the cache follows |
| Leaves.Md5SumComponent.Read | common/net_messagecomponent.h:397 | reads 16 bytes into the digest and refreshes the cache; with too few bits, an error and no change |
| Leaves.Md5SumComponent.Write | common/net_messagecomponent.h:398 | writes the 16 digest bytes and returns 128 |
| Leaves.Md5SumComponent.Copy | common/net_messagecomponent.h:405-406 | equal digest, name and cached text |
| Leaves.Md5SumComponent.Clone | common/net_messagecomponent.h:405-406 | a fresh object with equal digest, name and cached text |
| Leaves.BaseMessage.constructor | common/net_messagecomponent.h:534-553 | a message of the given type |
| Leaves.BaseMessage.GetMessageType | common/net_messagecomponent.h:539-540 | returns the message's type, which its wire number identifies |
| Leaves.BaseMessage.Size | common/net_messagecomponent.h:542 | size is 0 |
| Leaves.BaseMessage.Clear | common/net_messagecomponent.h:543 | clear changes nothing |
| Leaves.BaseMessage.Read | common/net_messagecomponent.h:545 | consumes nothing, returns 0 and is a valid decode of the message |
| Leaves.BaseMessage.Write | common/net_messagecomponent.h:546 | writes nothing and returns 0 |
| Leaves.BaseMessage.Clone | common/net_messagecomponent.h:548-549 | a fresh message of the same type and name |
| Composites.WriteFields | common/net_messagecomponent.h:491 | writing each field in order produces the concatenated encodings, or the first error |
| Composites.WriteOptionalFields | common/net_messagecomponent.h:491 | writing each optional field whose flag is set produces their concatenated encodings |
| Composites.ReadFields | common/net_messagecomponent.h:490 | reading each field in order is the sequence decode, keeping every field's name and the number of fields |
| Composites.ReadOptionalFields | common/net_messagecomponent.h:490 | reading only the flagged optional fields is the optional decode; unflagged fields keep their value |
| Composites.ReadElements | common/net_messagecomponent.h:438 | reading `count` elements from the prototype yields exactly `count` elements |
| Composites.ConsumedIsSize | common/net_messagecomponent.h:88 | the bits a successful read consumes are the size of what it read |
| Composites.ArrayComponent.constructor | common/net_messagecomponent.h:430 | an empty array with the given count bounds, which default to `[0, 65535]` as in the header, and an invalid size cache |
| Composites.ArrayComponent.Copy | common/net_messagecomponent.h:431 | a copy with equal bounds, prototype, elements and name |
| Composites.ArrayComponent.Size | common/net_messagecomponent.h:435-446 | the count field's width plus the elements' sizes; the cache is left valid |
| Composites.ArrayComponent.Clear | common/net_messagecomponent.h:436 | no elements remain |
| Composites.ArrayComponent.SetFieldName | common/net_messagecomponent.h:82-83 | the name is replaced and the elements kept |
| Composites.ArrayComponent.Write | common/net_messagecomponent.h:439 | writes the count in range-bounded form, then each element, and returns the size; a count outside the bounds is an error and nothing is written |
| Composites.ArrayComponent.Read | common/net_messagecomponent.h:438 | reads the count, rejects one outside `[mincnt, maxcnt]`, then reads that many elements; on any error the array is unchanged |
| Composites.ArrayComponent.Clone | common/net_messagecomponent.h:441-442 | a fresh array equal to this one |
| Composites.GroupComponent.constructor | common/net_messagecomponent.h:483 | no fields, no presence flags, an empty name table |
| Composites.GroupComponent.Copy | common/net_messagecomponent.h:484 | a copy with equal fields, flags, name and name table |
| Composites.GroupComponent.HasField | common/net_messagecomponent.h:496-505 | true exactly when a required or optional field carries that non-empty name |
| Composites.IndexAddOptional | common/net_messagecomponent.h:498-505 | after an optional field is appended and its name registered, every named field is still in the table and every entry still points at a field of that name |
| Composites.IndexAddRequired | common/net_messagecomponent.h:498-505 | the same for a required field: the name table still indexes exactly the named fields |
| Composites.GroupComponent.AddField | common/net_messagecomponent.h:498-511 | the field is appended to exactly one of the optional or required sequences; an optional field adds a presence flag that is off, so the indicator's width stays the number of optional fields; afterwards `hasField(name)` holds |
| Composites.GroupComponent.Size | common/net_messagecomponent.h:487-502 | the indicator's width plus the required fields plus the present optional fields; the cache is left valid |
| Composites.GroupComponent.Clear | common/net_messagecomponent.h:488 | every field and every presence flag is cleared; the fields and the name table stay |
| Composites.GroupComponent.SetFieldName | common/net_messagecomponent.h:82-83 | the name is replaced and the fields kept |
| Composites.GroupComponent.Write | common/net_messagecomponent.h:491 | writes the indicator, the required fields, then the present optional fields, and returns the size; any field that cannot be written is an error and nothing is written |
| Composites.GroupComponent.Read | common/net_messagecomponent.h:490 | reads the indicator, the required fields, then the flagged optional fields; on any error the group is unchanged |
| Composites.GroupComponent.Clone | common/net_messagecomponent.h:493-494 | a fresh group equal to this one, name table included |
| GoManager.RemoveFirstAt | common/go_manager.h:104-109 | erasing the first occurrence keeps everything before it and after it, in order |
| GoManager.RemoveFirstMultiset | common/go_manager.h:104-109 | exactly one copy of a present id leaves the list, and an absent id changes nothing |
| GoManager.ConstIterator.constructor | common/go_manager.h:111-112 | an empty list and a singular position |
| GoManager.ConstIterator.Equal | common/go_manager.h:62-66 | true exactly when this is at its own list's end and the other list is empty, or both positions coincide |
| GoManager.ConstIterator.NotEqualAsWritten | common/go_manager.h:68-71 | true exactly when the positions differ; false implies equal |
| GoManager.ConstIterator.NotEqual | common/go_manager.h:62-71 | the negation of `==`; it implies the source's `!=` |
| GoManager.ConstIterator.Deref | common/go_manager.h:73-76 | the id at the position, an element of the list it points into |
| GoManager.ConstIterator.PreIncrement | common/go_manager.h:83-87 | one step along the list pointed into, reaching its end after the last element; returns the iterator itself |
| GoManager.ConstIterator.PostIncrement | common/go_manager.h:89-94 | returns a copy at the old position and then advances one step |
| GoManager.ConstIterator.AddComponent | common/go_manager.h:99-102 | appends the id at the end of the list; earlier entries and the position stay |
| GoManager.ConstIterator.RemoveComponent | common/go_manager.h:104-109 | erases only the first occurrence of the id, keeping order; an absent id changes nothing; a position after the erased element follows its element |
| GoManager.EndComparesBothWays | common/go_manager.h:62-71 | an iterator walked to the end of its list compares `==` to `end()`, and the source's `!=` also reports it different |
| GoManager.ScanFromFindIs | common/go_manager.h:158-171 | the scan from `find(parent)` collects nothing when the parent is absent, and otherwise the parent's children followed by those of every greater parent |
| GoManager.ScanIsChildrenIff | common/go_manager.h:158-171 | the scan yields exactly the parent's children if and only if no greater parent has children |
| GoManager.GetChildrenTakesInGreaterParents | common/go_manager.h:158-171 | with pairs (1,5),(2,7), `getChildren(1)` collects 5 and 7 although only 5 is a child of 1 |
| GoManager.GetAttributeTakesInGreaterParents | common/go_manager.h:128-139 | with the same pairs, looking up a name that only child 7 carries under parent 1 finds 7 |
| GoManager.ComponentManager.constructor | common/go_manager.h:118 | no components and no parent-child pairs |
| GoManager.ComponentManager.FindParent | common/go_manager.h:162 | `find(parent)`: the first pair of the parent, or the end when it has none |
| GoManager.ComponentManager.GetChildren | common/go_manager.h:158-171 | a fresh iterator whose list is the scan from `find(parent)` to the end of the map, positioned at its first element (at its end when empty) |
| GoManager.ComponentManager.GetChildrenOf | common/go_manager.h:158-171 | a fresh iterator over exactly the parent's children, positioned at the first |
| GoManager.ComponentManager.GetAttributeByName | common/go_manager.h:128-139 | along that same scan, the first component whose attribute name matches decides: it is returned if it has the requested type, and null otherwise; null when no name matches |
| GoManager.FirstNamedFrom | common/go_manager.h:130-138 | the loop of `getAttribute(parent, name)`: walking the pairs from `find(parent)` on, it returns the first child whose attribute name matches, or null |
| GoManager.ComponentManager.GetAttributeOf | common/go_manager.h:128-139 | the same lookup restricted to the parent's own children |
| GoManager.ComponentManager.GetAttribute | common/go_manager.h:141-148 | the stored component exactly when the id is present and has the requested type, and null otherwise |
| GoManager.ComponentManager.Begin | common/go_manager.h:173-177 | a fresh default iterator: empty list, singular position |
| GoManager.ComponentManager.End | common/go_manager.h:179-182 | a fresh default iterator: empty list, singular position |
| GoManager.CollectChildren | common/go_manager.h:62-94 | a walk from the children iterator to `end()` using the corrected `!=` stops, and visits every child of the parent once, in order |

## Left out

- Bit order and buffer growth of `BitStream`. `net_bitstream.h` is not part of this model. The stream is an abstract `seq<bool>`, with values written least significant bit first.
- Float semantics. A float is an opaque 32-bit payload, and only its constant size and its round trip are modelled.
- Ownership, aliasing and destruction of child components. The children of an array or group are component values rather than owned pointers. Destructors and `operator=` are not modelled.
- `HashTable`, `SArray` and `BitField` internals. They are Dafny maps, sequences and `seq<bool>`.
- The 16-bit return type of `size()`, `read()` and `write()`. Counts are unbounded numbers. For strings the wrap is recorded as a finding. The other places where it matters follow.
- Composites.ArrayComponent.Size: the source returns and caches the size as a `uint16_t`, so it wraps. With the default bounds `[0, 65535]`, 2048 elements of 32 bits give 16 + 65536 bits, which the source reports as 16. The model returns the true bit count.
- Composites.GroupComponent.Size: the same `uint16_t` wrap. Two required strings of 4095 bytes give 65536 bits, which the source reports as 0. The model returns the true bit count.
- Leaves.BitFieldComponent.Size: the same `uint16_t` wrap for 65536 or more flags. The model returns the number of flags.
- Composites.GroupComponent.Size: `addField` takes a pointer the caller may keep and change. A child changed in place after `size()` leaves the group's cached size stale. The model's children are values, so its cache invariant holds by construction and this hazard is not expressed. The same applies to `Composites.ArrayComponent.Size`.
- Reads past the end of the stream. The `read` bodies in the header have no error path. They store whatever the stream yields and return `SIZE` or `size()`, and what `BitStream` yields when it runs dry is not part of this model. The model's own abstraction is to report `Err(StreamExhausted)`, leave the component unchanged and consume nothing. This affects Leaves.IntegralComponent.Read, Leaves.RangeComponent.Read, Leaves.FloatComponent.Read, Leaves.StringComponent.Read, Leaves.V2FixedComponent.Read, Leaves.V3FixedComponent.Read, Leaves.BitFieldComponent.Read, Leaves.Md5SumComponent.Read, Composites.ArrayComponent.Read and Composites.GroupComponent.Read.
- Leaves.RangeComponent.Read: rejecting a decoded offset past `upper` is the model's choice. `RangeMessageComponent::read` has no body in the header.
- Composites.ArrayComponent.Read: the count is checked against `[mincnt, maxcnt]` by reading it as a range value. The array's internal `RangeMessageComponent mCountField` is not a separate object in the model.
- Composites.ArrayComponent.constructor: it takes the element prototype as a parameter. The C++ constructor has no such parameter.
- Leaves.Md5SumComponent.FromText: malformed text gives the zero digest. This is the model's choice, because `setFromString` has no body in the header.
- Composites.GroupComponent.Clear: every presence flag is turned off along with clearing each field. This is the model's choice, because `clear` has no body in the header.
- Leaves.BaseMessage.constructor: the header's `Message` declares no constructor, and nothing visible sets its private `mMessageType`. `getMessageType()` therefore reads a member that the header never initialises. The model's constructor takes the type as a parameter, which makes `GetMessageType` well defined.
- Leaves.Md5SumComponent.Set: the hex text format (lowercase output, either case accepted) is the model's. `cacheString` and `setFromString` have no bodies in the header.
- GoManager.ConstIterator.PreIncrement: requires the position to be at an element. Incrementing a singular or end iterator is undefined for `std::list`.
- GoManager.ConstIterator.RemoveComponent: requires that the iterator's own position is not at the erased element. Erasing it would leave `mIt` dangling.
- GoManager.ConstIterator.RemoveComponent: positions held by other iterators, such as a postfix-increment copy, are not shifted when this list loses an element.
- GoManager.ConstIterator.Deref: `operator->` is the same access and is not modelled separately.
- GoManager.ComponentManager.GetAttributeByName: requires every child id in the map to be a stored component. The source would dereference a null component otherwise.
- `dynamic_cast<T*>`: a type test on the component record, passed in as a predicate.
- Copy elision: `getChildren` is modelled with the returned iterator's position pointing into its own list. This is what named return value optimisation gives.
- `addAttribute`, `clearComponents`, `getComponentTypeName` and `ComponentTypeDatabase`. Their bodies depend on files that are not part of this model.
- GoManager.ComponentManager.FindParent: `std::multimap::find` may return any element whose key is equal; the standard does not promise the first one. The model fixes it to the first pair of the parent. The findings hold either way, because the scan runs on to the end of the map from whichever pair is found.
- `ComponentId` is a `uint32_t`. It is a natural number here, and no id arithmetic is done.
- `client/src/m_misc.cpp`: configuration-file and console I/O, which is not part of this model.

## Findings

| source | as written | input that shows it | evidently intended | confidence | as-written member | corrected member |
|---|---|---|---|---|---|---|
| common/net_messagecomponent.h:237-238 | `size()` returns `8*(length+1)` as a `uint16_t` | a string of 8191 bytes: `size()` and the count `read`/`write` return are 0, while 65536 bits are written | the number of bits written | medium; not executed | Leaves.StringSizeAsWritten, Leaves.StringSizeWraps | Leaves.StringComponent.Size |
| common/go_manager.h:158-171 | `getChildren` collects every pair from `find(parent)` to the end of the multimap | pairs (1,5),(2,7): `getChildren(1)` yields 5 and 7 | only the children of `parent` (up to `upper_bound(parent)`) | high; not executed | GoManager.ComponentManager.GetChildren, GoManager.GetChildrenTakesInGreaterParents | GoManager.ComponentManager.GetChildrenOf |
| common/go_manager.h:128-139 | `getAttribute(parent, name)` scans from `find(parent)` to the end of the multimap | pairs (1,5),(2,7), component 7 named "b": `getAttribute(1, "b")` returns 7 | only the children of `parent` are searched | high; not executed | GoManager.ComponentManager.GetAttributeByName, GoManager.GetAttributeTakesInGreaterParents | GoManager.ComponentManager.GetAttributeOf |
| common/go_manager.h:68-71 | `operator!=` compares positions only, so it is not the negation of `operator==` | an iterator walked to the end of its list, against `end()`: `==` and `!=` are both true, so `for (it = getChildren(p); it != end(); ++it)` never stops | `!(*this == other)` | high; not executed | GoManager.ConstIterator.NotEqualAsWritten, GoManager.EndComparesBothWays | GoManager.ConstIterator.NotEqual, GoManager.CollectChildren |
