/** ComponentManager's child index and its const_iterator.

    The parent-to-children std::multimap is a sequence of (parent, child) pairs kept sorted
    by parent, pairs of equal parent in insertion order; the component store maps ids to the
    attribute and type names of the stored components. A const_iterator owns a list of ids
    and a position, which may point into its own list or into the list of the iterator it was
    copied from. */
module GoManager {
  import opened BitStream

  type ComponentId = nat

  /** What the manager knows of a stored component. */
  datatype ComponentRecord = ComponentRecord(attributeName: string, typeName: string)

  // ---------------------------------------------------------------------------
  // The list helpers of const_iterator
  // ---------------------------------------------------------------------------

  /** The list with the first occurrence of `id` erased. */
  function RemoveFirst(s: seq<ComponentId>, id: ComponentId): (r: seq<ComponentId>)
    ensures id !in s ==> r == s
    ensures id in s ==> |r| == |s| - 1
  {
    if s == [] then []
    else if s[0] == id then s[1..]
    else [s[0]] + RemoveFirst(s[1..], id)
  }

  /** Erasing the first occurrence at `i` keeps everything before it and everything after
      it, in order. */
  lemma {:induction false} RemoveFirstAt(s: seq<ComponentId>, id: ComponentId, i: nat)
    requires i < |s| && s[i] == id && id !in s[..i]
    ensures RemoveFirst(s, id) == s[..i] + s[i + 1..]
  {
    if i > 0 {
      assert s[0] in s[..i];
      assert s[1..][..i - 1] == s[..i][1..];
      RemoveFirstAt(s[1..], id, i - 1);
      assert s[1..][i..] == s[i + 1..];
      assert s[..i] == [s[0]] + s[1..][..i - 1];
    }
  }

  /** Exactly one copy of `id` leaves when there is one; nothing else changes in number. */
  lemma {:induction false} RemoveFirstMultiset(s: seq<ComponentId>, id: ComponentId)
    ensures multiset(RemoveFirst(s, id)) + (if id in s then multiset{id} else multiset{}) == multiset(s)
  {
    if s != [] {
      RemoveFirstMultiset(s[1..], id);
      assert s == [s[0]] + s[1..];
      assert multiset(s) == multiset{s[0]} + multiset(s[1..]);
    }
  }

  // ---------------------------------------------------------------------------
  // const_iterator
  // ---------------------------------------------------------------------------

  /** Where an iterator's list position points: nowhere (a default-constructed iterator),
      at an element of some iterator's list, or at the end of that list. */
  datatype Position = Singular | Elem(owner: ConstIterator, index: nat) | AtEnd(owner: ConstIterator)

  class ConstIterator {
    /** mComponentList */
    var items: seq<ComponentId>
    /** mIt */
    var pos: Position

    function Owner(): set<object>
      reads this
    {
      if pos.Singular? then {} else {pos.owner}
    }

    /** The position points at an element that exists. */
    predicate AtElement()
      reads this, Owner()
    {
      pos.Elem? && pos.index < |pos.owner.items|
    }

    /** A default-constructed iterator: an empty list and a singular position. This is
        what begin() and end() return. */
    constructor ()
      ensures items == [] && pos == Singular
    {
      items, pos := [], Singular;
    }

    /** operator==: this is at the end of its own list and the other list is empty, or both
        positions are the same. */
    function Equal(other: ConstIterator): (b: bool)
      reads this, other
      ensures pos == other.pos ==> b
      ensures pos == AtEnd(this) && other.items == [] ==> b
      ensures b ==> pos == other.pos || (pos == AtEnd(this) && other.items == [])
    {
      (pos == AtEnd(this) && other.items == []) || pos == other.pos
    }

    /** operator!= as the source has it: the positions differ. */
    function NotEqualAsWritten(other: ConstIterator): (b: bool)
      reads this, other
      ensures b <==> !(pos == other.pos)
      ensures !b ==> Equal(other)
    {
      pos != other.pos
    }

    /** operator!= as the negation of operator==. */
    function NotEqual(other: ConstIterator): (b: bool)
      reads this, other
      ensures b <==> !Equal(other)
      ensures b ==> NotEqualAsWritten(other)
    {
      !Equal(other)
    }

    /** operator*: the id at the position. */
    function Deref(): (id: ComponentId)
      reads this, Owner()
      requires AtElement()
      ensures id in pos.owner.items && id == pos.owner.items[pos.index]
    {
      pos.owner.items[pos.index]
    }

    /** prefix operator++: one step along the list the position points into; from the last
        element it reaches that list's end. Returns this iterator. */
    method PreIncrement() returns (self: ConstIterator)
      requires AtElement()
      modifies this
      ensures self == this && items == old(items)
      ensures pos == Advanced(old(pos), |old(pos.owner.items)|)
    {
      pos := Advanced(pos, |pos.owner.items|);
      self := this;
    }

    /** postfix operator++: a copy made before the step (its position still points into the
        list it pointed into), then the step. */
    method PostIncrement() returns (temp: ConstIterator)
      requires AtElement()
      modifies this
      ensures fresh(temp) && temp.items == old(items) && temp.pos == old(pos)
      ensures items == old(items) && pos == Advanced(old(pos), |old(pos.owner.items)|)
    {
      temp := new ConstIterator();
      temp.items, temp.pos := items, pos;
      pos := Advanced(pos, |pos.owner.items|);
    }

    /** addComponent(id): push_back; positions, the end position included, stay put. */
    method AddComponent(id: ComponentId)
      modifies this
      ensures items == old(items) + [id] && pos == old(pos)
    {
      items := items + [id];
    }

    /** removeComponent(id): erases the first occurrence of `id`, if any. A position into
        this list after the erased element moves back with its element; the position may
        not be at the erased element itself. */
    method RemoveComponent(id: ComponentId)
      requires !(pos.Elem? && pos.owner == this && pos.index < |items| && items[pos.index] == id &&
                 id !in items[..pos.index])
      modifies this
      ensures items == RemoveFirst(old(items), id)
      ensures id !in old(items) ==> pos == old(pos)
      ensures pos == Shifted(old(pos), this, old(items), id)
    {
      var i := 0;
      while i < |items| && items[i] != id
        invariant 0 <= i <= |items| && id !in items[..i]
      {
        assert items[..i + 1] == items[..i] + [items[i]];
        i := i + 1;
      }
      if i < |items| {
        RemoveFirstAt(items, id, i);
        if pos.Elem? && pos.owner == this && pos.index > i {
          pos := Elem(this, pos.index - 1);
        }
        items := items[..i] + items[i + 1..];
      } else {
        assert items[..i] == items;
      }
    }
  }

  /** The position one step on from an element position, in a list of `len` ids. */
  function Advanced(p: Position, len: nat): (q: Position)
    requires p.Elem?
    ensures q.Elem? || q.AtEnd?
    ensures q.owner == p.owner
    ensures q.Elem? ==> q.index == p.index + 1 && q.index < len
  {
    if p.index + 1 < len then Elem(p.owner, p.index + 1) else AtEnd(p.owner)
  }

  /** The position after erasing the first `id` from `items`, the list of `owner`. */
  function Shifted(p: Position, owner: ConstIterator, items: seq<ComponentId>, id: ComponentId): Position {
    if p.Elem? && p.owner == owner && id in items && p.index > FirstIndex(items, id)
    then Elem(owner, p.index - 1)
    else p
  }

  function FirstIndex(s: seq<ComponentId>, id: ComponentId): (i: nat)
    requires id in s
    ensures i < |s| && s[i] == id && id !in s[..i]
  {
    if s[0] == id then 0
    else
      var j := FirstIndex(s[1..], id);
      assert s[..j + 1] == [s[0]] + s[1..][..j];
      j + 1
  }

  /** An iterator that has walked to the end of its own list compares == to end(), and
      the source's != also reports it unequal to end(): both at once. */
  lemma EndComparesBothWays(it: ConstIterator, end: ConstIterator)
    requires it.pos == AtEnd(it)
    requires end.items == [] && end.pos == Singular
    ensures it.Equal(end)
    ensures it.NotEqualAsWritten(end)
    ensures !it.NotEqual(end)
  {
  }

  // ---------------------------------------------------------------------------
  // The parent-to-children multimap
  // ---------------------------------------------------------------------------

  predicate SortedByParent(m: seq<(ComponentId, ComponentId)>) {
    forall i, j :: 0 <= i < j < |m| ==> m[i].0 <= m[j].0
  }

  predicate HasParent(m: seq<(ComponentId, ComponentId)>, parent: ComponentId) {
    exists i :: 0 <= i < |m| && m[i].0 == parent
  }

  /** The children of `parent`, in map order. */
  function ChildrenOf(m: seq<(ComponentId, ComponentId)>, parent: ComponentId): (r: seq<ComponentId>)
    ensures |r| <= |m|
    ensures forall c :: c in r ==> (exists i :: 0 <= i < |m| && m[i] == (parent, c))
    ensures r == [] <==> !HasParent(m, parent)
  {
    if m == [] then []
    else
      var rest := ChildrenOf(m[1..], parent);
      assert forall c :: c in rest ==> (exists i :: 0 <= i < |m| && m[i] == (parent, c)) by {
        forall c | c in rest ensures exists i :: 0 <= i < |m| && m[i] == (parent, c) {
          var k :| 0 <= k < |m[1..]| && m[1..][k] == (parent, c);
          assert m[k + 1] == (parent, c);
        }
      }
      assert HasParent(m[1..], parent) ==> HasParent(m, parent) by {
        if HasParent(m[1..], parent) {
          var k :| 0 <= k < |m[1..]| && m[1..][k].0 == parent;
          assert m[k + 1].0 == parent;
        }
      }
      assert HasParent(m, parent) && m[0].0 != parent ==> HasParent(m[1..], parent) by {
        if HasParent(m, parent) && m[0].0 != parent {
          var k :| 0 <= k < |m| && m[k].0 == parent;
          assert m[1..][k - 1].0 == parent;
        }
      }
      if m[0].0 == parent then [m[0].1] + rest else rest
  }

  /** The children of every parent greater than `parent`, in map order. */
  function ChildrenAbove(m: seq<(ComponentId, ComponentId)>, parent: ComponentId): (r: seq<ComponentId>)
    ensures |r| <= |m|
  {
    if m == [] then []
    else if m[0].0 > parent then [m[0].1] + ChildrenAbove(m[1..], parent)
    else ChildrenAbove(m[1..], parent)
  }

  function Children(m: seq<(ComponentId, ComponentId)>): (r: seq<ComponentId>)
    ensures |r| == |m| && forall i :: 0 <= i < |m| ==> r[i] == m[i].1
  {
    if m == [] then [] else [m[0].1] + Children(m[1..])
  }

  /** std::multimap::find on the sorted pairs: the first pair of that parent, or |m|. */
  function Find(m: seq<(ComponentId, ComponentId)>, parent: ComponentId): (i: nat)
    requires SortedByParent(m)
    ensures i <= |m|
    ensures i < |m| <==> HasParent(m, parent)
    ensures i < |m| ==> m[i].0 == parent && forall j :: 0 <= j < i ==> m[j].0 < parent
  {
    if HasParent(m, parent) then FirstOf(m, parent) else |m|
  }

  function FirstOf(m: seq<(ComponentId, ComponentId)>, parent: ComponentId): (i: nat)
    requires SortedByParent(m) && HasParent(m, parent)
    ensures i < |m| && m[i].0 == parent && forall j :: 0 <= j < i ==> m[j].0 < parent
  {
    if m[0].0 == parent then 0
    else
      assert HasParent(m[1..], parent) by {
        var k :| 0 <= k < |m| && m[k].0 == parent;
        assert m[1..][k - 1].0 == parent;
      }
      1 + FirstOf(m[1..], parent)
  }

  /** The ids getChildren(parent) collects: every child from the first pair of `parent` to
      the end of the map. */
  function ScanFromFind(m: seq<(ComponentId, ComponentId)>, parent: ComponentId): seq<ComponentId>
    requires SortedByParent(m)
  {
    Children(m[Find(m, parent)..])
  }

  /** On a sorted map, the pairs before the first pair of `parent` contribute nothing to
      the children of `parent` or of any greater parent. */
  lemma {:induction false} SkipSmaller(m: seq<(ComponentId, ComponentId)>, parent: ComponentId, k: nat)
    requires k <= |m| && forall j :: 0 <= j < k ==> m[j].0 < parent
    ensures ChildrenOf(m, parent) == ChildrenOf(m[k..], parent)
    ensures ChildrenAbove(m, parent) == ChildrenAbove(m[k..], parent)
  {
    if k > 0 {
      assert m[1..][k - 1..] == m[k..];
      SkipSmaller(m[1..], parent, k - 1);
    }
  }

  /** A sorted run of pairs whose parents are all at least `parent` lists the children of
      `parent` first, then those of the greater parents. */
  lemma {:induction false} SplitSortedRun(m: seq<(ComponentId, ComponentId)>, parent: ComponentId)
    requires SortedByParent(m) && forall j :: 0 <= j < |m| ==> m[j].0 >= parent
    ensures Children(m) == ChildrenOf(m, parent) + ChildrenAbove(m, parent)
  {
    if m != [] {
      SplitSortedRun(m[1..], parent);
      if m[0].0 > parent {
        AllAbove(m, parent);
        assert ChildrenOf(m, parent) == [];
      } else {
        assert [m[0].1] + ChildrenOf(m[1..], parent) + ChildrenAbove(m[1..], parent)
          == [m[0].1] + (ChildrenOf(m[1..], parent) + ChildrenAbove(m[1..], parent));
      }
    }
  }

  lemma AllAbove(m: seq<(ComponentId, ComponentId)>, parent: ComponentId)
    requires SortedByParent(m) && m != [] && m[0].0 > parent
    ensures !HasParent(m, parent)
  {
  }

  /** What getChildren(parent) collects: nothing when `parent` has no children, and
      otherwise the children of `parent` followed by the children of every greater parent. */
  lemma ScanFromFindIs(m: seq<(ComponentId, ComponentId)>, parent: ComponentId)
    requires SortedByParent(m)
    ensures ScanFromFind(m, parent) ==
      if HasParent(m, parent) then ChildrenOf(m, parent) + ChildrenAbove(m, parent) else []
  {
    var k := Find(m, parent);
    if HasParent(m, parent) {
      SkipSmaller(m, parent, k);
      assert SortedByParent(m[k..]);
      assert forall j :: 0 <= j < |m[k..]| ==> m[k..][j].0 >= parent by {
        forall j | 0 <= j < |m[k..]| ensures m[k..][j].0 >= parent {
          assert m[k..][j] == m[k + j];
        }
      }
      SplitSortedRun(m[k..], parent);
    }
  }

  /** The scan collects exactly the children of `parent` precisely when no greater parent
      has children. */
  lemma ScanIsChildrenIff(m: seq<(ComponentId, ComponentId)>, parent: ComponentId)
    requires SortedByParent(m)
    ensures ScanFromFind(m, parent) == ChildrenOf(m, parent) <==>
      (!HasParent(m, parent) || ChildrenAbove(m, parent) == [])
  {
    ScanFromFindIs(m, parent);
    if HasParent(m, parent) && ScanFromFind(m, parent) == ChildrenOf(m, parent) {
      var c, a := ChildrenOf(m, parent), ChildrenAbove(m, parent);
      assert |c + a| == |c| + |a|;
    }
    if HasParent(m, parent) && ChildrenAbove(m, parent) == [] {
      assert ChildrenOf(m, parent) + [] == ChildrenOf(m, parent);
    }
  }

  /** A parent 1 with child 5 and a parent 2 with child 7: getChildren(1) yields 5 and 7. */
  lemma GetChildrenTakesInGreaterParents()
    ensures SortedByParent([(1, 5), (2, 7)])
    ensures ScanFromFind([(1, 5), (2, 7)], 1) == [5, 7]
    ensures ChildrenOf([(1, 5), (2, 7)], 1) == [5]
  {
    var m := [(1, 5), (2, 7)];
    assert m[0].0 == 1;
    ScanFromFindIs(m, 1);
  }

  /** The same map, with component 5 named "a" and component 7 named "b": looking up "b"
      under parent 1 along the scan finds 7, the child of parent 2; parent 1 has no child
      named "b". */
  lemma GetAttributeTakesInGreaterParents()
    ensures ScanFromFind([(1, 5), (2, 7)], 1) == [5, 7]
    ensures FirstNamed(map[5 := ComponentRecord("a", "T"), 7 := ComponentRecord("b", "T")],
                       [5, 7], "b") == Some(7)
    ensures FirstNamed(map[5 := ComponentRecord("a", "T"), 7 := ComponentRecord("b", "T")],
                       ChildrenOf([(1, 5), (2, 7)], 1), "b") == None
  {
    GetChildrenTakesInGreaterParents();
    var components := map[5 := ComponentRecord("a", "T"), 7 := ComponentRecord("b", "T")];
    assert components[5].attributeName != "b";
    assert [5, 7][1..] == [7];
  }

  /** The first id in `ids` whose component carries the attribute name. */
  function FirstNamed(components: map<ComponentId, ComponentRecord>, ids: seq<ComponentId>, name: string): (r: Option<ComponentId>)
    requires forall id :: id in ids ==> id in components
    ensures r.Some? ==> r.value in ids && components[r.value].attributeName == name
    ensures r.None? <==> forall id :: id in ids ==> components[id].attributeName != name
    ensures r.Some? ==> exists k :: (0 <= k < |ids| && ids[k] == r.value &&
                                     forall j :: 0 <= j < k ==> components[ids[j]].attributeName != name)
  {
    if ids == [] then None
    else if components[ids[0]].attributeName == name then Some(ids[0])
    else
      var r := FirstNamed(components, ids[1..], name);
      assert forall id :: id in ids[1..] ==> id in ids;
      assert r.Some? ==> exists k :: (0 <= k < |ids| && ids[k] == r.value &&
                                      forall j :: 0 <= j < k ==> components[ids[j]].attributeName != name) by {
        if r.Some? {
          var k :| 0 <= k < |ids[1..]| && ids[1..][k] == r.value &&
            forall j :: 0 <= j < k ==> components[ids[1..][j]].attributeName != name;
          assert ids[k + 1] == r.value;
          forall j | 0 <= j < k + 1 ensures components[ids[j]].attributeName != name {
            if j > 0 { assert ids[j] == ids[1..][j - 1]; }
          }
        }
      }
      r
  }

  /** getAttribute's verdict on the first match: the id when the component has the
      requested type, null otherwise. */
  function CastTo(components: map<ComponentId, ComponentRecord>, found: Option<ComponentId>, isA: ComponentRecord -> bool): (r: Option<ComponentId>)
    requires found.Some? ==> found.value in components
    ensures r.Some? ==> found == r && isA(components[r.value])
    ensures found.Some? && isA(components[found.value]) ==> r == found
  {
    if found.Some? && isA(components[found.value]) then found else None
  }

  // ---------------------------------------------------------------------------
  // ComponentManager
  // ---------------------------------------------------------------------------

  class ComponentManager {
    /** mComponents */
    var components: map<ComponentId, ComponentRecord>
    /** mParentToChildrenMap */
    var parentToChildren: seq<(ComponentId, ComponentId)>

    /** The map is ordered by parent and every child is a stored component. */
    ghost predicate Valid()
      reads this
    {
      && SortedByParent(parentToChildren)
      && forall i :: 0 <= i < |parentToChildren| ==> parentToChildren[i].1 in components
    }

    constructor ()
      ensures Valid() && components == map[] && parentToChildren == []
    {
      components, parentToChildren := map[], [];
    }

    /** find(parent) on the multimap: a search for the first pair of that parent. */
    method FindParent(parent: ComponentId) returns (i: nat)
      requires Valid()
      ensures i == Find(parentToChildren, parent)
    {
      var m := parentToChildren;
      i := 0;
      while i < |m| && m[i].0 < parent
        invariant 0 <= i <= |m| && forall j :: 0 <= j < i ==> m[j].0 < parent
      {
        i := i + 1;
      }
      if i < |m| && m[i].0 != parent {
        assert !HasParent(m, parent);
        i := |m|;
      } else if i == |m| {
        assert !HasParent(m, parent);
      }
    }

    /** getChildren(parent): an iterator at the start of a fresh list of every child from
        the first pair of `parent` to the end of the map. */
    method GetChildren(parent: ComponentId) returns (result: ConstIterator)
      requires Valid()
      ensures fresh(result)
      ensures result.items ==
        if HasParent(parentToChildren, parent)
        then ChildrenOf(parentToChildren, parent) + ChildrenAbove(parentToChildren, parent)
        else []
      ensures result.pos == if result.items == [] then AtEnd(result) else Elem(result, 0)
    {
      var m := parentToChildren;
      result := new ConstIterator();
      var start := FindParent(parent);
      var i := start;
      while i < |m|
        invariant start <= i <= |m|
        invariant result.items == Children(m[start..i]) && result.pos == Singular
      {
        result.AddComponent(m[i].1);
        ChildrenExtend(m, start, i);
        i := i + 1;
      }
      assert m[start..i] == m[start..];
      ScanFromFindIs(m, parent);
      result.pos := if result.items == [] then AtEnd(result) else Elem(result, 0);
    }

    /** getChildren as intended: an iterator over the children of `parent` only. */
    method GetChildrenOf(parent: ComponentId) returns (result: ConstIterator)
      requires Valid()
      ensures fresh(result)
      ensures result.items == ChildrenOf(parentToChildren, parent)
      ensures result.pos == if result.items == [] then AtEnd(result) else Elem(result, 0)
    {
      var m := parentToChildren;
      result := new ConstIterator();
      var start := FindParent(parent);
      var i := start;
      while i < |m| && m[i].0 == parent
        invariant start <= i <= |m| && forall j :: start <= j < i ==> m[j].0 == parent
        invariant result.items == Children(m[start..i]) && result.pos == Singular
      {
        result.AddComponent(m[i].1);
        ChildrenExtend(m, start, i);
        i := i + 1;
      }
      if start < |m| {
        RunOfParent(m, parent, start, i);
      } else {
        assert m[start..i] == [];
      }
      result.pos := if result.items == [] then AtEnd(result) else Elem(result, 0);
    }

    /** getAttribute(parent, name) as the source has it: along the same scan as
        getChildren, the first component carrying the attribute name decides; it is
        returned when it has the requested type and null otherwise. */
    method GetAttributeByName(parent: ComponentId, name: string, isA: ComponentRecord -> bool)
      returns (r: Option<ComponentId>)
      requires Valid()
      ensures forall id :: id in ScanFromFind(parentToChildren, parent) ==> id in components
      ensures r == CastTo(components, FirstNamed(components, ScanFromFind(parentToChildren, parent), name), isA)
    {
      var start := FindParent(parent);
      ChildrenStored(parentToChildren, components, start);
      var found := FirstNamedFrom(parentToChildren, components, start, name);
      r := CastTo(components, found, isA);
    }

    /** getAttribute(parent, name) as intended: the first child of `parent` carrying the
        attribute name. */
    method GetAttributeOf(parent: ComponentId, name: string, isA: ComponentRecord -> bool)
      returns (r: Option<ComponentId>)
      requires Valid()
      ensures forall id :: id in ChildrenOf(parentToChildren, parent) ==> id in components
      ensures r == CastTo(components, FirstNamed(components, ChildrenOf(parentToChildren, parent), name), isA)
    {
      var it := GetChildrenOf(parent);
      assert forall id :: id in it.items ==> id in components by {
        forall id | id in it.items ensures id in components {
          var i :| 0 <= i < |parentToChildren| && parentToChildren[i] == (parent, id);
        }
      }
      ghost var all := it.items;
      var i := 0;
      while i < |it.items|
        invariant 0 <= i <= |it.items| && it.items == all
        invariant FirstNamed(components, all, name) == FirstNamed(components, all[i..], name)
      {
        var id := it.items[i];
        FirstNamedStep(components, all[i..], name);
        if components[id].attributeName == name {
          return CastTo(components, Some(id), isA);
        }
        assert all[i..][1..] == all[i + 1..];
        i := i + 1;
      }
      r := None;
    }

    /** getAttribute(id): the stored component when it is present and has the requested
        type, null otherwise. */
    function GetAttribute(id: ComponentId, isA: ComponentRecord -> bool): (r: Option<ComponentId>)
      reads this
      ensures r.Some? <==> id in components && isA(components[id])
      ensures r.Some? ==> r.value == id
    {
      if id in components && isA(components[id]) then Some(id) else None
    }

    /** begin() and end(): default-constructed iterators. */
    method Begin() returns (it: ConstIterator)
      ensures fresh(it) && it.items == [] && it.pos == Singular
    {
      it := new ConstIterator();
    }

    method End() returns (it: ConstIterator)
      ensures fresh(it) && it.items == [] && it.pos == Singular
    {
      it := new ConstIterator();
    }
  }

  /** The loop of getAttribute(parent, name): walks the pairs from `start` to the end of the
      map and stops at the first child carrying the attribute name. */
  method FirstNamedFrom(m: seq<(ComponentId, ComponentId)>, components: map<ComponentId, ComponentRecord>,
                        start: nat, name: string) returns (found: Option<ComponentId>)
    requires start <= |m| && forall id :: id in Children(m[start..]) ==> id in components
    ensures found == FirstNamed(components, Children(m[start..]), name)
  {
    ghost var rest := Children(m[start..]);
    var i := start;
    while i < |m|
      invariant start <= i <= |m| && rest == Children(m[i..])
      invariant forall id :: id in rest ==> id in components
      invariant FirstNamed(components, Children(m[start..]), name) == FirstNamed(components, rest, name)
    {
      ChildrenFrom(m, i);
      var id := m[i].1;
      FirstNamedStep(components, rest, name);
      if components[id].attributeName == name {
        return Some(id);
      }
      rest := rest[1..];
      i := i + 1;
    }
    found := None;
  }

  lemma ChildrenFrom(m: seq<(ComponentId, ComponentId)>, i: nat)
    requires i < |m|
    ensures Children(m[i..]) == [m[i].1] + Children(m[i + 1..])
  {
    assert m[i..][1..] == m[i + 1..];
  }

  /** Every child listed from position `i` on is a stored component. */
  lemma ChildrenStored(m: seq<(ComponentId, ComponentId)>, components: map<ComponentId, ComponentRecord>, i: nat)
    requires i <= |m| && forall j :: 0 <= j < |m| ==> m[j].1 in components
    ensures forall id :: id in Children(m[i..]) ==> id in components
  {
    forall id | id in Children(m[i..]) ensures id in components {
      var k :| 0 <= k < |Children(m[i..])| && Children(m[i..])[k] == id;
      assert m[i..][k] == m[i + k];
    }
  }

  /** One step of the scan: the head decides when it carries the name, the tail otherwise. */
  lemma FirstNamedStep(components: map<ComponentId, ComponentRecord>, ids: seq<ComponentId>, name: string)
    requires forall id :: id in ids ==> id in components
    requires ids != []
    ensures forall id :: id in ids[1..] ==> id in components
    ensures FirstNamed(components, ids, name) ==
      if components[ids[0]].attributeName == name then Some(ids[0]) else FirstNamed(components, ids[1..], name)
  {
    assert forall id :: id in ids[1..] ==> id in ids;
  }

  /** Taking one more pair into a slice lists one more child. */
  lemma ChildrenExtend(m: seq<(ComponentId, ComponentId)>, start: nat, i: nat)
    requires start <= i < |m|
    ensures Children(m[start..i + 1]) == Children(m[start..i]) + [m[i].1]
  {
    assert m[start..i + 1] == m[start..i] + [m[i]];
    assert |Children(m[start..i + 1])| == |Children(m[start..i]) + [m[i].1]|;
  }

  /** The pairs from the first pair of `parent` up to the first pair of another parent are
      all the pairs of `parent`. */
  lemma {:induction false} RunOfParent(m: seq<(ComponentId, ComponentId)>, parent: ComponentId, start: nat, stop: nat)
    requires SortedByParent(m) && start <= stop <= |m|
    requires forall j :: 0 <= j < start ==> m[j].0 < parent
    requires forall j :: start <= j < stop ==> m[j].0 == parent
    requires stop == |m| || m[stop].0 != parent
    requires start < |m| && m[start].0 == parent
    ensures Children(m[start..stop]) == ChildrenOf(m, parent)
  {
    if start > 0 {
      assert m[1..][start - 1..stop - 1] == m[start..stop] by {
        assert |m[1..][start - 1..stop - 1]| == |m[start..stop]|;
        forall k | 0 <= k < stop - start ensures m[1..][start - 1..stop - 1][k] == m[start..stop][k] {
          assert m[1..][start - 1..stop - 1][k] == m[1..][start - 1 + k] == m[start + k];
        }
      }
      RunOfParent(m[1..], parent, start - 1, stop - 1);
    } else {
      assert m[0..stop] == m[..stop];
      RunIsChildren(m, parent, stop);
    }
  }

  lemma {:induction false} RunIsChildren(m: seq<(ComponentId, ComponentId)>, parent: ComponentId, k: nat)
    requires SortedByParent(m) && k <= |m|
    requires forall j :: 0 <= j < k ==> m[j].0 == parent
    requires k == |m| || m[k].0 != parent
    requires forall j :: 0 <= j < |m| ==> m[j].0 >= parent
    ensures Children(m[..k]) == ChildrenOf(m, parent)
  {
    if k == 0 {
      if m != [] {
        AllAbove(m, parent);
      }
    } else {
      assert m[1..][..k - 1] == m[..k][1..];
      RunIsChildren(m[1..], parent, k - 1);
    }
  }

  /** Walking the children of `parent` with the corrected != stops at end(): the walk
      visits every child once, in order. */
  method CollectChildren(manager: ComponentManager, parent: ComponentId) returns (ids: seq<ComponentId>)
    requires manager.Valid()
    ensures ids == ChildrenOf(manager.parentToChildren, parent)
  {
    var it := manager.GetChildrenOf(parent);
    var end := manager.End();
    ids := [];
    while it.NotEqual(end)
      invariant it.items == ChildrenOf(manager.parentToChildren, parent)
      invariant end.items == [] && end.pos == Singular && it != end
      invariant it.pos == AtEnd(it) || (it.pos.Elem? && it.pos.owner == it && it.pos.index < |it.items|)
      invariant it.pos == AtEnd(it) ==> ids == it.items
      invariant it.pos.Elem? ==> ids == it.items[..it.pos.index]
      decreases if it.pos.Elem? then |it.items| - it.pos.index else 0
    {
      ids := ids + [it.Deref()];
      assert it.items[..it.pos.index + 1] == it.items[..it.pos.index] + [it.items[it.pos.index]];
      var _ := it.PreIncrement();
    }
  }
}
