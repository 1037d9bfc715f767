/**
 * The scene graph as mutable state: one object holds the fields that every
 * ccHObject keeps for itself (`m_children`, `m_parent`, `m_dependencies`), for
 * all objects at once, so that an operation that reaches into another object
 * (`child->setParent(0)`, `otherObject->addDependency(this, …)`) is an update of
 * the same state. Each method performs the source's steps in the source's order
 * and is proved to end in the state the corresponding `Hierarchy` function
 * gives; `self` names the object the C++ method runs on.
 */
module Scenes {
  import opened Wrappers
  import opened DependencyFlags
  import opened Dependencies
  import opened ChildLists
  import opened Hierarchy
  import opened Traversal

  class Scene {
    var children: map<Id, seq<Id>>
    var parent: map<Id, Id>
    var deps: Deps
    var leaves: set<Id>
    var enabled: set<Id>
    var uniqueID: map<Id, int>
    var released: seq<Id>

    /** The whole state as a value. */
    function Model(): Graph
      reads this
    {
      Graph(children, parent, deps, leaves, enabled, uniqueID, released)
    }

    /** The dependency tables stay well-formed. */
    ghost predicate Valid()
      reads this
    {
      Hierarchy.Valid(Model())
    }

    /** A scene of unconnected objects, some of them leaves, some enabled. */
    constructor (leaves: set<Id>, enabled: set<Id>, uniqueID: map<Id, int>)
      ensures Valid()
      ensures Model() == Graph(map[], map[], map[], leaves, enabled, uniqueID, [])
    {
      children := map[];
      parent := map[];
      deps := map[];
      this.leaves := leaves;
      this.enabled := enabled;
      this.uniqueID := uniqueID;
      released := [];
    }

    // -------------------------------------------------------------------------
    // The dependency table
    // -------------------------------------------------------------------------

    /** `a->addDependency(other, flags, additive)`, with the recursive call on the
        other object that registers the reverse link. */
    method AddDependency(a: Id, other: Option<Id>, flags: bv32, additive: bool)
      modifies this`deps
      ensures deps == Dependencies.AddDependency(old(deps), a, other, flags, additive)
      ensures old(WellFormed(deps)) ==> WellFormed(deps)
      decreases Depth(deps, a, other, flags, additive)
    {
      if WellFormed(deps) {
        AddDependencyWellFormed(deps, a, other, flags, additive);
      }
      AddDependencyUnfold(deps, a, other, flags, additive);
      if other.None? || Negative(flags) {
        return;
      } else if flags == 0 {
        return;
      }
      var b := other.value;
      var f := flags;
      if additive {
        if b in Row(deps, a) {
          if HasAll(Row(deps, a)[b], f) {
            return;
          }
          f := f | Row(deps, a)[b];
        }
      }
      assert f == Merged(deps, a, b, flags, additive);
      DepthDecreases(deps, a, other, flags, additive);
      deps := deps[a := Row(deps, a)[b := f]];
      AddDependency(b, Some(a), Notify, true);
    }

    /** `a->removeDependencyWith(other)`. */
    method RemoveDependencyWith(a: Id, other: Id)
      modifies this`deps
      ensures deps == Without(old(deps), a, other)
      ensures old(WellFormed(deps)) ==> WellFormed(deps)
    {
      if WellFormed(deps) {
        WithoutWellFormed(deps, a, other);
      }
      deps := deps[a := Row(deps, a) - {other}];
    }

    /** `a->removeDependencyFlag(other, flag)`. */
    method RemoveDependencyFlag(a: Id, other: Id, flag: Dependency)
      modifies this`deps
      ensures deps == ClearFlag(old(deps), a, other, flag)
      ensures old(WellFormed(deps)) ==> WellFormed(deps)
    {
      if WellFormed(deps) {
        ClearFlagWellFormed(deps, a, other, flag);
      }
      var t := Row(deps, a);
      var flags := FlagsWith(t, other);
      if HasAll(flags, flag.Bit()) {
        flags := Cleared(flags, flag);
        if flags != 0 {
          deps := deps[a := t[other := flags]];
        } else {
          deps := deps[a := t - {other}];
        }
      }
    }

    // -------------------------------------------------------------------------
    // The child list
    // -------------------------------------------------------------------------

    /** `self->onDeletionOf(obj)`: the own entry for `obj` goes, then the first
        occurrence of `obj` among the children. */
    method OnDeletionOf(self: Id, obj: Id)
      modifies this
      ensures Model() == Hierarchy.OnDeletionOf(old(Model()), self, obj)
      ensures old(Valid()) ==> Valid()
    {
      ghost var g := Model();
      RemoveDependencyWith(self, obj);
      var pos := GetChildIndex(self, obj);
      if pos >= 0 {
        children := children[self := RemoveAt(Kids(Model(), self), pos)];
      }
      if Hierarchy.Valid(g) {
        OnDeletionOfValid(g, self, obj);
      }
    }

    /** `self->addChild(child, flags, index)`. */
    method AddChild(self: Id, child: Option<Id>, flags: bv32, index: int) returns (ok: bool)
      modifies this
      ensures (Model(), ok) == Hierarchy.AddChild(old(Model()), self, child, flags, index)
      ensures old(Valid()) ==> Valid()
    {
      ghost var g := Model();
      if child.None? {
        return false;
      }
      if self in leaves {
        return false;
      }
      var c := child.value;
      children := children[self := Inserted(Kids(Model(), self), c, index)];
      AddDependency(c, Some(self), Notify, true);
      if flags != 0 {
        AddDependency(self, Some(c), flags, true);
      }
      if HasAll(flags, ParentOfOther.Bit()) {
        parent := parent[c := self];
      }
      ok := true;
      if Hierarchy.Valid(g) {
        AddChildValid(g, self, child, flags, index);
      }
    }

    /** `if (c->getParent() == self) c->setParent(0)`. */
    method ClearParentOf(c: Id, self: Id)
      modifies this`parent
      ensures Model() == ClearParentIf(old(Model()), c, self)
    {
      if c in parent && parent[c] == self {
        parent := parent - {c};
      }
    }

    /** What detachChild and the loop of detatchAllChildren do for one child:
        both dependency entries go, and the parent link when it is `self`. */
    method DetachOne(self: Id, c: Id)
      modifies this
      ensures Model() == Hierarchy.DetachOne(old(Model()), self, c)
    {
      RemoveDependencyWith(self, c);
      RemoveDependencyWith(c, self);
      ClearParentOf(c, self);
    }

    /** `self->detachChild(child)`. */
    method DetachChild(self: Id, child: Option<Id>)
      modifies this
      ensures Model() == Hierarchy.DetachChild(old(Model()), self, child)
      ensures old(Valid()) ==> Valid()
    {
      ghost var g := Model();
      if child.None? {
        return;
      }
      var c := child.value;
      DetachOne(self, c);
      var pos := GetChildIndex(self, c);
      if pos >= 0 {
        children := children[self := RemoveAt(Kids(Model(), self), pos)];
      }
      if Hierarchy.Valid(g) {
        DetachChildValid(g, self, child);
      }
    }

    /** `self->detatchAllChildren()`: the loop over the children, then `clear()`. */
    method DetatchAllChildren(self: Id)
      modifies this
      ensures Model() == Hierarchy.DetatchAllChildren(old(Model()), self)
      ensures old(Valid()) ==> Valid()
    {
      ghost var g := Model();
      var ks := Kids(Model(), self);
      var i := 0;
      while i < |ks|
        invariant 0 <= i <= |ks|
        invariant Model() == DetachEach(old(Model()), self, ks[..i])
      {
        DetachOne(self, ks[i]);
        DetachEachStep(old(Model()), self, ks, i);
        i := i + 1;
      }
      assert ks[..i] == ks;
      children := children[self := []];
      if Hierarchy.Valid(g) {
        DetachEachValid(g, self, Kids(g, self));
      }
    }

    /** `self->removeChild(pos)`; the source asserts that `pos` is a valid index. */
    method RemoveChildAt(self: Id, pos: nat)
      requires pos < |Kids(Model(), self)|
      modifies this
      ensures Model() == Hierarchy.RemoveChildAt(old(Model()), self, pos)
      ensures old(Valid()) ==> Valid()
    {
      ghost var g := Model();
      var ks := Kids(Model(), self);
      var c := ks[pos];
      var flags := Flags(deps, self, c);
      RemoveDependencyWith(self, c);
      RemoveDependencyWith(c, self);
      if HasAll(flags, DeleteOther.Bit()) {
        released := released + [c];
      } else {
        ClearParentOf(c, self);
      }
      children := children[self := RemoveAt(ks, pos)];
      if Hierarchy.Valid(g) {
        RemoveChildAtValid(g, self, pos);
      }
    }

    /** `self->removeChild(child)`. */
    method RemoveChild(self: Id, c: Id)
      modifies this
      ensures Model() == Hierarchy.RemoveChild(old(Model()), self, c)
      ensures old(Valid()) ==> Valid()
    {
      var pos := GetChildIndex(self, c);
      if pos >= 0 {
        RemoveChildAt(self, pos);
      }
    }

    /** `self->removeAllChildren()`: `pop_back` until the list is empty. */
    method RemoveAllChildren(self: Id)
      modifies this
      ensures Model() == Hierarchy.RemoveAllChildren(old(Model()), self)
      ensures old(Valid()) ==> Valid()
    {
      ghost var g := Model();
      while Kids(Model(), self) != []
        invariant Hierarchy.RemoveAllChildren(Model(), self) == Hierarchy.RemoveAllChildren(old(Model()), self)
        decreases |Kids(Model(), self)|
      {
        ghost var before := Model();
        var ks := Kids(Model(), self);
        var c := ks[|ks| - 1];
        children := children[self := ks[..|ks| - 1]];
        var flags := Flags(deps, self, c);
        if HasAll(flags, DeleteOther.Bit()) {
          released := released + [c];
        }
        assert Model() == PopOne(before, self);
      }
      if Hierarchy.Valid(g) {
        RemoveAllChildrenEffect(g, self);
      }
    }

    /** `self->transferChild(c, np)`. */
    method TransferChild(self: Id, c: Id, np: Id)
      modifies this
      ensures Model() == Hierarchy.TransferChild(old(Model()), self, c, np)
      ensures old(Valid()) ==> Valid()
    {
      ghost var g := Model();
      var childFlags := Flags(deps, c, self);
      var parentFlags := Flags(deps, self, c);
      DetachChild(self, Some(c));
      var added := AddChild(np, Some(c), parentFlags, -1);
      AddDependency(c, Some(np), childFlags, true);
      if Hierarchy.Valid(g) {
        TransferChildValid(g, self, c, np);
      }
    }

    /** One turn of the loop of transferChildren. */
    method TransferOne(self: Id, np: Id, c: Id)
      modifies this
      ensures Model() == Hierarchy.TransferOne(old(Model()), self, np, c)
    {
      var childFlags := Flags(deps, c, self);
      var fatherFlags := Flags(deps, self, c);
      RemoveDependencyWith(self, c);
      RemoveDependencyWith(c, self);
      var added := AddChild(np, Some(c), fatherFlags, -1);
      AddDependency(c, Some(np), childFlags, true);
    }

    /** `self->transferChildren(np)`: the loop over the children, then `clear()`. */
    method TransferChildren(self: Id, np: Id)
      requires np != self
      modifies this
      ensures Model() == Hierarchy.TransferChildren(old(Model()), self, np)
      ensures old(Valid()) ==> Valid()
    {
      ghost var g := Model();
      var ks := Kids(Model(), self);
      var i := 0;
      while i < |ks|
        invariant 0 <= i <= |ks|
        invariant Model() == TransferEach(old(Model()), self, np, ks[..i])
      {
        TransferOne(self, np, ks[i]);
        TransferEachStep(old(Model()), self, np, ks, i);
        i := i + 1;
      }
      assert ks[..i] == ks;
      children := children[self := []];
      if Hierarchy.Valid(g) {
        TransferEachValid(g, self, np, Kids(g, self));
      }
    }

    /** `self->swapChildren(i, j)`; the source asserts both indices are valid. */
    method SwapChildren(self: Id, i: nat, j: nat)
      requires i < |Kids(Model(), self)| && j < |Kids(Model(), self)|
      modifies this`children
      ensures Model() == Hierarchy.SwapChildren(old(Model()), self, i, j)
      ensures old(Valid()) ==> Valid()
    {
      var ks := Kids(Model(), self);
      children := children[self := ks[i := ks[j]][j := ks[i]]];
    }

    // -------------------------------------------------------------------------
    // Read-only queries
    // -------------------------------------------------------------------------

    /** `self->getChildIndex(child)`: the first position of `child`, or -1. */
    method GetChildIndex(self: Id, child: Id) returns (r: int)
      ensures -1 <= r < |Kids(Model(), self)|
      ensures r >= 0 ==> Kids(Model(), self)[r] == child && child !in Kids(Model(), self)[..r]
      ensures r == -1 <==> child !in Kids(Model(), self)
      ensures r == IndexOf(Kids(Model(), self), child)
    {
      var ks := Kids(Model(), self);
      var i := 0;
      while i < |ks|
        invariant 0 <= i <= |ks|
        invariant child !in ks[..i]
      {
        if ks[i] == child {
          return i;
        }
        assert ks[..i + 1] == ks[..i] + [ks[i]];
        i := i + 1;
      }
      assert ks[..i] == ks;
      return -1;
    }

    /** `self->getIndex()`: the position among the parent's children, -1 without parent. */
    method GetIndex(self: Id) returns (r: int)
      ensures r == Index(Model(), self)
      ensures r >= 0 ==> self in parent && Kids(Model(), parent[self])[r] == self
    {
      if self in parent {
        r := GetChildIndex(parent[self], self);
      } else {
        r := -1;
      }
    }

    /** The objects `filterChildren` looks at: the children, or every object below. */
    ghost predicate InScope(self: Id, recursive: bool, rank: map<Id, nat>, y: Id)
      reads this
      requires ChildRanked(Model(), rank)
    {
      if recursive then Below(Model(), rank, self, y) else y in Kids(Model(), self)
    }

    /** `self->filterChildren(filteredChildren, recursive, filter)`: appends every
        object in scope whose class is of the requested kind (`ofKind`) and is not in
        the output yet, recursing into the children when asked; returns the new
        output and its length as an `unsigned`. */
    method FilterChildren(self: Id, filtered: seq<Id>, recursive: bool, ofKind: set<Id>, ghost rank: map<Id, nat>)
      returns (out: seq<Id>, count: nat)
      requires ChildRanked(Model(), rank)
      ensures filtered <= out
      ensures forall k :: |filtered| <= k < |out| ==> out[k] !in out[..k]
      ensures forall y :: y in out[|filtered|..] ==> y in ofKind && InScope(self, recursive, rank, y)
      ensures forall y :: y in ofKind && InScope(self, recursive, rank, y) ==> y in out
      ensures count == |out| % 0x1_0000_0000
      decreases Rank(rank, self), 1
    {
      var ks := Kids(Model(), self);
      out := filtered;
      var i := 0;
      while i < |ks|
        invariant 0 <= i <= |ks|
        invariant filtered <= out
        invariant forall k :: |filtered| <= k < |out| ==> out[k] !in out[..k]
        invariant forall y :: y in out[|filtered|..] ==> y in ofKind && InScope(self, recursive, rank, y)
        invariant forall j, y :: 0 <= j < i && y in ofKind && Reached(ks[j], recursive, rank, y) ==> y in out
      {
        var before := out;
        out := FilterOne(ks[i], out, recursive, ofKind, rank);
        PrefixKeeps(before, out);
        AppendedStay(filtered, before, out);
        if recursive {
          BelowChild(Model(), rank, self, i);
        }
        i := i + 1;
      }
      forall y | y in ofKind && InScope(self, recursive, rank, y)
        ensures y in out
      {
        var j :| 0 <= j < |ks| && Reached(ks[j], recursive, rank, y);
      }
      count := |out| % 0x1_0000_0000;
    }

    /** One turn of the loop of filterChildren on the child `c`: `c` itself when it
        is of the kind and not in the output yet, then, when recursing, its subtree. */
    method FilterOne(c: Id, out: seq<Id>, recursive: bool, ofKind: set<Id>, ghost rank: map<Id, nat>)
      returns (r: seq<Id>)
      requires ChildRanked(Model(), rank)
      ensures out <= r
      ensures forall k :: |out| <= k < |r| ==> r[k] !in r[..k]
      ensures forall y :: y in r[|out|..] ==> y in ofKind && Reached(c, recursive, rank, y)
      ensures forall y :: y in ofKind && Reached(c, recursive, rank, y) ==> y in r
      decreases Rank(rank, c), 2
    {
      r := out;
      if c in ofKind && c !in r {
        r := r + [c];
        assert r[..|out|] == out;
      }
      if recursive {
        SubtreeSplit(Model(), rank, c);
        var mid := r;
        var count;
        r, count := FilterChildren(c, mid, true, ofKind, rank);
        PrefixKeeps(mid, r);
        AppendedStay(out, mid, r);
      }
    }

    /** `y` is the child `c` itself or, when recursing, lies in the subtree of `c`. */
    ghost predicate Reached(c: Id, recursive: bool, rank: map<Id, nat>, y: Id)
      reads this
      requires ChildRanked(Model(), rank)
    {
      if recursive then InSubtree(Model(), rank, c, y) else y == c
    }
  }

  /** What lies in the subtree of the `i`-th child lies below `self`. */
  lemma BelowChild(g: Graph, rank: map<Id, nat>, self: Id, i: nat)
    requires ChildRanked(g, rank) && i < |Kids(g, self)|
    ensures forall y :: InSubtree(g, rank, Kids(g, self)[i], y) ==> Below(g, rank, self, y)
  {
  }

  /** The subtree of `c` is `c` itself and what lies below it. */
  lemma SubtreeSplit(g: Graph, rank: map<Id, nat>, c: Id)
    requires ChildRanked(g, rank)
    ensures forall y :: InSubtree(g, rank, c, y) <==> c == y || Below(g, rank, c, y)
  {
  }

  /** A prefix keeps its elements in the longer sequence. */
  lemma PrefixKeeps(s: seq<Id>, t: seq<Id>)
    requires s <= t
    ensures forall y :: y in s ==> y in t
    ensures forall k :: |s| <= k < |t| ==> t[..k][..|s|] == s
  {
  }

  /** What one turn appends after `out`, on top of what was appended after
      `filtered`, is appended after `filtered`. */
  lemma AppendedStay(filtered: seq<Id>, out: seq<Id>, next: seq<Id>)
    requires filtered <= out <= next
    ensures forall y :: y in next[|filtered|..] ==> y in out[|filtered|..] || y in next[|out|..]
  {
    forall y | y in next[|filtered|..]
      ensures y in out[|filtered|..] || y in next[|out|..]
    {
      var k :| |filtered| <= k < |next| && next[k] == y;
      if k < |out| {
        assert out[k] == y;
        assert out[|filtered|..][k - |filtered|] == y;
      } else {
        assert next[|out|..][k - |out|] == y;
      }
    }
  }
}
