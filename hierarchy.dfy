/**
 * The scene graph of ccHObject as one value: every object's child list, its
 * parent link and its dependency table, together with the per-object facts the
 * operations consult (leaf objects, enabled objects, unique ids) and the
 * sequence of children handed over for deletion. One function per operation of
 * ccHObject gives the state after it; the lemmas say what each one promises.
 * `Scenes.Scene` performs the same operations in place and is proved against
 * these functions.
 */
module Hierarchy {
  import opened Wrappers
  import opened DependencyFlags
  import opened Dependencies
  import opened ChildLists

  datatype Graph = Graph(
    children: map<Id, seq<Id>>,  // m_children of every object; absent means empty
    parent: map<Id, Id>,         // m_parent; absent means null
    deps: Deps,                  // m_dependencies of every object
    leaves: set<Id>,             // the objects whose isLeaf() holds
    enabled: set<Id>,            // the objects whose isEnabled() holds
    uniqueID: map<Id, int>,      // getUniqueID() of the objects that have one
    released: seq<Id>            // children deleted or released, in order
  )

  /** m_children of `x`. */
  function Kids(g: Graph, x: Id): seq<Id> {
    if x in g.children then g.children[x] else []
  }

  /** getParent() of `x`, None for null. */
  function ParentOf(g: Graph, x: Id): Option<Id> {
    if x in g.parent then Some(g.parent[x]) else None
  }

  /** `x` gets the child list `ks`; nothing else changes. */
  function WithKids(g: Graph, x: Id, ks: seq<Id>): (r: Graph)
    ensures Kids(r, x) == ks
    ensures forall y :: y != x ==> Kids(r, y) == Kids(g, y)
  {
    g.(children := g.children[x := ks])
  }

  /** `self.removeDependencyWith(c)` followed by `c.removeDependencyWith(self)`. */
  function Unlink(g: Graph, self: Id, c: Id): Graph {
    g.(deps := Without(Without(g.deps, self, c), c, self))
  }

  /** `if (c->getParent() == self) c->setParent(0)`. */
  function ClearParentIf(g: Graph, c: Id, self: Id): (r: Graph)
    ensures ParentOf(r, c) == if ParentOf(g, c) == Some(self) then None else ParentOf(g, c)
    ensures forall y :: y != c ==> ParentOf(r, y) == ParentOf(g, y)
  {
    if ParentOf(g, c) == Some(self) then g.(parent := g.parent - {c}) else g
  }

  /** The first occurrence of `c` leaves the child list of `self` (which is left
      untouched when `c` is not in it); nothing else changes. */
  function DropFirst(g: Graph, self: Id, c: Id): (r: Graph)
    ensures Kids(r, self) == RemoveFirst(Kids(g, self), c)
    ensures forall y :: y != self ==> Kids(r, y) == Kids(g, y)
    ensures r.parent == g.parent && r.deps == g.deps && r.released == g.released
    ensures r.leaves == g.leaves && r.enabled == g.enabled && r.uniqueID == g.uniqueID
  {
    var pos := IndexOf(Kids(g, self), c);
    if pos < 0 then g else WithKids(g, self, RemoveAt(Kids(g, self), pos))
  }

  /** The dependency tables are well-formed: no entry is zero or negative. */
  ghost predicate Valid(g: Graph) {
    WellFormed(g.deps)
  }

  // ---------------------------------------------------------------------------
  // The operations
  // ---------------------------------------------------------------------------

  /** onDeletionOf(obj): drop the own entry for `obj` and its first occurrence in
      the child list. */
  function OnDeletionOf(g: Graph, self: Id, obj: Id): Graph {
    DropFirst(g.(deps := Without(g.deps, self, obj)), self, obj)
  }

  /** addChild(child, dependencyFlags, insertIndex): the new state and the result. */
  function AddChild(g: Graph, self: Id, child: Option<Id>, flags: bv32, index: int): (Graph, bool) {
    if child.None? || self in g.leaves then (g, false)
    else
      var c := child.value;
      var g1 := WithKids(g, self, Inserted(Kids(g, self), c, index));
      var d2 := AddDependency(g1.deps, c, Some(self), Notify, true);
      var d3 := if flags != 0 then AddDependency(d2, self, Some(c), flags, true) else d2;
      var g2 := g1.(deps := d3);
      (if HasAll(flags, ParentOfOther.Bit()) then g2.(parent := g2.parent[c := self]) else g2, true)
  }

  /** The part of detachChild that works on one child: both entries and the parent link. */
  function DetachOne(g: Graph, self: Id, c: Id): Graph {
    ClearParentIf(Unlink(g, self, c), c, self)
  }

  /** detachChild(child). */
  function DetachChild(g: Graph, self: Id, child: Option<Id>): Graph {
    if child.None? then g
    else
      DropFirst(DetachOne(g, self, child.value), self, child.value)
  }

  /** The loop of detatchAllChildren over the children `ks`, in order. */
  function DetachEach(g: Graph, self: Id, ks: seq<Id>): Graph
    decreases |ks|
  {
    if |ks| == 0 then g
    else DetachOne(DetachEach(g, self, ks[..|ks| - 1]), self, ks[|ks| - 1])
  }

  /** The loop over the first `i + 1` children is the loop over the first `i`
      followed by child `i`. */
  lemma DetachEachStep(g: Graph, self: Id, ks: seq<Id>, i: nat)
    requires i < |ks|
    ensures DetachEach(g, self, ks[..i + 1]) == DetachOne(DetachEach(g, self, ks[..i]), self, ks[i])
  {
    assert ks[..i + 1][..i] == ks[..i];
  }

  /** detatchAllChildren(). */
  function DetatchAllChildren(g: Graph, self: Id): Graph {
    WithKids(DetachEach(g, self, Kids(g, self)), self, [])
  }

  /** removeChild(pos): the source asserts that `pos` is a valid index. */
  function RemoveChildAt(g: Graph, self: Id, pos: nat): Graph
    requires pos < |Kids(g, self)|
  {
    var c := Kids(g, self)[pos];
    var flags := Flags(g.deps, self, c);
    var g1 := Unlink(g, self, c);
    var g2 := if HasAll(flags, DeleteOther.Bit()) then g1.(released := g1.released + [c])
              else ClearParentIf(g1, c, self);
    WithKids(g2, self, RemoveAt(Kids(g, self), pos))
  }

  /** removeChild(child). */
  function RemoveChild(g: Graph, self: Id, c: Id): Graph {
    var pos := IndexOf(Kids(g, self), c);
    if pos < 0 then g else RemoveChildAt(g, self, pos)
  }

  /** Whether `self` holds DP_DELETE_OTHER for `c`, so that removing `c` deletes it. */
  predicate DeletesChild(d: Deps, self: Id, c: Id) {
    HasAll(Flags(d, self, c), DeleteOther.Bit())
  }

  /** The children the `pop_back` loop of removeAllChildren releases, last child first. */
  function PopReleased(d: Deps, self: Id, ks: seq<Id>): seq<Id>
    decreases |ks|
  {
    if |ks| == 0 then []
    else
      var c := ks[|ks| - 1];
      (if DeletesChild(d, self, c) then [c] else []) + PopReleased(d, self, ks[..|ks| - 1])
  }

  /** One turn of the loop of removeAllChildren: the last child is popped and, when
      this object holds DP_DELETE_OTHER for it, released. */
  function PopOne(g: Graph, self: Id): Graph
    requires Kids(g, self) != []
  {
    var ks := Kids(g, self);
    var c := ks[|ks| - 1];
    var g1 := WithKids(g, self, ks[..|ks| - 1]);
    if DeletesChild(g.deps, self, c) then g1.(released := g1.released + [c]) else g1
  }

  /** removeAllChildren(): pop until the list is empty. */
  function RemoveAllChildren(g: Graph, self: Id): Graph
    decreases |Kids(g, self)|
  {
    if Kids(g, self) == [] then g else RemoveAllChildren(PopOne(g, self), self)
  }

  /** transferChild(child, newParent). */
  function TransferChild(g: Graph, self: Id, c: Id, np: Id): Graph {
    var childFlags := Flags(g.deps, c, self);
    var parentFlags := Flags(g.deps, self, c);
    var g1 := DetachChild(g, self, Some(c));
    var g2 := AddChild(g1, np, Some(c), parentFlags, -1).0;
    g2.(deps := AddDependency(g2.deps, c, Some(np), childFlags, true))
  }

  /** One turn of the loop of transferChildren. */
  function TransferOne(g: Graph, self: Id, np: Id, c: Id): Graph {
    var childFlags := Flags(g.deps, c, self);
    var fatherFlags := Flags(g.deps, self, c);
    var g1 := Unlink(g, self, c);
    var g2 := AddChild(g1, np, Some(c), fatherFlags, -1).0;
    g2.(deps := AddDependency(g2.deps, c, Some(np), childFlags, true))
  }

  /** The loop of transferChildren over the children `ks`, in order. */
  function TransferEach(g: Graph, self: Id, np: Id, ks: seq<Id>): Graph
    decreases |ks|
  {
    if |ks| == 0 then g
    else TransferOne(TransferEach(g, self, np, ks[..|ks| - 1]), self, np, ks[|ks| - 1])
  }

  /** The loop over the first `i + 1` children is the loop over the first `i`
      followed by child `i`. */
  lemma TransferEachStep(g: Graph, self: Id, np: Id, ks: seq<Id>, i: nat)
    requires i < |ks|
    ensures TransferEach(g, self, np, ks[..i + 1]) == TransferOne(TransferEach(g, self, np, ks[..i]), self, np, ks[i])
  {
    assert ks[..i + 1][..i] == ks[..i];
  }

  /** The loop over `ks` is the loop over all but the last child, then the last. */
  lemma TransferEachLast(g: Graph, self: Id, np: Id, ks: seq<Id>)
    requires |ks| > 0
    ensures TransferEach(g, self, np, ks) == TransferOne(TransferEach(g, self, np, ks[..|ks| - 1]), self, np, ks[|ks| - 1])
  {
  }

  /** transferChildren(newParent). Pushing into the list that is being iterated
      would invalidate the iterator, so the new parent is another object. */
  function TransferChildren(g: Graph, self: Id, np: Id): Graph
    requires np != self
  {
    WithKids(TransferEach(g, self, np, Kids(g, self)), self, [])
  }

  /** swapChildren(i, j): the source asserts both indices are valid. */
  function SwapChildren(g: Graph, self: Id, i: nat, j: nat): Graph
    requires i < |Kids(g, self)| && j < |Kids(g, self)|
  {
    WithKids(g, self, Swapped(Kids(g, self), i, j))
  }

  /** getIndex(): the position of `self` among its parent's children, -1 without parent. */
  function Index(g: Graph, self: Id): (r: int)
    ensures r >= 0 ==>
      && ParentOf(g, self).Some?
      && r < |Kids(g, ParentOf(g, self).value)|
      && Kids(g, ParentOf(g, self).value)[r] == self
      && self !in Kids(g, ParentOf(g, self).value)[..r]
    ensures r < 0 <==> ParentOf(g, self).None? || self !in Kids(g, ParentOf(g, self).value)
  {
    match ParentOf(g, self)
    case None => -1
    case Some(p) => IndexOf(Kids(g, p), self)
  }

  // ---------------------------------------------------------------------------
  // What the operations promise
  // ---------------------------------------------------------------------------

  /** onDeletionOf removes only the object's own entry for `obj` (the other side is
      left alone) and the first occurrence of `obj` among its children, keeping
      the order of the rest; nothing else changes. */
  lemma OnDeletionOfEffect(g: Graph, self: Id, obj: Id)
    ensures var r := OnDeletionOf(g, self, obj);
      && Row(r.deps, self) == Row(g.deps, self) - {obj}
      && (forall x :: x != self ==> Row(r.deps, x) == Row(g.deps, x))
      && Kids(r, self) == RemoveFirst(Kids(g, self), obj)
      && (forall x :: x != self ==> Kids(r, x) == Kids(g, x))
      && r.parent == g.parent && r.released == g.released
  {
  }

  /** addChild refuses a null child and a leaf parent without changing anything. */
  lemma AddChildRefused(g: Graph, self: Id, child: Option<Id>, flags: bv32, index: int)
    ensures var (r, ok) := AddChild(g, self, child, flags, index);
      && (ok <==> child.Some? && self !in g.leaves)
      && (!ok ==> r == g)
  {
  }

  /** An accepted child is placed at the clamped index, the other children keep
      their order, and no other list, parent link or leaf changes besides the
      child's own parent link. */
  lemma AddChildPlacement(g: Graph, self: Id, c: Id, flags: bv32, index: int)
    requires self !in g.leaves
    ensures var r := AddChild(g, self, Some(c), flags, index).0;
      && Kids(r, self) == Inserted(Kids(g, self), c, index)
      && (forall x :: x != self ==> Kids(r, x) == Kids(g, x))
      && (forall x :: x != c ==> ParentOf(r, x) == ParentOf(g, x))
      && r.leaves == g.leaves && r.released == g.released
  {
  }

  /** The parent link of an accepted child is set exactly when DP_PARENT_OF_OTHER
      is requested, and is left as it was otherwise. */
  lemma AddChildParent(g: Graph, self: Id, c: Id, flags: bv32, index: int)
    requires self !in g.leaves
    ensures var r := AddChild(g, self, Some(c), flags, index).0;
      ParentOf(r, c) == if HasAll(flags, ParentOfOther.Bit()) then Some(self) else ParentOf(g, c)
  {
  }

  /** After addChild the child holds NotifyOtherOnDelete for the parent, and the
      parent holds every requested flag for the child. */
  lemma AddChildDependencies(g: Graph, self: Id, c: Id, flags: bv32, index: int)
    requires self !in g.leaves
    ensures var r := AddChild(g, self, Some(c), flags, index).0;
      && HasAll(Flags(r.deps, c, self), Notify)
      && (!Negative(flags) ==> HasAll(Flags(r.deps, self, c), flags))
  {
    var g1 := WithKids(g, self, Inserted(Kids(g, self), c, index));
    var d2 := AddDependency(g1.deps, c, Some(self), Notify, true);
    var r := AddChild(g, self, Some(c), flags, index).0;
    AddDependencyIsLinked(g1.deps, c, Some(self), Notify, true);
    LinkedHasFlags(g1.deps, c, self, Notify, true);
    if flags != 0 {
      var d3 := AddDependency(d2, self, Some(c), flags, true);
      assert r.deps == d3;
      AddDependencyIsLinked(d2, self, Some(c), flags, true);
      LinkedMonotone(d2, self, Some(c), flags, c, self);
      HasAllTrans(Flags(d3, c, self), Flags(d2, c, self), Notify);
      if !Negative(flags) {
        LinkedHasFlags(d2, self, c, flags, true);
      }
    } else {
      assert r.deps == d2;
      HasAllSelf(Flags(d2, self, c));
    }
  }

  /** addChild changes no dependency entry other than those between parent and child. */
  lemma AddChildTouchesOnlyPair(g: Graph, self: Id, child: Option<Id>, flags: bv32, index: int, x: Id, y: Id)
    requires child.Some?
    requires !(x == self && y == child.value) && !(x == child.value && y == self)
    ensures var r := AddChild(g, self, child, flags, index).0;
      Flags(r.deps, x, y) == Flags(g.deps, x, y) && (y in Row(r.deps, x) <==> y in Row(g.deps, x))
  {
    if self !in g.leaves {
      var c := child.value;
      var g1 := WithKids(g, self, Inserted(Kids(g, self), c, index));
      var d2 := AddDependency(g1.deps, c, Some(self), Notify, true);
      AddDependencyIsLinked(g1.deps, c, Some(self), Notify, true);
      LinkedTouchesOnlyPair(g1.deps, c, Some(self), Notify, true, x, y);
      if flags != 0 {
        AddDependencyIsLinked(d2, self, Some(c), flags, true);
        LinkedTouchesOnlyPair(d2, self, Some(c), flags, true, x, y);
      }
    }
  }

  /** detachChild removes the entries in both directions, clears the child's parent
      link only when it pointed here, and removes the first occurrence of the
      child keeping the order of the rest; a null child changes nothing. */
  lemma DetachChildEffect(g: Graph, self: Id, child: Option<Id>)
    ensures var r := DetachChild(g, self, child);
      && (child.None? ==> r == g)
      && (child.Some? ==>
            var c := child.value;
            && Row(r.deps, self) == Row(g.deps, self) - {c}
            && Row(r.deps, c) == Row(g.deps, c) - {self}
            && (forall x :: x != self && x != c ==> Row(r.deps, x) == Row(g.deps, x))
            && ParentOf(r, c) == (if ParentOf(g, c) == Some(self) then None else ParentOf(g, c))
            && (forall x :: x != c ==> ParentOf(r, x) == ParentOf(g, x))
            && Kids(r, self) == RemoveFirst(Kids(g, self), c)
            && (forall x :: x != self ==> Kids(r, x) == Kids(g, x))
            && r.released == g.released)
  {
    if child.Some? {
      var c := child.value;
      var g1 := DetachOne(g, self, c);
      DetachOneEffect(g, self, c);
      var r := DropFirst(g1, self, c);
      assert r.deps == g1.deps && r.parent == g1.parent && r.released == g1.released;
      forall x | x != self
        ensures Kids(r, x) == Kids(g, x)
      {
        assert Kids(r, x) == Kids(g1, x);
      }
      assert forall x :: ParentOf(r, x) == ParentOf(g1, x);
    }
  }

  /** The part of detachChild that works on one child removes both entries and
      the parent link when it points here, and leaves the lists alone. */
  lemma DetachOneEffect(g: Graph, self: Id, c: Id)
    ensures var g1 := DetachOne(g, self, c);
      && Row(g1.deps, self) == Row(g.deps, self) - {c}
      && Row(g1.deps, c) == Row(g.deps, c) - {self}
      && (forall x :: x != self && x != c ==> Row(g1.deps, x) == Row(g.deps, x))
      && ParentOf(g1, c) == (if ParentOf(g, c) == Some(self) then None else ParentOf(g, c))
      && (forall x :: x != c ==> ParentOf(g1, x) == ParentOf(g, x))
      && g1.children == g.children && g1.released == g.released
  {
    DetachOneRow(g, self, c, self);
    DetachOneRow(g, self, c, c);
    forall x | x != self && x != c
      ensures Row(DetachOne(g, self, c).deps, x) == Row(g.deps, x)
    {
      DetachOneRow(g, self, c, x);
    }
  }

  /** removeChild(pos) removes exactly the child at `pos`, keeping the order of the
      rest, removes the entries in both directions, and either releases the child
      (when this object held DP_DELETE_OTHER for it) or clears its parent link
      when that pointed here. */
  lemma RemoveChildAtEffect(g: Graph, self: Id, pos: nat)
    requires pos < |Kids(g, self)|
    ensures var r := RemoveChildAt(g, self, pos);
      var c := Kids(g, self)[pos];
      var deleted := HasAll(Flags(g.deps, self, c), DeleteOther.Bit());
      && Kids(r, self) == RemoveAt(Kids(g, self), pos)
      && (forall x :: x != self ==> Kids(r, x) == Kids(g, x))
      && Row(r.deps, self) == Row(g.deps, self) - {c}
      && Row(r.deps, c) == Row(g.deps, c) - {self}
      && (forall x :: x != self && x != c ==> Row(r.deps, x) == Row(g.deps, x))
      && r.released == (if deleted then g.released + [c] else g.released)
      && ParentOf(r, c) == (if !deleted && ParentOf(g, c) == Some(self) then None else ParentOf(g, c))
      && (forall x :: x != c ==> ParentOf(r, x) == ParentOf(g, x))
  {
  }

  /** removeChild(child) does nothing for an object that is not a child, and
      otherwise removes its first occurrence as removeChild(pos) does. */
  lemma RemoveChildEffect(g: Graph, self: Id, c: Id)
    ensures var r := RemoveChild(g, self, c);
      && (c !in Kids(g, self) ==> r == g)
      && (c in Kids(g, self) ==>
            && Kids(r, self) == RemoveFirst(Kids(g, self), c)
            && Row(r.deps, self) == Row(g.deps, self) - {c}
            && Row(r.deps, c) == Row(g.deps, c) - {self}
            && |r.released| <= |g.released| + 1)
  {
    if c in Kids(g, self) {
      RemoveChildAtEffect(g, self, IndexOf(Kids(g, self), c));
    }
  }

  /** Exactly the children this object holds DP_DELETE_OTHER for are released. */
  lemma {:induction false} PopReleasedMembers(g: Graph, self: Id, ks: seq<Id>)
    ensures |PopReleased(g.deps, self, ks)| <= |ks|
    ensures forall x :: x in PopReleased(g.deps, self, ks) <==>
      x in ks && HasAll(Flags(g.deps, self, x), DeleteOther.Bit())
  {
    if |ks| > 0 {
      var init := ks[..|ks| - 1];
      PopReleasedMembers(g, self, init);
      assert ks == init + [ks[|ks| - 1]];
    }
  }

  /** The pop loop ends with an empty list and the released children appended; a
      list that is empty already leaves everything as it is. */
  lemma {:induction false} RemoveAllChildrenClosed(g: Graph, self: Id)
    ensures RemoveAllChildren(g, self) ==
      if Kids(g, self) == [] then g
      else WithKids(g, self, []).(released := g.released + PopReleased(g.deps, self, Kids(g, self)))
    decreases |Kids(g, self)|
  {
    if Kids(g, self) != [] {
      var ks := Kids(g, self);
      var init := ks[..|ks| - 1];
      var h := PopOneShape(g, self);
      var g1 := PopOne(g, self);
      RemoveAllChildrenClosed(g1, self);
      WithKidsTwice(g, self, init, [], g.released + h);
      if init == [] {
        assert h + PopReleased(g.deps, self, init) == h;
      } else {
        assert g.released + h + PopReleased(g.deps, self, init) == g.released + (h + PopReleased(g.deps, self, init));
      }
    }
  }

  /** What one pop does: the list loses its last child, released when it is
      held with DP_DELETE_OTHER; `h` is what it releases. */
  lemma PopOneShape(g: Graph, self: Id) returns (h: seq<Id>)
    requires Kids(g, self) != []
    ensures var ks := Kids(g, self);
      && PopOne(g, self) == WithKids(g, self, ks[..|ks| - 1]).(released := g.released + h)
      && PopReleased(g.deps, self, ks) == h + PopReleased(g.deps, self, ks[..|ks| - 1])
      && RemoveAllChildren(g, self) == RemoveAllChildren(PopOne(g, self), self)
  {
    var ks := Kids(g, self);
    var c := ks[|ks| - 1];
    h := if DeletesChild(g.deps, self, c) then [c] else [];
    if !DeletesChild(g.deps, self, c) {
      assert g.released + h == g.released;
    }
  }

  /** Setting a child list twice keeps the second. */
  lemma WithKidsTwice(g: Graph, self: Id, a: seq<Id>, b: seq<Id>, rel: seq<Id>)
    ensures WithKids(WithKids(g, self, a).(released := rel), self, b) == WithKids(g, self, b).(released := rel)
  {
    assert g.children[self := a][self := b] == g.children[self := b];
  }

  /** removeAllChildren empties the list and releases the children held with
      DP_DELETE_OTHER; it neither removes dependency entries nor clears parent links. */
  lemma RemoveAllChildrenEffect(g: Graph, self: Id)
    ensures var r := RemoveAllChildren(g, self);
      && Kids(r, self) == []
      && (forall x :: x != self ==> Kids(r, x) == Kids(g, x))
      && r.deps == g.deps && r.parent == g.parent
      && g.released <= r.released
      && |r.released| <= |g.released| + |Kids(g, self)|
      && (forall x :: x in r.released[|g.released|..] <==>
            x in Kids(g, self) && HasAll(Flags(g.deps, self, x), DeleteOther.Bit()))
  {
    var r := RemoveAllChildren(g, self);
    RemoveAllChildrenClosed(g, self);
    PopReleasedMembers(g, self, Kids(g, self));
    assert r.released[|g.released|..] == PopReleased(g.deps, self, Kids(g, self));
  }

  /** The entries the detatchAllChildren loop has removed from table `x` after
      visiting `ks`. */
  function DetachedKeys(self: Id, ks: seq<Id>, x: Id): set<Id> {
    (if x == self then set k | k in ks else {}) + (if x in ks then {self} else {})
  }

  /** The detatchAllChildren loop changes no child list and releases nothing. */
  lemma {:induction false} DetachEachKeeps(g: Graph, self: Id, ks: seq<Id>)
    ensures var r := DetachEach(g, self, ks);
      r.children == g.children && r.released == g.released && r.leaves == g.leaves
  {
    if |ks| > 0 {
      DetachEachKeeps(g, self, ks[..|ks| - 1]);
    }
  }

  /** One turn of the detatchAllChildren loop on table `x`. */
  lemma DetachOneRow(g: Graph, self: Id, c: Id, x: Id)
    ensures Row(DetachOne(g, self, c).deps, x) ==
      Row(g.deps, x) - ((if x == self then {c} else {}) + (if x == c then {self} else {}))
  {
  }

  /** The keys removed after one more turn of the loop. */
  lemma DetachedKeysStep(self: Id, init: seq<Id>, c: Id, x: Id)
    ensures DetachedKeys(self, init + [c], x) ==
      DetachedKeys(self, init, x) + ((if x == self then {c} else {}) + (if x == c then {self} else {}))
  {
    assert forall k :: k in init + [c] <==> k in init || k == c;
  }

  /** The detatchAllChildren loop removes every entry between this object and the
      children visited, in both directions, and no other entry. */
  lemma {:induction false} DetachEachRows(g: Graph, self: Id, ks: seq<Id>)
    ensures var r := DetachEach(g, self, ks);
      forall x :: Row(r.deps, x) == Row(g.deps, x) - DetachedKeys(self, ks, x)
  {
    if |ks| > 0 {
      var init := ks[..|ks| - 1];
      var c := ks[|ks| - 1];
      DetachEachRows(g, self, init);
      assert ks == init + [c];
      var p := DetachEach(g, self, init);
      forall x
        ensures Row(DetachOne(p, self, c).deps, x) == Row(g.deps, x) - DetachedKeys(self, ks, x)
      {
        DetachOneRow(p, self, c, x);
        DetachedKeysStep(self, init, c, x);
      }
    }
  }

  /** The detatchAllChildren loop clears exactly the parent links of the visited
      children that pointed here. */
  lemma {:induction false} DetachEachParents(g: Graph, self: Id, ks: seq<Id>)
    ensures var r := DetachEach(g, self, ks);
      && (forall x :: x in ks ==> ParentOf(r, x) == (if ParentOf(g, x) == Some(self) then None else ParentOf(g, x)))
      && (forall x :: x !in ks ==> ParentOf(r, x) == ParentOf(g, x))
  {
    if |ks| > 0 {
      var init := ks[..|ks| - 1];
      DetachEachParents(g, self, init);
      assert ks == init + [ks[|ks| - 1]];
    }
  }

  /** detatchAllChildren empties the list after removing every entry between this
      object and its children in both directions and clearing the parent links of
      the children that pointed here; other objects keep their tables, except for
      their entry for this object if they are children. */
  lemma DetatchAllChildrenEffect(g: Graph, self: Id)
    ensures var r := DetatchAllChildren(g, self);
      var ks := Kids(g, self);
      && Kids(r, self) == []
      && (forall x :: x != self ==> Kids(r, x) == Kids(g, x))
      && (forall c :: c in ks ==> c !in Row(r.deps, self) && self !in Row(r.deps, c))
      && (forall c :: c in ks ==> ParentOf(r, c) != Some(self))
      && (forall x :: x !in ks ==> ParentOf(r, x) == ParentOf(g, x))
      && (forall x :: x !in ks && x != self ==> Row(r.deps, x) == Row(g.deps, x))
      && r.released == g.released
  {
    var ks := Kids(g, self);
    DetachEachKeeps(g, self, ks);
    DetachEachRows(g, self, ks);
    DetachEachParents(g, self, ks);
    var r := DetatchAllChildren(g, self);
    forall x | x !in ks && x != self
      ensures Row(r.deps, x) == Row(g.deps, x)
    {
      assert DetachedKeys(self, ks, x) == {};
    }
  }

  /** swapChildren exchanges two children and keeps the order of the others;
      swapping again restores the list. */
  lemma SwapChildrenEffect(g: Graph, self: Id, i: nat, j: nat)
    requires i < |Kids(g, self)| && j < |Kids(g, self)|
    ensures var r := SwapChildren(g, self, i, j);
      && Kids(r, self)[i] == Kids(g, self)[j] && Kids(r, self)[j] == Kids(g, self)[i]
      && multiset(Kids(r, self)) == multiset(Kids(g, self))
      && SwapChildren(r, self, i, j) == g.(children := g.children[self := Kids(g, self)])
  {
    SwappedEffect(Kids(g, self), i, j);
    SwappedPermutes(Kids(g, self), i, j);
  }

  /** Appending is insertion at index -1. */
  lemma AppendIsInsertion(s: seq<Id>, c: Id)
    ensures Inserted(s, c, -1) == s + [c]
  {
  }

  /** One turn of transferChildren: the child is appended to the new parent's list
      (when that accepts children), other lists and the leaves stay as they were. */
  lemma TransferOneKids(g: Graph, self: Id, np: Id, c: Id)
    ensures var r := TransferOne(g, self, np, c);
      && Kids(r, np) == (if np in g.leaves then Kids(g, np) else Kids(g, np) + [c])
      && (forall x :: x != np ==> Kids(r, x) == Kids(g, x))
      && r.leaves == g.leaves && r.released == g.released
  {
    var g1 := Unlink(g, self, c);
    var a := TransferOneLists(g, self, np, c);
    if np !in g.leaves {
      AddChildPlacement(g1, np, c, Flags(g.deps, self, c), -1);
      AppendIsInsertion(Kids(g1, np), c);
    } else {
      AddChildRefused(g1, np, Some(c), Flags(g.deps, self, c), -1);
    }
  }

  /** The child lists after one turn of transferChildren are those after its
      addChild step; the final addDependency touches only the tables. */
  lemma TransferOneLists(g: Graph, self: Id, np: Id, c: Id) returns (a: Graph)
    ensures var g1 := Unlink(g, self, c);
      && a == AddChild(g1, np, Some(c), Flags(g.deps, self, c), -1).0
      && g1.leaves == g.leaves && g1.children == g.children && g1.released == g.released
      && var r := TransferOne(g, self, np, c);
         r.leaves == a.leaves && r.released == a.released && forall x :: Kids(r, x) == Kids(a, x)
  {
    a := AddChild(Unlink(g, self, c), np, Some(c), Flags(g.deps, self, c), -1).0;
  }

  /** The loop of transferChildren appends the visited children, in order, to the
      new parent's list and changes no other list. */
  lemma {:induction false} TransferEachKids(g: Graph, self: Id, np: Id, ks: seq<Id>)
    ensures var r := TransferEach(g, self, np, ks);
      && Kids(r, np) == (if np in g.leaves then Kids(g, np) else Kids(g, np) + ks)
      && (forall x :: x != np ==> Kids(r, x) == Kids(g, x))
      && r.leaves == g.leaves && r.released == g.released
  {
    if |ks| > 0 {
      var init, last := ks[..|ks| - 1], ks[|ks| - 1];
      TransferEachLast(g, self, np, ks);
      TransferEachKids(g, self, np, init);
      assert ks == init + [last];
      TransferOneAfter(g, self, np, init, last, TransferEach(g, self, np, init));
    }
  }

  /** One more turn of transferChildren after the turns over `init`, whose effect
      `m` is known. */
  lemma TransferOneAfter(g: Graph, self: Id, np: Id, init: seq<Id>, last: Id, m: Graph)
    requires Kids(m, np) == (if np in g.leaves then Kids(g, np) else Kids(g, np) + init)
    requires forall x :: x != np ==> Kids(m, x) == Kids(g, x)
    requires m.leaves == g.leaves && m.released == g.released
    ensures var r := TransferOne(m, self, np, last);
      && Kids(r, np) == (if np in g.leaves then Kids(g, np) else Kids(g, np) + (init + [last]))
      && (forall x :: x != np ==> Kids(r, x) == Kids(g, x))
      && r.leaves == g.leaves && r.released == g.released
  {
    TransferOneKids(m, self, np, last);
  }

  /** transferChildren empties this object's list and appends all of its children,
      in order, to the new parent; a leaf new parent refuses every child, which
      then belongs to neither list. */
  lemma TransferChildrenEffect(g: Graph, self: Id, np: Id)
    requires np != self
    ensures var r := TransferChildren(g, self, np);
      && Kids(r, self) == []
      && Kids(r, np) == (if np in g.leaves then Kids(g, np) else Kids(g, np) + Kids(g, self))
      && (forall x :: x != np && x != self ==> Kids(r, x) == Kids(g, x))
  {
    TransferEachKids(g, self, np, Kids(g, self));
  }

  /** transferChildren does not reset the parent link of a child the old parent
      held without DP_PARENT_OF_OTHER: the link still points at the old parent,
      which is neither the new parent nor null, whereas transferChild clears it. */
  lemma TransferChildrenKeepsOldParent()
    ensures var g := Graph(map[0 := [2]], map[2 := 0], map[0 := map[2 := Notify], 2 := map[0 := Notify]],
                           {}, {}, map[], []);
      && ParentOf(TransferChildren(g, 0, 1), 2) == Some(0)
      && ParentOf(TransferChild(g, 0, 2, 1), 2) == None
  {
    var g := Graph(map[0 := [2]], map[2 := 0], map[0 := map[2 := Notify], 2 := map[0 := Notify]],
                   {}, {}, map[], []);
    var g1 := Unlink(g, 0, 2);
    assert Flags(g.deps, 0, 2) == Notify;
    assert !HasAll(Notify, ParentOfOther.Bit());
    AddChildPlacement(g1, 1, 2, Notify, -1);
    AddChildParent(g1, 1, 2, Notify, -1);
    var d := DetachChild(g, 0, Some(2));
    assert ParentOf(d, 2) == None;
    AddChildParent(d, 1, 2, Notify, -1);
  }

  /** transferChild removes the child from this object's list (keeping the order
      of the others) and appends it to the new parent's list, unless the new
      parent is a leaf and refuses it. */
  lemma TransferChildKids(g: Graph, self: Id, c: Id, np: Id)
    ensures var r := TransferChild(g, self, c, np);
      var before := if np == self then RemoveFirst(Kids(g, self), c) else Kids(g, np);
      && (np != self ==> Kids(r, self) == RemoveFirst(Kids(g, self), c))
      && Kids(r, np) == (if np in g.leaves then before else before + [c])
  {
    var g1 := DetachChild(g, self, Some(c));
    var a := TransferChildLists(g, self, c, np);
    DetachChildEffect(g, self, Some(c));
    if np !in g.leaves {
      AddChildPlacement(g1, np, c, Flags(g.deps, self, c), -1);
      AppendIsInsertion(Kids(g1, np), c);
    } else {
      AddChildRefused(g1, np, Some(c), Flags(g.deps, self, c), -1);
    }
  }

  /** The child lists after transferChild are those after its detachChild and
      addChild steps; the final addDependency touches only the tables. */
  lemma TransferChildLists(g: Graph, self: Id, c: Id, np: Id) returns (a: Graph)
    ensures var g1 := DetachChild(g, self, Some(c));
      && a == AddChild(g1, np, Some(c), Flags(g.deps, self, c), -1).0
      && g1.leaves == g.leaves
      && forall x :: Kids(TransferChild(g, self, c, np), x) == Kids(a, x)
  {
    a := AddChild(DetachChild(g, self, Some(c)), np, Some(c), Flags(g.deps, self, c), -1).0;
  }

  /** After transferChild the child's parent is the new parent when that accepted
      it with DP_PARENT_OF_OTHER held by the old parent; otherwise it is null if
      it was the old parent, and unchanged if it was a third object. */
  lemma TransferChildParent(g: Graph, self: Id, c: Id, np: Id)
    ensures var r := TransferChild(g, self, c, np);
      var adopted := np !in g.leaves && HasAll(Flags(g.deps, self, c), ParentOfOther.Bit());
      ParentOf(r, c) == (if adopted then Some(np)
                         else if ParentOf(g, c) == Some(self) then None
                         else ParentOf(g, c))
  {
    var g1 := DetachChild(g, self, Some(c));
    DetachChildEffect(g, self, Some(c));
    if np !in g.leaves {
      AddChildParent(g1, np, c, Flags(g.deps, self, c), -1);
    }
  }

  // ---------------------------------------------------------------------------
  // What a transfer does to the dependency tables
  // ---------------------------------------------------------------------------

  /** addChild loses no dependency entry and no bit of any table. */
  lemma AddChildGrows(g: Graph, self: Id, child: Option<Id>, flags: bv32, index: int)
    ensures Grows(g.deps, AddChild(g, self, child, flags, index).0.deps)
  {
    if child.None? || self in g.leaves {
      GrowsSelf(g.deps);
    } else {
      var c := child.value;
      var g1 := WithKids(g, self, Inserted(Kids(g, self), c, index));
      var d2 := AddDependency(g1.deps, c, Some(self), Notify, true);
      AddDependencyGrows(g1.deps, c, Some(self), Notify);
      if flags != 0 {
        AddDependencyGrows(d2, self, Some(c), flags);
        GrowsTrans(g1.deps, d2, AddDependency(d2, self, Some(c), flags, true));
      }
    }
  }

  /** The second half of a transfer, which starts from the unlinked state `g1`:
      addChild on the new parent with the old parent's word `pf`, then the child's
      additive addDependency on the new parent with its own old word `cf`. */
  lemma AttachDependencies(g1: Graph, np: Id, c: Id, pf: bv32, cf: bv32)
    ensures var g2 := AddChild(g1, np, Some(c), pf, -1).0;
      var r := AddDependency(g2.deps, c, Some(np), cf, true);
      && Grows(g1.deps, r)
      && (np !in g1.leaves && !Negative(pf) ==> HasAll(Flags(r, np, c), pf))
      && (!Negative(cf) ==> HasAll(Flags(r, c, np), cf))
      && (forall x, y :: !Between(x, y, np, c) ==> SameEntry(r, g1.deps, x, y))
  {
    var g2 := AddChild(g1, np, Some(c), pf, -1).0;
    var r := AddDependency(g2.deps, c, Some(np), cf, true);
    AddChildGrows(g1, np, Some(c), pf, -1);
    AddDependencyGrows(g2.deps, c, Some(np), cf);
    GrowsTrans(g1.deps, g2.deps, r);
    AddDependencyIsLinked(g2.deps, c, Some(np), cf, true);
    if np !in g1.leaves && !Negative(pf) {
      AddChildDependencies(g1, np, c, pf, -1);
      HasAllTrans(Flags(r, np, c), Flags(g2.deps, np, c), pf);
    }
    if !Negative(cf) {
      LinkedHasFlags(g2.deps, c, np, cf, true);
    }
    forall x, y | !Between(x, y, np, c)
      ensures SameEntry(r, g1.deps, x, y)
    {
      AddChildTouchesOnlyPair(g1, np, Some(c), pf, -1, x, y);
      LinkedTouchesOnlyPair(g2.deps, c, Some(np), cf, true, x, y);
    }
  }

  /** The entries of `c` moved from `self` to `np`, `r` being the tables after the
      move: none is left between `self` and `c`; the new parent holds the old
      parent's flags for the child (when it accepts children) and the child holds
      its old flags for the new parent (sign bit clear), on top of what the two
      already held; every other entry is untouched. */
  ghost predicate MovedOne(g: Graph, self: Id, np: Id, c: Id, r: Deps) {
    var pf := Flags(g.deps, self, c);
    var cf := Flags(g.deps, c, self);
    && c !in Row(r, self) && self !in Row(r, c)
    && (np !in g.leaves && !Negative(pf) ==> HasAll(Flags(r, np, c), pf))
    && (!Negative(cf) ==> HasAll(Flags(r, c, np), cf))
    && HasAll(Flags(r, np, c), Flags(g.deps, np, c)) && HasAll(Flags(r, c, np), Flags(g.deps, c, np))
    && (forall x, y :: !Between(x, y, self, c) && !Between(x, y, np, c) ==> SameEntry(r, g.deps, x, y))
  }

  /** unlink removes the two entries between this object and `c` and no other. */
  lemma UnlinkEntries(g: Graph, self: Id, c: Id)
    ensures var d := Unlink(g, self, c).deps;
      && c !in Row(d, self) && self !in Row(d, c)
      && forall x, y :: !Between(x, y, self, c) ==> SameEntry(d, g.deps, x, y)
  {
    var d := Unlink(g, self, c).deps;
    DetachOneRow(g, self, c, self);
    DetachOneRow(g, self, c, c);
    forall x, y | !Between(x, y, self, c)
      ensures SameEntry(d, g.deps, x, y)
    {
      DetachOneRow(g, self, c, x);
    }
  }

  /** An unlink `d1` followed by an attach `r` is a move. */
  lemma UnlinkThenAttach(g: Graph, self: Id, np: Id, c: Id, d1: Deps, r: Deps)
    requires self != c && np != c && np != self
    requires c !in Row(d1, self) && self !in Row(d1, c)
    requires forall x, y :: !Between(x, y, self, c) ==> SameEntry(d1, g.deps, x, y)
    requires Grows(d1, r)
    requires np !in g.leaves && !Negative(Flags(g.deps, self, c)) ==> HasAll(Flags(r, np, c), Flags(g.deps, self, c))
    requires !Negative(Flags(g.deps, c, self)) ==> HasAll(Flags(r, c, np), Flags(g.deps, c, self))
    requires forall x, y :: !Between(x, y, np, c) ==> SameEntry(r, d1, x, y)
    ensures MovedOne(g, self, np, c, r)
  {
    assert SameEntry(r, d1, self, c) && SameEntry(r, d1, c, self);
    assert SameEntry(d1, g.deps, np, c) && SameEntry(d1, g.deps, c, np);
    assert HasAll(Flags(r, np, c), Flags(d1, np, c)) && HasAll(Flags(r, c, np), Flags(d1, c, np));
    forall x, y | !Between(x, y, self, c) && !Between(x, y, np, c)
      ensures SameEntry(r, g.deps, x, y)
    {
      assert SameEntry(r, d1, x, y) && SameEntry(d1, g.deps, x, y);
    }
  }

  /** One turn of transferChildren moves the child's entries to the new parent. */
  lemma TransferOneDependencies(g: Graph, self: Id, np: Id, c: Id)
    requires self != c && np != c && np != self
    ensures MovedOne(g, self, np, c, TransferOne(g, self, np, c).deps)
    ensures TransferOne(g, self, np, c).leaves == g.leaves
  {
    var g1 := Unlink(g, self, c);
    UnlinkEntries(g, self, c);
    AttachDependencies(g1, np, c, Flags(g.deps, self, c), Flags(g.deps, c, self));
    UnlinkThenAttach(g, self, np, c, g1.deps, TransferOne(g, self, np, c).deps);
  }

  /** addChild's tables depend on the tables and the leaves only. */
  lemma AddChildDepsOnly(g: Graph, h: Graph, self: Id, child: Option<Id>, flags: bv32, index: int)
    requires g.deps == h.deps && g.leaves == h.leaves
    ensures AddChild(g, self, child, flags, index).0.deps == AddChild(h, self, child, flags, index).0.deps
  {
  }

  /** transferChild does to the tables what one turn of transferChildren does, and
      so moves the child's entries to the new parent. */
  lemma TransferChildDependencies(g: Graph, self: Id, c: Id, np: Id)
    requires self != c && np != c && np != self
    ensures TransferChild(g, self, c, np).deps == TransferOne(g, self, np, c).deps
    ensures MovedOne(g, self, np, c, TransferChild(g, self, c, np).deps)
  {
    AddChildDepsOnly(DetachChild(g, self, Some(c)), Unlink(g, self, c), np, Some(c), Flags(g.deps, self, c), -1);
    TransferOneDependencies(g, self, np, c);
  }

  /** transferChild onto this object itself, which the source accepts: the entries
      between this object and the child are rebuilt from the words they held,
      with this object holding the old flags for the child (when it accepts
      children) and the child its old flags for this object (sign bit clear); no
      other entry changes. */
  lemma TransferChildToSelfDependencies(g: Graph, self: Id, c: Id)
    requires self != c
    ensures var r := TransferChild(g, self, c, self).deps;
      var pf := Flags(g.deps, self, c);
      var cf := Flags(g.deps, c, self);
      && (self !in g.leaves && !Negative(pf) ==> HasAll(Flags(r, self, c), pf))
      && (!Negative(cf) ==> HasAll(Flags(r, c, self), cf))
      && forall x, y :: !Between(x, y, self, c) ==> SameEntry(r, g.deps, x, y)
  {
    var g1 := Unlink(g, self, c);
    var r := TransferChild(g, self, c, self).deps;
    AddChildDepsOnly(DetachChild(g, self, Some(c)), g1, self, Some(c), Flags(g.deps, self, c), -1);
    assert r == TransferOne(g, self, self, c).deps;
    UnlinkEntries(g, self, c);
    AttachDependencies(g1, self, c, Flags(g.deps, self, c), Flags(g.deps, c, self));
    forall x, y | !Between(x, y, self, c)
      ensures SameEntry(r, g.deps, x, y)
    {
      assert SameEntry(r, g1.deps, x, y) && SameEntry(g1.deps, g.deps, x, y);
    }
  }

  /** `(x, y)` is an entry between `self` or `np` and one of `ks`. */
  predicate Touched(x: Id, y: Id, self: Id, np: Id, ks: seq<Id>) {
    (x == self && y in ks) || (y == self && x in ks) || (x == np && y in ks) || (y == np && x in ks)
  }

  /** No entry is left between `self` and any of `ks` in `d`. */
  ghost predicate Detached(self: Id, ks: seq<Id>, d: Deps) {
    forall c :: c in ks ==> c !in Row(d, self) && self !in Row(d, c)
  }

  /** In `d`, the new parent holds the old parent's flags for each of `ks` (when it
      accepts children), and each of `ks` holds its old flags for the new parent
      (both when the sign bit is clear). */
  ghost predicate Carried(g: Graph, self: Id, np: Id, ks: seq<Id>, d: Deps) {
    && (forall c :: c in ks && np !in g.leaves && !Negative(Flags(g.deps, self, c)) ==>
          HasAll(Flags(d, np, c), Flags(g.deps, self, c)))
    && (forall c :: c in ks && !Negative(Flags(g.deps, c, self)) ==>
          HasAll(Flags(d, c, np), Flags(g.deps, c, self)))
  }

  /** Every entry between objects other than `self`, `np` and `ks` is as in `d0`. */
  ghost predicate Kept(d0: Deps, self: Id, np: Id, ks: seq<Id>, d: Deps) {
    forall x, y :: !Touched(x, y, self, np, ks) ==> SameEntry(d, d0, x, y)
  }

  /** The entries of every child in `ks` moved from `self` to `np`, `m` being the
      state after the moves; see MovedOne. */
  ghost predicate MovedAll(g: Graph, self: Id, np: Id, ks: seq<Id>, m: Graph) {
    && m.leaves == g.leaves
    && Detached(self, ks, m.deps)
    && Carried(g, self, np, ks, m.deps)
    && Kept(g.deps, self, np, ks, m.deps)
  }

  lemma DetachedAfter(self: Id, np: Id, init: seq<Id>, last: Id, m: Graph, r: Deps)
    requires self != np && self != last && np != last
    requires Detached(self, init, m.deps) && MovedOne(m, self, np, last, r)
    ensures Detached(self, init + [last], r)
  {
    forall c | c in init + [last]
      ensures c !in Row(r, self) && self !in Row(r, c)
    {
      if c != last {
        assert SameEntry(r, m.deps, self, c) && SameEntry(r, m.deps, c, self);
      }
    }
  }

  lemma CarriedAfter(g: Graph, self: Id, np: Id, init: seq<Id>, last: Id, m: Graph, r: Deps)
    requires self != np && self != last && np != last
    requires Carried(g, self, np, init, m.deps) && MovedOne(m, self, np, last, r) && m.leaves == g.leaves
    requires last !in init ==> SameEntry(m.deps, g.deps, self, last) && SameEntry(m.deps, g.deps, last, self)
    ensures Carried(g, self, np, init + [last], r)
  {
    forall c | c in init + [last] && np !in g.leaves && !Negative(Flags(g.deps, self, c))
      ensures HasAll(Flags(r, np, c), Flags(g.deps, self, c))
    {
      if c != last {
        assert SameEntry(r, m.deps, np, c);
      } else if last in init {
        HasAllTrans(Flags(r, np, c), Flags(m.deps, np, c), Flags(g.deps, self, c));
      }
    }
    forall c | c in init + [last] && !Negative(Flags(g.deps, c, self))
      ensures HasAll(Flags(r, c, np), Flags(g.deps, c, self))
    {
      if c != last {
        assert SameEntry(r, m.deps, c, np);
      } else if last in init {
        HasAllTrans(Flags(r, c, np), Flags(m.deps, c, np), Flags(g.deps, c, self));
      }
    }
  }

  lemma KeptAfter(d0: Deps, self: Id, np: Id, init: seq<Id>, last: Id, m: Graph, r: Deps)
    requires Kept(d0, self, np, init, m.deps) && MovedOne(m, self, np, last, r)
    ensures Kept(d0, self, np, init + [last], r)
  {
    forall x, y | !Touched(x, y, self, np, init + [last])
      ensures SameEntry(r, d0, x, y)
    {
      assert !Touched(x, y, self, np, init);
      assert SameEntry(r, m.deps, x, y) && SameEntry(m.deps, d0, x, y);
    }
  }

  /** One more turn of transferChildren, with effect `r`, after the turns over
      `init`, whose effect `m` on the tables is known. */
  lemma TransferDepsAfter(g: Graph, self: Id, np: Id, init: seq<Id>, last: Id, m: Graph, r: Graph)
    requires self != np && self != last && np != last && self !in init && np !in init
    requires MovedAll(g, self, np, init, m)
    requires MovedOne(m, self, np, last, r.deps) && r.leaves == m.leaves
    ensures MovedAll(g, self, np, init + [last], r)
  {
    if last !in init {
      assert !Touched(self, last, self, np, init) && !Touched(last, self, self, np, init);
    }
    DetachedAfter(self, np, init, last, m, r.deps);
    CarriedAfter(g, self, np, init, last, m, r.deps);
    KeptAfter(g.deps, self, np, init, last, m, r.deps);
  }

  /** The loop of transferChildren moves the entries of every visited child to the
      new parent, whether or not the new parent accepts the children. */
  lemma {:induction false} TransferEachDependencies(g: Graph, self: Id, np: Id, ks: seq<Id>)
    requires self != np && self !in ks && np !in ks
    ensures MovedAll(g, self, np, ks, TransferEach(g, self, np, ks))
  {
    if |ks| == 0 {
      assert forall x, y :: SameEntry(g.deps, g.deps, x, y);
    } else {
      var init, last := ks[..|ks| - 1], ks[|ks| - 1];
      assert ks == init + [last];
      TransferEachLast(g, self, np, ks);
      TransferEachDependencies(g, self, np, init);
      var m := TransferEach(g, self, np, init);
      TransferOneDependencies(m, self, np, last);
      TransferDepsAfter(g, self, np, init, last, m, TransferOne(m, self, np, last));
    }
  }

  /** transferChildren moves the entries of all of this object's children to the
      new parent. */
  lemma TransferChildrenDependencies(g: Graph, self: Id, np: Id)
    requires np != self && self !in Kids(g, self) && np !in Kids(g, self)
    ensures MovedAll(g, self, np, Kids(g, self), TransferChildren(g, self, np))
  {
    var m := TransferEach(g, self, np, Kids(g, self));
    TransferEachDependencies(g, self, np, Kids(g, self));
    assert TransferChildren(g, self, np).deps == m.deps && TransferChildren(g, self, np).leaves == m.leaves;
  }

  // ---------------------------------------------------------------------------
  // Every operation keeps the dependency tables well-formed
  // ---------------------------------------------------------------------------

  lemma UnlinkValid(g: Graph, self: Id, c: Id)
    requires Valid(g)
    ensures Valid(Unlink(g, self, c))
  {
    WithoutWellFormed(g.deps, self, c);
    WithoutWellFormed(Without(g.deps, self, c), c, self);
  }

  lemma OnDeletionOfValid(g: Graph, self: Id, obj: Id)
    requires Valid(g)
    ensures Valid(OnDeletionOf(g, self, obj))
  {
    WithoutWellFormed(g.deps, self, obj);
  }

  lemma AddChildValid(g: Graph, self: Id, child: Option<Id>, flags: bv32, index: int)
    requires Valid(g)
    ensures Valid(AddChild(g, self, child, flags, index).0)
  {
    if child.Some? && self !in g.leaves {
      var c := child.value;
      var d2 := AddDependency(g.deps, c, Some(self), Notify, true);
      AddDependencyWellFormed(g.deps, c, Some(self), Notify, true);
      AddDependencyWellFormed(d2, self, Some(c), flags, true);
    }
  }

  lemma DetachChildValid(g: Graph, self: Id, child: Option<Id>)
    requires Valid(g)
    ensures Valid(DetachChild(g, self, child))
  {
    if child.Some? {
      UnlinkValid(g, self, child.value);
    }
  }

  lemma {:induction false} DetachEachValid(g: Graph, self: Id, ks: seq<Id>)
    requires Valid(g)
    ensures Valid(DetachEach(g, self, ks))
  {
    if |ks| > 0 {
      DetachEachValid(g, self, ks[..|ks| - 1]);
      UnlinkValid(DetachEach(g, self, ks[..|ks| - 1]), self, ks[|ks| - 1]);
    }
  }

  lemma RemoveChildAtValid(g: Graph, self: Id, pos: nat)
    requires Valid(g) && pos < |Kids(g, self)|
    ensures Valid(RemoveChildAt(g, self, pos))
  {
    UnlinkValid(g, self, Kids(g, self)[pos]);
  }

  lemma TransferOneValid(g: Graph, self: Id, np: Id, c: Id)
    requires Valid(g)
    ensures Valid(TransferOne(g, self, np, c))
  {
    var g1 := Unlink(g, self, c);
    UnlinkValid(g, self, c);
    var g2 := AddChild(g1, np, Some(c), Flags(g.deps, self, c), -1).0;
    AddChildValid(g1, np, Some(c), Flags(g.deps, self, c), -1);
    AddDependencyWellFormed(g2.deps, c, Some(np), Flags(g.deps, c, self), true);
  }

  lemma {:induction false} TransferEachValid(g: Graph, self: Id, np: Id, ks: seq<Id>)
    requires Valid(g)
    ensures Valid(TransferEach(g, self, np, ks))
  {
    if |ks| > 0 {
      TransferEachValid(g, self, np, ks[..|ks| - 1]);
      TransferOneValid(TransferEach(g, self, np, ks[..|ks| - 1]), self, np, ks[|ks| - 1]);
    }
  }

  lemma TransferChildValid(g: Graph, self: Id, c: Id, np: Id)
    requires Valid(g)
    ensures Valid(TransferChild(g, self, c, np))
  {
    var g1 := DetachChild(g, self, Some(c));
    DetachChildValid(g, self, Some(c));
    var g2 := AddChild(g1, np, Some(c), Flags(g.deps, self, c), -1).0;
    AddChildValid(g1, np, Some(c), Flags(g.deps, self, c), -1);
    AddDependencyWellFormed(g2.deps, c, Some(np), Flags(g.deps, c, self), true);
  }
}
