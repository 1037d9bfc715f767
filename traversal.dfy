/**
 * The read-only queries of ccHObject that follow the child and parent links:
 * find (search of the subtree by unique id), isAncestorOf and isBranchEnabled
 * (walks up the parent links). The source recurses without a bound, so it only
 * terminates on a hierarchy without cycles; each query takes a ghost ranking of
 * the objects that decreases along the links it follows, which is exactly that
 * assumption made explicit.
 */
module Traversal {
  import opened Wrappers
  import opened Dependencies
  import opened Hierarchy

  /** The rank of `x`, 0 for an object the ranking does not mention. */
  function Rank(rank: map<Id, nat>, x: Id): nat {
    if x in rank then rank[x] else 0
  }

  /** Every child ranks below its parent object: no cycle through child lists. */
  ghost predicate ChildRanked(g: Graph, rank: map<Id, nat>) {
    forall x, i :: 0 <= i < |Kids(g, x)| ==> Rank(rank, Kids(g, x)[i]) < Rank(rank, x)
  }

  /** Every parent link goes to a lower rank: no cycle through parent links. */
  ghost predicate ParentRanked(g: Graph, rank: map<Id, nat>) {
    forall x :: x in g.parent ==> Rank(rank, g.parent[x]) < Rank(rank, x)
  }

  /** `getUniqueID() == id`. */
  predicate Matches(g: Graph, x: Id, id: int) {
    x in g.uniqueID && g.uniqueID[x] == id
  }

  /** `y` is `x` or lies below it through the child lists. */
  ghost predicate InSubtree(g: Graph, rank: map<Id, nat>, x: Id, y: Id)
    requires ChildRanked(g, rank)
    decreases Rank(rank, x)
  {
    x == y || exists i :: 0 <= i < |Kids(g, x)| && InSubtree(g, rank, Kids(g, x)[i], y)
  }

  /** `y` lies strictly below `x`: in the subtree of one of its children. */
  ghost predicate Below(g: Graph, rank: map<Id, nat>, x: Id, y: Id)
    requires ChildRanked(g, rank)
  {
    exists i :: 0 <= i < |Kids(g, x)| && InSubtree(g, rank, Kids(g, x)[i], y)
  }

  /** find(uniqueID): this object if it matches, otherwise the first match found in
      the children's subtrees, taken in order; None (null) when nothing matches. */
  function Find(g: Graph, ghost rank: map<Id, nat>, self: Id, id: int): (r: Option<Id>)
    requires ChildRanked(g, rank)
    ensures r.Some? ==> Matches(g, r.value, id) && InSubtree(g, rank, self, r.value)
    ensures r.None? ==> forall y :: InSubtree(g, rank, self, y) ==> !Matches(g, y, id)
    decreases Rank(rank, self), 1
  {
    if Matches(g, self, id) then Some(self) else FindIn(g, rank, self, 0, id)
  }

  /** The loop of find over the children of `x` from index `i` on. */
  function FindIn(g: Graph, ghost rank: map<Id, nat>, x: Id, i: nat, id: int): (r: Option<Id>)
    requires ChildRanked(g, rank) && i <= |Kids(g, x)|
    ensures r.Some? ==> Matches(g, r.value, id) && Below(g, rank, x, r.value)
    ensures r.None? ==> forall j, y :: i <= j < |Kids(g, x)| && InSubtree(g, rank, Kids(g, x)[j], y) ==> !Matches(g, y, id)
    decreases Rank(rank, x), 0, |Kids(g, x)| - i
  {
    if i == |Kids(g, x)| then None
    else
      match Find(g, rank, Kids(g, x)[i], id)
      case Some(m) => Some(m)
      case None => FindIn(g, rank, x, i + 1, id)
  }

  /** The `k`-th ancestor of `x` through the parent links (`x` itself for 0). */
  function Up(g: Graph, x: Id, k: nat): Option<Id>
    decreases k
  {
    if k == 0 then Some(x)
    else
      match ParentOf(g, x)
      case None => None
      case Some(p) => Up(g, p, k - 1)
  }

  /** isAncestorOf(o): walk up from `o` until the parent is this object or null. */
  function IsAncestorOf(g: Graph, ghost rank: map<Id, nat>, self: Id, o: Id): bool
    requires ParentRanked(g, rank)
    decreases Rank(rank, o)
  {
    match ParentOf(g, o)
    case None => false
    case Some(p) => if p == self then true else IsAncestorOf(g, rank, self, p)
  }

  /** isBranchEnabled(): this object and every ancestor are enabled. */
  function IsBranchEnabled(g: Graph, ghost rank: map<Id, nat>, self: Id): bool
    requires ParentRanked(g, rank)
    decreases Rank(rank, self)
  {
    if self !in g.enabled then false
    else
      match ParentOf(g, self)
      case None => true
      case Some(p) => IsBranchEnabled(g, rank, p)
  }

  /** isAncestorOf(o) holds exactly when this object is reached from `o` by
      following one or more parent links. */
  lemma {:induction false} IsAncestorOfChain(g: Graph, rank: map<Id, nat>, self: Id, o: Id)
    requires ParentRanked(g, rank)
    ensures IsAncestorOf(g, rank, self, o) <==> exists k: nat :: 1 <= k && Up(g, o, k) == Some(self)
    decreases Rank(rank, o)
  {
    match ParentOf(g, o)
    case None =>
      forall k: nat | 1 <= k
        ensures Up(g, o, k) != Some(self)
      {
      }
    case Some(p) =>
      assert Up(g, o, 1) == Some(p);
      forall k: nat | 1 <= k
        ensures Up(g, o, k) == Up(g, p, k - 1)
      {
      }
      if p == self {
        var one: nat := 1;
        assert Up(g, o, one) == Some(self);
        assert exists k: nat :: 1 <= k && Up(g, o, k) == Some(self);
        assert IsAncestorOf(g, rank, self, o);
      } else {
        assert IsAncestorOf(g, rank, self, o) == IsAncestorOf(g, rank, self, p);
        IsAncestorOfChain(g, rank, self, p);
        if IsAncestorOf(g, rank, self, p) {
          var k: nat :| 1 <= k && Up(g, p, k) == Some(self);
          assert Up(g, o, k + 1) == Some(self);
          assert exists j: nat :: 1 <= j && Up(g, o, j) == Some(self);
        } else {
          forall k: nat | 1 <= k
            ensures Up(g, o, k) != Some(self)
          {
            if k > 1 {
              var j: nat := k - 1;
              assert Up(g, o, k) == Up(g, p, j);
              assert Up(g, p, j) != Some(self);
            }
          }
        }
      }
  }

  /** isBranchEnabled() holds exactly when every object on the way up the parent
      links, this one included, is enabled. */
  lemma {:induction false} IsBranchEnabledChain(g: Graph, rank: map<Id, nat>, self: Id)
    requires ParentRanked(g, rank)
    ensures IsBranchEnabled(g, rank, self) <==>
      forall k: nat :: Up(g, self, k).Some? ==> Up(g, self, k).value in g.enabled
    decreases Rank(rank, self)
  {
    assert Up(g, self, 0) == Some(self);
    match ParentOf(g, self)
    case None =>
      forall k: nat | Up(g, self, k).Some?
        ensures Up(g, self, k).value == self
      {
      }
    case Some(p) =>
      IsBranchEnabledChain(g, rank, p);
      assert IsBranchEnabled(g, rank, self) == (self in g.enabled && IsBranchEnabled(g, rank, p));
      forall k: nat | 1 <= k
        ensures Up(g, self, k) == Up(g, p, k - 1)
      {
      }
      if IsBranchEnabled(g, rank, self) {
        forall k: nat | Up(g, self, k).Some?
          ensures Up(g, self, k).value in g.enabled
        {
          if k > 0 {
            assert Up(g, p, k - 1).Some?;
          }
        }
      } else if self in g.enabled {
        var k: nat :| Up(g, p, k).Some? && Up(g, p, k).value !in g.enabled;
        assert Up(g, self, k + 1) == Up(g, p, k);
      }
  }
}
