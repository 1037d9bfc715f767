/**
 * The operations ccHObject performs on its ordered child list (`m_children`,
 * a `std::vector`): insertion with index clamping, erasure at a position that
 * keeps the order of the others, linear search and swapping. They are stated
 * on any element type; the hierarchy uses them on object identities.
 */
module ChildLists {

  /** The position addChild inserts at: a negative or out-of-range index appends. */
  function InsertPos(n: nat, index: int): (p: nat)
    ensures p <= n
    ensures 0 <= index < n ==> p == index
    ensures (index < 0 || index >= n) ==> p == n
  {
    if index < 0 || index >= n then n else index
  }

  /** `push_back` or `insert(begin() + index, x)`, as addChild chooses. */
  function Inserted<T>(s: seq<T>, x: T, index: int): seq<T> {
    var p := InsertPos(|s|, index);
    s[..p] + [x] + s[p..]
  }

  /** `erase(begin() + i)`: the element at `i` goes, the others keep their order. */
  function RemoveAt<T>(s: seq<T>, i: nat): seq<T>
    requires i < |s|
  {
    s[..i] + s[i + 1..]
  }

  /** The loop of getChildIndex: the first position of `x`, or -1. */
  function IndexOf<T(==)>(s: seq<T>, x: T): (r: int)
    ensures -1 <= r < |s|
    ensures r == -1 <==> x !in s
    ensures 0 <= r ==> s[r] == x && x !in s[..r]
    decreases |s|
  {
    if |s| == 0 then -1
    else if s[0] == x then 0
    else
      var k := IndexOf(s[1..], x);
      if k < 0 then -1
      else
        assert s[..k + 1] == [s[0]] + s[1..][..k];
        k + 1
  }

  /** `std::swap(s[i], s[j])`. */
  function Swapped<T>(s: seq<T>, i: nat, j: nat): seq<T>
    requires i < |s| && j < |s|
  {
    s[i := s[j]][j := s[i]]
  }

  /** Removal of the first occurrence of `x`, if any: what onDeletionOf, detachChild
      and removeChild(child) do to the list. */
  function RemoveFirst<T(==)>(s: seq<T>, x: T): seq<T> {
    var i := IndexOf(s, x);
    if i < 0 then s else RemoveAt(s, i)
  }

  /** The inserted element is at the clamped position, the old elements keep their
      order around it, and erasing it again gives back the list. */
  lemma InsertedPlacement<T>(s: seq<T>, x: T, index: int)
    ensures var r := Inserted(s, x, index); var p := InsertPos(|s|, index);
      && |r| == |s| + 1
      && r[p] == x
      && (forall k :: 0 <= k < p ==> r[k] == s[k])
      && (forall k :: p <= k < |s| ==> r[k + 1] == s[k])
      && RemoveAt(r, p) == s
      && multiset(r) == multiset(s) + multiset{x}
  {
    var r := Inserted(s, x, index);
    var p := InsertPos(|s|, index);
    assert r[..p] == s[..p];
    assert r[p + 1..] == s[p..];
    assert s == s[..p] + s[p..];
  }

  /** Erasing at `i` keeps every other element, in order, and loses exactly one
      copy of `s[i]`; inserting it back at `i` restores the list. */
  lemma RemoveAtKeepsOrder<T>(s: seq<T>, i: nat)
    requires i < |s|
    ensures var r := RemoveAt(s, i);
      && |r| == |s| - 1
      && (forall k :: 0 <= k < i ==> r[k] == s[k])
      && (forall k :: i <= k < |r| ==> r[k] == s[k + 1])
      && multiset(r) + multiset{s[i]} == multiset(s)
      && Inserted(r, s[i], i) == s
  {
    var r := RemoveAt(s, i);
    assert s == s[..i] + [s[i]] + s[i + 1..];
    assert InsertPos(|r|, i) == i;
    assert r[..i] == s[..i];
    assert r[i..] == s[i + 1..];
  }

  /** Removing the first occurrence removes exactly one copy when `x` is present,
      and nothing otherwise; what stays keeps its order. */
  lemma RemoveFirstEffect<T>(s: seq<T>, x: T)
    ensures var r := RemoveFirst(s, x);
      && (x !in s ==> r == s)
      && (x in s ==> |r| == |s| - 1 && multiset(r) == multiset(s) - multiset{x})
      && (x in s ==> r == s[..IndexOf(s, x)] + s[IndexOf(s, x) + 1..])
  {
    if x in s {
      var i := IndexOf(s, x);
      RemoveAtKeepsOrder(s, i);
    }
  }

  /** Swapping exchanges the two elements, keeps the others, and swapping again
      restores the list. */
  lemma SwappedEffect<T>(s: seq<T>, i: nat, j: nat)
    requires i < |s| && j < |s|
    ensures var r := Swapped(s, i, j);
      && |r| == |s| && r[i] == s[j] && r[j] == s[i]
      && (forall k :: 0 <= k < |s| && k != i && k != j ==> r[k] == s[k])
      && Swapped(r, i, j) == s
  {
  }

  /** Swapping permutes the list. */
  lemma SwappedPermutes<T>(s: seq<T>, i: nat, j: nat)
    requires i < |s| && j < |s|
    ensures multiset(Swapped(s, i, j)) == multiset(s)
  {
    var m := s[i := s[j]];
    assert multiset(m) == multiset(s) - multiset{s[i]} + multiset{s[j]};
    assert m[j] == s[j];
    assert multiset(m[j := s[i]]) == multiset(m) - multiset{s[j]} + multiset{s[i]};
  }
}
