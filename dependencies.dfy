/**
 * The dependency table of ccHObject (`m_dependencies`): for every object, a map
 * from the other objects it depends on to a flag word. `Deps` holds the tables of
 * all objects at once, so that the two directions of a link can be stated together.
 * Everything here is value-level; the in-place updates are the methods of
 * `Scenes.Scene`, proved against these functions.
 */
module Dependencies {
  import opened Wrappers
  import opened DependencyFlags

  /** The identity of an object (the pointer in the source). */
  type Id = nat

  /** One object's `m_dependencies`. */
  type Table = map<Id, bv32>

  /** Every object's table; an object without an entry has an empty table. */
  type Deps = map<Id, Table>

  /** The table of `a`. */
  function Row(d: Deps, a: Id): Table {
    if a in d then d[a] else map[]
  }

  /** getDependencyFlagsWith: the flags stored for `other`, 0 when there is no entry. */
  function FlagsWith(t: Table, other: Id): (r: bv32)
    ensures other in t ==> r == t[other]
    ensures other !in t ==> r == 0
  {
    if other in t then t[other] else 0
  }

  /** The flags `a` holds for `b`. */
  function Flags(d: Deps, a: Id, b: Id): bv32 {
    FlagsWith(Row(d, a), b)
  }

  /** No entry stores 0 and no entry is negative: what every operation keeps. */
  ghost predicate WellFormedTable(t: Table) {
    forall o :: o in t ==> t[o] != 0 && !Negative(t[o])
  }

  ghost predicate WellFormed(d: Deps) {
    forall a :: a in d ==> WellFormedTable(d[a])
  }

  /** removeDependencyWith: `other` loses its entry, nothing else changes. */
  function RemoveWith(t: Table, other: Id): (r: Table)
    ensures other !in r && r.Keys == t.Keys - {other}
    ensures forall o :: o in r ==> r[o] == t[o]
  {
    t - {other}
  }

  /** `a`'s removeDependencyWith(other) applied to the tables of every object. */
  function Without(d: Deps, a: Id, other: Id): (r: Deps)
    ensures Row(r, a) == RemoveWith(Row(d, a), other)
    ensures forall x :: x != a ==> Row(r, x) == Row(d, x)
  {
    d[a := RemoveWith(Row(d, a), other)]
  }

  /** Removing an entry keeps the tables well-formed. */
  lemma WithoutWellFormed(d: Deps, a: Id, other: Id)
    requires WellFormed(d)
    ensures WellFormed(Without(d, a, other))
  {
    var r := Without(d, a, other);
    forall x | x in r
      ensures WellFormedTable(r[x])
    {
      if x == a {
        forall o | o in r[a]
          ensures r[a][o] != 0 && !Negative(r[a][o])
        {
          assert o in Row(d, a);
          assert WellFormedTable(Row(d, a));
        }
      } else {
        assert r[x] == Row(d, x);
      }
    }
  }

  /** `flags & ~flag`: the word with the one bit of `flag` cleared. */
  function Cleared(flags: bv32, flag: Dependency): bv32 {
    flags & !flag.Bit()
  }

  /** removeDependencyFlag. */
  function RemoveFlag(t: Table, other: Id, flag: Dependency): Table {
    var flags := FlagsWith(t, other);
    if HasAll(flags, flag.Bit()) then
      var rest := Cleared(flags, flag);
      if rest != 0 then t[other := rest] else t - {other}
    else
      t
  }

  /** Clearing one bit of a well-formed flag word leaves a word that is not negative. */
  lemma ClearBit(flags: bv32, flag: Dependency)
    requires !Negative(flags)
    ensures !Negative(Cleared(flags, flag))
    ensures flags & flag.Bit() == 0 ==> Cleared(flags, flag) == flags
    ensures !HasAll(flags, flag.Bit()) ==> flags & flag.Bit() == 0
  {
  }

  /** removeDependencyFlag clears exactly the one bit, keeps every other entry, and
      erases the entry once no bit remains. */
  lemma RemoveFlagEffect(t: Table, other: Id, flag: Dependency)
    requires WellFormedTable(t)
    ensures var r := RemoveFlag(t, other, flag);
      && WellFormedTable(r)
      && FlagsWith(r, other) == Cleared(FlagsWith(t, other), flag)
      && (forall o :: o != other ==> FlagsWith(r, o) == FlagsWith(t, o))
      && (forall o :: o != other ==> (o in r <==> o in t))
      && (other in r <==> Cleared(FlagsWith(t, other), flag) != 0)
      && (FlagsWith(t, other) & flag.Bit() == 0 ==> r == t)
  {
    var flags := FlagsWith(t, other);
    assert !Negative(flags);
    ClearBit(flags, flag);
    if HasAll(flags, flag.Bit()) {
      var rest := Cleared(flags, flag);
      if rest != 0 {
        assert RemoveFlag(t, other, flag) == t[other := rest];
      } else {
        assert RemoveFlag(t, other, flag) == t - {other};
      }
    }
  }

  /** Every early return of addDependency: a null or negative argument (logged as
      an error), no flag at all, or, in additive mode, flags that are all set already. */
  predicate Stops(d: Deps, a: Id, other: Option<Id>, flags: bv32, additive: bool) {
    || other.None? || Negative(flags) || flags == 0
    || (additive && other.value in Row(d, a) && HasAll(Row(d, a)[other.value], flags))
  }

  /** The flag word addDependency stores: in additive mode merged with what was there. */
  function Merged(d: Deps, a: Id, b: Id, flags: bv32, additive: bool): bv32 {
    if additive && b in Row(d, a) then flags | Row(d, a)[b] else flags
  }

  /** The word addDependency leaves stored in `a` for `b`: the merged word, plus
      NotifyOtherOnDelete when `b` did not yet hold that bit for `a`, because the
      call back from `b` then merges it in. */
  function Back(d: Deps, a: Id, b: Id, m: bv32): bv32 {
    if a in Row(d, b) && HasAll(Flags(d, b, a), Notify) then m else m | Notify
  }

  /** `d` with the flags of `a` for `b` set to `f`. */
  function SetFlags(d: Deps, a: Id, b: Id, f: bv32): Deps {
    d[a := Row(d, a)[b := f]]
  }

  /** Updates of two different tables commute. */
  lemma SetFlagsCommute(d: Deps, a: Id, b: Id, x: bv32, c: Id, e: Id, y: bv32)
    requires a != c
    ensures SetFlags(SetFlags(d, a, b, x), c, e, y) == SetFlags(SetFlags(d, c, e, y), a, b, x)
  {
  }

  /** A second update of the same entry overrides the first. */
  lemma SetFlagsTwice(d: Deps, a: Id, b: Id, x: bv32, y: bv32)
    ensures SetFlags(SetFlags(d, a, b, x), a, b, y) == SetFlags(d, a, b, y)
  {
    assert Row(SetFlags(d, a, b, x), a)[b := y] == Row(d, a)[b := y];
  }

  /** How many nested calls addDependency makes: the reverse call to register
      NotifyOtherOnDelete, which may call back once more, whose own reverse call
      always returns early. */
  function Depth(d: Deps, a: Id, other: Option<Id>, flags: bv32, additive: bool): nat {
    if Stops(d, a, other, flags, additive) then 0
    else
      var b := other.value;
      var d1 := SetFlags(d, a, b, Merged(d, a, b, flags, additive));
      if Stops(d1, b, Some(a), Notify, true) then 1
      else
        var d2 := SetFlags(d1, b, a, Merged(d1, b, a, Notify, true));
        if Stops(d2, a, Some(b), Notify, true) then 2 else 3
  }

  /** The recursive call of addDependency is one level shallower than its caller. */
  lemma DepthDecreases(d: Deps, a: Id, other: Option<Id>, flags: bv32, additive: bool)
    requires !Stops(d, a, other, flags, additive)
    ensures var b := other.value;
      var d1 := SetFlags(d, a, b, Merged(d, a, b, flags, additive));
      Depth(d1, b, Some(a), Notify, true) == Depth(d, a, other, flags, additive) - 1
  {
    var b := other.value;
    var d1 := SetFlags(d, a, b, Merged(d, a, b, flags, additive));
    if !Stops(d1, b, Some(a), Notify, true) {
      var d2 := SetFlags(d1, b, a, Merged(d1, b, a, Notify, true));
      if !Stops(d2, a, Some(b), Notify, true) {
        var d3 := SetFlags(d2, a, b, Merged(d2, a, b, Notify, true));
        assert a != b;
        assert Row(d3, b) == Row(d2, b);
        assert Stops(d3, b, Some(a), Notify, true);
      }
    }
  }

  /** addDependency, with its recursive call that registers the reverse link. */
  function AddDependency(d: Deps, a: Id, other: Option<Id>, flags: bv32, additive: bool): Deps
    decreases Depth(d, a, other, flags, additive)
  {
    if Stops(d, a, other, flags, additive) then d
    else
      var b := other.value;
      DepthDecreases(d, a, other, flags, additive);
      AddDependency(SetFlags(d, a, b, Merged(d, a, b, flags, additive)), b, Some(a), Notify, true)
  }

  /** The recursion of addDependency makes at most three nested calls. */
  lemma DepthBound(d: Deps, a: Id, other: Option<Id>, flags: bv32, additive: bool)
    ensures Depth(d, a, other, flags, additive) <= 3
    ensures Stops(d, a, other, flags, additive) <==> Depth(d, a, other, flags, additive) == 0
  {
  }

  /** The bound is reached: a first dependency between two objects that does not
      carry NotifyOtherOnDelete takes three nested calls. */
  lemma {:induction false} FirstLinkTakesThreeCalls(d: Deps, a: Id, b: Id, flag: Dependency)
    requires a != b && Row(d, a) == map[] && Row(d, b) == map[]
    requires flag != NotifyOtherOnDelete
    ensures Depth(d, a, Some(b), flag.Bit(), true) == 3
  {
    DistinctBits(flag, NotifyOtherOnDelete);
    var f := flag.Bit();
    var d1 := SetFlags(d, a, b, Merged(d, a, b, f, true));
    assert Row(d1, a)[b] == f;
    assert a !in Row(d1, b);
    var d2 := SetFlags(d1, b, a, Merged(d1, b, a, Notify, true));
    assert Row(d2, a)[b] == f;
    assert !HasAll(f, Notify);
  }

  /** One level of addDependency. */
  lemma AddDependencyUnfold(d: Deps, a: Id, other: Option<Id>, flags: bv32, additive: bool)
    ensures AddDependency(d, a, other, flags, additive) ==
      if Stops(d, a, other, flags, additive) then d
      else AddDependency(SetFlags(d, a, other.value, Merged(d, a, other.value, flags, additive)),
                         other.value, Some(a), Notify, true)
  {
  }

  /** Merging NotifyOtherOnDelete into a word that has it changes nothing. */
  lemma NotifyAbsorbed(m: bv32)
    requires HasAll(m, Notify)
    ensures m | Notify == m
  {
  }

  /** The reverse call of addDependency with both sides already linked. */
  lemma ReverseLinked(d: Deps, a: Id, b: Id)
    requires a != b && a in Row(d, b) && HasAll(Row(d, b)[a], Notify)
    ensures AddDependency(d, b, Some(a), Notify, true) == d
    ensures SetFlags(d, b, a, Flags(d, b, a) | Notify) == d
  {
    AddDependencyUnfold(d, b, Some(a), Notify, true);
    NotifyAbsorbed(Row(d, b)[a]);
    assert Row(d, b)[a := Flags(d, b, a) | Notify] == Row(d, b);
  }

  /** The third call of a new link, when `a` holds Notify for `b` already: it
      returns at once, and storing Notify again would change nothing. */
  lemma ThirdCallStops(d1: Deps, d2: Deps, a: Id, b: Id, m: bv32)
    requires b in Row(d1, a) && Row(d1, a)[b] == m && Row(d2, a) == Row(d1, a)
    requires Stops(d2, a, Some(b), Notify, true)
    ensures AddDependency(d2, a, Some(b), Notify, true) == d2
    ensures SetFlags(d1, a, b, m | Notify) == d1
  {
    AddDependencyUnfold(d2, a, Some(b), Notify, true);
    NotifyAbsorbed(m);
    assert Row(d1, a)[b := m | Notify] == Row(d1, a);
  }

  /** The third call of a new link, when `a` lacks Notify for `b`: it stores
      `m | Notify` and the fourth call finds both sides linked. */
  lemma ThirdCallRuns(d2: Deps, a: Id, b: Id, m: bv32, n: bv32)
    requires a != b && b in Row(d2, a) && Row(d2, a)[b] == m
    requires a in Row(d2, b) && Row(d2, b)[a] == n && HasAll(n, Notify)
    requires !Stops(d2, a, Some(b), Notify, true)
    ensures AddDependency(d2, a, Some(b), Notify, true) == SetFlags(d2, a, b, m | Notify)
  {
    AddDependencyUnfold(d2, a, Some(b), Notify, true);
    assert Merged(d2, a, b, Notify, true) == m | Notify;
    var d3 := SetFlags(d2, a, b, m | Notify);
    assert Row(d3, b) == Row(d2, b);
    ReverseLinked(d3, a, b);
  }

  /** The reverse call of addDependency when `b` did not yet hold Notify for `a`. */
  lemma ReverseNew(d1: Deps, a: Id, b: Id, m: bv32)
    requires a != b && b in Row(d1, a) && Row(d1, a)[b] == m
    requires !Stops(d1, b, Some(a), Notify, true)
    ensures AddDependency(d1, b, Some(a), Notify, true) ==
      SetFlags(SetFlags(d1, a, b, m | Notify), b, a, Flags(d1, b, a) | Notify)
  {
    AddDependencyUnfold(d1, b, Some(a), Notify, true);
    var n := Flags(d1, b, a) | Notify;
    assert Merged(d1, b, a, Notify, true) == n;
    var d2 := SetFlags(d1, b, a, n);
    assert Row(d2, a) == Row(d1, a);
    assert Row(d2, b)[a] == n;
    OrKeepsBits(Flags(d1, b, a), Notify);
    if Stops(d2, a, Some(b), Notify, true) {
      ThirdCallStops(d1, d2, a, b, m);
    } else {
      ThirdCallRuns(d2, a, b, m, n);
      SetFlagsCommute(d1, b, a, n, a, b, m | Notify);
    }
  }

  /** addDependency between two objects when `b` already holds Notify for `a`. */
  lemma PairLinked(d: Deps, a: Id, b: Id, flags: bv32, additive: bool)
    requires a != b && !Stops(d, a, Some(b), flags, additive)
    requires a in Row(d, b) && HasAll(Flags(d, b, a), Notify)
    ensures AddDependency(d, a, Some(b), flags, additive) ==
      SetFlags(SetFlags(d, a, b, Merged(d, a, b, flags, additive)), b, a, Flags(d, b, a) | Notify)
  {
    var d1 := SetFlags(d, a, b, Merged(d, a, b, flags, additive));
    AddDependencyUnfold(d, a, Some(b), flags, additive);
    assert Row(d1, b) == Row(d, b);
    ReverseLinked(d1, a, b);
  }

  /** addDependency between two objects when the reverse link is new. */
  lemma PairNew(d: Deps, a: Id, b: Id, flags: bv32, additive: bool)
    requires a != b && !Stops(d, a, Some(b), flags, additive)
    requires !(a in Row(d, b) && HasAll(Flags(d, b, a), Notify))
    ensures AddDependency(d, a, Some(b), flags, additive) ==
      SetFlags(SetFlags(d, a, b, Merged(d, a, b, flags, additive) | Notify), b, a, Flags(d, b, a) | Notify)
  {
    var m := Merged(d, a, b, flags, additive);
    var d1 := SetFlags(d, a, b, m);
    var n := Flags(d, b, a) | Notify;
    assert AddDependency(d, a, Some(b), flags, additive) == AddDependency(d1, b, Some(a), Notify, true) by {
      AddDependencyUnfold(d, a, Some(b), flags, additive);
    }
    assert Row(d1, b) == Row(d, b);
    assert AddDependency(d1, b, Some(a), Notify, true) == SetFlags(SetFlags(d1, a, b, m | Notify), b, a, n) by {
      assert Flags(d1, b, a) == Flags(d, b, a);
      assert !Stops(d1, b, Some(a), Notify, true);
      ReverseNew(d1, a, b, m);
    }
    assert SetFlags(d1, a, b, m | Notify) == SetFlags(d, a, b, m | Notify) by {
      SetFlagsTwice(d, a, b, m, m | Notify);
    }
  }

  /** The whole effect of addDependency between two different objects, without the
      recursion: `a` stores the merged flags (plus NotifyOtherOnDelete when the
      reverse link was new), and `b` gains NotifyOtherOnDelete for `a`. */
  lemma {:induction false} AddDependencyEffect(d: Deps, a: Id, b: Id, flags: bv32, additive: bool)
    requires a != b
    ensures AddDependency(d, a, Some(b), flags, additive) ==
      if Stops(d, a, Some(b), flags, additive) then d
      else
        var m := Merged(d, a, b, flags, additive);
        var back := Back(d, a, b, m);
        SetFlags(SetFlags(d, a, b, back), b, a, Flags(d, b, a) | Notify)
  {
    if Stops(d, a, Some(b), flags, additive) {
      AddDependencyUnfold(d, a, Some(b), flags, additive);
    } else if a in Row(d, b) && HasAll(Flags(d, b, a), Notify) {
      PairLinked(d, a, b, flags, additive);
    } else {
      PairNew(d, a, b, flags, additive);
    }
  }

  /** addDependency of an object on itself when the merged word carries Notify. */
  lemma SelfLinked(d: Deps, a: Id, flags: bv32, additive: bool)
    requires !Stops(d, a, Some(a), flags, additive)
    requires Stops(SetFlags(d, a, a, Merged(d, a, a, flags, additive)), a, Some(a), Notify, true)
    ensures AddDependency(d, a, Some(a), flags, additive) ==
      SetFlags(d, a, a, Merged(d, a, a, flags, additive) | Notify)
  {
    var m := Merged(d, a, a, flags, additive);
    AddDependencyUnfold(d, a, Some(a), flags, additive);
    AddDependencyUnfold(SetFlags(d, a, a, m), a, Some(a), Notify, true);
    NotifyAbsorbed(m);
  }

  /** addDependency of an object on itself when the merged word lacks Notify. */
  lemma SelfNew(d: Deps, a: Id, flags: bv32, additive: bool)
    requires !Stops(d, a, Some(a), flags, additive)
    requires !Stops(SetFlags(d, a, a, Merged(d, a, a, flags, additive)), a, Some(a), Notify, true)
    ensures AddDependency(d, a, Some(a), flags, additive) ==
      SetFlags(d, a, a, Merged(d, a, a, flags, additive) | Notify)
  {
    var m := Merged(d, a, a, flags, additive);
    var d1 := SetFlags(d, a, a, m);
    AddDependencyUnfold(d, a, Some(a), flags, additive);
    AddDependencyUnfold(d1, a, Some(a), Notify, true);
    assert Merged(d1, a, a, Notify, true) == m | Notify;
    var d2 := SetFlags(d1, a, a, m | Notify);
    assert Stops(d2, a, Some(a), Notify, true);
    AddDependencyUnfold(d2, a, Some(a), Notify, true);
    SetFlagsTwice(d, a, a, m, m | Notify);
  }

  /** The effect of addDependency of an object on itself. */
  lemma {:induction false} AddSelfDependencyEffect(d: Deps, a: Id, flags: bv32, additive: bool)
    ensures AddDependency(d, a, Some(a), flags, additive) ==
      if Stops(d, a, Some(a), flags, additive) then d
      else SetFlags(d, a, a, Merged(d, a, a, flags, additive) | Notify)
  {
    if Stops(d, a, Some(a), flags, additive) {
      AddDependencyUnfold(d, a, Some(a), flags, additive);
    } else if Stops(SetFlags(d, a, a, Merged(d, a, a, flags, additive)), a, Some(a), Notify, true) {
      SelfLinked(d, a, flags, additive);
    } else {
      SelfNew(d, a, flags, additive);
    }
  }

  /** The closed form of addDependency: no recursion, every case written out. */
  function Linked(d: Deps, a: Id, other: Option<Id>, flags: bv32, additive: bool): Deps {
    if Stops(d, a, other, flags, additive) then d
    else
      var b := other.value;
      var m := Merged(d, a, b, flags, additive);
      if a == b then SetFlags(d, a, a, m | Notify)
      else
        var back := Back(d, a, b, m);
        SetFlags(SetFlags(d, a, b, back), b, a, Flags(d, b, a) | Notify)
  }

  /** The recursive definition and the closed form agree on every input. */
  lemma AddDependencyIsLinked(d: Deps, a: Id, other: Option<Id>, flags: bv32, additive: bool)
    ensures AddDependency(d, a, other, flags, additive) == Linked(d, a, other, flags, additive)
  {
    if Stops(d, a, other, flags, additive) {
      AddDependencyUnfold(d, a, other, flags, additive);
    } else if a == other.value {
      AddSelfDependencyEffect(d, a, flags, additive);
    } else {
      AddDependencyEffect(d, a, other.value, flags, additive);
    }
  }

  /** The early returns of addDependency change nothing. */
  lemma GuardsChangeNothing(d: Deps, a: Id, other: Option<Id>, flags: bv32, additive: bool)
    requires other.None? || Negative(flags) || flags == 0
    ensures AddDependency(d, a, other, flags, additive) == d
  {
    AddDependencyUnfold(d, a, other, flags, additive);
  }

  /** addDependency touches the entries between `a` and `b` only. */
  lemma LinkedTouchesOnlyPair(d: Deps, a: Id, other: Option<Id>, flags: bv32, additive: bool, x: Id, y: Id)
    requires other.Some? && !(x == a && y == other.value) && !(x == other.value && y == a)
    ensures var r := Linked(d, a, other, flags, additive);
      Flags(r, x, y) == Flags(d, x, y) && (y in Row(r, x) <==> y in Row(d, x))
  {
  }

  /** Past the early returns, `a` stores the merged flags (possibly with
      NotifyOtherOnDelete added by the call back) and `b` holds
      NotifyOtherOnDelete for `a`. */
  lemma LinkedStores(d: Deps, a: Id, other: Option<Id>, flags: bv32, additive: bool)
    requires !Stops(d, a, other, flags, additive)
    ensures var r := Linked(d, a, other, flags, additive);
      var b := other.value;
      var m := Merged(d, a, b, flags, additive);
      && b in Row(r, a) && a in Row(r, b)
      && (Flags(r, a, b) == m || Flags(r, a, b) == m | Notify)
      && (a != b && a in Row(d, b) && HasAll(Flags(d, b, a), Notify) ==> Flags(r, a, b) == m)
      && HasAll(Flags(r, b, a), Notify)
      && (a != b ==> Flags(r, b, a) == Flags(d, b, a) | Notify)
  {
  }

  /** Or-ing keeps every bit of both words. */
  lemma OrKeepsBits(x: bv32, y: bv32)
    ensures HasAll(x | y, x) && HasAll(x | y, y)
  {
  }

  /** Or-ing two non-negative words, the first non-zero, gives a non-negative, non-zero word. */
  lemma OrStaysValid(x: bv32, y: bv32)
    requires x != 0 && !Negative(x) && !Negative(y)
    ensures x | y != 0 && !Negative(x | y)
  {
  }

  /** HasAll is transitive. */
  lemma HasAllTrans(x: bv32, y: bv32, z: bv32)
    requires HasAll(x, y) && HasAll(y, z)
    ensures HasAll(x, z)
  {
  }

  /** `x` has every bit of itself and none is needed for 0. */
  lemma HasAllSelf(x: bv32)
    ensures HasAll(x, x) && HasAll(x, 0)
  {
  }

  /** A stored entry of a well-formed table is non-zero and not negative. */
  lemma RowValid(d: Deps, a: Id, b: Id)
    requires WellFormed(d) && b in Row(d, a)
    ensures Row(d, a)[b] != 0 && !Negative(Row(d, a)[b])
  {
    assert WellFormedTable(Row(d, a));
  }

  /** The flags stored for `b` in a well-formed table are not negative. */
  lemma FlagsValid(d: Deps, a: Id, b: Id)
    requires WellFormed(d)
    ensures !Negative(Flags(d, a, b))
  {
    if b in Row(d, a) {
      RowValid(d, a, b);
    }
  }

  /** The merged word is valid when the flags are. */
  lemma MergedValid(d: Deps, a: Id, b: Id, flags: bv32, additive: bool)
    requires WellFormed(d) && flags != 0 && !Negative(flags)
    ensures Merged(d, a, b, flags, additive) != 0 && !Negative(Merged(d, a, b, flags, additive))
  {
    if additive && b in Row(d, a) {
      RowValid(d, a, b);
      OrStaysValid(flags, Row(d, a)[b]);
    }
  }

  /** The merged word always has every bit of `flags`. */
  lemma MergedHasFlags(d: Deps, a: Id, b: Id, flags: bv32, additive: bool)
    ensures HasAll(Merged(d, a, b, flags, additive), flags)
  {
    if additive && b in Row(d, a) {
      OrKeepsBits(flags, Row(d, a)[b]);
    } else {
      HasAllSelf(flags);
    }
  }

  /** In additive mode the merged word keeps every bit stored before. */
  lemma MergedKeepsOld(d: Deps, a: Id, b: Id, flags: bv32)
    ensures HasAll(Merged(d, a, b, flags, true), Flags(d, a, b))
  {
    if b in Row(d, a) {
      OrKeepsBits(flags, Row(d, a)[b]);
    } else {
      HasAllSelf(flags);
    }
  }

  /** Storing a valid word keeps the tables well-formed. */
  lemma SetFlagsWellFormed(d: Deps, a: Id, b: Id, f: bv32)
    requires WellFormed(d) && f != 0 && !Negative(f)
    ensures WellFormed(SetFlags(d, a, b, f))
  {
    var r := SetFlags(d, a, b, f);
    forall x | x in r
      ensures WellFormedTable(r[x])
    {
      if x == a {
        forall o | o in r[a]
          ensures r[a][o] != 0 && !Negative(r[a][o])
        {
          if o != b {
            RowValid(d, a, o);
          }
        }
      }
    }
  }

  /** Or-ing in Notify keeps a non-negative word valid. */
  lemma NotifyStaysValid(x: bv32)
    requires !Negative(x)
    ensures x | Notify != 0 && !Negative(x | Notify)
  {
  }

  /** The two stores of addDependency between different objects keep the tables
      well-formed when the merged word is valid. */
  lemma PairWellFormed(d: Deps, a: Id, b: Id, m: bv32)
    requires WellFormed(d) && m != 0 && !Negative(m)
    ensures WellFormed(SetFlags(SetFlags(d, a, b, Back(d, a, b, m)), b, a, Flags(d, b, a) | Notify))
  {
    NotifyStaysValid(m);
    var back := Back(d, a, b, m);
    assert back != 0 && !Negative(back);
    SetFlagsWellFormed(d, a, b, back);
    var d1 := SetFlags(d, a, b, back);
    var f := Flags(d, b, a);
    FlagsValid(d, b, a);
    NotifyStaysValid(f);
    SetFlagsWellFormed(d1, b, a, f | Notify);
  }

  /** addDependency keeps the table well-formed. */
  lemma LinkedWellFormed(d: Deps, a: Id, other: Option<Id>, flags: bv32, additive: bool)
    requires WellFormed(d)
    ensures WellFormed(Linked(d, a, other, flags, additive))
  {
    if !Stops(d, a, other, flags, additive) {
      var b := other.value;
      var m := Merged(d, a, b, flags, additive);
      MergedValid(d, a, b, flags, additive);
      if a == b {
        NotifyStaysValid(m);
        SetFlagsWellFormed(d, a, a, m | Notify);
      } else {
        PairWellFormed(d, a, b, m);
      }
    }
  }

  /** Whatever path addDependency takes, valid flags end up stored for `b`. */
  lemma LinkedHasFlags(d: Deps, a: Id, b: Id, flags: bv32, additive: bool)
    requires !Negative(flags)
    ensures HasAll(Flags(Linked(d, a, Some(b), flags, additive), a, b), flags)
  {
    var r := Linked(d, a, Some(b), flags, additive);
    if !Stops(d, a, Some(b), flags, additive) {
      var m := Merged(d, a, b, flags, additive);
      LinkedStores(d, a, Some(b), flags, additive);
      MergedHasFlags(d, a, b, flags, additive);
      if Flags(r, a, b) != m {
        OrKeepsBits(m, Notify);
        HasAllTrans(m | Notify, m, flags);
      }
    } else if flags == 0 {
      assert HasAll(Flags(r, a, b), 0);
    }
  }

  /** In additive mode addDependency never clears a bit of any entry, nor erases one. */
  lemma LinkedMonotone(d: Deps, a: Id, other: Option<Id>, flags: bv32, x: Id, y: Id)
    ensures var r := Linked(d, a, other, flags, true);
      HasAll(Flags(r, x, y), Flags(d, x, y)) && (y in Row(d, x) ==> y in Row(r, x))
  {
    var r := Linked(d, a, other, flags, true);
    if Stops(d, a, other, flags, true) {
      assert HasAll(Flags(d, x, y), Flags(d, x, y));
    } else {
      var b := other.value;
      var m := Merged(d, a, b, flags, true);
      if x == a && y == b {
        LinkedStores(d, a, other, flags, true);
        MergedKeepsOld(d, a, b, flags);
        if Flags(r, a, b) != m {
          OrKeepsBits(m, Notify);
          HasAllTrans(m | Notify, m, Flags(d, a, b));
        }
      } else if x == b && y == a {
        LinkedStores(d, a, other, flags, true);
        OrKeepsBits(Flags(d, b, a), Notify);
      } else {
        LinkedTouchesOnlyPair(d, a, other, flags, true, x, y);
        assert HasAll(Flags(d, x, y), Flags(d, x, y));
      }
    }
  }

  /** The early return of additive mode skips the call that registers the reverse
      link: if that link was removed separately, adding the same flags again does
      not restore it. */
  lemma EarlyReturnKeepsMissingReverseLink(a: Id, b: Id)
    requires a != b
    ensures var d := map[a := map[b := DeleteOther.Bit()]];
      var r := AddDependency(d, a, Some(b), DeleteOther.Bit(), true);
      r == d && !HasAll(Flags(r, b, a), Notify)
  {
    var d := map[a := map[b := DeleteOther.Bit()]];
    AddDependencyUnfold(d, a, Some(b), DeleteOther.Bit(), true);
  }

  /** `a`'s removeDependencyFlag(other, flag) applied to the tables of every object. */
  function ClearFlag(d: Deps, a: Id, other: Id, flag: Dependency): (r: Deps)
    ensures Row(r, a) == RemoveFlag(Row(d, a), other, flag)
    ensures forall x :: x != a ==> Row(r, x) == Row(d, x)
  {
    if HasAll(FlagsWith(Row(d, a), other), flag.Bit()) then d[a := RemoveFlag(Row(d, a), other, flag)] else d
  }

  /** removeDependencyFlag keeps the tables well-formed. */
  lemma ClearFlagWellFormed(d: Deps, a: Id, other: Id, flag: Dependency)
    requires WellFormed(d)
    ensures WellFormed(ClearFlag(d, a, other, flag))
  {
    var r := ClearFlag(d, a, other, flag);
    assert WellFormedTable(Row(d, a));
    RemoveFlagEffect(Row(d, a), other, flag);
    forall x | x in r
      ensures WellFormedTable(r[x])
    {
      assert r[x] == Row(r, x);
    }
  }

  /** addDependency keeps the tables well-formed. */
  lemma AddDependencyWellFormed(d: Deps, a: Id, other: Option<Id>, flags: bv32, additive: bool)
    requires WellFormed(d)
    ensures WellFormed(AddDependency(d, a, other, flags, additive))
  {
    AddDependencyIsLinked(d, a, other, flags, additive);
    LinkedWellFormed(d, a, other, flags, additive);
  }

  /** `(x, y)` is one of the two entries between `a` and `b`. */
  predicate Between(x: Id, y: Id, a: Id, b: Id) {
    (x == a && y == b) || (x == b && y == a)
  }

  /** The entry of `x` for `y` is the same in both tables: same word, same presence. */
  ghost predicate SameEntry(d1: Deps, d2: Deps, x: Id, y: Id) {
    Flags(d1, x, y) == Flags(d2, x, y) && (y in Row(d1, x) <==> y in Row(d2, x))
  }

  /** `d2` keeps every entry of `d1` and every bit of its words. */
  ghost predicate Grows(d1: Deps, d2: Deps) {
    forall x, y :: HasAll(Flags(d2, x, y), Flags(d1, x, y)) && (y in Row(d1, x) ==> y in Row(d2, x))
  }

  lemma GrowsSelf(d: Deps)
    ensures Grows(d, d)
  {
    forall x, y
      ensures HasAll(Flags(d, x, y), Flags(d, x, y))
    {
      HasAllSelf(Flags(d, x, y));
    }
  }

  lemma GrowsTrans(d1: Deps, d2: Deps, d3: Deps)
    requires Grows(d1, d2) && Grows(d2, d3)
    ensures Grows(d1, d3)
  {
    forall x, y
      ensures HasAll(Flags(d3, x, y), Flags(d1, x, y))
    {
      HasAllTrans(Flags(d3, x, y), Flags(d2, x, y), Flags(d1, x, y));
    }
  }

  /** Additive addDependency loses no entry and no bit, of any table. */
  lemma AddDependencyGrows(d: Deps, a: Id, other: Option<Id>, flags: bv32)
    ensures Grows(d, AddDependency(d, a, other, flags, true))
  {
    AddDependencyIsLinked(d, a, other, flags, true);
    var r := Linked(d, a, other, flags, true);
    forall x, y
      ensures HasAll(Flags(r, x, y), Flags(d, x, y)) && (y in Row(d, x) ==> y in Row(r, x))
    {
      LinkedMonotone(d, a, other, flags, x, y);
    }
  }
}
