/**
 * The dependency bits a ccHObject keeps for every other object it knows about.
 * The enumeration lives in a header that is not part of this model; the model
 * only relies on the four bits being distinct single bits.
 */
module DependencyFlags {

  /** DEPENDENCY_FLAGS as an enumeration. */
  datatype Dependency = NotifyOtherOnDelete | DeleteOther | NotifyOtherOnUpdate | ParentOfOther {

    /** The bit this flag occupies in a flag word. */
    function Bit(): (b: bv32)
      ensures b != 0 && b & (b - 1) == 0 && b & SignBit == 0
    {
      match this
      case NotifyOtherOnDelete => 1
      case DeleteOther => 2
      case NotifyOtherOnUpdate => 4
      case ParentOfOther => 8
    }
  }

  /** The sign bit of a 32-bit `int`. */
  const SignBit: bv32 := 0x8000_0000

  /** `flags < 0` for a flag word read as a 32-bit signed `int`. */
  predicate Negative(flags: bv32) {
    flags & SignBit != 0
  }

  /** `(flags & wanted) == wanted`: every bit of `wanted` is set in `flags`. */
  predicate HasAll(flags: bv32, wanted: bv32) {
    flags & wanted == wanted
  }

  /** The flag every dependency registers on the other side. */
  const Notify: bv32 := NotifyOtherOnDelete.Bit()

  /** The four flags occupy four different single bits. */
  lemma DistinctBits(x: Dependency, y: Dependency)
    requires x != y
    ensures x.Bit() & y.Bit() == 0
  {
  }
}
