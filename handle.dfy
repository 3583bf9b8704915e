/**
 * The canonical handle `Interned<B, O>`: one shared allocation holding an owned
 * value. An object of class `Interned` stands for that allocation, so Dafny's
 * reference equality is the address comparison the source performs. The owned
 * value never changes once allocated, hence the `const` field.
 */
module Handles {
  import opened ContentOrder

  class Interned<T(!new)> {
    /** The owned value behind the `Arc`, seen through its borrowed view. */
    const content: seq<T>

    /** `Interned::new(Arc::new(value))`: a new allocation holding `content`. */
    constructor (content: seq<T>)
      ensures this.content == content
    {
      this.content := content;
    }

    /** `Borrow::borrow`: the borrowed view of the owned value. */
    function Borrow(): (view: seq<T>)
      ensures view == content
    {
      content
    }

    /** `Deref::deref`: the same borrowed view as `Borrow`. */
    function Deref(): (view: seq<T>)
      ensures view == Borrow()
    {
      content
    }

    /**
     * `PartialEq::eq`: true exactly when both handles are the same allocation.
     * Identity implies equal content; the converse fails (see `SeparateAllocations`).
     */
    function Eq(other: Interned<T>): (same: bool)
      ensures same ==> Deref() == other.Deref()
    {
      this == other
    }

    /** `Clone::clone`: another handle on the same allocation; only the reference count changes. */
    method Clone() returns (r: Interned<T>)
      ensures Eq(r) && r.Eq(this)
      ensures r.Deref() == Deref()
    {
      r := this;
    }

    /** The derived `Ord::cmp`: compares the owned contents, never the addresses. */
    function Cmp(other: Interned<T>, rank: T -> int): (o: Ordering)
      requires Injective(rank)
      ensures o == Equal <==> Deref() == other.Deref()
      ensures Eq(other) ==> o == Equal
      ensures o == Less <==> LexLess(Deref(), other.Deref(), rank)
    {
      LexCompareLess(content, other.content, rank);
      LexCompare(content, other.content, rank)
    }
  }

  /**
   * Two allocations of equal content are two handles that are not `eq`:
   * equality is decided by address alone, never by content.
   */
  method SeparateAllocations<T(!new)>(v: seq<T>) returns (a: Interned<T>, b: Interned<T>)
    ensures a.Deref() == v && b.Deref() == v
    ensures !a.Eq(b) && !b.Eq(a)
  {
    a := new Interned(v);
    b := new Interned(v);
  }
}
