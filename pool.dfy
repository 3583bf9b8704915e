/**
 * `InternPool<B, O>`: a deduplicating set of canonical handles, looked up by the
 * borrowed view of their content. The source keeps a `HashSet` of handles and
 * finds one through `Borrow<B>`; that set, keyed by content, is modelled as a map
 * from content to the one handle holding it.
 */
module Pools {
  import opened ContentOrder
  import opened Handles

  datatype Option<T> = None | Some(value: T)

  /** Every stored handle is filed under its own content (the pool invariant). */
  ghost predicate Canonical<T(!new)>(m: map<seq<T>, Interned<T>>) {
    forall v :: v in m ==> m[v].content == v
  }

  /** A canonical map holds as many handles as it has contents: one allocation per content. */
  lemma {:induction false} HandleCount<T(!new)>(m: map<seq<T>, Interned<T>>)
    requires Canonical(m)
    ensures |m.Values| == |m|
    decreases |m|
  {
    if |m| > 0 {
      var v :| v in m;
      var rest := m - {v};
      HandleCount(rest);
      forall h | h in m.Values ensures h in rest.Values + {m[v]} {
        var u :| u in m && m[u] == h;
        if u != v {
          assert rest[u] == h;
        }
      }
      assert m.Values == rest.Values + {m[v]};
      assert m[v] !in rest.Values;
      assert m.Keys == rest.Keys + {v};
    }
  }

  /** Pool uniqueness: in a canonical map, two stored handles with equal content are the same allocation. */
  lemma StoredHandlesUnique<T(!new)>(m: map<seq<T>, Interned<T>>, h1: Interned<T>, h2: Interned<T>)
    requires Canonical(m)
    requires h1 in m.Values && h2 in m.Values
    ensures h1.Eq(h2) <==> h1.Deref() == h2.Deref()
  {
  }

  /**
   * Within one pool the identity-based `eq` and the content-based `cmp` agree:
   * two stored handles are `eq` exactly when they compare `Equal`.
   */
  lemma EqAgreesWithCmp<T(!new)>(m: map<seq<T>, Interned<T>>, h1: Interned<T>, h2: Interned<T>, rank: T -> int)
    requires Canonical(m) && Injective(rank)
    requires h1 in m.Values && h2 in m.Values
    ensures h1.Eq(h2) <==> h1.Cmp(h2, rank) == Equal
  {
  }

  class InternPool<T(==,!new)> {
    /** The pool's handles, each filed under its content. */
    var data: map<seq<T>, Interned<T>>

    ghost predicate Valid()
      reads this
    {
      Canonical(data)
    }

    /** The set of stored handles, the source's `HashSet`. */
    function Stored(): set<Interned<T>>
      reads this
    {
      data.Values
    }

    /** `InternPool::new`: an empty pool. */
    constructor ()
      ensures Valid() && data == map[]
    {
      data := map[];
    }

    /** The number of handles in the set. */
    function Size(): (n: nat)
      reads this
      requires Valid()
      ensures n == |Stored()|
    {
      HandleCount(data);
      |data|
    }

    /** `InternPool::get`: the stored handle whose content equals `v`, if there is one; reads only. */
    function Get(v: seq<T>): (r: Option<Interned<T>>)
      reads this
      requires Valid()
      ensures r.Some? <==> exists h :: h in Stored() && h.Deref() == v
      ensures r.Some? ==> r.value in Stored() && r.value.Deref() == v
    {
      if v in data then
        assert data[v] in Stored();
        Some(data[v])
      else
        assert forall h :: h in Stored() ==> h.Deref() != v by {
          forall h | h in Stored() ensures h.Deref() != v {
            var u :| u in data && data[u] == h;
          }
        }
        None
    }

    /**
     * `InternPool::intern`: a clone of the stored handle when content `v` is
     * already present, otherwise one new allocation that is stored and returned.
     * Nothing stored is ever removed or re-filed.
     */
    method Intern(v: seq<T>) returns (r: Interned<T>)
      requires Valid()
      modifies this
      ensures Valid()
      ensures r.Deref() == v && Get(v) == Some(r)
      ensures data == old(data)[v := r]
      ensures old(Get(v)).Some? ==> r == old(Get(v)).value && data == old(data)
      ensures old(Get(v)).None? ==> fresh(r) && data == old(data)[v := r]
      ensures Size() == old(Size()) + (if old(Get(v)).None? then 1 else 0)
      ensures forall u :: u in old(data) ==> u in data && data[u] == old(data)[u]
      ensures old(Stored()) <= Stored()
    {
      var found := Get(v);
      if found.Some? {
        r := found.value.Clone();
        return;
      }
      r := new Interned(v);
      data := data[v := r];
    }
  }

  /**
   * Interning is idempotent: interning `v` twice gives the same allocation, the
   * second call leaves the pool as the first left it, and `get(v)` then returns it.
   */
  method InternTwice<T(==,!new)>(pool: InternPool<T>, v: seq<T>) returns (a: Interned<T>, b: Interned<T>)
    requires pool.Valid()
    modifies pool
    ensures pool.Valid()
    ensures a.Eq(b) && a.Deref() == v && pool.Get(v) == Some(a)
    ensures pool.Size() == old(pool.Size()) + (if old(pool.Get(v)).None? then 1 else 0)
  {
    a := pool.Intern(v);
    ghost var size := pool.Size();
    b := pool.Intern(v);
    assert pool.Size() == size;
  }

  /** No false aliasing: interning two different contents on one pool gives handles that are not `eq`. */
  method InternDistinct<T(==,!new)>(pool: InternPool<T>, v1: seq<T>, v2: seq<T>) returns (a: Interned<T>, b: Interned<T>)
    requires pool.Valid() && v1 != v2
    modifies pool
    ensures pool.Valid()
    ensures !a.Eq(b) && a.Deref() == v1 && b.Deref() == v2
    ensures pool.Get(v1) == Some(a) && pool.Get(v2) == Some(b)
  {
    a := pool.Intern(v1);
    b := pool.Intern(v2);
  }
}
