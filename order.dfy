/**
 * The content-based ordering that `Interned` derives (`#[derive(PartialOrd, Ord)]`):
 * comparing two handles compares the owned values inside them, and for both
 * `String` and `Vec<u8>` that comparison is lexicographic over the elements,
 * a proper prefix coming first. Elements are compared through an injective
 * `rank` (a character's code point, a byte's value).
 */
module ContentOrder {

  /** The three outcomes of a total comparison. */
  datatype Ordering = Less | Equal | Greater {

    /** The outcome of the same comparison with its operands swapped. */
    function Reverse(): Ordering {
      match this
      case Less => Greater
      case Equal => Equal
      case Greater => Less
    }
  }

  /** Distinct elements have distinct ranks, so comparing ranks decides element equality. */
  ghost predicate Injective<T(!new)>(rank: T -> int) {
    forall x, y :: rank(x) == rank(y) ==> x == y
  }

  /** Lexicographic comparison of two contents: the first differing element decides; a proper prefix is smaller. */
  function LexCompare<T(!new)>(a: seq<T>, b: seq<T>, rank: T -> int): (o: Ordering)
    requires Injective(rank)
    ensures o == Equal <==> a == b
    decreases |a|
  {
    if |a| == 0 then
      if |b| == 0 then Equal else Less
    else if |b| == 0 then Greater
    else if rank(a[0]) < rank(b[0]) then Less
    else if rank(a[0]) > rank(b[0]) then Greater
    else
      assert a == [a[0]] + a[1..] && b == [b[0]] + b[1..];
      LexCompare(a[1..], b[1..], rank)
  }

  /**
   * Reference definition of "a sorts before b": position k is where they first
   * differ, and there either a has ended while b goes on, or a's element ranks lower.
   */
  ghost predicate LessAt<T(!new)>(a: seq<T>, b: seq<T>, rank: T -> int, k: nat) {
    && k <= |a| && k <= |b|
    && a[..k] == b[..k]
    && ((k == |a| && k < |b|) || (k < |a| && k < |b| && rank(a[k]) < rank(b[k])))
  }

  ghost predicate LexLess<T(!new)>(a: seq<T>, b: seq<T>, rank: T -> int) {
    exists k: nat :: LessAt(a, b, rank, k)
  }

  /** `LexCompare` answers `Less` exactly when the reference definition says a sorts before b. */
  lemma {:induction false} LexCompareLess<T(!new)>(a: seq<T>, b: seq<T>, rank: T -> int)
    requires Injective(rank)
    ensures LexCompare(a, b, rank) == Less <==> LexLess(a, b, rank)
    decreases |a|
  {
    if |a| == 0 || |b| == 0 {
      if |a| == 0 && |b| > 0 {
        assert LessAt(a, b, rank, 0);
      }
    } else if rank(a[0]) < rank(b[0]) {
      assert LessAt(a, b, rank, 0);
    } else if rank(a[0]) == rank(b[0]) {
      assert a[0] == b[0];
      LexCompareLess(a[1..], b[1..], rank);
      if LexLess(a[1..], b[1..], rank) {
        var k: nat :| LessAt(a[1..], b[1..], rank, k);
        assert a[..k + 1] == [a[0]] + a[1..][..k];
        assert b[..k + 1] == [b[0]] + b[1..][..k];
        assert LessAt(a, b, rank, k + 1);
      }
      if LexLess(a, b, rank) {
        var k: nat :| LessAt(a, b, rank, k);
        if k > 0 {
          assert a[1..][..k - 1] == a[..k][1..];
          assert b[1..][..k - 1] == b[..k][1..];
          assert LessAt(a[1..], b[1..], rank, k - 1);
        }
      }
    }
  }

  /** Swapping the operands reverses the outcome (antisymmetry of the derived `Ord`). */
  lemma {:induction false} LexCompareReverse<T(!new)>(a: seq<T>, b: seq<T>, rank: T -> int)
    requires Injective(rank)
    ensures LexCompare(b, a, rank) == LexCompare(a, b, rank).Reverse()
    decreases |a|
  {
    if |a| > 0 && |b| > 0 && rank(a[0]) == rank(b[0]) {
      LexCompareReverse(a[1..], b[1..], rank);
    }
  }

  /** `Less` is transitive, so together with the two lemmas above the comparison is a total order. */
  lemma {:induction false} LexCompareTransitive<T(!new)>(a: seq<T>, b: seq<T>, c: seq<T>, rank: T -> int)
    requires Injective(rank)
    requires LexCompare(a, b, rank) == Less && LexCompare(b, c, rank) == Less
    ensures LexCompare(a, c, rank) == Less
    decreases |a|
  {
    if |a| > 0 && rank(a[0]) == rank(b[0]) && rank(b[0]) == rank(c[0]) {
      LexCompareTransitive(a[1..], b[1..], c[1..], rank);
    }
  }
}
