/** Values shared by the hull builder, the containment test and the grid searches. */
module Geometry {

  /** A grid point; the application only ever builds integer coordinates. */
  datatype Point = Point(x: int, y: int)

  /** A JavaScript value that may be null or undefined. */
  datatype Option<+T> = None | Some(value: T)

  /** The sequence read back to front (`Array.prototype.reverse` on a copy). */
  function Reverse<T>(s: seq<T>): seq<T>
  {
    if s == [] then [] else Reverse(s[1..]) + [s[0]]
  }

  /** Reversal keeps the length and reads the elements back to front. */
  lemma {:induction false} ReverseIndex<T>(s: seq<T>)
    ensures |Reverse(s)| == |s|
    ensures forall i :: 0 <= i < |s| ==> Reverse(s)[i] == s[|s| - 1 - i]
    decreases |s|
  {
    if s != [] {
      ReverseIndex(s[1..]);
    }
  }

  /** Pushing onto the end and then reversing puts the pushed element in front. */
  lemma {:induction false} ReverseSnoc<T>(s: seq<T>, x: T)
    ensures Reverse(s + [x]) == [x] + Reverse(s)
    decreases |s|
  {
    if s != [] {
      assert (s + [x])[1..] == s[1..] + [x];
      ReverseSnoc(s[1..], x);
    } else {
      assert [x][1..] == [];
    }
  }

  /**
   * A non-empty sequence is its first element followed by the rest
   * (`shift`); stated apart so that the search loops' proofs need not
   * reason about sequence concatenation.
   */
  lemma SplitFirst<T>(s: seq<T>)
    requires s != []
    ensures [s[0]] + s[1..] == s
  {
  }
}
