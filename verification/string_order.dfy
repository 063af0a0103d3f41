/** Lexicographic order on strings by code point: the order a document store
    uses for its `$gte`/`$lte` range conditions on string fields. */
module StringOrder {

  /** `a` sorts at or before `b`. */
  predicate LexLe(a: string, b: string)
    decreases |a|
  {
    |a| == 0 || (|b| > 0 && (a[0] < b[0] || (a[0] == b[0] && LexLe(a[1..], b[1..]))))
  }

  /** Comparing two strings that begin with equally long prefixes: the
      prefixes decide unless they are equal, in which case the rests do. */
  lemma {:induction false} LexLeConcat(a1: string, a2: string, b1: string, b2: string)
    requires |a1| == |b1|
    ensures LexLe(a1 + a2, b1 + b2) <==> (a1 == b1 && LexLe(a2, b2)) || (a1 != b1 && LexLe(a1, b1))
    decreases |a1|
  {
    if |a1| == 0 {
      assert a1 + a2 == a2 && b1 + b2 == b2;
    } else {
      assert (a1 + a2)[0] == a1[0] && (b1 + b2)[0] == b1[0];
      assert (a1 + a2)[1..] == a1[1..] + a2 && (b1 + b2)[1..] == b1[1..] + b2;
      LexLeConcat(a1[1..], a2, b1[1..], b2);
      assert a1 == b1 <==> a1[0] == b1[0] && a1[1..] == b1[1..] by {
        if a1[0] == b1[0] && a1[1..] == b1[1..] {
          assert a1 == [a1[0]] + a1[1..] && b1 == [b1[0]] + b1[1..];
        }
      }
    }
  }
}
