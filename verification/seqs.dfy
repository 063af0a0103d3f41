/** Sequence operations shared by the stores: order-preserving selection,
    first-match search and first-match removal. */
module Seqs {
  import opened Results

  /** The elements of `s` that satisfy `keep`, in their original order. */
  function Filter<T(!new)>(s: seq<T>, keep: T -> bool): (r: seq<T>)
    ensures |r| <= |s|
    ensures forall i :: 0 <= i < |r| ==> keep(r[i])
  {
    if |s| == 0 then []
    else if keep(s[0]) then [s[0]] + Filter(s[1..], keep)
    else Filter(s[1..], keep)
  }

  /** Selection keeps exactly the qualifying elements. */
  lemma {:induction false} FilterMembers<T(!new)>(s: seq<T>, keep: T -> bool)
    ensures forall x :: x in Filter(s, keep) <==> x in s && keep(x)
  {
    if |s| > 0 {
      FilterMembers(s[1..], keep);
      assert s == [s[0]] + s[1..];
    }
  }

  /** Selection distributes over concatenation, so it never reorders. */
  lemma {:induction false} FilterAppend<T(!new)>(a: seq<T>, b: seq<T>, keep: T -> bool)
    ensures Filter(a + b, keep) == Filter(a, keep) + Filter(b, keep)
  {
    if |a| == 0 {
      assert a + b == b;
    } else {
      assert (a + b)[0] == a[0];
      assert (a + b)[1..] == a[1..] + b;
      FilterAppend(a[1..], b, keep);
    }
  }

  /** The index of the first element satisfying `p`, as `Array.prototype.find`
      and `findOne` locate it; `None` when no element does. */
  function IndexOfFirst<T>(s: seq<T>, p: T -> bool): (r: Option<nat>)
    ensures r.Some? ==> r.value < |s|
  {
    if |s| == 0 then None
    else if p(s[0]) then Some(0)
    else
      match IndexOfFirst(s[1..], p)
      case None => None
      case Some(i) => Some(i + 1)
  }

  /** The search fails exactly when no element qualifies, and otherwise
      finds a qualifying element with none before it. */
  lemma {:induction false} IndexOfFirstSpec<T>(s: seq<T>, p: T -> bool)
    ensures IndexOfFirst(s, p).None? <==> forall j :: 0 <= j < |s| ==> !p(s[j])
    ensures IndexOfFirst(s, p).Some? ==>
      && IndexOfFirst(s, p).value < |s| && p(s[IndexOfFirst(s, p).value])
      && forall j :: 0 <= j < IndexOfFirst(s, p).value ==> !p(s[j])
  {
    if |s| > 0 && !p(s[0]) {
      IndexOfFirstSpec(s[1..], p);
      assert forall j :: 1 <= j < |s| ==> s[j] == s[1..][j - 1];
    }
  }

  /** `s` without its first occurrence of `x`; `s` itself when `x` does not occur. */
  function RemoveFirst<T(==)>(s: seq<T>, x: T): (r: seq<T>)
    ensures x !in s ==> r == s
    ensures x in s ==> exists i :: 0 <= i < |s| && s[i] == x && x !in s[..i] && r == s[..i] + s[i + 1..]
    ensures multiset(r) == multiset(s) - multiset{x}
    ensures |r| == if x in s then |s| - 1 else |s|
  {
    IndexOfFirstSpec(s, y => y == x);
    match IndexOfFirst(s, y => y == x)
    case None => s
    case Some(i) =>
      assert s == s[..i] + [s[i]] + s[i + 1..];
      assert x !in s[..i] by {
        forall j | 0 <= j < i ensures s[..i][j] != x { }
      }
      s[..i] + s[i + 1..]
  }
}
