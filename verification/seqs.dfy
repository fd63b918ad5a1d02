/** Sequence helpers shared by the graph model: the positions of a value in a
    sequence (what a MATCH on a name finds among nodes created in order) and the
    row-major cross product (what two nested `for` loops, or a two-pattern MATCH,
    enumerate). */
module Seqs {

  /** The positions of `x` in `xs`, in increasing order. */
  function IndicesOf<T(==)>(xs: seq<T>, x: T): (r: seq<nat>)
    ensures forall i: nat :: i in r <==> i < |xs| && xs[i] == x
    ensures forall a, b :: 0 <= a < b < |r| ==> r[a] < r[b]
    decreases |xs|
  {
    if |xs| == 0 then []
    else
      var init := IndicesOf(xs[..|xs| - 1], x);
      forall a | 0 <= a < |init|
        ensures init[a] < |xs| - 1
      {
        assert init[a] in init;
      }
      init + (if xs[|xs| - 1] == x then [|xs| - 1] else [])
  }

  /** A value that does not occur is found nowhere. */
  lemma {:induction false} IndicesOfAbsent<T>(xs: seq<T>, x: T)
    requires forall i :: 0 <= i < |xs| ==> xs[i] != x
    ensures IndicesOf(xs, x) == []
    decreases |xs|
  {
    if |xs| > 0 {
      IndicesOfAbsent(xs[..|xs| - 1], x);
    }
  }

  /** When `x` occurs at exactly one position, that position is all a lookup finds. */
  lemma {:induction false} IndicesOfSingle<T>(xs: seq<T>, x: T, p: nat)
    requires p < |xs| && xs[p] == x
    requires forall i :: 0 <= i < |xs| && xs[i] == x ==> i == p
    ensures IndicesOf(xs, x) == [p]
    decreases |xs|
  {
    var init := xs[..|xs| - 1];
    if p == |xs| - 1 {
      IndicesOfAbsent(init, x);
    } else {
      IndicesOfSingle(init, x, p);
    }
  }

  /** One row of a cross product: `x` paired with every element of `ys`. */
  function Row<A, B>(x: A, ys: seq<B>): (r: seq<(A, B)>)
    ensures |r| == |ys|
    ensures forall j :: 0 <= j < |ys| ==> r[j] == (x, ys[j])
  {
    seq(|ys|, j requires 0 <= j < |ys| => (x, ys[j]))
  }

  /** Every pair `(x, y)` with `x` from `xs` and `y` from `ys`, the outer loop over
      `xs` and the inner loop over `ys`. */
  function Cross<A, B>(xs: seq<A>, ys: seq<B>): (r: seq<(A, B)>)
    ensures |r| == |xs| * |ys|
    decreases |xs|
  {
    if |xs| == 0 then []
    else
      var rest := Cross(xs[1..], ys);
      assert |xs| * |ys| == |ys| + (|xs| - 1) * |ys|;
      Row(xs[0], ys) + rest
  }

  /** The pair at position `i * |ys| + j` of the cross product is `(xs[i], ys[j])`:
      the enumeration is row-major. */
  lemma {:induction false} CrossAt<A, B>(xs: seq<A>, ys: seq<B>, i: int, j: int)
    requires 0 <= i < |xs| && 0 <= j < |ys|
    ensures 0 <= i * |ys| + j < |xs| * |ys|
    ensures Cross(xs, ys)[i * |ys| + j] == (xs[i], ys[j])
    decreases i
  {
    if i == 0 {
      assert Cross(xs, ys) == Row(xs[0], ys) + Cross(xs[1..], ys);
    } else {
      CrossAt(xs[1..], ys, i - 1, j);
      assert i * |ys| + j == |ys| + ((i - 1) * |ys| + j);
      assert Cross(xs, ys) == Row(xs[0], ys) + Cross(xs[1..], ys);
    }
  }

  /** A pair is enumerated exactly when both of its components are. */
  lemma {:induction false} CrossMembers<A, B>(xs: seq<A>, ys: seq<B>, p: (A, B))
    ensures p in Cross(xs, ys) <==> p.0 in xs && p.1 in ys
    decreases |xs|
  {
    if |xs| > 0 {
      CrossMembers(xs[1..], ys, p);
      assert Cross(xs, ys) == Row(xs[0], ys) + Cross(xs[1..], ys);
      assert xs == [xs[0]] + xs[1..];
      if p.0 == xs[0] && p.1 in ys {
        var j :| 0 <= j < |ys| && ys[j] == p.1;
        assert Row(xs[0], ys)[j] == p;
      }
    }
  }

  /** A sequence that extends `b` splits, past any point of `b`, into the rest of
      `b` and its own extension. */
  lemma SplitTail<T>(a: seq<T>, b: seq<T>, n: nat)
    requires n <= |b| <= |a| && a[..|b|] == b
    ensures a[n..] == b[n..] + a[|b|..]
  {
    assert a[n..] == a[n..|b|] + a[|b|..];
    assert a[n..|b|] == a[..|b|][n..];
  }

  /** A prefix of a prefix is a prefix. */
  lemma PrefixOfPrefix<T>(a: seq<T>, b: seq<T>, c: seq<T>)
    requires |c| <= |b| <= |a| && a[..|b|] == b && b[..|c|] == c
    ensures a[..|c|] == c
  {
    assert a[..|c|] == a[..|b|][..|c|];
  }

  lemma ConcatAssoc<T>(a: seq<T>, b: seq<T>, c: seq<T>)
    ensures (a + b) + c == a + (b + c)
  {
  }
}
