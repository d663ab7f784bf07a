/** Generic sequence helpers: the list comprehensions and accumulation loops of the scripts. */
module Seqs {

  /** No element of `xs` occurs twice. */
  predicate Distinct<T(==)>(xs: seq<T>) {
    forall i, j :: 0 <= i < j < |xs| ==> xs[i] != xs[j]
  }

  /** Position of the first occurrence of `x` in `xs`. */
  function FirstIndex<T(==)>(xs: seq<T>, x: T): (k: nat)
    requires x in xs
    ensures k < |xs| && xs[k] == x
    ensures forall j :: 0 <= j < k ==> xs[j] != x
  {
    if xs[0] == x then 0 else 1 + FirstIndex(xs[1..], x)
  }

  /** The elements of `xs` that satisfy `keep`, in their original order
      (`[x for x in xs if keep(x)]`). */
  function Filter<T(!new)>(xs: seq<T>, keep: T -> bool): (r: seq<T>)
    ensures |r| <= |xs|
    ensures forall x :: x in r <==> x in xs && keep(x)
    decreases |xs|
  {
    if |xs| == 0 then []
    else Filter(xs[..|xs| - 1], keep) + (if keep(xs[|xs| - 1]) then [xs[|xs| - 1]] else [])
  }

  /** Filtering a concatenation filters each part and keeps the parts in order. */
  lemma {:induction false} FilterAppend<T(!new)>(a: seq<T>, b: seq<T>, keep: T -> bool)
    ensures Filter(a + b, keep) == Filter(a, keep) + Filter(b, keep)
    decreases |b|
  {
    if |b| == 0 {
      assert a + b == a;
    } else {
      var b' := b[..|b| - 1];
      assert (a + b)[..|a + b| - 1] == a + b';
      FilterAppend(a, b', keep);
    }
  }

  /** A kept head stays at the head of the filtered sequence. */
  lemma FilterCons<T(!new)>(xs: seq<T>, keep: T -> bool)
    requires |xs| > 0
    ensures Filter(xs, keep) == (if keep(xs[0]) then [xs[0]] else []) + Filter(xs[1..], keep)
  {
    var head := [xs[0]];
    assert xs == head + xs[1..];
    FilterAppend(head, xs[1..], keep);
    assert head[..0] == [];
    assert Filter(head, keep) == Filter(head[..0], keep) + (if keep(xs[0]) then head else []);
  }

  /** Filtering keeps a sequence whole when every element is kept. */
  lemma {:induction false} FilterAllKept<T(!new)>(xs: seq<T>, keep: T -> bool)
    requires forall k :: 0 <= k < |xs| ==> keep(xs[k])
    ensures Filter(xs, keep) == xs
    decreases |xs|
  {
    if |xs| > 0 {
      var n := |xs| - 1;
      var front := xs[..n];
      assert forall k :: 0 <= k < n ==> front[k] == xs[k];
      FilterAllKept(front, keep);
      assert Filter(xs, keep) == Filter(front, keep) + [xs[n]];
      FrontAndLast(xs);
    }
  }

  /** Filtering keeps nothing iff no element is kept. */
  lemma FilterNone<T(!new)>(xs: seq<T>, keep: T -> bool)
    ensures Filter(xs, keep) == [] <==> forall k :: 0 <= k < |xs| ==> !keep(xs[k])
  {
    var r := Filter(xs, keep);
    if r != [] {
      assert r[0] in r;
    } else {
      forall k | 0 <= k < |xs|
        ensures !keep(xs[k])
      {
        assert xs[k] in xs;
      }
    }
  }

  /** Filtering keeps as many elements as there are iff every element is kept. */
  lemma FilterKeepsAll<T(!new)>(xs: seq<T>, keep: T -> bool)
    ensures |Filter(xs, keep)| == |xs| <==> forall k :: 0 <= k < |xs| ==> keep(xs[k])
  {
    if forall k :: 0 <= k < |xs| ==> keep(xs[k]) {
      FilterAllKept(xs, keep);
    }
    if |Filter(xs, keep)| == |xs| {
      FullFilterKeptAll(xs, keep);
    }
  }

  /** A filter that drops nothing kept every element. */
  lemma {:induction false} FullFilterKeptAll<T(!new)>(xs: seq<T>, keep: T -> bool)
    requires |Filter(xs, keep)| == |xs|
    ensures forall k :: 0 <= k < |xs| ==> keep(xs[k])
    decreases |xs|
  {
    if |xs| > 0 {
      var n := |xs| - 1;
      var front := xs[..n];
      assert Filter(xs, keep) == Filter(front, keep) + (if keep(xs[n]) then [xs[n]] else []);
      assert |Filter(front, keep)| == n && keep(xs[n]);
      FullFilterKeptAll(front, keep);
      AllOfFrontAndLast(xs, front, keep);
    }
  }

  /** Filtering one more element. */
  lemma FilterSnoc<T(!new)>(xs: seq<T>, x: T, keep: T -> bool)
    ensures Filter(xs + [x], keep) == Filter(xs, keep) + (if keep(x) then [x] else [])
  {
    assert (xs + [x])[..|xs|] == xs;
  }

  /** Two predicates that agree on every element of `xs` filter it identically. */
  lemma {:induction false} FilterCongruent<T(!new)>(xs: seq<T>, keep1: T -> bool, keep2: T -> bool)
    requires forall k :: 0 <= k < |xs| ==> keep1(xs[k]) == keep2(xs[k])
    ensures Filter(xs, keep1) == Filter(xs, keep2)
    decreases |xs|
  {
    if |xs| > 0 {
      FilterCongruent(xs[..|xs| - 1], keep1, keep2);
    }
  }

  /** The concatenation of all the sequences in `xss`, in order (`extend` in a loop). */
  function Flatten<T>(xss: seq<seq<T>>): (r: seq<T>)
    ensures forall k :: 0 <= k < |xss| ==> |xss[k]| <= |r|
    decreases |xss|
  {
    if |xss| == 0 then [] else Flatten(xss[..|xss| - 1]) + xss[|xss| - 1]
  }

  /** Flattening a concatenation flattens each part: nothing is merged or dropped across parts. */
  lemma {:induction false} FlattenAppend<T>(a: seq<seq<T>>, b: seq<seq<T>>)
    ensures Flatten(a + b) == Flatten(a) + Flatten(b)
    decreases |b|
  {
    if |b| == 0 {
      assert a + b == a;
    } else {
      var b' := b[..|b| - 1];
      assert (a + b)[..|a + b| - 1] == a + b';
      FlattenAppend(a, b');
    }
  }

  /** A flattening is empty iff every part is. */
  lemma {:induction false} FlattenEmpty<T>(xss: seq<seq<T>>)
    ensures Flatten(xss) == [] <==> forall k :: 0 <= k < |xss| ==> xss[k] == []
    decreases |xss|
  {
    if |xss| > 0 {
      var n := |xss| - 1;
      FlattenEmpty(xss[..n]);
      assert forall k :: 0 <= k < n ==> xss[..n][k] == xss[k];
    }
  }

  /** The length of a flattening is the sum of the part lengths. */
  function SumLengths<T>(xss: seq<seq<T>>): nat
    decreases |xss|
  {
    if |xss| == 0 then 0 else SumLengths(xss[..|xss| - 1]) + |xss[|xss| - 1]|
  }

  lemma {:induction false} FlattenLength<T>(xss: seq<seq<T>>)
    ensures |Flatten(xss)| == SumLengths(xss)
    decreases |xss|
  {
    if |xss| > 0 {
      FlattenLength(xss[..|xss| - 1]);
    }
  }

  /** Order-preserving removal of repeats: the loop `if x not in out: out.append(x)`. */
  function Dedupe<T(==,!new)>(xs: seq<T>): (r: seq<T>)
    ensures forall x :: x in r <==> x in xs
    ensures |r| <= |xs|
    decreases |xs|
  {
    if |xs| == 0 then []
    else
      var d := Dedupe(xs[..|xs| - 1]);
      if xs[|xs| - 1] in d then d else d + [xs[|xs| - 1]]
  }

  /** `Dedupe` leaves no element twice. */
  lemma {:induction false} DedupeDistinct<T(!new)>(xs: seq<T>)
    ensures Distinct(Dedupe(xs))
    decreases |xs|
  {
    if |xs| > 0 {
      DedupeDistinct(xs[..|xs| - 1]);
    }
  }

  /** Deduplicating one more element: it is appended unless already present. */
  lemma DedupeSnoc<T(!new)>(xs: seq<T>, x: T)
    ensures Dedupe(xs + [x]) == if x in Dedupe(xs) then Dedupe(xs) else Dedupe(xs) + [x]
  {
    assert (xs + [x])[..|xs|] == xs;
  }

  /** The first occurrence of `x` in a prefix is its first occurrence in the whole sequence. */
  lemma FirstIndexPrefix<T>(xs: seq<T>, n: nat, x: T)
    requires n <= |xs| && x in xs[..n]
    ensures x in xs && FirstIndex(xs[..n], x) == FirstIndex(xs, x)
  {
    var k := FirstIndex(xs[..n], x);
    assert xs[k] == x;
    forall j | 0 <= j < k
      ensures xs[j] != x
    {
      assert xs[j] == xs[..n][j];
    }
  }

  /** `Dedupe` keeps elements in the order of their first occurrence in the input. */
  lemma {:induction false} DedupeFirstOccurrenceOrder<T(!new)>(xs: seq<T>)
    ensures forall i, j :: 0 <= i < j < |Dedupe(xs)| ==>
              FirstIndex(xs, Dedupe(xs)[i]) < FirstIndex(xs, Dedupe(xs)[j])
    decreases |xs|
  {
    if |xs| > 0 {
      var n := |xs| - 1;
      var ys := xs[..n];
      var d := Dedupe(ys);
      var r := Dedupe(xs);
      assert r == if xs[n] in d then d else d + [xs[n]];
      DedupeFirstOccurrenceOrder(ys);
      forall i, j | 0 <= i < j < |r|
        ensures FirstIndex(xs, r[i]) < FirstIndex(xs, r[j])
      {
        assert r[i] == d[i];
        FirstIndexPrefix(xs, n, d[i]);
        if j < |d| {
          assert r[j] == d[j];
          FirstIndexPrefix(xs, n, d[j]);
        } else {
          assert r[j] == xs[n] && xs[n] !in ys;
          assert FirstIndex(xs, xs[n]) == n;
        }
      }
    }
  }

  /** `[f(x) for x in xs]` */
  function Map<T, U>(xs: seq<T>, f: T -> U): (r: seq<U>)
    ensures |r| == |xs| && forall k :: 0 <= k < |xs| ==> r[k] == f(xs[k])
  {
    seq(|xs|, k requires 0 <= k < |xs| => f(xs[k]))
  }

  /** Mapping over two elements. */
  lemma MapPair<T, U>(a: T, b: T, f: T -> U)
    ensures Map([a, b], f) == [f(a), f(b)]
  {
  }

  /** Filtering one more element of a prefix. */
  lemma FilterPrefixStep<T(!new)>(ys: seq<T>, i: nat, keep: T -> bool)
    requires i < |ys|
    ensures keep(ys[i]) ==> Filter(ys[..i + 1], keep) == Filter(ys[..i], keep) + [ys[i]]
    ensures !keep(ys[i]) ==> Filter(ys[..i + 1], keep) == Filter(ys[..i], keep)
  {
    assert ys[..i + 1] == ys[..i] + [ys[i]];
    FilterSnoc(ys[..i], ys[i], keep);
  }

  /** The accumulation loop `for x in xs: y = f(x); if keep(y) and y not in out: out.append(y)`. */
  method CollectDistinct<T, U(==,!new)>(xs: seq<T>, f: T -> U, keep: U -> bool) returns (out: seq<U>)
    ensures out == Dedupe(Filter(Map(xs, f), keep))
  {
    out := [];
    ghost var ys := Map(xs, f);
    var i := 0;
    while i < |xs|
      invariant 0 <= i <= |xs|
      invariant out == Dedupe(Filter(ys[..i], keep))
    {
      var y := f(xs[i]);
      out := CollectOne(out, y, ys, i, keep);
      i := i + 1;
    }
    assert ys[..i] == ys;
  }

  /** One step of the accumulation loop: `y` is appended when kept and not yet present. */
  method CollectOne<U(==,!new)>(out: seq<U>, y: U, ghost ys: seq<U>, i: nat, keep: U -> bool) returns (out': seq<U>)
    requires i < |ys| && y == ys[i] && out == Dedupe(Filter(ys[..i], keep))
    ensures out' == Dedupe(Filter(ys[..i + 1], keep))
  {
    FilterPrefixStep(ys, i, keep);
    out' := out;
    if keep(y) {
      DedupeSnoc(Filter(ys[..i], keep), y);
      if y !in out {
        out' := out + [y];
      }
    }
  }

  /** Python's `xs[:n]`: at most the first `n` elements. */
  function Take<T>(xs: seq<T>, n: nat): (r: seq<T>)
    ensures |r| == if |xs| <= n then |xs| else n
    ensures r == xs[..|r|]
  {
    if |xs| <= n then xs else xs[..n]
  }

  /** A non-empty sequence is its front followed by its last element. */
  lemma FrontAndLast<T>(xs: seq<T>)
    requires |xs| > 0
    ensures xs[..|xs| - 1] + [xs[|xs| - 1]] == xs
  {
  }

  /** Every element satisfies `p` when every element of the front and the last one do. */
  lemma AllOfFrontAndLast<T>(xs: seq<T>, front: seq<T>, p: T -> bool)
    requires |xs| > 0 && front == xs[..|xs| - 1] && p(xs[|xs| - 1])
    requires forall k :: 0 <= k < |front| ==> p(front[k])
    ensures forall k :: 0 <= k < |xs| ==> p(xs[k])
  {
    forall k | 0 <= k < |front|
      ensures p(xs[k])
    {
      assert front[k] == xs[k];
    }
  }

  /** Concatenation is associative. */
  lemma AppendAssoc<T>(x: seq<T>, y: seq<T>, z: seq<T>)
    ensures (x + y) + z == x + (y + z)
  {
  }

  /** Taking all of a sequence gives it back. */
  lemma TakeAll<T>(xs: seq<T>)
    ensures xs[..|xs|] == xs
  {
  }
}
