/** Sequence helpers shared by the chart-tab utility and the sites controller:
    order-preserving de-duplication (lodash `uniq`, and the key order of a
    JavaScript `Map`), filtering, truncation and the subsequence relation. */
module Sequences {

  /** No element occurs twice. */
  ghost predicate Distinct<T>(xs: seq<T>) {
    forall i, j :: 0 <= i < j < |xs| ==> xs[i] != xs[j]
  }

  /** `xs` is obtained from `ys` by deleting elements, keeping the order. */
  predicate IsSubsequence<T(==)>(xs: seq<T>, ys: seq<T>)
    decreases |ys|
  {
    if xs == [] then true
    else if ys == [] then false
    else if xs[0] == ys[0] then IsSubsequence(xs[1..], ys[1..])
    else IsSubsequence(xs, ys[1..])
  }

  /** The elements of `xs` that satisfy `keep`, in their order. */
  function Filter<T(!new)>(xs: seq<T>, keep: T -> bool): (r: seq<T>)
    ensures |r| <= |xs|
    ensures forall x :: x in r <==> x in xs && keep(x)
  {
    if xs == [] then []
    else if keep(xs[0]) then [xs[0]] + Filter(xs[1..], keep)
    else Filter(xs[1..], keep)
  }

  /** The predicate "is not one of `xs`". */
  function NotIn<T(==)>(xs: seq<T>): T -> bool {
    x => x !in xs
  }

  /** The first occurrence of every element, in order of first occurrence.
      Defined by appending one element at a time, as an insertion-ordered
      set (or the key list of a JavaScript `Map`) grows. */
  function Dedup<T(==,!new)>(xs: seq<T>): (r: seq<T>)
    ensures forall x :: x in r <==> x in xs
    ensures Distinct(r)
    ensures |r| <= |xs|
    ensures IsSubsequence(r, xs)
  {
    if xs == [] then []
    else
      var init, last := xs[..|xs| - 1], xs[|xs| - 1];
      assert xs == init + [last];
      if last in init then
        SubsequenceOfLonger(Dedup(init), init, last);
        Dedup(init)
      else
        SubsequenceSnoc(Dedup(init), init, last);
        Dedup(init) + [last]
  }

  /** A subsequence stays one when the longer sequence grows at the end. */
  lemma {:induction false} SubsequenceOfLonger<T>(xs: seq<T>, ys: seq<T>, y: T)
    requires IsSubsequence(xs, ys)
    ensures IsSubsequence(xs, ys + [y])
    decreases |ys|
  {
    if xs != [] {
      assert (ys + [y])[0] == ys[0] && (ys + [y])[1..] == ys[1..] + [y];
      if xs[0] == ys[0] {
        SubsequenceOfLonger(xs[1..], ys[1..], y);
      } else {
        SubsequenceOfLonger(xs, ys[1..], y);
      }
    }
  }

  /** Appending the same element to both keeps a subsequence. */
  lemma {:induction false} SubsequenceSnoc<T>(xs: seq<T>, ys: seq<T>, y: T)
    requires IsSubsequence(xs, ys)
    ensures IsSubsequence(xs + [y], ys + [y])
    decreases |ys|
  {
    if ys == [] {
      assert xs == [];
      assert ([] + [y])[1..] == [];
    } else {
      assert (ys + [y])[0] == ys[0] && (ys + [y])[1..] == ys[1..] + [y];
      if xs == [] {
        if ys[0] != y {
          SubsequenceSnoc(xs, ys[1..], y);
        }
      } else {
        assert (xs + [y])[0] == xs[0] && (xs + [y])[1..] == xs[1..] + [y];
        if xs[0] == ys[0] {
          SubsequenceSnoc(xs[1..], ys[1..], y);
        } else {
          SubsequenceSnoc(xs, ys[1..], y);
        }
      }
    }
  }

  /** The first `n` elements (JavaScript `slice(0, n)`). */
  function Take<T>(xs: seq<T>, n: nat): (r: seq<T>)
    ensures |r| == if |xs| <= n then |xs| else n
    ensures forall i :: 0 <= i < |r| ==> r[i] == xs[i]
  {
    if |xs| <= n then xs else xs[..n]
  }

  lemma {:induction false} DedupSnoc<T(!new)>(xs: seq<T>, x: T)
    ensures Dedup(xs + [x]) == if x in xs then Dedup(xs) else Dedup(xs) + [x]
  {
    assert (xs + [x])[..|xs|] == xs;
  }

  lemma {:induction false} FilterAppend<T(!new)>(xs: seq<T>, ys: seq<T>, keep: T -> bool)
    ensures Filter(xs + ys, keep) == Filter(xs, keep) + Filter(ys, keep)
    decreases |xs|
  {
    if xs == [] {
      assert xs + ys == ys;
    } else {
      var x, zs := xs[0], xs + ys;
      assert zs[0] == x && zs[1..] == xs[1..] + ys;
      FilterAppend(xs[1..], ys, keep);
      if keep(x) {
        assert Filter(zs, keep) == [x] + (Filter(xs[1..], keep) + Filter(ys, keep));
      } else {
        assert Filter(zs, keep) == Filter(xs[1..], keep) + Filter(ys, keep);
      }
    }
  }

  lemma {:induction false} FilterIsSubsequence<T(!new)>(xs: seq<T>, keep: T -> bool)
    ensures IsSubsequence(Filter(xs, keep), xs)
    decreases |xs|
  {
    if xs != [] {
      FilterIsSubsequence(xs[1..], keep);
    }
  }

  /** De-duplicating a concatenation keeps the first part's elements first,
      then the second part's new elements in their own order. */
  lemma {:induction false} DedupConcat<T(!new)>(xs: seq<T>, ys: seq<T>)
    ensures Dedup(xs + ys) == Dedup(xs) + Dedup(Filter(ys, NotIn(xs)))
    decreases |ys|
  {
    if ys == [] {
      assert xs + ys == xs;
    } else {
      var init, y := ys[..|ys| - 1], ys[|ys| - 1];
      assert ys == init + [y];
      assert xs + ys == (xs + init) + [y];
      var f := Filter(init, NotIn(xs));
      DedupConcat(xs, init);
      DedupSnoc(xs + init, y);
      FilterAppend(init, [y], NotIn(xs));
      if y in xs {
        FilteredOut(y, NotIn(xs));
        assert Filter(ys, NotIn(xs)) == f + [] == f;
        assert Dedup(xs + ys) == Dedup(xs + init);
      } else {
        FilteredIn(y, NotIn(xs));
        assert Filter(ys, NotIn(xs)) == f + [y];
        DedupSnoc(f, y);
        assert (y in f) == (y in init) == (y in xs + init);
        if y in init {
          assert Dedup(xs + ys) == Dedup(xs + init);
          assert Dedup(f + [y]) == Dedup(f);
        } else {
          assert Dedup(xs + ys) == Dedup(xs + init) + [y];
          assert Dedup(f + [y]) == Dedup(f) + [y];
          SnocAssoc(Dedup(xs), Dedup(f), y);
        }
      }
    }
  }

  lemma SnocAssoc<T>(a: seq<T>, b: seq<T>, y: T)
    ensures (a + b) + [y] == a + (b + [y])
  {
  }

  lemma FilteredOut<T(!new)>(y: T, keep: T -> bool)
    requires !keep(y)
    ensures Filter([y], keep) == []
  {
    assert [y][1..] == [];
  }

  lemma FilteredIn<T(!new)>(y: T, keep: T -> bool)
    requires keep(y)
    ensures Filter([y], keep) == [y]
  {
    assert [y][1..] == [];
  }

  /** The first element always survives de-duplication. */
  lemma {:induction false} DedupHead<T(!new)>(xs: seq<T>)
    requires xs != []
    ensures Dedup(xs) != [] && Dedup(xs)[0] == xs[0]
    decreases |xs|
  {
    var init, last := xs[..|xs| - 1], xs[|xs| - 1];
    assert xs == init + [last];
    if init != [] {
      DedupHead(init);
    }
  }

  /** A sequence without repetitions is its own de-duplication. */
  lemma {:induction false} DedupOfDistinct<T(!new)>(xs: seq<T>)
    requires Distinct(xs)
    ensures Dedup(xs) == xs
    decreases |xs|
  {
    if xs != [] {
      var init, last := xs[..|xs| - 1], xs[|xs| - 1];
      assert xs == init + [last];
      assert last !in init by {
        forall i | 0 <= i < |init| ensures init[i] != last {
          assert xs[i] != xs[|xs| - 1];
        }
      }
      DedupOfDistinct(init);
    }
  }

  /** A filter of a repetition-free sequence is repetition-free. */
  lemma {:induction false} FilterDistinct<T(!new)>(xs: seq<T>, keep: T -> bool)
    requires Distinct(xs)
    ensures Distinct(Filter(xs, keep))
    decreases |xs|
  {
    if xs != [] {
      FilterDistinct(xs[1..], keep);
    }
  }
}
