/** Generic sequence vocabulary: `Array.prototype.filter`, `map`, flattening
    of slices, and the subsequence relation used to state what a filter
    pipeline keeps. */
module Seqs {
  import opened Wrappers

  /** `xs.filter(p)`. */
  function Filter<T(!new)>(p: T -> bool, xs: seq<T>): (r: seq<T>)
    ensures |r| <= |xs|
    ensures forall i :: 0 <= i < |r| ==> p(r[i])
    ensures forall x :: x in r <==> x in xs && p(x)
  {
    if xs == [] then [] else (if p(xs[0]) then [xs[0]] else []) + Filter(p, xs[1..])
  }

  /** The filter keeps every occurrence of an element that passes and none
      of one that does not. */
  lemma {:induction false} FilterMultiplicity<T(!new)>(p: T -> bool, xs: seq<T>, x: T)
    ensures multiset(Filter(p, xs))[x] == if p(x) then multiset(xs)[x] else 0
  {
    if xs != [] {
      FilterMultiplicity(p, xs[1..], x);
      assert xs == [xs[0]] + xs[1..];
    }
  }

  /** `xs.map(f)`. */
  function Map<T, U>(f: T -> U, xs: seq<T>): (r: seq<U>)
    ensures |r| == |xs|
    ensures forall i :: 0 <= i < |xs| ==> r[i] == f(xs[i])
  {
    seq(|xs|, i requires 0 <= i < |xs| => f(xs[i]))
  }

  /** Two filters in a row keep what the conjunction keeps. */
  lemma {:induction false} FilterFilter<T(!new)>(p: T -> bool, q: T -> bool, xs: seq<T>)
    ensures Filter(q, Filter(p, xs)) == Filter(x => p(x) && q(x), xs)
  {
    if xs != [] {
      FilterFilter(p, q, xs[1..]);
      var head := if p(xs[0]) then [xs[0]] else [];
      assert Filter(p, xs) == head + Filter(p, xs[1..]);
      FilterAppend(q, head, Filter(p, xs[1..]));
    }
  }

  lemma {:induction false} FilterAppend<T(!new)>(p: T -> bool, a: seq<T>, b: seq<T>)
    ensures Filter(p, a + b) == Filter(p, a) + Filter(p, b)
  {
    if a != [] {
      assert (a + b)[1..] == a[1..] + b;
      FilterAppend(p, a[1..], b);
    } else {
      assert a + b == b;
    }
  }

  /** `a` can be obtained from `b` by deleting elements. */
  predicate IsSubsequence<T(==)>(a: seq<T>, b: seq<T>)
    decreases |b|
  {
    if |a| == 0 then true
    else if |b| == 0 then false
    else if a[0] == b[0] then IsSubsequence(a[1..], b[1..])
    else IsSubsequence(a, b[1..])
  }

  lemma {:induction false} SubsequenceOfTail<T>(a: seq<T>, b: seq<T>)
    requires |b| > 0 && IsSubsequence(a, b[1..])
    ensures IsSubsequence(a, b)
    decreases |b|, 0
  {
    if |a| > 0 && a[0] == b[0] {
      SubsequenceDropHead(a, b[1..]);
    }
  }

  lemma {:induction false} SubsequenceDropHead<T>(a: seq<T>, c: seq<T>)
    requires |a| > 0 && IsSubsequence(a, c)
    ensures IsSubsequence(a[1..], c)
    decreases |c|, 1
  {
    if a[0] == c[0] {
      if |a[1..]| > 0 {
        SubsequenceOfTail(a[1..], c);
      }
    } else {
      SubsequenceDropHead(a, c[1..]);
      if |a[1..]| > 0 {
        SubsequenceOfTail(a[1..], c);
      }
    }
  }

  /** A filter keeps a subsequence of its input. */
  lemma {:induction false} FilterIsSubsequence<T(!new)>(p: T -> bool, xs: seq<T>)
    ensures IsSubsequence(Filter(p, xs), xs)
  {
    if xs != [] {
      FilterIsSubsequence(p, xs[1..]);
      var rest := Filter(p, xs[1..]);
      if p(xs[0]) {
        assert Filter(p, xs) == [xs[0]] + rest;
        assert (Filter(p, xs))[1..] == rest;
      } else {
        assert Filter(p, xs) == rest;
        SubsequenceOfTail(rest, xs);
      }
    }
  }

  /** The concatenation of a sequence of slices. */
  function Flatten<T>(xss: seq<seq<T>>): seq<T> {
    if xss == [] then [] else Flatten(xss[..|xss| - 1]) + xss[|xss| - 1]
  }

  lemma FlattenSnoc<T>(xss: seq<seq<T>>, xs: seq<T>)
    ensures Flatten(xss + [xs]) == Flatten(xss) + xs
  {
    assert (xss + [xs])[..|xss|] == xss;
  }

  /** `batches` are the consecutive slices `xs.slice(i, i + size)` for
      i = 0, size, 2 * size, ...: non-empty, all but the last of length
      `size`, and together `xs`. */
  predicate AreBatchesOf<T(==)>(batches: seq<seq<T>>, xs: seq<T>, size: nat) {
    && Flatten(batches) == xs
    && (forall b :: 0 <= b < |batches| ==> 0 < |batches[b]| <= size)
    && (forall b :: 0 <= b < |batches| - 1 ==> |batches[b]| == size)
  }

  /** Extending a prefix by the next element gives the next prefix. */
  lemma PrefixSnoc<T>(s: seq<T>, i: nat)
    requires i < |s|
    ensures s[..i] + [s[i]] == s[..i + 1]
  {
  }

  lemma WholePrefix<T>(s: seq<T>)
    ensures s[..|s|] == s
  {
  }

  lemma MapAppend<T, U>(f: T -> U, a: seq<T>, b: seq<T>)
    ensures Map(f, a + b) == Map(f, a) + Map(f, b)
  {
  }

  /** The number of elements satisfying `p`. */
  function Count<T(!new)>(p: T -> bool, xs: seq<T>): (n: nat)
    ensures n == |Filter(p, xs)|
  {
    if xs == [] then 0 else (if p(xs[0]) then 1 else 0) + Count(p, xs[1..])
  }

  /** `xs.reverse()`. */
  function Reverse<T>(xs: seq<T>): (r: seq<T>)
    ensures |r| == |xs|
    ensures forall i :: 0 <= i < |xs| ==> r[i] == xs[|xs| - 1 - i]
  {
    if xs == [] then [] else Reverse(xs[1..]) + [xs[0]]
  }

  lemma ReverseSnoc<T>(xs: seq<T>, x: T)
    ensures Reverse(xs + [x]) == [x] + Reverse(xs)
  {
  }

  lemma ReverseReverse<T>(xs: seq<T>)
    ensures Reverse(Reverse(xs)) == xs
  {
  }

  /** The positions, from `k` on, at which `f` gives a value, in increasing
      order. */
  function DefinedFrom<T, U>(f: T -> Option<U>, xs: seq<T>, k: nat): (r: seq<nat>)
    requires k <= |xs|
    ensures |r| <= |xs| - k
    ensures forall j :: 0 <= j < |r| ==> k <= r[j] < |xs| && f(xs[r[j]]).Some?
    ensures forall j, l :: 0 <= j < l < |r| ==> r[j] < r[l]
    decreases |xs| - k
  {
    if k == |xs| then []
    else if f(xs[k]).Some? then [k] + DefinedFrom(f, xs, k + 1)
    else DefinedFrom(f, xs, k + 1)
  }

  /** No defined position is missed. */
  lemma {:induction false} DefinedFromComplete<T, U>(f: T -> Option<U>, xs: seq<T>, k: nat)
    requires k <= |xs|
    ensures forall i :: k <= i < |xs| && f(xs[i]).Some? ==> i in DefinedFrom(f, xs, k)
    decreases |xs| - k
  {
    if k < |xs| {
      DefinedFromComplete(f, xs, k + 1);
    }
  }

  function FilterMapFrom<T, U>(f: T -> Option<U>, xs: seq<T>, k: nat): (r: seq<U>)
    requires k <= |xs|
    ensures |r| == |DefinedFrom(f, xs, k)|
    ensures forall j :: 0 <= j < |r| ==> f(xs[DefinedFrom(f, xs, k)[j]]) == Some(r[j])
    decreases |xs| - k
  {
    if k == |xs| then []
    else match f(xs[k])
      case Some(y) => [y] + FilterMapFrom(f, xs, k + 1)
      case None => FilterMapFrom(f, xs, k + 1)
  }

  /** `xs.map(f).filter(defined)`: the values `f` gives, one for each position
      at which it gives one, in the order of the positions. */
  function FilterMap<T, U>(f: T -> Option<U>, xs: seq<T>): (r: seq<U>)
    ensures |r| <= |xs|
    ensures |r| == |DefinedFrom(f, xs, 0)|
    ensures forall j :: 0 <= j < |r| ==> f(xs[DefinedFrom(f, xs, 0)[j]]) == Some(r[j])
    ensures forall i :: 0 <= i < |xs| && f(xs[i]).Some? ==> f(xs[i]).value in r
    ensures r == [] <==> forall i :: 0 <= i < |xs| ==> f(xs[i]).None?
  {
    var r := FilterMapFrom(f, xs, 0);
    FilterMapKeeps(f, xs);
    FilterMapEmpty(f, xs);
    r
  }

  lemma FilterMapKeeps<T, U>(f: T -> Option<U>, xs: seq<T>)
    ensures forall i :: 0 <= i < |xs| && f(xs[i]).Some? ==> f(xs[i]).value in FilterMapFrom(f, xs, 0)
  {
    var d := DefinedFrom(f, xs, 0);
    var r := FilterMapFrom(f, xs, 0);
    DefinedFromComplete(f, xs, 0);
    forall i | 0 <= i < |xs| && f(xs[i]).Some? ensures f(xs[i]).value in r {
      var j :| 0 <= j < |d| && d[j] == i;
      assert f(xs[d[j]]) == Some(r[j]);
    }
  }

  lemma FilterMapEmpty<T, U>(f: T -> Option<U>, xs: seq<T>)
    ensures FilterMapFrom(f, xs, 0) == [] <==> forall i :: 0 <= i < |xs| ==> f(xs[i]).None?
  {
    var r := FilterMapFrom(f, xs, 0);
    if r != [] {
      assert f(xs[DefinedFrom(f, xs, 0)[0]]) == Some(r[0]);
    } else {
      DefinedFromComplete(f, xs, 0);
      assert DefinedFrom(f, xs, 0) == [];
    }
  }

  /** The positions from `k` on are all defined: nothing is skipped. */
  lemma {:induction false} DefinedFromAll<T, U>(f: T -> Option<U>, xs: seq<T>, k: nat)
    requires k <= |xs|
    requires forall i :: k <= i < |xs| ==> f(xs[i]).Some?
    ensures |DefinedFrom(f, xs, k)| == |xs| - k
    ensures forall j :: 0 <= j < |xs| - k ==> DefinedFrom(f, xs, k)[j] == k + j
    decreases |xs| - k
  {
    if k < |xs| {
      DefinedFromAll(f, xs, k + 1);
      var rest := DefinedFrom(f, xs, k + 1);
      assert DefinedFrom(f, xs, k) == [k] + rest;
    }
  }

  /** When `f` gives a value everywhere, `FilterMap` is `map`. */
  lemma FilterMapTotal<T, U>(f: T -> Option<U>, xs: seq<T>)
    requires forall i :: 0 <= i < |xs| ==> f(xs[i]).Some?
    ensures |FilterMap(f, xs)| == |xs|
    ensures forall i :: 0 <= i < |xs| ==> f(xs[i]) == Some(FilterMap(f, xs)[i])
  {
    DefinedFromAll(f, xs, 0);
    var d := DefinedFrom(f, xs, 0);
    var r := FilterMap(f, xs);
    forall i | 0 <= i < |xs| ensures f(xs[i]) == Some(r[i]) {
      assert d[i] == i;
    }
  }

  /** A value is in the filter-map exactly when `f` gives it at some
      position. */
  lemma FilterMapMember<T, U>(f: T -> Option<U>, xs: seq<T>, y: U)
    ensures y in FilterMap(f, xs) <==> exists i :: 0 <= i < |xs| && f(xs[i]) == Some(y)
  {
    var r := FilterMap(f, xs);
    var d := DefinedFrom(f, xs, 0);
    if y in r {
      var j :| 0 <= j < |r| && r[j] == y;
      assert f(xs[d[j]]) == Some(r[j]);
    }
  }

  /** A position at which `f` gives nothing makes the list of defined
      positions shorter than the input. */
  lemma {:induction false} DefinedFromMissing<T, U>(f: T -> Option<U>, xs: seq<T>, k: nat, i: nat)
    requires k <= i < |xs| && f(xs[i]).None?
    ensures |DefinedFrom(f, xs, k)| < |xs| - k
    decreases |xs| - k
  {
    if k < i {
      DefinedFromMissing(f, xs, k + 1, i);
    }
  }

  /** Nothing is dropped exactly when `f` is defined everywhere. */
  lemma FilterMapKeepsAll<T, U>(f: T -> Option<U>, xs: seq<T>)
    ensures |FilterMap(f, xs)| == |xs| <==> forall i :: 0 <= i < |xs| ==> f(xs[i]).Some?
  {
    if forall i :: 0 <= i < |xs| ==> f(xs[i]).Some? {
      DefinedFromAll(f, xs, 0);
    } else {
      var i :| 0 <= i < |xs| && f(xs[i]).None?;
      DefinedFromMissing(f, xs, 0, i);
    }
  }

  /** The number of defined positions is the number of elements satisfying
      `p`, when `p` says where `f` is defined. */
  lemma {:induction false} DefinedFromCount<T(!new), U>(f: T -> Option<U>, p: T -> bool, xs: seq<T>, k: nat)
    requires k <= |xs|
    requires forall x :: f(x).Some? <==> p(x)
    ensures |DefinedFrom(f, xs, k)| == Count(p, xs[k..])
    decreases |xs| - k
  {
    if k < |xs| {
      DefinedFromCount(f, p, xs, k + 1);
      assert xs[k..][1..] == xs[k + 1..];
      assert xs[k..][0] == xs[k];
    }
  }
}
