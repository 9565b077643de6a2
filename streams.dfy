/** The stream operators the pipelines are built from (`map`, `filter`,
    `distinctUntilChanged`, `bufferCount(n, 1)`), each as a function from the
    finite sequence of values pushed so far to the sequence of values emitted. */
module Streams {
  import opened Sequences

  /** `a` can be obtained from `b` by deleting elements. */
  predicate IsSubsequence<T(==)>(a: seq<T>, b: seq<T>)
    decreases |b|
  {
    a == [] ||
    (|b| > 0 &&
     ((Last(a) == Last(b) && IsSubsequence(Init(a), Init(b))) || IsSubsequence(a, Init(b))))
  }

  predicate NoAdjacentDuplicates<T(==)>(s: seq<T>)
  {
    forall i :: 0 < i < |s| ==> s[i - 1] != s[i]
  }

  /** `map(f)`: one output per input, in order. */
  function Map<A, B>(s: seq<A>, f: A -> B): (r: seq<B>)
    ensures |r| == |s|
    ensures forall i :: 0 <= i < |s| ==> r[i] == f(s[i])
  {
    if s == [] then [] else Map(Init(s), f) + [f(Last(s))]
  }

  /** `filter(p)`: the inputs satisfying `p`, in order. */
  function Filter<T(==)>(s: seq<T>, p: T -> bool): (r: seq<T>)
    ensures |r| <= |s|
    ensures forall x :: x in r ==> x in s && p(x)
    ensures forall i :: 0 <= i < |s| && p(s[i]) ==> s[i] in r
  {
    if s == [] then []
    else
      var rest := Filter(Init(s), p);
      InitOfSnoc(rest, Last(s));
      if p(Last(s)) then rest + [Last(s)] else rest
  }

  /** `filter` only deletes: its output is a subsequence of its input. */
  lemma {:induction false} FilterSubsequence<T>(s: seq<T>, p: T -> bool)
    ensures IsSubsequence(Filter(s, p), s)
  {
    if s != [] {
      FilterSubsequence(Init(s), p);
      InitOfSnoc(Filter(Init(s), p), Last(s));
    }
  }

  /** Every occurrence of a passing value is kept and every occurrence of
      a failing one dropped: with `FilterSubsequence` this pins the output. */
  lemma {:induction false} FilterCounts<T>(s: seq<T>, p: T -> bool, x: T)
    ensures multiset(Filter(s, p))[x] == if p(x) then multiset(s)[x] else 0
  {
    if s != [] {
      FilterCounts(Init(s), p, x);
      InitLast(s);
      FilterSnoc(Init(s), Last(s), p);
      assert multiset(s) == multiset(Init(s)) + multiset{Last(s)};
    }
  }

  lemma {:induction false} FilterIdempotent<T>(s: seq<T>, p: T -> bool)
    ensures Filter(Filter(s, p), p) == Filter(s, p)
  {
    if s != [] {
      FilterIdempotent(Init(s), p);
      FilterSnoc(Init(s), Last(s), p);
      if p(Last(s)) {
        FilterSnoc(Filter(Init(s), p), Last(s), p);
      }
    }
  }

  /** Appends `x` to what was emitted so far unless it equals the last
      emitted value: one step of `distinctUntilChanged()`. */
  function Emit<T(==)>(emitted: seq<T>, x: T): seq<T>
  {
    if |emitted| > 0 && Last(emitted) == x then emitted else emitted + [x]
  }

  /** `distinctUntilChanged()`: each input is compared with the last value
      emitted and dropped when equal to it. */
  function DistinctUntilChanged<T(==)>(s: seq<T>): (r: seq<T>)
    ensures |r| <= |s|
    ensures |s| > 0 ==> |r| > 0 && r[0] == s[0] && Last(r) == Last(s)
    ensures NoAdjacentDuplicates(r)
  {
    if s == [] then []
    else
      var rest := DistinctUntilChanged(Init(s));
      InitOfSnoc(rest, Last(s));
      Emit(rest, Last(s))
  }

  /** `distinctUntilChanged()` only deletes. */
  lemma {:induction false} DistinctUntilChangedSubsequence<T>(s: seq<T>)
    ensures IsSubsequence(DistinctUntilChanged(s), s)
  {
    if s != [] {
      var rest := DistinctUntilChanged(Init(s));
      DistinctUntilChangedSubsequence(Init(s));
      InitOfSnoc(rest, Last(s));
    }
  }

  /** Every element of a deduplicated stream comes from its input. */
  lemma {:induction false} DistinctUntilChangedMembers<T>(s: seq<T>, x: T)
    requires x in DistinctUntilChanged(s)
    ensures x in s
  {
    if s != [] {
      InitOfSnoc(DistinctUntilChanged(Init(s)), Last(s));
      if x != Last(s) {
        DistinctUntilChangedMembers(Init(s), x);
      }
    }
  }

  /** Reference definition: input `i` is kept exactly when it is the first
      input or differs from input `i - 1`. */
  function Changes<T(==)>(s: seq<T>): seq<T>
  {
    if |s| <= 1 then s
    else Changes(Init(s)) + (if s[|s| - 2] != Last(s) then [Last(s)] else [])
  }

  lemma {:induction false} DistinctUntilChangedIsChanges<T>(s: seq<T>)
    ensures DistinctUntilChanged(s) == Changes(s)
  {
    if |s| > 1 {
      DistinctUntilChangedIsChanges(Init(s));
      assert Last(Init(s)) == s[|s| - 2];
    }
  }

  lemma {:induction false} DistinctUntilChangedKeepsDistinct<T>(s: seq<T>)
    requires NoAdjacentDuplicates(s)
    ensures DistinctUntilChanged(s) == s
  {
    if s != [] {
      var p := Init(s);
      assert NoAdjacentDuplicates(p);
      DistinctUntilChangedKeepsDistinct(p);
      if |p| > 0 {
        assert Last(p) == s[|s| - 2];
      }
      assert p + [Last(s)] == s;
    }
  }

  lemma DistinctUntilChangedIdempotent<T>(s: seq<T>)
    ensures DistinctUntilChanged(DistinctUntilChanged(s)) == DistinctUntilChanged(s)
  {
    DistinctUntilChangedKeepsDistinct(DistinctUntilChanged(s));
  }

  lemma DistinctUntilChangedSnoc<T>(s: seq<T>, x: T)
    ensures DistinctUntilChanged(s + [x]) == Emit(DistinctUntilChanged(s), x)
  {
    InitOfSnoc(s, x);
  }

  lemma MapSnoc<A, B>(s: seq<A>, x: A, f: A -> B)
    ensures Map(s + [x], f) == Map(s, f) + [f(x)]
  {
    InitOfSnoc(s, x);
  }

  lemma FilterSnoc<T>(s: seq<T>, x: T, p: T -> bool)
    ensures Filter(s + [x], p) == Filter(s, p) + (if p(x) then [x] else [])
  {
    InitOfSnoc(s, x);
  }

  /** Deduplicating before a `map` changes nothing once the mapped stream is
      deduplicated again. */
  lemma {:induction false} DistinctUntilChangedThroughMap<A, B>(s: seq<A>, f: A -> B)
    ensures DistinctUntilChanged(Map(DistinctUntilChanged(s), f)) == DistinctUntilChanged(Map(s, f))
  {
    if s != [] {
      var p, x := Init(s), Last(s);
      assert s == p + [x];
      DistinctUntilChangedThroughMap(p, f);
      var d := DistinctUntilChanged(p);
      DistinctUntilChangedSnoc(p, x);
      MapSnoc(p, x, f);
      DistinctUntilChangedSnoc(Map(p, f), f(x));
      if |d| > 0 && Last(d) == x {
        assert Last(Map(p, f)) == f(x);
      } else {
        MapSnoc(d, x, f);
        DistinctUntilChangedSnoc(Map(d, f), f(x));
      }
    }
  }

  /** One more input through `filter` then `distinctUntilChanged()`. */
  lemma FilterThenDistinctSnoc<T>(s: seq<T>, x: T, q: T -> bool)
    ensures DistinctUntilChanged(Filter(s + [x], q)) ==
            if q(x) then Emit(DistinctUntilChanged(Filter(s, q)), x) else DistinctUntilChanged(Filter(s, q))
  {
    FilterSnoc(s, x, q);
    if q(x) {
      DistinctUntilChangedSnoc(Filter(s, q), x);
    }
  }

  /** Deduplicating before a `filter` changes nothing once the filtered
      stream is deduplicated again. */
  lemma {:induction false} DistinctUntilChangedThroughFilter<T>(s: seq<T>, q: T -> bool)
    ensures DistinctUntilChanged(Filter(DistinctUntilChanged(s), q)) == DistinctUntilChanged(Filter(s, q))
  {
    if s != [] {
      var p, x := Init(s), Last(s);
      assert s == p + [x];
      DistinctUntilChangedThroughFilter(p, q);
      var d := DistinctUntilChanged(p);
      DistinctUntilChangedSnoc(p, x);
      FilterThenDistinctSnoc(p, x, q);
      if |d| > 0 && Last(d) == x {
        // the input repeats the last value kept, which the filter kept too
        assert DistinctUntilChanged(s) == d;
        if q(x) {
          assert Last(p) == x;
          InitLast(p);
          FilterSnoc(Init(p), x, q);
          assert Last(Filter(p, q)) == x;
          var r := DistinctUntilChanged(Filter(p, q));
          assert |r| > 0 && Last(r) == x;
          assert Emit(r, x) == r;
        }
      } else {
        assert DistinctUntilChanged(s) == d + [x];
        FilterThenDistinctSnoc(d, x, q);
      }
    }
  }

  /** `bufferCount(n, 1)` on a stream that has not completed: the windows of
      `n` consecutive inputs, one starting at each input that has `n - 1`
      successors. */
  function Windows<T>(s: seq<T>, n: nat): (r: seq<seq<T>>)
    requires n >= 1
    ensures |r| == if |s| >= n then |s| - n + 1 else 0
    ensures forall k, m :: 0 <= k < |r| && 0 <= m < n ==> |r[k]| == n && r[k][m] == s[k + m]
  {
    if |s| < n then [] else seq(|s| - n + 1, k requires 0 <= k <= |s| - n => s[k..k + n])
  }
}
