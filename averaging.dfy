/** `averageLandmarks` (src/modules/computervision/utils.ts): the mean of the
    landmarks whose visibility is defined and at least 0.5, or the all-zero
    landmark when none is. */
module Averaging {
  import opened Wrappers
  import opened Landmarks
  import opened Sequences
  import opened Streams

  /** The visibility gate of the average. */
  predicate Qualifies(l: Landmark)
  {
    l.visibility.Some? && l.visibility.value >= 0.5
  }

  /** The four quantities averaged independently. */
  datatype Axis = X | Y | Z | Visibility

  function Coord(l: Landmark, a: Axis): real
  {
    match a
    case X => l.x
    case Y => l.y
    case Z => l.z
    case Visibility => if l.visibility.Some? then l.visibility.value else 0.0
  }

  /** The entries that take part in the average, in input order. */
  function Qualifying(s: seq<Landmark>): seq<Landmark>
  {
    Filter(s, Qualifies)
  }

  function Total(s: seq<Landmark>, a: Axis): real
  {
    if s == [] then 0.0 else Total(Init(s), a) + Coord(Last(s), a)
  }

  lemma TotalSnoc(s: seq<Landmark>, l: Landmark, a: Axis)
    ensures Total(s + [l], a) == Total(s, a) + Coord(l, a)
  {
    InitOfSnoc(s, l);
  }

  /** Reference definition: the mean, axis by axis, of the qualifying
      entries; `Origin` when there are none. */
  function Average(s: seq<Landmark>): (r: Landmark)
    ensures r.visibility.Some?
  {
    var q := Qualifying(s);
    var n := |q| as real;
    if |q| == 0 then Origin
    else Landmark(Total(q, X) / n, Total(q, Y) / n, Total(q, Z) / n, Some(Total(q, Visibility) / n))
  }

  /** The `reduce` over the input with a fresh accumulator and a counter,
      followed by the in-place division. The input is a value and cannot
      change. */
  method AverageLandmarks(landmarks: seq<Landmark>) returns (result: Landmark)
    ensures result == Average(landmarks)
  {
    var counter := 0;
    var acc := Origin;
    for i := 0 to |landmarks|
      invariant acc.visibility.Some?
      invariant counter == |Qualifying(landmarks[..i])|
      invariant acc.x == Total(Qualifying(landmarks[..i]), X)
      invariant acc.y == Total(Qualifying(landmarks[..i]), Y)
      invariant acc.z == Total(Qualifying(landmarks[..i]), Z)
      invariant acc.visibility.value == Total(Qualifying(landmarks[..i]), Visibility)
    {
      var curr := landmarks[i];
      ghost var before := Qualifying(landmarks[..i]);
      assert landmarks[..i + 1] == landmarks[..i] + [curr];
      FilterSnoc(landmarks[..i], curr, Qualifies);
      if acc.visibility.Some? && curr.visibility.Some? && curr.visibility.value >= 0.5 {
        TotalSnoc(before, curr, X);
        TotalSnoc(before, curr, Y);
        TotalSnoc(before, curr, Z);
        TotalSnoc(before, curr, Visibility);
        acc := Landmark(acc.x + curr.x, acc.y + curr.y, acc.z + curr.z,
                        Some(acc.visibility.value + curr.visibility.value));
        counter := counter + 1;
      }
    }
    assert landmarks[..|landmarks|] == landmarks;
    if counter > 0 {
      var n := counter as real;
      var v := acc.visibility.value;
      // `if (result.visibility)`: a zero sum is left as it is
      result := Landmark(acc.x / n, acc.y / n, acc.z / n, if v != 0.0 then Some(v / n) else acc.visibility);
    } else {
      result := Origin;
    }
  }

  lemma {:induction false} TotalVisibilityAtLeastHalf(q: seq<Landmark>)
    requires forall l :: l in q ==> Qualifies(l)
    ensures Total(q, Visibility) >= (|q| as real) / 2.0
  {
    if q != [] {
      assert Last(q) in q;
      assert forall l :: l in Init(q) ==> l in q;
      TotalVisibilityAtLeastHalf(Init(q));
    }
  }

  /** When anything qualifies, the averaged visibility is at least 0.5. */
  lemma AverageVisibilityAtLeastHalf(s: seq<Landmark>)
    requires exists l :: l in s && Qualifies(l)
    ensures Average(s).visibility.Some? && Average(s).visibility.value >= 0.5
  {
    var l :| l in s && Qualifies(l);
    var i :| 0 <= i < |s| && s[i] == l;
    var q := Qualifying(s);
    assert l in q;
    TotalVisibilityAtLeastHalf(q);
    DivideAtLeastHalf(Total(q, Visibility), |q| as real);
  }

  lemma DivideAtLeastHalf(t: real, n: real)
    requires n > 0.0 && t >= n / 2.0
    ensures t / n >= 0.5
  {
    assert t / n == (t * 2.0) / (n * 2.0);
  }

  lemma MultiplyDivide(n: real, c: real)
    requires n > 0.0
    ensures (n * c) / n == c
  {
  }

  lemma DivideEqual(t: real, u: real, n: real)
    requires n > 0.0 && t == u
    ensures t / n == u / n
  {
  }

  /** Nothing qualifies (in particular, the input is empty): the all-zero
      landmark. */
  lemma AverageWithoutQualifying(s: seq<Landmark>)
    requires forall l :: l in s ==> !Qualifies(l)
    ensures Average(s) == Landmark(0.0, 0.0, 0.0, Some(0.0))
  {
    if |Qualifying(s)| > 0 {
      assert Qualifying(s)[0] in s;
    }
  }

  lemma {:induction false} TotalOfCopies(q: seq<Landmark>, l: Landmark, a: Axis)
    requires forall m :: m in q ==> m == l
    ensures Total(q, a) == (|q| as real) * Coord(l, a)
  {
    if q != [] {
      assert Last(q) in q;
      assert forall m :: m in Init(q) ==> m in q;
      TotalOfCopies(Init(q), l, a);
    }
  }

  /** When every qualifying entry is the same landmark `l`, the average is
      `l` itself: averaging a steady signal does not move it. */
  lemma AverageOfIdentical(s: seq<Landmark>, l: Landmark)
    requires l in s && Qualifies(l)
    requires forall m :: m in s && Qualifies(m) ==> m == l
    ensures Average(s) == l
  {
    var q := Qualifying(s);
    var i :| 0 <= i < |s| && s[i] == l;
    assert l in q;
    assert forall m :: m in q ==> m == l;
    MeanOfCopies(q, l, X);
    MeanOfCopies(q, l, Y);
    MeanOfCopies(q, l, Z);
    MeanOfCopies(q, l, Visibility);
    assert l == Landmark(Coord(l, X), Coord(l, Y), Coord(l, Z), Some(Coord(l, Visibility)));
  }

  lemma MeanOfCopies(q: seq<Landmark>, l: Landmark, a: Axis)
    requires |q| > 0
    requires forall m :: m in q ==> m == l
    ensures Total(q, a) / (|q| as real) == Coord(l, a)
  {
    var t, n, c := Total(q, a), |q| as real, Coord(l, a);
    TotalOfCopies(q, l, a);
    MultiplyDivide(n, c);
    DivideEqual(t, n * c, n);
  }

  /** Entries that fail the gate can be dropped beforehand without changing
      the result. */
  lemma AverageOfQualifying(s: seq<Landmark>)
    ensures Average(Qualifying(s)) == Average(s)
  {
    FilterIdempotent(s, Qualifies);
  }

  lemma TotalOfThree(a: Landmark, b: Landmark, c: Landmark, ax: Axis)
    ensures Total([a, b, c], ax) == Coord(a, ax) + Coord(b, ax) + Coord(c, ax)
  {
    TotalSnoc([], a, ax);
    TotalSnoc([a], b, ax);
    TotalSnoc([a, b], c, ax);
    assert [a] + [b] == [a, b] && [a, b] + [c] == [a, b, c];
  }

  /** Three entries that pass the gate and one that does not: the mean of
      the three. */
  lemma AverageOfThreeQualifying(a: Landmark, b: Landmark, c: Landmark, d: Landmark)
    requires Qualifies(a) && Qualifies(b) && Qualifies(c) && !Qualifies(d)
    ensures Average([a, b, c, d]) ==
            Landmark((a.x + b.x + c.x) / 3.0, (a.y + b.y + c.y) / 3.0, (a.z + b.z + c.z) / 3.0,
                     Some((a.visibility.value + b.visibility.value + c.visibility.value) / 3.0))
  {
    FilterSnoc([], a, Qualifies);
    FilterSnoc([a], b, Qualifies);
    FilterSnoc([a, b], c, Qualifies);
    FilterSnoc([a, b, c], d, Qualifies);
    assert [a] + [b] == [a, b] && [a, b] + [c] == [a, b, c] && [a, b, c] + [d] == [a, b, c, d];
    assert Qualifying([a, b, c, d]) == [a, b, c];
    TotalOfThree(a, b, c, X);
    TotalOfThree(a, b, c, Y);
    TotalOfThree(a, b, c, Z);
    TotalOfThree(a, b, c, Visibility);
  }

  /** The unit test: three landmarks at visibility 0.5 with z = 7, 5, 6 and
      one at 0.3 with z = 3, all at x = 1, y = 2. */
  lemma AverageExample()
    ensures Average([Landmark(1.0, 2.0, 7.0, Some(0.5)), Landmark(1.0, 2.0, 5.0, Some(0.5)),
                     Landmark(1.0, 2.0, 6.0, Some(0.5)), Landmark(1.0, 2.0, 3.0, Some(0.3))])
         == Landmark(1.0, 2.0, 6.0, Some(0.5))
  {
    AverageOfThreeQualifying(Landmark(1.0, 2.0, 7.0, Some(0.5)), Landmark(1.0, 2.0, 5.0, Some(0.5)),
                             Landmark(1.0, 2.0, 6.0, Some(0.5)), Landmark(1.0, 2.0, 3.0, Some(0.3)));
  }
}
