/**
 * Specification of the moving median: what "sorted", "the median of some
 * samples" and "the samples a window of N slots retains" mean, independently
 * of the ring buffer and of the bubble sort that the filter runs.
 */
module MedianSpec {

  /** The smaller of two naturals: the fill count saturates at the capacity. */
  function Min(a: nat, b: nat): nat
  {
    if a < b then a else b
  }

  /** Ascending order, the order the filter sorts its live samples into. */
  predicate Sorted(s: seq<real>)
  {
    forall i, j :: 0 <= i < j < |s| ==> s[i] <= s[j]
  }

  /** Inserts x into an ascending sequence, keeping it ascending. */
  function Insert(x: real, s: seq<real>): (r: seq<real>)
    requires Sorted(s)
    ensures Sorted(r)
    ensures multiset(r) == multiset(s) + multiset{x}
    ensures r[0] == x || (s != [] && r[0] == s[0])
  {
    if s == [] || x <= s[0] then [x] + s
    else
      assert s == [s[0]] + s[1..];
      [s[0]] + Insert(x, s[1..])
  }

  /** Reference sort (insertion sort), independent of the filter's bubble sort. */
  function Sort(s: seq<real>): (r: seq<real>)
    ensures Sorted(r)
    ensures multiset(r) == multiset(s)
  {
    if s == [] then []
    else
      assert s == [s[0]] + s[1..];
      Insert(s[0], Sort(s[1..]))
  }

  /** An ascending arrangement of a collection of samples is unique. */
  lemma {:induction false} SortedUnique(a: seq<real>, b: seq<real>)
    requires Sorted(a) && Sorted(b)
    requires multiset(a) == multiset(b)
    ensures a == b
  {
    assert |a| == |multiset(a)| == |multiset(b)| == |b|;
    if a != [] {
      assert a[0] in multiset(b);
      var k :| 0 <= k < |b| && b[k] == a[0];
      assert b[0] in multiset(a);
      var l :| 0 <= l < |a| && a[l] == b[0];
      var x := a[0];
      assert b[0] == x;
      assert a == [x] + a[1..];
      assert b == [x] + b[1..];
      assert multiset(a) == multiset{x} + multiset(a[1..]);
      assert multiset(b) == multiset{x} + multiset(b[1..]);
      MultisetCancel(x, multiset(a[1..]), multiset(b[1..]));
      SortedUnique(a[1..], b[1..]);
    }
  }

  lemma MultisetCancel(x: real, p: multiset<real>, q: multiset<real>)
    requires multiset{x} + p == multiset{x} + q
    ensures p == q
  {
    assert p == (multiset{x} + p) - multiset{x};
  }

  /**
   * The median of an ascending sequence: zero when it is empty, the middle
   * element when its length is odd, the mean of the two middle elements when
   * it is even. At least half of the elements lie on each side of it.
   */
  function Middle(s: seq<real>): (m: real)
    ensures |s| == 0 ==> m == 0.0
    ensures Sorted(s) && |s| > 0 ==>
      (forall i :: 0 <= i < |s| - |s| / 2 ==> s[i] <= m) &&
      (forall i :: |s| / 2 <= i < |s| ==> m <= s[i])
  {
    if |s| == 0 then 0.0
    else if |s| % 2 == 0 then (s[|s| / 2 - 1] + s[|s| / 2]) / 2.0
    else s[|s| / 2]
  }

  /**
   * The median of a collection of samples given in any order: the middle of
   * their ascending arrangement, which exists (Sort builds one) and is unique
   * (SortedUnique).
   */
  ghost function MedianOf(s: seq<real>): real
  {
    assert Sorted(Sort(s)) && multiset(Sort(s)) == multiset(s);
    var r :| Sorted(r) && multiset(r) == multiset(s);
    Middle(r)
  }

  /** The median is the middle of the reference sort of the samples. */
  lemma MedianOfSort(s: seq<real>)
    ensures MedianOf(s) == Middle(Sort(s))
  {
    forall r | Sorted(r) && multiset(r) == multiset(s)
      ensures r == Sort(s)
    {
      SortedUnique(r, Sort(s));
    }
  }

  /** The median depends only on the multiset of samples, not on their order. */
  lemma MedianOrderInvariant(a: seq<real>, b: seq<real>)
    requires multiset(a) == multiset(b)
    ensures MedianOf(a) == MedianOf(b)
  {
    MedianOfSort(a);
    MedianOfSort(b);
    SortedUnique(Sort(a), Sort(b));
  }

  /** On samples that are already ascending, the median is their middle. */
  lemma MedianOfSorted(s: seq<real>)
    requires Sorted(s)
    ensures MedianOf(s) == Middle(s)
  {
    MedianOfSort(s);
    SortedUnique(Sort(s), s);
  }

  /** The middle of any ascending arrangement of the samples is their median. */
  lemma MedianOfArrangement(s: seq<real>, samples: seq<real>)
    requires Sorted(s) && multiset(s) == multiset(samples)
    ensures MedianOf(samples) == Middle(s)
  {
    MedianOfSorted(s);
    MedianOrderInvariant(s, samples);
  }

  /** One sample is its own median. */
  lemma MedianOfOne(a: real)
    ensures MedianOf([a]) == a
  {
  }

  /** Two samples have their mean as median, whichever arrived first. */
  lemma MedianOfTwo(a: real, b: real)
    ensures MedianOf([a, b]) == MedianOf([b, a]) == (a + b) / 2.0
  {
    var lo, hi := if a <= b then a else b, if a <= b then b else a;
    assert Sorted([lo, hi]);
    MedianOfSorted([lo, hi]);
    assert Middle([lo, hi]) == (a + b) / 2.0;
    assert multiset([a, b]) == multiset([lo, hi]) == multiset([b, a]);
    MedianOrderInvariant([a, b], [lo, hi]);
    MedianOrderInvariant([b, a], [lo, hi]);
  }

  /**
   * The samples a window of n slots retains after the values h were added,
   * oldest first: the last min(|h|, n) of them.
   */
  function Window(h: seq<real>, n: nat): (w: seq<real>)
    ensures |w| == Min(|h|, n)
    ensures h == h[..|h| - |w|] + w
  {
    h[|h| - Min(|h|, n)..]
  }

  /**
   * Adding a value appends it to the window; once the window is full the
   * oldest value is evicted at the same time.
   */
  lemma WindowSlides(h: seq<real>, v: real, n: nat)
    requires n > 0
    ensures Window(h + [v], n) ==
      if |h| < n then Window(h, n) + [v] else Window(h, n)[1..] + [v]
  {
  }

  /** Values older than the last n additions have no influence on the window. */
  lemma {:induction false} WindowForgets(earlier: seq<real>, recent: seq<real>, n: nat)
    requires |recent| >= n
    ensures Window(earlier + recent, n) == Window(recent, n)
  {
  }
}
