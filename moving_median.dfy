/**
 * The moving median filter of src/lib.rs: a ring buffer of N samples whose
 * median is recomputed on demand by bubble-sorting a copy of the live slots.
 * The sample type T is `real`, so the mean of the two middle samples is exact;
 * its default value is 0.0.
 */
module MovingMedianFilter {
  import opened MedianSpec

  /** A multiple of size by a positive factor is at least size. */
  lemma MulMono(d: int, size: int)
    requires d >= 1 && size > 0
    ensures d * size >= size
  {
  }

  /** The remainder of a division is the unique r with a == q * size + r. */
  lemma ModUnique(a: nat, size: nat, q: int, r: int)
    requires size > 0 && 0 <= r < size && a == q * size + r
    ensures a % size == r
  {
    var q', r' := a / size, a % size;
    assert a == q' * size + r';
    if q > q' {
      assert q * size - q' * size == (q - q') * size;
      MulMono(q - q', size);
    } else if q < q' {
      assert q' * size - q * size == (q' - q) * size;
      MulMono(q' - q, size);
    }
  }

  /** (n + 1) mod size follows from n mod size: the cursor advance of one addition. */
  lemma ModSucc(n: nat, size: nat)
    requires size > 0
    ensures (n + 1) % size == (n % size + 1) % size
  {
    var q, r := n / size, n % size;
    assert n == q * size + r;
    if r + 1 < size {
      ModUnique(n + 1, size, q, r + 1);
      ModUnique(r + 1, size, 0, r + 1);
    } else {
      assert (q + 1) * size == q * size + size;
      ModUnique(n + 1, size, q + 1, 0);
      ModUnique(size, size, 1, 0);
    }
  }

  /** The cursor advance wraps to slot 0 exactly after the last slot. */
  lemma CursorAdvance(index: nat, size: nat)
    requires index < size
    ensures (index + 1) % size == if index + 1 < size then index + 1 else 0
  {
  }

  /**
   * The samples held by a ring of slots b with write cursor index and fill
   * count count, in arrival order: the prefix b[0..count] while the ring is
   * filling, and the whole ring starting at the cursor once it is full.
   */
  function RingContents(b: seq<real>, index: nat, count: nat): seq<real>
    requires index < |b| && count <= |b|
  {
    if count < |b| then b[..count] else b[index..] + b[..index]
  }

  /** Writing the next slot of a ring that is still filling appends to its contents. */
  lemma RingWriteFilling(b: seq<real>, count: nat, v: real)
    requires count < |b|
    ensures RingContents(b[count := v], if count + 1 < |b| then count + 1 else 0, count + 1) ==
      RingContents(b, count, count) + [v]
  {
  }

  /** Writing at the cursor of a full ring overwrites its oldest sample. */
  lemma RingWriteFull(b: seq<real>, index: nat, v: real)
    requires index < |b|
    ensures RingContents(b[index := v], if index + 1 < |b| then index + 1 else 0, |b|) ==
      RingContents(b, index, |b|)[1..] + [v]
  {
  }

  /** Exchanges a[j] and a[j + 1], the `swap(j, j + 1)` of the sort. */
  method SwapAdjacent(a: array<real>, j: nat, n: nat)
    requires j + 1 < n <= a.Length
    modifies a
    ensures a[j] == old(a[j + 1]) && a[j + 1] == old(a[j])
    ensures forall k :: 0 <= k < a.Length && k != j && k != j + 1 ==> a[k] == old(a[k])
    ensures multiset(a[..n]) == multiset(old(a[..n]))
  {
    ghost var s := a[..n];
    a[j], a[j + 1] := a[j + 1], a[j];
    assert a[..n] == s[j := s[j + 1]][j + 1 := s[j]];
  }

  /**
   * One pass of the inner loop over a[0..last]: each adjacent pair out of
   * order is swapped, so the largest of a[0..last] ends at slot last.
   */
  method BubblePass(a: array<real>, n: nat, last: nat)
    requires last < n <= a.Length
    requires forall p, q :: 0 <= p < q < n && last < q ==> a[p] <= a[q]
    modifies a
    ensures forall p, q :: 0 <= p < q < n && last <= q ==> a[p] <= a[q]
    ensures multiset(a[..n]) == multiset(old(a[..n]))
    ensures forall k :: last < k < a.Length ==> a[k] == old(a[k])
  {
    for j := 0 to last
      invariant multiset(a[..n]) == multiset(old(a[..n]))
      invariant forall k :: last < k < a.Length ==> a[k] == old(a[k])
      invariant forall p, q :: 0 <= p < q < n && last < q ==> a[p] <= a[q]
      // the largest of a[0..j] has bubbled up to slot j
      invariant forall p :: 0 <= p < j ==> a[p] <= a[j]
    {
      if a[j] > a[j + 1] {
        SwapAdjacent(a, j, n);
      }
    }
  }

  /**
   * Sorts a[0..n] ascending in place by repeated adjacent swaps, leaving
   * a[n..] as it was: the nested loops of the median computation.
   */
  method BubbleSort(a: array<real>, n: nat)
    requires n <= a.Length
    modifies a
    ensures Sorted(a[..n])
    ensures multiset(a[..n]) == multiset(old(a[..n]))
    ensures a[n..] == old(a[n..])
  {
    for i := 0 to n
      invariant multiset(a[..n]) == multiset(old(a[..n]))
      invariant forall k :: n <= k < a.Length ==> a[k] == old(a[k])
      // the last i slots of the prefix hold its i largest samples, in order
      invariant forall p, q :: 0 <= p < q < n && n - i <= q ==> a[p] <= a[q]
    {
      BubblePass(a, n, n - i - 1);
    }
    assert a[n..] == old(a[n..]);
  }

  /**
   * The median of the n > 0 samples a[0..n]: a copy of the whole array is
   * taken, its first n slots are bubble-sorted, and the middle element (n odd)
   * or the mean of the two middle elements (n even) is returned. The array a
   * itself is not modified.
   */
  method MedianOfPrefix(a: array<real>, n: nat) returns (m: real)
    requires 0 < n <= a.Length
    ensures m == MedianOf(a[..n])
  {
    var sorted := new real[a.Length];
    forall k | 0 <= k < a.Length {
      sorted[k] := a[k];
    }
    assert sorted[..n] == a[..n];
    BubbleSort(sorted, n);

    ghost var s := sorted[..n];
    if n % 2 == 0 {
      m := (sorted[n / 2 - 1] + sorted[n / 2]) / 2.0;
      assert m == (s[|s| / 2 - 1] + s[|s| / 2]) / 2.0;
    } else {
      m := sorted[n / 2];
      assert m == s[|s| / 2];
    }
    assert m == Middle(s);
    MedianOfArrangement(s, a[..n]);
  }

  class MovingMedian {
    /** The capacity, the const generic N of the source. */
    const N: nat
    /** The fixed-size sample storage, `[T; N]`. */
    const buffer: array<real>
    /** The slot the next sample is written to. */
    var index: nat
    /** How many slots hold live samples; grows by one per sample up to N. */
    var count: nat
    /** Every sample added since construction or the last clear, oldest first. */
    ghost var History: seq<real>

    ghost predicate Valid()
      reads this, buffer
    {
      0 < N && buffer.Length == N &&
      index < N && count <= N &&
      // until the cursor wraps, the live samples are the prefix buffer[0..count]
      (count < N ==> index == count) &&
      count == Min(|History|, N) &&
      index == |History| % N &&
      RingContents(buffer[..], index, count) == Window(History, N) &&
      // slots not yet written still hold the default value
      (forall i :: count <= i < N ==> buffer[i] == 0.0)
    }

    /** The state `new` creates and `clear` restores. */
    ghost predicate Empty()
      reads this, buffer
    {
      index == 0 && count == 0 && History == [] &&
      forall i :: 0 <= i < buffer.Length ==> buffer[i] == 0.0
    }

    constructor (n: nat)
      requires n > 0
      ensures Valid() && Empty() && N == n && fresh(buffer)
    {
      N := n;
      buffer := new real[n](_ => 0.0);
      index, count := 0, 0;
      History := [];
    }

    /**
     * Writes the sample at the cursor, advances the cursor modulo N and
     * increments the count until it saturates at N.
     */
    method AddValue(value: real)
      requires Valid()
      modifies this, buffer
      ensures Valid()
      ensures buffer[..] == old(buffer[..])[old(index) := value]
      ensures index == (old(index) + 1) % N
      ensures count == if old(count) < N then old(count) + 1 else N
      ensures History == old(History) + [value]
    {
      ghost var b, h := buffer[..], History;
      buffer[index] := value;
      assert buffer[..] == b[old(index) := value];
      index := (index + 1) % N;
      if count < N {
        count := count + 1;
      }
      History := History + [value];

      WindowSlides(h, value, N);
      ModSucc(|h|, N);
      CursorAdvance(old(index), N);
      if old(count) < N {
        RingWriteFilling(b, old(count), value);
      } else {
        RingWriteFull(b, old(index), value);
      }
      assert count < N ==> index == count;
      assert RingContents(buffer[..], index, count) == Window(History, N);
    }

    /**
     * The median of the live samples, 0.0 when there are none. The buffer
     * itself, the cursor and the count are left as they are.
     */
    method Median() returns (m: real)
      requires Valid()
      ensures m == MedianOf(buffer[..count])
      ensures m == MedianOf(Window(History, N))
    {
      LiveSamples();
      if count == 0 {
        m := 0.0;
      } else {
        m := MedianOfPrefix(buffer, count);
      }
      MedianOrderInvariant(buffer[..count], Window(History, N));
    }

    /** Resets every slot to the default value and the cursor and count to zero. */
    method Clear()
      requires Valid()
      modifies this, buffer
      ensures Valid() && Empty()
    {
      forall i | 0 <= i < buffer.Length {
        buffer[i] := 0.0;
      }
      count := 0;
      index := 0;
      History := [];
      assert RingContents(buffer[..], index, count) == [];
    }

    /**
     * The slots buffer[0..count] hold exactly the last min(k, N) samples of
     * the k added, in some order; before the cursor first wraps they hold all
     * of them, in arrival order.
     */
    lemma LiveSamples()
      requires Valid()
      ensures multiset(buffer[..count]) == multiset(Window(History, N))
      ensures count < N ==> buffer[..count] == History
    {
      if count == N {
        assert buffer[..count] == buffer[..index] + buffer[index..];
      }
    }
  }
}
