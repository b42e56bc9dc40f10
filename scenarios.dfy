/**
 * The unit tests of src/lib.rs, as clients of the filter: each method builds a
 * filter, feeds it the test's samples and promises the median the test
 * expects, using only the contracts of MovingMedian and the median lemmas.
 */
module Scenarios {
  import opened MedianSpec
  import opened MovingMedianFilter

  /** The samples 42, 43, 41 have 42 as median. */
  lemma MedianOfThreeSamples()
    ensures MedianOf([42.0, 43.0, 41.0]) == 42.0
  {
  }

  /** The samples 44, 43, 41 left after evicting 42 have 43 as median. */
  lemma MedianOfEvictedWindow()
    ensures MedianOf([44.0, 43.0, 41.0]) == 43.0
  {
  }

  /** The four samples 42, 43, 41, 44 have 42.5 as median. */
  lemma MedianOfFourSamples()
    ensures MedianOf([42.0, 43.0, 41.0, 44.0]) == 42.5
  {
  }

  /** A filter that has received no sample reports 0.0. */
  method MedianIsZeroWhenEmpty() returns (m: real)
    ensures m == 0.0
  {
    var filter := new MovingMedian(3);
    m := filter.Median();
  }

  /** One sample is reported as the median. */
  method MedianOfOneValue() returns (m: real)
    ensures m == 42.0
  {
    var filter := new MovingMedian(3);
    filter.AddValue(42.0);
    m := filter.Median();
    MedianOfOne(42.0);
  }

  /** Two samples in a filter of capacity 2: their mean. */
  method MedianOfTwoValues() returns (m: real)
    ensures m == 42.5
  {
    var filter := new MovingMedian(2);
    filter.AddValue(42.0);
    filter.AddValue(43.0);
    m := filter.Median();
    MedianOfTwo(42.0, 43.0);
  }

  /** Three samples in a filter of capacity 3: the middle one. */
  method MedianOfThreeValues() returns (m: real)
    ensures m == 42.0
  {
    var filter := new MovingMedian(3);
    filter.AddValue(42.0);
    filter.AddValue(43.0);
    filter.AddValue(41.0);
    assert filter.History == [42.0, 43.0, 41.0];
    m := filter.Median();
    MedianOfThreeSamples();
  }

  /** Four samples in a filter of capacity 4: the mean of the two middle ones. */
  method MedianOfFourValues() returns (m: real)
    ensures m == 42.5
  {
    var filter := new MovingMedian(4);
    filter.AddValue(42.0);
    filter.AddValue(43.0);
    filter.AddValue(41.0);
    filter.AddValue(44.0);
    assert filter.History == [42.0, 43.0, 41.0, 44.0];
    m := filter.Median();
    MedianOfFourSamples();
  }

  /** Four samples in a filter of capacity 3: the first is evicted. */
  method MedianAfterEviction() returns (m: real)
    ensures m == 43.0
  {
    var filter := new MovingMedian(3);
    filter.AddValue(42.0);
    filter.AddValue(44.0);
    filter.AddValue(43.0);
    filter.AddValue(41.0);
    assert filter.History == [42.0, 44.0, 43.0, 41.0];
    m := filter.Median();
    assert Window(filter.History, 3) == [44.0, 43.0, 41.0];
    MedianOfEvictedWindow();
  }

  /** After clear the filter reports 0.0 again. */
  method MedianIsZeroWhenCleared() returns (m: real)
    ensures m == 0.0
  {
    var filter := new MovingMedian(3);
    filter.AddValue(42.0);
    filter.AddValue(43.0);
    filter.AddValue(41.0);
    filter.Clear();
    m := filter.Median();
  }

  /**
   * Two median queries with nothing in between agree, and the next sample
   * still lands at the cursor: the query changed nothing.
   */
  method RepeatedMedian(filter: MovingMedian, value: real) returns (first: real, second: real)
    requires filter.Valid()
    modifies filter, filter.buffer
    ensures first == second
    ensures filter.buffer[old(filter.index)] == value
  {
    first := filter.Median();
    second := filter.Median();
    filter.AddValue(value);
  }
}
