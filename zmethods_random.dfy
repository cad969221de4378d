/**
  The random helpers of Runtime/ZMethodsRandom.cs with the draws of the random source
  given as parameters, each constrained to the range System.Random.Next guarantees.
*/
module ZMethodsRandom {
  import opened Wrappers

  /** What these helpers throw. */
  datatype RandomError = ArgumentNull | InvalidOperation | ArgumentOutOfRange | EmptyWeights

  // ---------------------------------------------------------------- Shuffle

  /** The draws of a shuffle of a list of length count: the t-th swap, made when n has just
      become count-1-t, takes an index drawn by Next(n + 1), that is 0 <= k <= n. */
  predicate ValidDraws(count: nat, draws: seq<int>) {
    count - 1 <= |draws| && forall t :: 0 <= t < |draws| ==> 0 <= draws[t] < count - t
  }

  /** s with positions i and j exchanged. */
  function Swap<T>(s: seq<T>, i: nat, j: nat): (r: seq<T>)
    requires i < |s| && j < |s|
    ensures |r| == |s| && r[i] == s[j] && r[j] == s[i]
    ensures forall p :: 0 <= p < |s| && p != i && p != j ==> r[p] == s[p]
  {
    s[i := s[j]][j := s[i]]
  }

  lemma SwapPermutes<T>(s: seq<T>, i: nat, j: nat)
    requires i < |s| && j < |s|
    ensures multiset(Swap(s, i, j)) == multiset(s)
  {
    if i != j {
      var s1 := s[i := s[j]];
      assert multiset(s1) == multiset(s) - multiset{s[i]} + multiset{s[j]};
      assert s1[j] == s[j];
      assert multiset(s1[j := s[i]]) == multiset(s1) - multiset{s[j]} + multiset{s[i]};
    }
  }

  /** The list the shuffle loop ends with when n is down to n0 with the list as s: the rest
      of the swaps, from the back towards the front. */
  function ShuffleFrom<T>(s: seq<T>, draws: seq<int>, n: nat): (r: seq<T>)
    requires n <= |s| && ValidDraws(|s|, draws)
    ensures |r| == |s|
    decreases n
  {
    if n <= 1 then s
    else ShuffleFrom(Swap(s, draws[|s| - n], n - 1), draws, n - 1)
  }

  /** The list Shuffle returns for a collection and the draws it makes. */
  function Shuffled<T>(collection: seq<T>, draws: seq<int>): seq<T>
    requires ValidDraws(|collection|, draws)
  {
    ShuffleFrom(collection, draws, |collection|)
  }

  /** The shuffle permutes: what remains of the swaps keeps every element and its count. */
  lemma {:induction false} ShuffleFromPermutes<T>(s: seq<T>, draws: seq<int>, n: nat)
    requires n <= |s| && ValidDraws(|s|, draws)
    ensures multiset(ShuffleFrom(s, draws, n)) == multiset(s)
    decreases n
  {
    if n > 1 {
      var k := draws[|s| - n];
      SwapPermutes(s, k, n - 1);
      ShuffleFromPermutes(Swap(s, k, n - 1), draws, n - 1);
    }
  }

  /** The swaps left when n has come down to n only touch positions below n. */
  lemma {:induction false} ShuffleFromKeepsTail<T>(s: seq<T>, draws: seq<int>, n: nat)
    requires n <= |s| && ValidDraws(|s|, draws)
    ensures ShuffleFrom(s, draws, n)[n..] == s[n..]
    decreases n
  {
    if n > 1 {
      var k := draws[|s| - n];
      ShuffleFromKeepsTail(Swap(s, k, n - 1), draws, n - 1);
    }
  }

  /** Shuffle returns a permutation of its collection, which is left as it was. */
  lemma ShuffledIsPermutation<T>(collection: seq<T>, draws: seq<int>)
    requires ValidDraws(|collection|, draws)
    ensures |Shuffled(collection, draws)| == |collection|
    ensures multiset(Shuffled(collection, draws)) == multiset(collection)
  {
    ShuffleFromPermutes(collection, draws, |collection|);
  }

  /** Shuffle: a copy of the collection, shuffled in place by swapping position n with a
      drawn position k <= n while n counts down from Count - 1 to 1. */
  method Shuffle<T>(collection: seq<T>, draws: seq<int>) returns (r: seq<T>)
    requires ValidDraws(|collection|, draws)
    ensures r == Shuffled(collection, draws)
  {
    var list := new T[|collection|](i requires 0 <= i < |collection| => collection[i]);
    var n := list.Length;
    var t := 0;
    assert list[..] == collection;
    while n > 1
      invariant 0 <= n <= list.Length == |collection| && t == |collection| - n
      invariant ShuffleFrom(list[..], draws, n) == Shuffled(collection, draws)
    {
      n := n - 1;
      var k := draws[t];
      list[k], list[n] := list[n], list[k];
      t := t + 1;
    }
    r := list[..];
  }

  // ---------------------------------------------------------------- GetShuffledIndices

  /** Enumerable.Range(0, size). */
  function Range(size: nat): (r: seq<int>)
    ensures |r| == size && forall i :: 0 <= i < size ==> r[i] == i
  {
    if size == 0 then [] else Range(size - 1) + [size - 1]
  }

  /** GetShuffledIndices as written: the shuffled copy is discarded, so the ascending
      indices come back whatever the draws; a negative size throws. */
  method GetShuffledIndices(size: int, draws: seq<int>) returns (r: Result<seq<int>, RandomError>)
    requires size >= 0 ==> ValidDraws(size, draws)
    ensures size < 0 <==> r == Failure(ArgumentOutOfRange)
    ensures size >= 0 ==> r == Success(Range(size))
  {
    if size < 0 {
      return Failure(ArgumentOutOfRange);
    }
    var list := Range(size);
    var _ := Shuffle(list, draws);
    return Success(list);
  }

  /** Two indices with the single draw 0 swap places, yet the as-written method returns
      them in order. */
  lemma ShuffledIndicesDiscarded()
    ensures Shuffled(Range(2), [0]) == [1, 0]
    ensures Range(2) == [0, 1]
  {
    assert Range(2) == [0, 1];
  }

  /** GetShuffledIndices as evidently intended: the shuffled list is the one returned. */
  method GetShuffledIndicesCorrected(size: int, draws: seq<int>) returns (r: Result<seq<int>, RandomError>)
    requires size >= 0 ==> ValidDraws(size, draws)
    ensures size < 0 <==> r == Failure(ArgumentOutOfRange)
    ensures size >= 0 ==> r == Success(Shuffled(Range(size), draws))
    ensures r.Success? ==> |r.value| == size && multiset(r.value) == multiset(Range(size))
  {
    if size < 0 {
      return Failure(ArgumentOutOfRange);
    }
    var list := Range(size);
    list := Shuffle(list, draws);
    ShuffledIsPermutation(Range(size), draws);
    return Success(list);
  }

  /** Every index 0..size-1 appears exactly once in the corrected result. */
  lemma ShuffledIndicesAreAllIndices(size: nat, draws: seq<int>, i: int)
    requires ValidDraws(size, draws)
    ensures multiset(Shuffled(Range(size), draws))[i] == (if 0 <= i < size then 1 else 0)
  {
    ShuffledIsPermutation(Range(size), draws);
    RangeCounts(size, i);
  }

  lemma {:induction false} RangeCounts(size: nat, i: int)
    ensures multiset(Range(size))[i] == (if 0 <= i < size then 1 else 0)
  {
    if size > 0 {
      var r := Range(size - 1);
      RangeCounts(size - 1, i);
      assert Range(size) == r + [size - 1];
      assert multiset(r + [size - 1]) == multiset(r) + multiset{size - 1};
      assert multiset{size - 1}[i] == if i == size - 1 then 1 else 0;
    }
  }

  // ---------------------------------------------------------------- GetRandomEntry

  /** GetRandomEntry with the drawn index: null throws ArgumentNullException, an empty
      collection InvalidOperationException; otherwise the entry at the drawn index. */
  method GetRandomEntry<T>(enumerable: Option<seq<T>>, draw: int) returns (r: Result<(T, int), RandomError>)
    requires enumerable.Some? && |enumerable.value| > 0 ==> 0 <= draw < |enumerable.value|
    ensures enumerable.None? <==> r == Failure(ArgumentNull)
    ensures enumerable.Some? && |enumerable.value| == 0 <==> r == Failure(InvalidOperation)
    ensures r.Success? ==>
      (enumerable.Some? && 0 <= r.value.1 < |enumerable.value| && r.value.0 == enumerable.value[r.value.1])
    ensures enumerable.Some? && |enumerable.value| > 0 ==> r == Success((enumerable.value[draw], draw))
  {
    if enumerable.None? {
      return Failure(ArgumentNull);
    }
    var entries := enumerable.value;
    if |entries| == 0 {
      return Failure(InvalidOperation);
    }
    var index := draw;
    return Success((entries[index], index));
  }

  // ---------------------------------------------------------------- GetRandomIndexByWeight

  /** The argument check that opens GetRandomIndexByWeight: a null or empty weights array
      throws ArgumentException; any other array is passed on to the selection. */
  function CheckIndexWeights(indexWeights: Option<seq<real>>): (r: Result<seq<real>, RandomError>)
    ensures r.Failure? <==> indexWeights.None? || |indexWeights.value| == 0
    ensures r.Success? ==> r.value == indexWeights.value && |r.value| > 0
  {
    if indexWeights.None? || |indexWeights.value| == 0 then Failure(EmptyWeights)
    else Success(indexWeights.value)
  }
}
