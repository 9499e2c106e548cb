/**
  The tie-breaking argmax of policy.py: one left-to-right scan collects every
  index that attains the maximum, then one of them is drawn at random.
 */
module TieBreaking {
  import opened Maxima

  /** A running maximum that starts below every value, like float('-inf'). */
  datatype Extended = NegInf | Finite(value: real)

  /** Failures of the numpy calls the policies make. */
  datatype Error =
    | EmptyChoice      // np.random.choice on an empty candidate list
    | EmptyArgmax      // np.argmax on an empty sequence
    | EmptyActionRange // np.random.randint(0, n) with n == 0

  datatype Result<T> = Ok(value: T) | Err(error: Error)

  /** `value > max_value`, where every real exceeds the initial -inf. */
  predicate Exceeds(v: real, m: Extended)
  {
    m.NegInf? || v > m.value
  }

  /** `value == max_value`; no real equals -inf. */
  predicate Matches(v: real, m: Extended)
  {
    m.Finite? && v == m.value
  }

  /**
    The scan of argmax: resets the candidate list on a strictly larger value,
    appends on an equal one. It ends with the maximum and exactly the tie set,
    which TieSetSpec and TieSetUnique characterise.
   */
  method Candidates(arr: seq<real>) returns (maxValue: Extended, maxIndices: seq<nat>)
    ensures |arr| == 0 ==> maxValue == NegInf
    ensures |arr| > 0 ==> maxValue == Finite(MaxOf(arr))
    ensures maxIndices == TieSet(arr)
  {
    maxValue := NegInf;
    maxIndices := [];
    for i := 0 to |arr|
      invariant i == 0 ==> maxValue == NegInf && maxIndices == []
      invariant i > 0 ==> maxValue == Finite(MaxOf(arr[..i]))
      invariant i > 0 ==> maxIndices == TiesUpTo(arr, MaxOf(arr[..i]), i)
    {
      var value := arr[i];
      if i > 0 {
        MaxOfSnoc(arr, i);
      }
      if Exceeds(value, maxValue) {
        if i > 0 {
          TiesUpToAbsent(arr, value, i);
        }
        maxValue := Finite(value);
        maxIndices := [i];
      } else if Matches(value, maxValue) {
        maxIndices := maxIndices + [i];
      }
    }
    if |arr| > 0 {
      assert arr[..|arr|] == arr;
    }
  }

  /**
    argmax(arr): an index drawn from the tie set (np.random.choice). Fails on
    empty input; otherwise the index is in range and its value is at least
    every other value, and a unique maximum is returned whatever the draw.
   */
  method Argmax(arr: seq<real>) returns (r: Result<nat>)
    ensures r.Err? <==> |arr| == 0
    ensures r.Err? ==> r.error == EmptyChoice
    ensures r.Ok? ==> r.value in TieSet(arr)
    ensures r.Ok? ==> r.value < |arr| && forall j :: 0 <= j < |arr| ==> arr[j] <= arr[r.value]
    ensures forall k :: 0 <= k < |arr| && (forall j :: 0 <= j < |arr| && j != k ==> arr[j] < arr[k])
              ==> r == Ok(k)
  {
    var maxValue, maxIndices := Candidates(arr);
    TieSetSpec(arr);
    if |maxIndices| == 0 {
      return Err(EmptyChoice);
    }
    assert maxIndices[0] in maxIndices;
    var selected :| selected in maxIndices;
    r := Ok(selected);
    forall k | 0 <= k < |arr| && (forall j :: 0 <= j < |arr| && j != k ==> arr[j] < arr[k])
      ensures r == Ok(k)
    {
      TieSetOfUniqueMax(arr, k);
    }
  }
}
