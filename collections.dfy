/**
 * Array helpers of the list views: search from the end, pairwise map of two
 * arrays, and comparison of a window of two arrays.
 */
module ArrayUtils {
  import opened JsValues

  /** `array[i]`: out-of-range positions (negative ones included) read as undefined. */
  function At(a: seq<Value>, i: int): Value {
    if 0 <= i < |a| then a[i] else Undefined
  }

  /**
   * `findLastIndex(array, predicate)`: the greatest index whose element
   * satisfies the predicate, or -1 when none does.
   */
  method FindLastIndex(a: seq<Value>, p: (Value, int, seq<Value>) -> bool) returns (r: int)
    ensures -1 <= r < |a|
    ensures r >= 0 ==> p(a[r], r, a)
    ensures forall j :: r < j < |a| ==> !p(a[j], j, a)
  {
    var index := |a| - 1;
    while index >= 0
      invariant -1 <= index < |a|
      invariant forall j :: index < j < |a| ==> !p(a[j], j, a)
    {
      if p(a[index], index, a) {
        return index;
      }
      index := index - 1;
    }
    return -1;
  }

  /**
   * `zipMap(array1, array2, predicate)`: as long as the longer array; element
   * i is the predicate applied to both i-th items (undefined past an end).
   */
  method ZipMap(a1: seq<Value>, a2: seq<Value>, f: (Value, Value, int, seq<Value>, seq<Value>) -> Value)
    returns (output: seq<Value>)
    ensures |output| == if |a1| >= |a2| then |a1| else |a2|
    ensures forall i :: 0 <= i < |output| ==> output[i] == f(At(a1, i), At(a2, i), i, a1, a2)
  {
    output := [];
    var length := if |a1| >= |a2| then |a1| else |a2|;
    var index := 0;
    while index < length
      invariant 0 <= index <= length
      invariant |output| == index
      invariant forall i :: 0 <= i < index ==> output[i] == f(At(a1, i), At(a2, i), i, a1, a2)
    {
      output := output + [f(At(a1, index), At(a2, index), index, a1, a2)];
      index := index + 1;
    }
  }

  /** Item comparison of `subarrayEquals`: dates by time value, anything else by `===`. */
  predicate SameItem(x: Value, y: Value) {
    if x.Date? && y.Date? then x.time == y.time else x == y
  }

  /**
   * `subarrayEquals(array1, array2, startIndex, count)`: every position of
   * [startIndex, startIndex + count) holds the same item in both arrays.
   */
  method SubarrayEquals(a1: seq<Value>, a2: seq<Value>, startIndex: int, count: int) returns (r: bool)
    ensures r <==> forall i :: startIndex <= i < startIndex + count ==> SameItem(At(a1, i), At(a2, i))
    ensures count <= 0 ==> r
  {
    var length := startIndex + count;
    var index := startIndex;
    while index < length
      invariant startIndex <= index
      invariant count > 0 ==> index <= length
      invariant forall i :: startIndex <= i < index ==> SameItem(At(a1, i), At(a2, i))
    {
      var item1 := At(a1, index);
      var item2 := At(a2, index);
      if item1.Date? && item2.Date? {
        if item1.time != item2.time {
          return false;
        }
      } else if item1 != item2 {
        return false;
      }
      index := index + 1;
    }
    return true;
  }
}
