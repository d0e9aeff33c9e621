/**
  The part of Apache Commons Lang's `ArrayUtils` that the geometry parser relies on:
  `remove(byte[] array, int index)`, which returns a copy of the array without the
  element at `index` and throws `IndexOutOfBoundsException` when `index` is not a
  valid position of the array.
 */
module ArrayUtils {
  import opened Wrappers

  /** A Java `byte`: a signed 8-bit value. */
  newtype JavaByte = b: int | -128 <= b < 128

  /** The `IndexOutOfBoundsException` thrown by `remove`, with the offending index and the array length. */
  datatype IndexError = IndexOutOfBounds(index: int, length: nat)

  /**
    The array `a` with the element at `index` deleted. Everything before `index`
    keeps its position, everything after it moves one place to the left, and the
    deleted element is the only one lost.
   */
  function Remove(a: seq<JavaByte>, index: int): (r: Result<seq<JavaByte>, IndexError>)
    ensures r.Success? <==> 0 <= index < |a|
    ensures r.Failure? ==> r.error == IndexOutOfBounds(index, |a|)
    ensures r.Success? ==> |r.value| == |a| - 1
    ensures r.Success? ==> forall k :: 0 <= k < index ==> r.value[k] == a[k]
    ensures r.Success? ==> forall k :: index <= k < |r.value| ==> r.value[k] == a[k + 1]
    ensures r.Success? ==> multiset(r.value) + multiset{a[index]} == multiset(a)
  {
    if 0 <= index < |a| then
      assert a == a[..index] + [a[index]] + a[index + 1..];
      Success(a[..index] + a[index + 1..])
    else
      Failure(IndexOutOfBounds(index, |a|))
  }

  /**
    Deleting position `n - 1` leaves the suffix from `n` on untouched: it now starts
    at position `n - 1` of the shorter array.
   */
  lemma RemoveKeepsSuffix(a: seq<JavaByte>, n: int)
    requires 0 < n <= |a|
    ensures Remove(a, n - 1).Success?
    ensures Remove(a, n - 1).value[n - 1..] == a[n..]
  {
  }
}
