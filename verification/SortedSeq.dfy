/** std::upper_bound over a sequence sorted by a key. */
module SortedSeq {
  // The position behind the last element whose key is at most x.
  function UpperBound<T>(key: T -> int, s: seq<T>, x: int): (k: nat)
    ensures k <= |s|
    ensures k > 0 ==> key(s[k - 1]) <= x
    ensures forall i :: k <= i < |s| ==> x < key(s[i])
  {
    if s == [] || key(s[|s| - 1]) <= x then |s| else UpperBound(key, s[..|s| - 1], x)
  }
}
