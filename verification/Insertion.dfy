// Putting one element into a sequence, as the insertion sorts do.
module Insertion {

  function PutAt<T>(s: seq<T>, x: T, j: nat): (r: seq<T>)
    requires j <= |s|
    ensures |r| == |s| + 1 && r[j] == x
    ensures forall i :: 0 <= i < |r| ==> r[i] == if i < j then s[i] else if i == j then x else s[i - 1]
  {
    s[..j] + [x] + s[j..]
  }
}
