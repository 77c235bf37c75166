/** Small things that several models use. */
module Common {

  datatype Option<T> = None | Some(value: T)

  /** The first place of `x`, or the length. */
  function PlaceOf<T(==)>(s: seq<T>, x: T): (k: nat)
    ensures k <= |s| && (k < |s| <==> x in s)
    ensures k < |s| ==> s[k] == x
    ensures forall i :: 0 <= i < k ==> s[i] != x
  {
    if s == [] || s[0] == x then 0
    else
      assert forall i :: 0 < i < |s| ==> s[i] == s[1..][i - 1];
      1 + PlaceOf(s[1..], x)
  }
}
