/** `getLast`: the last element of an array, `undefined` (here `None`) for an empty one. */
module GetLastUtil {
  import opened Wrappers

  function GetLast<T>(a: seq<T>): (r: Option<T>)
    ensures r.None? <==> a == []
    ensures r.Some? ==> r.value == a[|a| - 1] && r.value in a
    ensures |a| == 1 ==> r == Some(a[0])
  {
    if a == [] then None else Some(a[|a| - 1])
  }
}
