/** `replaceLast`: the last slot of an array is overwritten in place (an
    empty array receives the value as its only element), and the same array
    is returned. */
module ReplaceLastUtil {

  /** The contents of the array after the replacement. */
  function ReplacedLast<T>(s: seq<T>, x: T): (r: seq<T>)
    ensures |r| == if |s| == 0 then 1 else |s|
    ensures r[|r| - 1] == x
    ensures forall i :: 0 <= i < |r| - 1 ==> r[i] == s[i]
    ensures s == [] ==> r == [x]
  {
    if s == [] then [x] else s[..|s| - 1] + [x]
  }

  /** A JavaScript array: an object whose element list can change in place. */
  class JsArray<T> {
    var items: seq<T>

    constructor (items: seq<T>)
      ensures this.items == items
    {
      this.items := items;
    }

    /** `array.concat(x)` for a single non-array `x`: a new array, the receiver untouched. */
    method Concat(x: T) returns (r: JsArray<T>)
      ensures fresh(r) && r.items == items + [x]
    {
      r := new JsArray(items + [x]);
    }

    /** `array.splice(-1, 1, x) && array`. */
    method ReplaceLast(x: T) returns (r: JsArray<T>)
      modifies this
      ensures r == this
      ensures items == ReplacedLast(old(items), x)
    {
      if |items| == 0 {
        items := [x];
      } else {
        items := items[..|items| - 1] + [x];
      }
      r := this;
    }
  }
}
