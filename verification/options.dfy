/** JavaScript's `undefined` where the library can hand back "no value":
    the first element of an empty array, a missing property, a short array
    in `zip`, an undefined sort key. */
module Options {

  datatype Option<T> = None | Some(value: T)

  /** `array[i]`: the element, or `undefined` outside the array. */
  function At<T>(a: seq<T>, i: int): (r: Option<T>)
    ensures r.Some? <==> 0 <= i < |a|
    ensures r.Some? ==> r.value == a[i]
  {
    if 0 <= i < |a| then Some(a[i]) else None
  }
}
