/** The optional values of the store: a JavaScript field that may be `null`
    or `undefined` is modelled as an `Option`. */
module Maybe {

  datatype Option<+T> = None | Some(value: T)

  /** The position of the first present value at or after `from`; `|s|`
      when there is none. */
  function FirstSomeFrom<T>(s: seq<Option<T>>, from: nat): (r: nat)
    requires from <= |s|
    ensures from <= r <= |s|
    ensures r < |s| ==> s[r].Some?
    ensures forall j :: from <= j < r ==> s[j].None?
    decreases |s| - from
  {
    if from == |s| || s[from].Some? then from else FirstSomeFrom(s, from + 1)
  }
}
