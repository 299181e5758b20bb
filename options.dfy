/** The optional values the driver returns, and the search for the first
    present one that the retry loop performs. */
module Options {

  datatype Option<+T> = None | Some(value: T)

  /** The index of the first present value; the caller guarantees there is one. */
  function FirstSome<T>(outcomes: seq<Option<T>>): (k: nat)
    requires exists i :: 0 <= i < |outcomes| && outcomes[i].Some?
    ensures k < |outcomes| && outcomes[k].Some?
    ensures forall j :: 0 <= j < k ==> outcomes[j].None?
  {
    if outcomes[0].Some? then 0
    else
      var i :| 0 <= i < |outcomes| && outcomes[i].Some?;
      assert outcomes[1..][i - 1].Some?;
      1 + FirstSome(outcomes[1..])
  }
}
