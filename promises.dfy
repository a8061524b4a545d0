/** Promise settlement, as far as the request handler observes it. */
module Promises {

  /** The final state of a promise: fulfilled with a value, or rejected.
      The rejection reason is dropped: the handler only logs it. */
  datatype Settled<+T> = Fulfilled(value: T) | Rejected

  /** `Promise.all` over promises that have all settled. It is fulfilled
      exactly when every input is, with their values in input order (not in
      order of completion); any rejection rejects the whole batch. */
  function All<T>(ps: seq<Settled<T>>): (r: Settled<seq<T>>)
    ensures r.Fulfilled? <==> forall i :: 0 <= i < |ps| ==> ps[i].Fulfilled?
    ensures r.Fulfilled? ==> |r.value| == |ps|
    ensures r.Fulfilled? ==>
      forall i :: 0 <= i < |ps| ==> ps[i].Fulfilled? && r.value[i] == ps[i].value
  {
    if ps == [] then Fulfilled([])
    else if ps[0].Rejected? then Rejected
    else match All(ps[1..])
      case Rejected => Rejected
      case Fulfilled(rest) => Fulfilled([ps[0].value] + rest)
  }
}
