/** JavaScript values as far as the core inspects them: configuration
    values, module namespaces, plugin functions and promises. */
module Js {
  import opened Wrappers

  /** A JavaScript value. Objects are property maps; a module namespace is
      an `JsObject` whose keys are its export names. A function is known by
      an opaque identity; what calling it does is supplied by the caller
      of the operation that calls it. */
  datatype JsValue =
    | JsUndefined
    | JsNull
    | JsBool(b: bool)
    | JsNumber(n: int)
    | JsString(s: string)
    | JsArray(items: seq<JsValue>)
    | JsObject(props: map<string, JsValue>)
    | JsFunction(id: nat)
    | JsPromise(settled: JsValue)
    | JsRejected(reason: string)

  /** `typeof v`. */
  function TypeOf(v: JsValue): string {
    match v
    case JsUndefined => "undefined"
    case JsBool(_) => "boolean"
    case JsNumber(_) => "number"
    case JsString(_) => "string"
    case JsFunction(_) => "function"
    case _ => "object"
  }

  /** `v[k]` on an object (a missing key reads as `undefined`). */
  function Prop(v: JsValue, k: string): JsValue {
    if v.JsObject? && k in v.props then v.props[k] else JsUndefined
  }

  /** `v == null`, true exactly for `null` and `undefined`. */
  predicate IsNullish(v: JsValue) {
    v.JsUndefined? || v.JsNull?
  }

  /** `a ?? b`. */
  function Coalesce(a: JsValue, b: JsValue): (r: JsValue)
    ensures !IsNullish(a) ==> r == a
    ensures IsNullish(a) ==> r == b
  {
    if IsNullish(a) then b else a
  }

  /** Utils.isPromise: only promise values, fulfilled or rejected, are
      modelled as thenables. */
  predicate IsPromise(v: JsValue) {
    v.JsPromise? || v.JsRejected?
  }

  /** `await v`: a fulfilled promise is unwrapped until a non-promise value
      remains; a rejected one throws its reason. */
  function Await(v: JsValue): (r: Result<JsValue, string>)
    ensures r.Ok? ==> !IsPromise(r.value)
    ensures !IsPromise(v) ==> r == Ok(v)
    ensures v.JsRejected? ==> r == Err(v.reason)
  {
    match v
    case JsPromise(p) => Await(p)
    case JsRejected(e) => Err(e)
    case _ => Ok(v)
  }

  /** Awaiting fails exactly when the chain of fulfilled promises ends in a
      rejected one, and then with that one's reason. */
  lemma {:induction false} AwaitFailsOnRejection(v: JsValue)
    ensures Await(v).Err? <==> RejectionOf(v).Some?
    ensures Await(v).Err? ==> Await(v).error == RejectionOf(v).value
  {
    if v.JsPromise? {
      AwaitFailsOnRejection(v.settled);
    }
  }

  /** The reason a chain of fulfilled promises ends in, if it ends in a rejection. */
  function RejectionOf(v: JsValue): Option<string> {
    match v
    case JsPromise(p) => RejectionOf(p)
    case JsRejected(e) => Some(e)
    case _ => None
  }

  /** The string array `["a", "b"]` as a JavaScript value. */
  function StringArray(xs: seq<string>): (v: JsValue)
    ensures v.JsArray? && |v.items| == |xs|
    ensures forall i :: 0 <= i < |xs| ==> v.items[i] == JsString(xs[i])
  {
    JsArray(seq(|xs|, i requires 0 <= i < |xs| => JsString(xs[i])))
  }
}
