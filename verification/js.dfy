/** The small slice of JavaScript value semantics the service code relies on:
    optional fields, truthiness of strings and the `a || b` fallback idiom. */
module Js {

  /** A field of a JSON object or a response record that may be absent. */
  datatype Option<+T> = None | Some(value: T)

  /** A JSON scalar; only the kind matters where the code asks `typeof x === 'number'`. */
  datatype Scalar = Num(n: int) | Str(s: string) | Bool(b: bool) | Null

  /** An optional string is truthy when it is present and not empty. */
  predicate Truthy(o: Option<string>) {
    o.Some? && o.value != ""
  }

  /** `a || fallback`: the value of `a` when it is truthy, else the fallback. */
  function Or(a: Option<string>, fallback: string): (r: string)
    ensures Truthy(a) ==> r == a.value
    ensures !Truthy(a) ==> r == fallback
    ensures r != "" <==> Truthy(a) || fallback != ""
  {
    if Truthy(a) then a.value else fallback
  }

  /** `a || b || c || ...`: the first truthy field, if any. */
  function FirstTruthy(fields: seq<Option<string>>): (r: Option<string>)
    ensures r.Some? ==> r.value != ""
    ensures r.Some? <==> exists i :: 0 <= i < |fields| && Truthy(fields[i])
    ensures r.Some? ==> exists i :: 0 <= i < |fields| && fields[i] == r
                                 && forall k :: 0 <= k < i ==> !Truthy(fields[k])
  {
    if |fields| == 0 then None
    else if Truthy(fields[0]) then fields[0]
    else
      var rest := FirstTruthy(fields[1..]);
      assert forall i :: 1 <= i < |fields| ==> fields[i] == fields[1..][i - 1];
      if rest.Some? then
        var j :| 0 <= j < |fields[1..]| && fields[1..][j] == rest
                 && forall k :: 0 <= k < j ==> !Truthy(fields[1..][k]);
        assert fields[j + 1] == rest;
        rest
      else
        rest
  }
}
