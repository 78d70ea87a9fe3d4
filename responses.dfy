/** The JSON response envelopes of the budget manager API, and the two builders of
    responses.py that produce the uniform success and not-found shapes. */
module Responses {
  import opened Wrappers

  /** A JSON value as a handler builds it before `jsonify` serialises it. */
  datatype Value =
    | Null
    | Bool(b: bool)
    | Int(i: int)
    | Str(s: string)
    | List(items: seq<Value>)
    | Object(fields: seq<Field>)

  /** One key of a JSON object. Fields appear in the order the handler's dict literal
      writes them, not the sorted order Flask's JSON provider puts on the wire. */
  datatype Field = Field(key: string, value: Value)

  /** What a handler hands back to Flask: an HTTP status code and a JSON object body. */
  datatype Response = Response(status: int, body: seq<Field>)

  /** The keys of an object body, in order. */
  function Keys(body: seq<Field>): seq<string>
  {
    seq(|body|, i requires 0 <= i < |body| => body[i].key)
  }

  /** The value a client reading the JSON body finds under `key`, if any. */
  function Lookup(body: seq<Field>, key: string): (v: Option<Value>)
    ensures v.Some? ==> Field(key, v.value) in body
    ensures v.None? <==> key !in Keys(body)
    decreases |body|
  {
    if |body| == 0 then None
    else
      assert Keys(body) == [body[0].key] + Keys(body[1..]);
      if body[0].key == key then Some(body[0].value) else Lookup(body[1..], key)
  }

  /** `success_response(message, data=None)`: the uniform success envelope, status 200. */
  function SuccessResponse(message: string, data: Value := Null): (r: Response)
    ensures r.status == 200
    ensures Keys(r.body) == ["success", "message", "data"]
    ensures Lookup(r.body, "success") == Some(Bool(true))
    ensures Lookup(r.body, "message") == Some(Str(message))
    ensures Lookup(r.body, "data") == Some(data)
  {
    Response(200, [Field("success", Bool(true)), Field("message", Str(message)), Field("data", data)])
  }

  /** `not_found_response(entity)`: the uniform not-found envelope, status 404. */
  function NotFoundResponse(entity: string): (r: Response)
    ensures r.status == 404
    ensures Keys(r.body) == ["success", "message"]
    ensures Lookup(r.body, "success") == Some(Bool(false))
    ensures Lookup(r.body, "message") == Some(Str(entity + " not found"))
    ensures Lookup(r.body, "data") == None
  {
    Response(404, [Field("success", Bool(false)), Field("message", Str(entity + " not found"))])
  }

  /** Omitting `data` yields an explicit JSON null under the `data` key. */
  lemma SuccessDataDefaultsToNull(message: string)
    ensures Lookup(SuccessResponse(message).body, "data") == Some(Null)
  {
  }

  /** A success envelope and a not-found envelope can never be mistaken for each other,
      whatever the message, payload or entity name. */
  lemma EnvelopesDiffer(message: string, data: Value, entity: string)
    ensures SuccessResponse(message, data) != NotFoundResponse(entity)
    ensures Lookup(SuccessResponse(message, data).body, "success")
         != Lookup(NotFoundResponse(entity).body, "success")
  {
  }

  /** The not-found message names its entity: distinct entities give distinct envelopes,
      and the entity can be read back from the message. */
  lemma {:induction false} NotFoundNamesEntity(e1: string, e2: string)
    ensures NotFoundResponse(e1) == NotFoundResponse(e2) <==> e1 == e2
  {
    if NotFoundResponse(e1) == NotFoundResponse(e2) {
      var m1, m2 := e1 + " not found", e2 + " not found";
      assert m1 == m2;
      assert |e1| == |e2|;
      assert e1 == m1[..|e1|];
      assert e2 == m2[..|e2|];
    }
  }
}
