/** The HTTP status table shared by the routers, the `responses=` documentation
    built from it, and the exception raised for a status. */
module Utils {
  import opened Wrappers

  /** One entry of the status table: `{'description': ...}`. */
  datatype ResponseDoc = ResponseDoc(description: string)

  /** `CODE_RESPONSE_LIST`. */
  const CodeResponseList: map<int, ResponseDoc> :=
    map[201 := ResponseDoc("Created"),
        204 := ResponseDoc("No content"),
        400 := ResponseDoc("Bad request"),
        409 := ResponseDoc("Duplicate record")]

  /** `http_responses(codes)`: the table restricted to `codes`. A code
      missing from the table raises `KeyError`, modelled as `None`. */
  function HttpResponses(codes: seq<int>): (r: Option<map<int, ResponseDoc>>)
    ensures r.Some? <==> forall i :: 0 <= i < |codes| ==> codes[i] in CodeResponseList
    ensures r.Some? ==> r.value.Keys == set i | 0 <= i < |codes| :: codes[i]
    ensures r.Some? ==> forall c :: c in r.value ==> r.value[c] == CodeResponseList[c]
  {
    if |codes| == 0 then Some(map[])
    else
      var last := codes[|codes| - 1];
      match HttpResponses(codes[..|codes| - 1])
      case None => None
      case Some(m) =>
        CodesSnoc(codes, codes[..|codes| - 1]);
        if last in CodeResponseList then Some(m[last := CodeResponseList[last]]) else None
  }

  /** The codes of a non-empty list are those of its front, and its last one. */
  lemma CodesSnoc(codes: seq<int>, front: seq<int>)
    requires |codes| > 0 && front == codes[..|codes| - 1]
    ensures (set i | 0 <= i < |codes| :: codes[i]) == (set i | 0 <= i < |front| :: front[i]) + {codes[|codes| - 1]}
  {
    forall i | 0 <= i < |codes|
      ensures codes[i] in (set j | 0 <= j < |front| :: front[j]) + {codes[|codes| - 1]}
    {
      if i < |front| {
        assert front[i] == codes[i];
      }
    }
  }

  /** FastAPI's `HTTPException` as the routers build it. */
  datatype HttpError = HttpError(statusCode: int, detail: string)

  /** Python truthiness of an optional message: `None` and `""` are false. */
  predicate Truthy(msg: Option<string>)
  {
    msg.Some? && msg.value != ""
  }

  /** `http_exception(code, msg)`: the detail is the message when it is
      truthy, else the table's description of `code`; the table lookup of a
      code it does not hold raises `KeyError`, modelled as `None`. */
  function HttpException(code: int, msg: Option<string>): (r: Option<HttpError>)
    ensures r.None? <==> !Truthy(msg) && code !in CodeResponseList
    ensures r.Some? ==> r.value.statusCode == code
    ensures r.Some? && Truthy(msg) ==> r.value.detail == msg.value
    ensures r.Some? && !Truthy(msg) ==> r.value.detail == CodeResponseList[code].description
  {
    if Truthy(msg) then Some(HttpError(code, msg.value))
    else if code in CodeResponseList then Some(HttpError(code, CodeResponseList[code].description))
    else None
  }
}
