/**
 * The normalised request (`get_request`) and the required-parameter check
 * (`require_params`). Form decoding (`parse_str`) is a library routine; it is
 * a parameter here, applied to the query string or to the request body.
 */
module Requests {
  import opened PhpValues
  import opened Envelopes
  import opened Auth

  /** `parse_str`: from a form-encoded string to the array it describes. */
  type Decoder = string -> PArray

  datatype Request = Request(verb: string, data: PArray, path: string, query: Option<string>, queryData: PArray)

  /** The request as the array `get_request` returns and handlers receive. */
  function ToValue(req: Request): Value {
    Arr([(SKey("method"), Str(req.verb)),
         (SKey("data"), Arr(req.data)),
         (SKey("path"), Str(req.path)),
         (SKey("query"), if req.query.Some? then Str(req.query.value) else Null),
         (SKey("query_data"), Arr(req.queryData))])
  }

  /**
   * `list($path, $query) = explode('?', $uri, 2)`: the part before the first
   * `?`, and the rest; without a `?` the query is null.
   */
  function SplitQuery(uri: string): (string, Option<string>) {
    var parts := Split(uri, '?');
    (parts[0], if |parts| == 1 then None else Some(Implode(parts[1..], "?")))
  }

  /** Path and query put back together give the URI; the path holds no `?`. */
  lemma SplitQueryRoundTrip(uri: string)
    ensures '?' !in SplitQuery(uri).0
    ensures SplitQuery(uri).1.None? <==> '?' !in uri
    ensures uri == SplitQuery(uri).0 + (match SplitQuery(uri).1 case None => "" case Some(q) => "?" + q)
  {
    var parts := Split(uri, '?');
    ImplodeSplit(uri, '?');
    SplitPiecesFree(uri, '?');
    if |parts| == 1 {
      assert parts[0] + "" == parts[0];
    } else {
      assert uri == parts[0] + "?" + Implode(parts[1..], "?");
      assert '?' in uri by {
        assert uri[|parts[0]|] == '?';
      }
    }
  }

  /** `get_data`: a GET request reads its data from the query, any other method from the body. */
  function GetData(verb: string, query: Option<string>, body: string, decode: Decoder): (r: PArray)
    ensures verb == "GET" && query.Some? ==> r == decode(query.value)
    ensures verb == "GET" && query.None? ==> r == decode("")
    ensures verb != "GET" ==> r == decode(body)
  {
    decode(if verb == "GET" then query.GetOr("") else body)
  }

  /**
   * `get_request`: reads REQUEST_URI, then REQUEST_METHOD (each a required
   * variable), splits the URI and upper-cases the method.
   */
  function GetRequest(server: map<string, string>, body: string, decode: Decoder): (r: Flow<Request>)
    ensures r.Next? <==> "REQUEST_URI" in server && "REQUEST_METHOD" in server
    ensures r.Next? ==>
              && r.value.verb == AsciiUpper(server["REQUEST_METHOD"])
              && (r.value.path, r.value.query) == SplitQuery(server["REQUEST_URI"])
              && r.value.queryData == decode(r.value.query.GetOr(""))
              && r.value.data == (if r.value.verb == "GET" then r.value.queryData else decode(body))
    ensures r.Halt? ==>
              && Get(r.envelope, StatusKey) == Str("500 Internal Server Error")
              && Get(r.envelope, CodeKey) == Str("MISSING_SERVER_VAR")
              && Get(r.envelope, SuccessKey) == Bool(false)
    ensures r.Halt? && "REQUEST_URI" !in server ==>
              Get(r.envelope, MessageKey) == Str(MissingServerVarMessage("REQUEST_URI"))
    ensures r.Halt? && "REQUEST_URI" in server ==>
              Get(r.envelope, MessageKey) == Str(MissingServerVarMessage("REQUEST_METHOD"))
  {
    match GetServerVar(server, "REQUEST_URI")
    case Halt(e) => Halt(e)
    case Next(uri) =>
      match GetServerVar(server, "REQUEST_METHOD")
      case Halt(e) => Halt(e)
      case Next(m) =>
        var (path, query) := SplitQuery(uri);
        var verb := AsciiUpper(m);
        Next(Request(verb, GetData(verb, query, body, decode), path, query, GetData("GET", query, body, decode)))
  }

  // ---------------------------------------------------------------------
  // require_params
  // ---------------------------------------------------------------------

  /** `isset($data[$param])`; a part that is not an array sets no parameter. */
  predicate ParamSet(data: Value, param: string) {
    data.Arr? && IsSet(data.entries, SKey(param))
  }

  /** The `array_filter` that finds the requested parameters that are not set, in request order. */
  function MissingParams(data: Value, params: seq<string>): seq<string>
    decreases |params|
  {
    if params == [] then []
    else (if ParamSet(data, params[0]) then [] else [params[0]]) + MissingParams(data, params[1..])
  }

  /** A name is reported exactly when it was requested and is not set. */
  lemma {:induction false} MissingParamsMembers(data: Value, params: seq<string>)
    ensures forall p :: p in MissingParams(data, params) <==> p in params && !ParamSet(data, p)
    decreases |params|
  {
    if params != [] {
      MissingParamsMembers(data, params[1..]);
      assert params == [params[0]] + params[1..];
    }
  }

  /** Request order is kept: missing names of a concatenation are those of each part, in turn. */
  lemma {:induction false} MissingParamsAppend(data: Value, ps: seq<string>, qs: seq<string>)
    ensures MissingParams(data, ps + qs) == MissingParams(data, ps) + MissingParams(data, qs)
    decreases |ps|
  {
    if ps == [] {
      assert ps + qs == qs;
    } else {
      assert (ps + qs)[1..] == ps[1..] + qs;
      MissingParamsAppend(data, ps[1..], qs);
    }
  }

  /** The `MISSING_PARAM` message: singular for one name, "these N ... parameters" for more. */
  function MissingParamMessage(missing: seq<string>): string {
    var n := |missing|;
    "Your request lacks " + (if n == 1 then "this" else "these " + NatToString(n))
      + " required parameter" + (if n == 1 then "" else "s") + ": " + Implode(missing, ", ")
  }

  /** `$req[$take]` when it is set, an empty array otherwise. */
  function TakePart(req: Value, take: string): Value
    requires req.Arr?
  {
    if IsSet(req.entries, SKey(take)) then Get(req.entries, SKey(take)) else Arr([])
  }

  const NonsenseRequestMessage: string := "The req is not an associative array."

  /** `require_params`: the `take` part of the request, or the failure that names what is missing. */
  function RequireParams(req: Value, params: seq<string>, take: string): (r: Flow<Value>)
    ensures r.Next? <==> IsAssoc(req) && forall p :: p in params ==> ParamSet(TakePart(req, take), p)
    ensures r.Next? ==> r.value == TakePart(req, take)
    ensures !IsAssoc(req) ==>
              && r.Halt?
              && Get(r.envelope, StatusKey) == Str("500 Internal Server Error")
              && Get(r.envelope, CodeKey) == Str("NONSENSE_REQ_ARRAY")
              && Get(r.envelope, MessageKey) == Str(NonsenseRequestMessage)
              && Get(r.envelope, SuccessKey) == Bool(false)
    ensures IsAssoc(req) && r.Halt? ==>
              && Get(r.envelope, StatusKey) == Str("400 Bad Request")
              && Get(r.envelope, CodeKey) == Str("MISSING_PARAM")
              && Get(r.envelope, MessageKey) == Str(MissingParamMessage(MissingParams(TakePart(req, take), params)))
              && Get(r.envelope, SuccessKey) == Bool(false)
  {
    if !IsAssoc(req) then
      Halt(FailWith(None, "NONSENSE_REQ_ARRAY", NonsenseRequestMessage))
    else
      var part := TakePart(req, take);
      var missing := MissingParams(part, params);
      MissingParamsMembers(part, params);
      if |missing| > 0 then
        assert missing[0] in missing;
        Halt(FailWith(Some("400 Bad Request"), "MISSING_PARAM", MissingParamMessage(missing)))
      else
        assert forall p :: p in params ==> ParamSet(part, p);
        Next(part)
  }
}
