/**
 * `eilog()`: authenticate, normalise the request, match it, run the handler
 * and send the outcome. The first stage that gives up decides the envelope;
 * `response` sends exactly one envelope per request.
 */
module Pipeline {
  import opened PhpValues
  import opened Envelopes
  import opened Wire
  import opened Auth
  import opened Requests
  import opened Router
  import opened Dispatch

  /** Everything a request depends on: transport variables, body, credentials, routes and handlers. */
  datatype Environment = Environment(
    server: map<string, string>,
    body: string,
    decode: Decoder,
    credentials: map<string, Value>,
    routes: RouteTable,
    registry: Registry)

  /** The envelope `response` is given for one request. */
  function Outgoing(env: Environment): PArray {
    match EnforceAuth(env.server, env.credentials)
    case Halt(e) => e
    case Next(user) =>
      match GetRequest(env.server, env.body, env.decode)
      case Halt(e) => e
      case Next(req) =>
        match RunHandler(Matched(req, env.routes), user, env.registry)
        case Halt(e) => e
        case Next(result) => result
  }

  /** `eilog()`: the stages in order, ending in the one call of `response`. */
  method Eilog(env: Environment) returns (w: WireResponse)
    ensures w.status == StatusLine(Outgoing(env))
    ensures w.headers == ExtraHeaders(Outgoing(env)) + [Str(ContentType)]
    ensures w.payload == Public(Outgoing(env))
  {
    var auth := EnforceAuth(env.server, env.credentials);
    if auth.Halt? {
      w := Response(auth.envelope);
      return;
    }
    var request := GetRequest(env.server, env.body, env.decode);
    if request.Halt? {
      w := Response(request.envelope);
      return;
    }
    var matched := MatchRoutes(request.value, env.routes);
    assert matched == Matched(request.value, env.routes);
    var outcome := RunHandler(matched, auth.value, env.registry);
    if outcome.Halt? {
      w := Response(outcome.envelope);
    } else {
      w := Response(outcome.value);
    }
  }

  /** The request: defined only when both transport variables it reads are set. */
  function RequestOf(env: Environment): Request
    requires "REQUEST_URI" in env.server && "REQUEST_METHOD" in env.server
  {
    GetRequest(env.server, env.body, env.decode).value
  }

  predicate Authenticated(env: Environment) {
    EnforceAuth(env.server, env.credentials).Next?
  }

  /** A string without a newline is sent as one header line. */
  lemma SingleLine(s: string)
    requires '\n' !in s
    ensures Split(s, '\n') == [s]
  {
    assert Implode([s], "\n") == s;
    SplitImplode([s], '\n');
  }

  /**
   * The status lines of the pipeline's fixed statuses, written out. Kept as a
   * lemma of its own: proving these concatenations inside the larger lemmas
   * below costs the solver far more than proving them here.
   */
  lemma StatusLines()
    ensures "HTTP/1.0 " + "200 OK" == "HTTP/1.0 200 OK"
    ensures "HTTP/1.0 " + "401 Unauthorized" == "HTTP/1.0 401 Unauthorized"
    ensures "HTTP/1.0 " + "404 Not Found" == "HTTP/1.0 404 Not Found"
    ensures "HTTP/1.0 " + "405 Method Not Allowed" == "HTTP/1.0 405 Method Not Allowed"
  {
  }

  /** An entry that is set under a key that is not internal is sent. */
  lemma EntrySent(e: PArray, k: Key, v: Value)
    requires Get(e, k) == v && v != Null && !IsInternal(k)
    ensures (k, v) in Public(e)
  {
    GetIn(e, k);
    PublicEntries(e);
  }

  /** A `_headers` string without a newline is sent as that one header. */
  lemma OneHeader(e: PArray, h: string)
    requires Get(e, HeadersKey) == Str(h) && '\n' !in h
    ensures ExtraHeaders(e) == [Str(h)]
  {
    SingleLine(h);
  }

  /** The status line and headers that a 401 envelope is sent with. */
  lemma UnauthorizedOnWire()
    ensures StatusLine(Unauthorized()) == Some("HTTP/1.0 401 Unauthorized")
    ensures ExtraHeaders(Unauthorized()) == [Str(AuthenticateHeader)]
    ensures (CodeKey, Str("UNAUTHORIZED")) in Public(Unauthorized())
    ensures (SuccessKey, Bool(false)) in Public(Unauthorized())
  {
    StatusLines();
    assert '\n' !in AuthenticateHeader by {
      forall i | 0 <= i < |AuthenticateHeader| ensures AuthenticateHeader[i] != '\n' {
      }
    }
    OneHeader(Unauthorized(), AuthenticateHeader);
    EntrySent(Unauthorized(), CodeKey, Str("UNAUTHORIZED"));
    EntrySent(Unauthorized(), SuccessKey, Bool(false));
  }

  /**
   * Without credentials, or with credentials that do not match the store, the
   * answer is 401 with the Basic challenge; the one exception is a known user
   * sent without a password variable, which is the MISSING_SERVER_VAR failure.
   */
  lemma RejectedIsUnauthorized(env: Environment)
    requires !Authenticated(env) && !PasswordMissing(env.server, env.credentials)
    ensures Outgoing(env) == Unauthorized()
    ensures StatusLine(Outgoing(env)) == Some("HTTP/1.0 401 Unauthorized")
    ensures Str(AuthenticateHeader) in ExtraHeaders(Outgoing(env))
    ensures (CodeKey, Str("UNAUTHORIZED")) in Public(Outgoing(env))
  {
    UnauthorizedOnWire();
  }

  /** The user name an authenticated request runs as. */
  function UserOf(env: Environment): string
    requires Authenticated(env)
  {
    EnforceAuth(env.server, env.credentials).value
  }

  /** Once authentication and the request succeed, what is sent is the handler stage's outcome. */
  lemma OutgoingOfHandler(env: Environment)
    requires Authenticated(env)
    requires "REQUEST_URI" in env.server && "REQUEST_METHOD" in env.server
    ensures Outgoing(env) == match RunHandler(Matched(RequestOf(env), env.routes), UserOf(env), env.registry)
                             case Halt(e) => e
                             case Next(v) => v
  {
  }

  /** The status line of an envelope whose `_statuscode` is the string `s`. */
  lemma StatusLineOf(e: PArray, s: string)
    requires Get(e, StatusKey) == Str(s)
    ensures StatusLine(e) == Some("HTTP/1.0 " + s)
  {
  }

  /** A path that no entry declares has no other methods either. */
  lemma {:induction false} NoRouteNoOtherMethods(routes: RouteTable, path: string, verb: string)
    requires forall i :: 0 <= i < |routes| ==> !AtPath(routes[i].0, path)
    ensures OtherMethods(routes, path, verb) == []
    decreases |routes|
  {
    if routes != [] {
      var n := |routes| - 1;
      assert forall i :: 0 <= i < n ==> routes[..n][i] == routes[i];
      NoRouteNoOtherMethods(routes[..n], path, verb);
    }
  }

  /** An authenticated request to a path no route declares gets 404 NO_HANDLER. */
  lemma UnknownPathIsNotFound(env: Environment)
    requires Authenticated(env)
    requires "REQUEST_URI" in env.server && "REQUEST_METHOD" in env.server
    requires forall i :: 0 <= i < |env.routes| ==> !AtPath(env.routes[i].0, RequestOf(env).path)
    ensures Get(Outgoing(env), StatusKey) == Str("404 Not Found")
    ensures Get(Outgoing(env), CodeKey) == Str("NO_HANDLER")
    ensures StatusLine(Outgoing(env)) == Some("HTTP/1.0 404 Not Found")
  {
    var req := RequestOf(env);
    LastHandlerSpec(env.routes, req.path, req.verb);
    NoRouteNoOtherMethods(env.routes, req.path, req.verb);
    var m := Matched(req, env.routes);
    assert m.handler.None? && !HasOtherMethods(m);
    OutgoingOfHandler(env);
    StatusLineOf(Outgoing(env), "404 Not Found");
    StatusLines();
  }

  /**
   * An authenticated request that no entry serves, at a path where other
   * methods are registered, gets 405 BAD_METHOD listing those methods.
   */
  lemma OtherMethodIsBadMethod(env: Environment)
    requires Authenticated(env)
    requires "REQUEST_URI" in env.server && "REQUEST_METHOD" in env.server
    requires LastHandler(env.routes, RequestOf(env).path, RequestOf(env).verb).None?
    requires |OtherMethods(env.routes, RequestOf(env).path, RequestOf(env).verb)| > 0
    ensures Get(Outgoing(env), StatusKey) == Str("405 Method Not Allowed")
    ensures Get(Outgoing(env), CodeKey) == Str("BAD_METHOD")
    ensures Get(Outgoing(env), MessageKey) ==
              Str(BadMethodPrefix + Implode(OtherMethods(env.routes, RequestOf(env).path, RequestOf(env).verb), ", "))
  {
    OutgoingOfHandler(env);
  }

  /** The list of eilog's `/entry` methods as the 405 message prints it (kept apart for the same reason as `StatusLines`). */
  lemma EntryMethodsListed()
    ensures Implode(["POST", "PUT"], ", ") == "POST, PUT"
  {
  }

  /**
   * With eilog's own table, an authenticated request for `/entry` with a
   * method other than POST and PUT gets 405 BAD_METHOD naming both.
   */
  lemma EntryWithOtherMethodIsBadMethod(env: Environment)
    requires Authenticated(env) && env.routes == EntryRoutes
    requires "REQUEST_URI" in env.server && "REQUEST_METHOD" in env.server
    requires RequestOf(env).path == "/entry" && RequestOf(env).verb !in {"POST", "PUT"}
    ensures StatusLine(Outgoing(env)) == Some("HTTP/1.0 405 Method Not Allowed")
    ensures Get(Outgoing(env), CodeKey) == Str("BAD_METHOD")
    ensures Get(Outgoing(env), MessageKey) == Str(BadMethodPrefix + "POST, PUT")
  {
    var req := RequestOf(env);
    EntryRoutesMatch(req.path, req.verb);
    OtherMethodIsBadMethod(env);
    EntryMethodsListed();
    StatusLineOf(Outgoing(env), "405 Method Not Allowed");
    StatusLines();
  }

  /** Of three entries, only the middle one internal, the outer two are sent. */
  lemma MiddleFiltered(e1: (Key, Value), e2: (Key, Value), e3: (Key, Value))
    requires !IsInternal(e1.0) && IsInternal(e2.0) && !IsInternal(e3.0)
    ensures Public([e1, e2, e3]) == [e1, e3]
  {
    assert [e1, e2, e3] == [e1] + [e2] + [e3];
    PublicIsFilter([e1] + [e2], [e3]);
    PublicIsFilter([e1], [e2]);
    PublicIsFilter([e1], []);
    PublicIsFilter([e2], []);
    PublicIsFilter([e3], []);
  }

  /** The envelope a string result becomes, as it goes out. */
  lemma SuccessOnWire(s: string)
    ensures StatusLine([(MessageKey, Str(s)), (StatusKey, Str("200 OK")), (SuccessKey, Bool(true))])
            == Some("HTTP/1.0 200 OK")
    ensures ExtraHeaders([(MessageKey, Str(s)), (StatusKey, Str("200 OK")), (SuccessKey, Bool(true))]) == []
    ensures Public([(MessageKey, Str(s)), (StatusKey, Str("200 OK")), (SuccessKey, Bool(true))])
            == [(MessageKey, Str(s)), (SuccessKey, Bool(true))]
  {
    var e := [(MessageKey, Str(s)), (StatusKey, Str("200 OK")), (SuccessKey, Bool(true))];
    KeysDistinct();
    assert Keys(e) == [MessageKey, StatusKey, SuccessKey];
    GetEntry(e, 1);
    GetMissing(e, HeadersKey);
    StatusLineOf(e, "200 OK");
    StatusLines();
    MiddleFiltered(e[0], e[1], e[2]);
  }

  /**
   * When the matched handler exists and returns a string, the client gets
   * 200 OK and a payload of that string as the message and success true.
   */
  lemma StringResultIsSuccess(env: Environment, s: string)
    requires Authenticated(env)
    requires "REQUEST_URI" in env.server && "REQUEST_METHOD" in env.server
    requires Invoked(Matched(RequestOf(env), env.routes), env.registry)
    requires HandlerOutput(Matched(RequestOf(env), env.routes), UserOf(env), env.registry) == Next(Str(s))
    ensures StatusLine(Outgoing(env)) == Some("HTTP/1.0 200 OK")
    ensures ExtraHeaders(Outgoing(env)) == []
    ensures Public(Outgoing(env)) == [(MessageKey, Str(s)), (SuccessKey, Bool(true))]
  {
    OutgoingOfHandler(env);
    SuccessOnWire(s);
  }

  /** Whatever the outcome, no key with a leading underscore is sent. */
  lemma NothingInternalIsSent(env: Environment)
    ensures forall i :: 0 <= i < |Public(Outgoing(env))| ==> !IsInternal(Public(Outgoing(env))[i].0)
  {
    PublicHasNoInternalKeys(Outgoing(env));
  }
}
