/**
 * `run_handler`: turns a match result into an outcome. Handlers are looked
 * up by name in an explicit registry (the functions that exist); each takes
 * the authenticated user name, which the source publishes as the EILOG_USER
 * constant, and the request array, and returns a result or ends the request.
 */
module Dispatch {
  import opened PhpValues
  import opened Envelopes
  import opened Requests
  import opened Router

  type Handler = (string, Value) -> Flow<Value>

  type Registry = map<string, Handler>

  const BadMethodPrefix: string := "This resource does not support that method. Is is available via: "
  const NoHandlerMessage: string := "There is no functionality at this place."
  const HandlerMissingMessage: string :=
    "There should be functionality at this place, but it is not (yet?) implemented."
  const NonsenseResultMessage: string := "The code that should handle this request returned something strange."

  /** `if ($match['other_methods'])`: a non-empty list is true, false and an empty list are not. */
  predicate HasOtherMethods(m: MatchResult) {
    m.otherMethods.Some? && |m.otherMethods.value| > 0
  }

  /** The handler exists and is called. */
  predicate Invoked(m: MatchResult, registry: Registry) {
    m.handler.Some? && m.handler.value in registry
  }

  /** What the handler returns when it is called. */
  function HandlerOutput(m: MatchResult, user: string, registry: Registry): Flow<Value>
    requires Invoked(m, registry)
  {
    registry[m.handler.value](user, ToValue(m.request))
  }

  /** `run_handler`. */
  function RunHandler(m: MatchResult, user: string, registry: Registry): (r: Flow<PArray>)
    ensures m.handler.None? && HasOtherMethods(m) ==>
              && r.Halt?
              && Get(r.envelope, StatusKey) == Str("405 Method Not Allowed")
              && Get(r.envelope, CodeKey) == Str("BAD_METHOD")
              && Get(r.envelope, MessageKey) == Str(BadMethodPrefix + Implode(m.otherMethods.value, ", "))
              && Get(r.envelope, SuccessKey) == Bool(false)
    ensures m.handler.None? && !HasOtherMethods(m) ==>
              && r.Halt?
              && Get(r.envelope, StatusKey) == Str("404 Not Found")
              && Get(r.envelope, CodeKey) == Str("NO_HANDLER")
              && Get(r.envelope, MessageKey) == Str(NoHandlerMessage)
              && Get(r.envelope, SuccessKey) == Bool(false)
    ensures m.handler.Some? && m.handler.value !in registry ==>
              && r.Halt?
              && Get(r.envelope, StatusKey) == Str("501 Not Implemented")
              && Get(r.envelope, CodeKey) == Str("HANDLER_MISSING")
              && Get(r.envelope, MessageKey) == Str(HandlerMissingMessage)
              && Get(r.envelope, SuccessKey) == Bool(false)
    ensures Invoked(m, registry) && HandlerOutput(m, user, registry).Halt? ==>
              r == Halt(HandlerOutput(m, user, registry).envelope)
    ensures Invoked(m, registry) && HandlerOutput(m, user, registry).Next? ==>
              var out := HandlerOutput(m, user, registry).value;
              && (out.Str? ==>
                    r == Next([(MessageKey, out), (StatusKey, Str("200 OK")), (SuccessKey, Bool(true))]))
              && (!out.Str? && IsAssoc(out) ==> r == Next(out.entries))
              && (!out.Str? && !IsAssoc(out) ==>
                    && r.Halt?
                    && Get(r.envelope, StatusKey) == Str("500 Internal Server Error")
                    && Get(r.envelope, CodeKey) == Str("HANDLER_RETURNED_NONSENSE")
                    && Get(r.envelope, MessageKey) == Str(NonsenseResultMessage)
                    && Get(r.envelope, SuccessKey) == Bool(false))
    ensures r.Next? ==> IsAssoc(Arr(r.value))
  {
    match m.handler
    case None =>
      if HasOtherMethods(m) then
        Halt(FailWith(Some("405 Method Not Allowed"), "BAD_METHOD", BadMethodPrefix + Implode(m.otherMethods.value, ", ")))
      else
        Halt(FailWith(Some("404 Not Found"), "NO_HANDLER", NoHandlerMessage))
    case Some(name) =>
      if name !in registry then
        Halt(FailWith(Some("501 Not Implemented"), "HANDLER_MISSING", HandlerMissingMessage))
      else
        match registry[name](user, ToValue(m.request))
        case Halt(e) => Halt(e)
        case Next(out) =>
          var result := if out.Str? then Arr(Success(out)) else out;
          if out.Str? then
            SuccessOfString(out.s);
            assert result.entries[0].0.SKey?;
            Next(result.entries)
          else if !IsAssoc(result) then
            Halt(FailWith(None, "HANDLER_RETURNED_NONSENSE", NonsenseResultMessage))
          else
            Next(result.entries)
  }
}
