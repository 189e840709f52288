# eilog request pipeline, modelled in Dafny

eilog is a small PHP web service for keeping a personal log. Each request
goes through one pipeline (`eilog()`): HTTP Basic authentication against a
credential store, normalisation of the request (path, query, upper-cased
method, decoded data), matching against a route table of `METHOD:path` keys,
running the matched handler, and sending exactly one JSON envelope. Every
failure on the way is an envelope too: `fail`/`error` merge the defaults
`_statuscode`, `code` and `success` into what the caller gave, and `response`
turns `_statuscode` into a status line, `_headers` into header lines, and sends
the rest minus every key that starts with an underscore.

The model is split by stage:

- `PhpValues` — PHP values and ordered arrays (`Get` is `$a[$k]`, `IsSet` is
  `isset`, `Put` is `$a[$k] = $v`), `explode`/`implode`, `strtoupper`, decimal
  printing and string conversion.
- `Envelopes` — `build_data` (a method with its loop), `error`, `success`,
  `array_merge` and `fail`; the `exit` that ends a request is the `Halt` case of
  `Flow`.
- `Wire` — `response` (a method with its loops): status line, headers, and the
  underscore filter.
- `Auth` — `get_server_var` and the `enforce_auth` decision.
- `Requests` — `get_request`, `get_data` and `require_params`.
- `Router` — `match_routes` (a method with its loop) and eilog's route table.
- `Dispatch` — `run_handler`.
- `Pipeline` — `eilog()` end to end (a method calling each stage), with
  properties of whole requests: the 401, 404 and 405 answers, a string result
  turned into a 200 envelope, and no internal key ever sent.

Three behaviours of the code are easy to misread; the model follows the code:

- An unusable handler result (`HANDLER_RETURNED_NONSENSE`) is sent as
  500 Internal Server Error, although `error`'s default status is
  400 Invalid Request (eilog.php:50). The call to `fail` names no status, and
  `fail` merges the caller's array over a 500 status (eilog.php:57-59), so
  the 400 default never applies.
- A known user whose request has no `PHP_AUTH_PW` gets the 500
  `MISSING_SERVER_VAR` failure, not 401. The password is read with
  `get_server_var` and no default (eilog.php:26), and only after the user was
  found; an unset variable there ends the request in `fail` (eilog.php:96-99).
- A URI without `?` has a null query, because `explode` with a limit of 2
  returns one piece and `list` leaves the second variable null
  (eilog.php:80). Its query data is decoded from the empty string, which is
  what `parse_str` does with null (eilog.php:74).

The 405 message keeps the source's wording ("Is is available via: ").

## Model

| member | source | states |
|---|---|---|
| `PhpValues.GetPut` | eilog.php:13 | after `$a[$k] = $v` the key holds `$v` and every other key is unchanged |
| `PhpValues.PutNew` | eilog.php:13 | assigning a key that is absent appends it at the end |
| `PhpValues.PutPreservesUnique` | eilog.php:13 | assignment keeps the array's keys unique |
| `PhpValues.KeysPut` | eilog.php:13 | assignment keeps the key order; a new key is added last |
| `PhpValues.IsAssocCount` | eilog.php:105-107 | `is_assoc` is false for a non-array, and true for an array exactly when its count of string keys is non-zero |
| `PhpValues.ImplodeSplit` | eilog.php:183 | joining the pieces of `explode` with the separator gives the string back |
| `PhpValues.SplitPiecesFree` | eilog.php:183 | no piece of `explode` contains the separator |
| `PhpValues.SplitImplode` | eilog.php:118 | `explode` of pieces joined by a separator they do not contain gives the pieces back |
| `PhpValues.AsciiUpper` | eilog.php:81 | `strtoupper` leaves no lower-case letter, shifts each one to its capital and keeps every other character |
| `PhpValues.NatToStringValue` | eilog.php:162 | the decimal text of the missing-parameter count reads back as that count |
| `Envelopes.WithDefaultGet` | eilog.php:12-14 | one pass of the defaults loop writes only its own key, and only when that key is not set |
| `Envelopes.WithDefaultsGet` | eilog.php:11-15 | after the defaults loop a key holds the caller's value where it was set or has no default, else the default |
| `Envelopes.WithDefaultsKeys` | eilog.php:11-15 | the defaults loop removes no key, keeps the caller's keys in front in order, adds only default keys, keeps keys unique |
| `Envelopes.BuildData` | eilog.php:5-17 | `build_data` wraps a non-array as `message`, then writes each default that is not set; the result is the defaults merge of the input |
| `Envelopes.Error` | eilog.php:48-54 | `error` sets status 400 Invalid Request, code UNKNOWN and success false unless given; every other key is the caller's |
| `Envelopes.Success` | eilog.php:247-252 | `success` sets status 200 OK and success true unless given; every other key is the caller's |
| `Envelopes.SuccessOfString` | eilog.php:247-252 | `success` of a string is exactly message, status 200 OK, success true, in that order |
| `Envelopes.MergeGetString` | eilog.php:57-59 | after `array_merge` a string key holds the second array's value when it has the key, else the first's |
| `Envelopes.Fail` | eilog.php:56-62 | `fail` sends status 500 unless the caller set one (a null status ends as 400), code UNKNOWN and success false unless given, all other string keys as given |
| `Envelopes.FailWith` | eilog.php:56-62 | a failure given code, message and optionally a status carries them, with 500 when no status is given, and success false |
| `Wire.Response` | eilog.php:171-202 | `response` sends the status line, the `_headers` entries then the JSON content type, and the filtered payload |
| `Wire.PublicIsFilter` | eilog.php:193-198 | the underscore filter distributes over concatenation and keeps a single entry exactly when its key is not internal |
| `Wire.PublicEntries` | eilog.php:193-198 | an entry is sent exactly when it is in the envelope and its key does not start with `_` |
| `Wire.PublicHasNoInternalKeys` | eilog.php:192-198 | no key starting with `_` is ever sent |
| `Wire.PublicUnique` | eilog.php:193-198 | the sent payload keeps unique keys |
| `Wire.HeaderLines` | eilog.php:181-188 | a string `_headers` is sent as its lines, none holding a newline, which joined give the string back |
| `Auth.GetServerVar` | eilog.php:91-102 | a set variable is returned; an unset one ends the request with 500 MISSING_SERVER_VAR naming it |
| `Auth.Unauthorized` | eilog.php:38-44 | the failed-login envelope: 401, the Basic challenge header, code UNAUTHORIZED, its message, success false |
| `Auth.EnforceAuth` | eilog.php:20-46 | authentication succeeds exactly when the user is known and the stored password is identical to the one sent; it yields that user; otherwise the 401 envelope, or for a known user without a password 500 MISSING_SERVER_VAR naming `PHP_AUTH_PW` with success false |
| `Requests.SplitQueryRoundTrip` | eilog.php:80 | the path holds no `?`, the query is null exactly when the URI has no `?`, and path and query rebuild the URI |
| `Requests.GetData` | eilog.php:64-76 | a GET request decodes its query (a null query as the empty string); any other method decodes the request body |
| `Requests.GetRequest` | eilog.php:78-89 | the request exists exactly when URI and method are set; upper-cased method, split URI, query data, and data from the query for GET and the body otherwise; else 500 MISSING_SERVER_VAR naming the first missing variable, with success false |
| `Requests.MissingParamsMembers` | eilog.php:152-154 | a parameter is reported missing exactly when it was required and is not set |
| `Requests.MissingParamsAppend` | eilog.php:152-154 | missing parameters are reported in the order they were required |
| `Requests.RequireParams` | eilog.php:143-169 | the data part is returned exactly when the request is associative and every parameter is set; else NONSENSE_REQ_ARRAY (500) or MISSING_PARAM (400) naming the missing ones, each with success false |
| `Router.RouteKeyParts` | eilog.php:118 | a key written `METHOD:path` is read back as that method and that path |
| `Router.MatchRoutes` | eilog.php:109-131 | one pass over the table gives the last serving handler and the other methods at the path, false when there are none |
| `Router.LastHandlerSpec` | eilog.php:117-126 | the handler is null exactly when no entry serves path and method; otherwise it is that of the last entry that does |
| `Router.OtherMethodsSpec` | eilog.php:117-129 | the other methods are exactly those registered at the path that differ from the request's, each once, in order of first registration |
| `Router.EntryRoutesMatch` | eilog.php:289-292 | with eilog's table `/entry` is served for POST and PUT, other methods there see POST and PUT listed, and other paths match nothing |
| `Dispatch.RunHandler` | eilog.php:204-245 | 405 BAD_METHOD listing the other methods, 404 NO_HANDLER, 501 HANDLER_MISSING, a handler's own exit, a string wrapped by `success`, an associative result passed on, anything else 500 HANDLER_RETURNED_NONSENSE; every failure has success false; a result is always associative |
| `Pipeline.Eilog` | eilog.php:255-261 | the stages in order send one response, that of the first stage that gives up or else of the handler |
| `Pipeline.UnauthorizedOnWire` | eilog.php:38-44 | the failed-login envelope goes out as `HTTP/1.0 401 Unauthorized` with the one challenge header, code UNAUTHORIZED and success false |
| `Pipeline.RejectedIsUnauthorized` | eilog.php:20-46 | a request that fails authentication, other than a known user without a password, gets the 401 envelope with the challenge |
| `Pipeline.NoRouteNoOtherMethods` | eilog.php:117-129 | a path no entry declares collects no other methods |
| `Pipeline.UnknownPathIsNotFound` | eilog.php:217-221 | an authenticated request to a path no route declares gets 404 NO_HANDLER |
| `Pipeline.OtherMethodIsBadMethod` | eilog.php:207-216 | an authenticated request no entry serves, at a path with other methods, gets 405 BAD_METHOD listing them |
| `Pipeline.EntryWithOtherMethodIsBadMethod` | eilog.php:289-292 | with eilog's table, `/entry` with a method other than POST and PUT gets 405 naming "POST, PUT" |
| `Pipeline.SuccessOnWire` | eilog.php:247-252 | a wrapped string goes out as `HTTP/1.0 200 OK`, no extra header, payload message and success true |
| `Pipeline.StringResultIsSuccess` | eilog.php:235-237 | a handler that returns a string makes the client get 200 OK with that string as message |
| `Pipeline.NothingInternalIsSent` | eilog.php:255-261 | whatever the outcome of a request, no key starting with `_` is sent |

## Left out

- `do_put_entry`, `read_credentials` and the `data/` directory: these do file I/O and are not part of this model. The credential store is a parameter, and handlers are an explicit registry of functions.
- `sleep(2)` after a failed login: timing is not modelled.
- `define('EILOG_USER', ...)`: the authenticated user is passed to the handler as an argument instead of being a global constant.
- `header`, `echo`, `json_encode` and `exit`: the model returns the status line, the arguments of the `header()` calls in order, and the filtered payload (`WireResponse`), and does not encode the payload. `exit` becomes the `Halt` case of each stage.
- What PHP's `header()` makes of those arguments is not modelled: the list is the calls made, not the headers the client receives. In particular:
  - a later header of the same name replaces an earlier one, so a `Content-Type` given in `_headers` is replaced by the JSON content type sent after it (eilog.php:191);
  - a `Location:` header turns the status into 302 unless a 201 or 3xx status was already set;
  - a header value holding a newline is refused;
  - an element of an array `_headers` that is not a string makes `header()` fail.
- `parse_str` and `file_get_contents('php://input')`: the decoder and the request body are parameters.
- `get_server_var` with a default other than `false`: only the required form and the `PHP_AUTH_USER` probe are used in the core.
- PHP's normalisation of numeric-string array keys (`"12"` becoming `12`), for example when a method name is used as a key in `match_routes`: keys are kept as written.
- Loose `==`/`!=` on numeric strings in `match_routes`: route paths and methods are compared as exact strings. The null path of a key without `:` equals only the empty path.
- `Auth.StoredPassword`: a credential record that is not an array, read with a string offset in PHP, is modelled as having no password.
- `Requests.ParamSet`: string offsets on a data part that is a string are not modelled. Such a part sets no parameter.
- `Envelopes.Fail`: does not state what happens to integer keys, which `array_merge` renumbers. They are modelled but their values are not stated.
- The route table as a global variable: `match_routes` takes it as an argument.
- PHP notices and warnings are not modelled. Examples are the undefined offset when `list(...) = explode(...)` gets one piece (eilog.php:80 and :118), and null passed to `parse_str`. With `display_errors` on, PHP would print these before the headers; here they do not change the envelope.
- PHP strings are byte strings, and the model uses Dafny characters. In this core `strtoupper` changes only ASCII letters, and every character the code tests is ASCII (`_`, `?`, `:`, newline), so the results agree.
