/**
 * The dispatcher of app.py: the two-level handler table, `router`, `view`,
 * `application`, and the part of the WSGI serving loop that handles one
 * request once its text has been received.
 *
 * Handlers are opaque: a table entry holds the value its zero-argument
 * callable returns, and `show` stands for Python's `str` on such values.
 */
module App {
  import opened Wrappers
  import opened Text
  import opened Decimal
  import opened Utils

  /** `maps`: module name to (module object, action name to handler result). */
  type Registry<M, R> = map<string, (M, map<string, R>)>

  /** app.py's table: the `weather` module with its one action. */
  function Maps<M, R>(weatherModule: M, sendCollected: R): (registry: Registry<M, R>)
    ensures registry.Keys == {"weather"}
    ensures registry["weather"].0 == weatherModule
    ensures registry["weather"].1.Keys == {"send_collected_data_to_display"}
  {
    map["weather" := (weatherModule, map["send_collected_data_to_display" := sendCollected])]
  }

  /** The KeyErrors of `maps[file][1][method]`. */
  datatype DispatchError =
    | UnknownModule(file: string)
    | UnknownAction(file: string, action: string)

  /**
   * router: the handler under the route's file and method, called with no
   * arguments. A missing module key fails first, then a missing action key.
   */
  function Router<M, R>(registry: Registry<M, R>, rd: RouteDescriptor): (r: Result<R, DispatchError>)
    ensures r.Ok? <==> rd.file in registry && rd.action in registry[rd.file].1
    ensures r.Ok? ==> r.value == registry[rd.file].1[rd.action]
    ensures r == Err(UnknownModule(rd.file)) <==> rd.file !in registry
    ensures r == Err(UnknownAction(rd.file, rd.action)) <==> rd.file in registry && rd.action !in registry[rd.file].1
  {
    if rd.file !in registry then Err(UnknownModule(rd.file))
    else if rd.action !in registry[rd.file].1 then Err(UnknownAction(rd.file, rd.action))
    else Ok(registry[rd.file].1[rd.action])
  }

  /** The parsed query arguments never reach the handler. */
  lemma RouterIgnoresArgs<M, R>(registry: Registry<M, R>, rd: RouteDescriptor, args: map<string, string>)
    ensures Router(registry, rd.(args := args)) == Router(registry, rd)
  {
  }

  /** On app.py's table, exactly one route dispatches, to the one handler. */
  lemma MapsRoutes<M, R>(weatherModule: M, sendCollected: R, rd: RouteDescriptor)
    ensures Router(Maps(weatherModule, sendCollected), rd).Ok?
        <==> rd.file == "weather" && rd.action == "send_collected_data_to_display"
    ensures Router(Maps(weatherModule, sendCollected), rd).Ok? ==>
      Router(Maps(weatherModule, sendCollected), rd).value == sendCollected
    ensures rd.file != "weather" ==> Router(Maps(weatherModule, sendCollected), rd) == Err(UnknownModule(rd.file))
  {
  }

  /** What view and application can fail with: the route or the dispatch. */
  datatype AppError =
    | RouteFailed(route: RouteError)
    | DispatchFailed(dispatch: DispatchError)

  /**
   * view: resolve the route of `PATH_INFO` under the configured prefix,
   * dispatch it, and return the string form of the handler's result.
   */
  function View<M, R>(registry: Registry<M, R>, prefix: string, show: R -> string, environ: Environ)
    : Result<string, AppError>
  {
    match ParseApiRoute(environ.pathInfo, prefix)
    case Err(e) => Err(RouteFailed(e))
    case Ok(rd) =>
      match Router(registry, rd)
      case Err(e) => Err(DispatchFailed(e))
      case Ok(value) => Ok(show(value))
  }

  /** view succeeds exactly when the route resolves and dispatches, and then it is the shown handler result. */
  lemma ViewSpec<M, R>(registry: Registry<M, R>, prefix: string, show: R -> string, environ: Environ)
    ensures View(registry, prefix, show, environ).Ok? <==>
      && ParseApiRoute(environ.pathInfo, prefix).Ok?
      && var rd := ParseApiRoute(environ.pathInfo, prefix).value;
         rd.file in registry && rd.action in registry[rd.file].1
    ensures View(registry, prefix, show, environ).Ok? ==>
      var rd := ParseApiRoute(environ.pathInfo, prefix).value;
      View(registry, prefix, show, environ).value == show(registry[rd.file].1[rd.action])
    ensures ParseApiRoute(environ.pathInfo, prefix).Err? ==>
      View(registry, prefix, show, environ) == Err(RouteFailed(ParseApiRoute(environ.pathInfo, prefix).error))
  {
  }

  /** view reads nothing of the environ but its path. */
  lemma ViewReadsOnlyPath<M, R>(registry: Registry<M, R>, prefix: string, show: R -> string, e1: Environ, e2: Environ)
    requires e1.pathInfo == e2.pathInfo
    ensures View(registry, prefix, show, e1) == View(registry, prefix, show, e2)
  {
  }

  /** The one header application sends: the character count of the response. */
  function AppHeaders(response: string): (headers: seq<(string, string)>)
    ensures |headers| == 1 && headers[0].0 == "Content-Length"
    ensures ParseNat(headers[0].1) == Some(|response|)
  {
    NatToStringRoundTrip(|response|);
    [("Content-Length", NatToString(|response|))]
  }

  /** The status application sends, lower-case as written. */
  const AppStatus: string := "200 ok"

  /**
   * application: compute the view first; only when it succeeds write the
   * status block with the response's length, then return the response as a
   * one-element list. A failing view writes nothing.
   */
  method Application<M, R>(registry: Registry<M, R>, prefix: string, show: R -> string,
                           environ: Environ, conn: Connection)
    returns (r: Result<seq<string>, AppError>)
    modifies conn
    ensures r.Ok? <==> View(registry, prefix, show, environ).Ok?
    ensures r.Ok? ==>
      var response := View(registry, prefix, show, environ).value;
      && r.value == [response]
      && conn.sent == old(conn.sent) + StatusBlock(AppStatus, AppHeaders(response))
    ensures r.Err? ==> r.error == View(registry, prefix, show, environ).error && conn.sent == old(conn.sent)
  {
    var view := View(registry, prefix, show, environ);
    if view.Err? {
      return Err(view.error);
    }
    var response := view.value;
    StartResponse(AppStatus, AppHeaders(response), conn);
    return Ok([response]);
  }

  /** Why one request got no response: the request text, or the application. */
  datatype ServeError =
    | BadRequest(parse: ParseError)
    | AppFailed(app: AppError)

  /** The response text one request yields, or why it yields none. */
  function Respond<M, R>(registry: Registry<M, R>, prefix: string, show: R -> string, http: string)
    : Result<string, ServeError>
  {
    match ParseHttp(http)
    case Err(e) => Err(BadRequest(e))
    case Ok(req) =>
      match View(registry, prefix, show, ToEnviron(req))
      case Err(e) => Err(AppFailed(e))
      case Ok(response) => Ok(response)
  }

  /** The pieces written one after another. */
  function Concat(parts: seq<string>): string
    decreases |parts|
  {
    if |parts| == 0 then [] else Concat(parts[..|parts| - 1]) + parts[|parts| - 1]
  }

  /** Everything written for one successful request: the status block, then the response. */
  function Wire(response: string): string {
    StatusBlock(AppStatus, AppHeaders(response)) + response
  }

  /**
   * One pass of the WSGI serving loop after the request text is received:
   * parse it, build the environ, run application, and send every element of
   * the list it returns. A parse or application failure sends nothing.
   */
  method ServeRequest<M, R>(registry: Registry<M, R>, prefix: string, show: R -> string,
                            http: string, conn: Connection)
    returns (r: Result<seq<string>, ServeError>)
    modifies conn
    ensures Respond(registry, prefix, show, http).Ok? ==>
      var response := Respond(registry, prefix, show, http).value;
      r == Ok([response]) && conn.sent == old(conn.sent) + Wire(response)
    ensures Respond(registry, prefix, show, http).Err? ==>
      r == Err(Respond(registry, prefix, show, http).error) && conn.sent == old(conn.sent)
  {
    var request := ParseHttp(http);
    if request.Err? {
      return Err(BadRequest(request.error));
    }
    r := ServeParsed(registry, prefix, show, request.value, conn);
  }

  /** The serving loop once the request is parsed: environ, application, then each returned element. */
  method ServeParsed<M, R>(registry: Registry<M, R>, prefix: string, show: R -> string,
                           req: HttpRequest, conn: Connection)
    returns (r: Result<seq<string>, ServeError>)
    modifies conn
    ensures View(registry, prefix, show, ToEnviron(req)).Ok? ==>
      var response := View(registry, prefix, show, ToEnviron(req)).value;
      r == Ok([response]) && conn.sent == old(conn.sent) + Wire(response)
    ensures View(registry, prefix, show, ToEnviron(req)).Err? ==>
      r == Err(AppFailed(View(registry, prefix, show, ToEnviron(req)).error)) && conn.sent == old(conn.sent)
  {
    var environ := ToEnviron(req);
    var outcome := Application(registry, prefix, show, environ, conn);
    if outcome.Err? {
      return Err(AppFailed(outcome.error));
    }
    SendEach(outcome.value, conn);
    ConcatOne(outcome.value[0]);
    return Ok(outcome.value);
  }

  /** `for data in response: conn.sendall(data)`: the elements are written in order. */
  method SendEach(parts: seq<string>, conn: Connection)
    modifies conn
    ensures conn.sent == old(conn.sent) + Concat(parts)
  {
    for i := 0 to |parts|
      invariant conn.sent == old(conn.sent) + Concat(parts[..i])
    {
      conn.SendAll(parts[i]);
      assert parts[..i + 1][..i] == parts[..i];
    }
    assert parts[..|parts|] == parts;
  }

  lemma ConcatOne(s: string)
    ensures Concat([s]) == s
  {
    assert [s][..0] == [];
  }

  /**
   * What a client reads from a successful exchange: the status line, one
   * Content-Length line whose value reads back as the character count of the
   * response, an empty line, and then exactly the response.
   */
  lemma WireFraming(response: string)
    ensures var block := StatusBlock(AppStatus, AppHeaders(response));
      && Wire(response) == block + response
      && Split(block, CRLF) == ["HTTP/1.1 200 ok", "Content-Length: " + AppHeaders(response)[0].1, "", ""]
      && ParseNat(AppHeaders(response)[0].1) == Some(|response|)
  {
    var headers := AppHeaders(response);
    var digits := headers[0].1;
    assert '\r' !in "HTTP/1.1 " + AppStatus;
    NoCrNoCrlf("HTTP/1.1 " + AppStatus);
    ContentLengthLine(digits);
    StatusBlockLines(AppStatus, headers);
    assert HeaderTexts(headers) == [headers[0].0 + ": " + headers[0].1] by {
      assert headers[..0] == [];
    }
    assert "HTTP/1.1 " + AppStatus == "HTTP/1.1 200 ok";
  }

  /** The Content-Length line, for a digit string `d`, holds no CRLF. */
  lemma ContentLengthLine(d: string)
    requires AllDigits(d)
    ensures "Content-Length" + ": " + d == "Content-Length: " + d
    ensures !Contains("Content-Length: " + d, CRLF)
  {
    assert "Content-Length" + ": " == "Content-Length: ";
    assert '\r' !in "Content-Length: " + d;
    NoCrNoCrlf("Content-Length: " + d);
  }

  /** A request whose path resolves to app.py's one route is answered with the shown handler result. */
  lemma RespondOnMaps<M, R>(weatherModule: M, sendCollected: R, prefix: string, show: R -> string, http: string)
    requires ParseHttp(http).Ok?
    requires ParseApiRoute(ParseHttp(http).value.path, prefix).Ok?
    requires var rd := ParseApiRoute(ParseHttp(http).value.path, prefix).value;
      rd.file == "weather" && rd.action == "send_collected_data_to_display"
    ensures Respond(Maps(weatherModule, sendCollected), prefix, show, http) == Ok(show(sendCollected))
  {
    MapsRoutes(weatherModule, sendCollected, ParseApiRoute(ParseHttp(http).value.path, prefix).value);
  }
}
