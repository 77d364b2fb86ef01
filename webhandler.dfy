/**
 * The request handlers of src/webhandler.cpp around the template engine: the static and
 * compressed file handlers, the HEAD wrapper, the 405 handler and the registration that splits
 * the method set of a route between them.
 */
module WebHandler {
  import opened Common
  import opened Http
  import Utils
  import Template

  /** The number of bytes a response body will hold once it is sent. */
  function BodyLength(b: Body): nat {
    match b
    case Bytes(data) => |data|
    case Inflated(_, size) => size
    case Templated(page, replacements) => |Template.Substitute(page, replacements)|
    case NoBody => 0
  }

  /** The response declares, in both places, the length of the body it will send. */
  predicate Declares(r: ResponseData) {
    r.response.Response? && r.contentLength == r.response.length == BodyLength(r.response.body)
  }

  // ---------------------------------------------------------------- static handlers

  /** staticHandler: sends the bytes as they are, with their length. */
  function StaticHandler(status: nat, contentType: string, data: seq<byte>): (r: ResponseData)
    ensures Declares(r) && r.statusCode == status && r.response.code == status
    ensures r.response.body == Bytes(data) && r.response.headers == []
  {
    ResponseData(Response(status, contentType, |data|, [], Bytes(data)), |data|, status)
  }

  /** `t` occurs somewhere in `s` at or after index `k` (strstr finds it). */
  predicate OccursFrom(s: string, t: string, k: nat)
    decreases |s| - k
  {
    k + |t| <= |s| && (s[k..k + |t|] == t || OccursFrom(s, t, k + 1))
  }

  /** The request has an Accept-Encoding header and its value contains "gzip". */
  predicate AcceptsGzip(acceptEncoding: Option<string>) {
    acceptEncoding.Some? && OccursFrom(acceptEncoding.value, "gzip", 0)
  }

  lemma AcceptsGzipExamples()
    ensures AcceptsGzip(Some("gzip, deflate, br")) && AcceptsGzip(Some("deflate, gzip"))
    ensures !AcceptsGzip(None) && !AcceptsGzip(Some("deflate"))
  {
    assert "gzip, deflate, br"[0..4] == "gzip";
    var s := "deflate, gzip";
    assert s[9..13] == "gzip";
    assert OccursFrom(s, "gzip", 9);
    AbsentFirstChar("deflate", "gzip", 0);
  }

  /** Text without the first character of `t` does not contain `t`. */
  lemma {:induction false} AbsentFirstChar(s: string, t: string, k: nat)
    requires |t| > 0 && forall i :: 0 <= i < |s| ==> s[i] != t[0]
    ensures !OccursFrom(s, t, k)
    decreases |s| - k
  {
    if k + |t| <= |s| {
      assert s[k..k + |t|][0] == s[k];
      AbsentFirstChar(s, t, k + 1);
    }
  }

  /**
   * compressedStaticHandler: a client that accepts gzip gets the stored gzip member with a
   * Content-Encoding header and its stored length; any other client gets the inflated content,
   * declared with the decompressor's size. The decompressor itself is not part of this model.
   */
  function CompressedStaticHandler(status: nat, contentType: string, data: seq<byte>,
                                   acceptEncoding: Option<string>, decompressedSize: nat): (r: ResponseData)
    ensures Declares(r) && r.statusCode == status && r.response.code == status
    ensures AcceptsGzip(acceptEncoding) ==>
      r.contentLength == |data| && r.response.body == Bytes(data)
      && r.response.headers == [Header("Content-Encoding", "gzip")]
    ensures !AcceptsGzip(acceptEncoding) ==>
      r.contentLength == decompressedSize && r.response.body == Inflated(data, decompressedSize)
      && r.response.headers == []
  {
    if AcceptsGzip(acceptEncoding) then
      ResponseData(Response(status, contentType, |data|, [Header("Content-Encoding", "gzip")], Bytes(data)), |data|, status)
    else
      ResponseData(Response(status, contentType, decompressedSize, [], Inflated(data, decompressedSize)), decompressedSize, status)
  }

  /** The HEAD wrapper: only the response object is replaced; status and declared length stay. */
  function HeadWrapped(r: ResponseData): (h: ResponseData)
    ensures h.statusCode == r.statusCode && h.contentLength == r.contentLength
    ensures h.response.HeadOnly? && h.response.wrapped == r.response
  {
    r.(response := HeadOnly(r.response))
  }

  // ---------------------------------------------------------------- replacing handlers

  /**
   * replacingRequestHandler (map of strings): declares the length the pre-pass computes and streams
   * the page through the replacing filler.
   */
  method ReplacingRequestHandler(replacements: map<string, string>, status: nat, contentType: string, page: string)
    returns (r: ResponseData)
    ensures Declares(r) && r.statusCode == status && r.response.code == status
    ensures r.response.body == Templated(page, replacements) && r.response.headers == []
  {
    var contentLength := Template.DeclaredLength(page, replacements);
    r := ResponseData(Response(status, contentType, contentLength, [], Templated(page, replacements)), contentLength, status);
  }

  /**
   * The first step of replacingRequestHandler (map of generators): each generator is called once
   * and its result is kept up to its first NUL, as `String(s.c_str())` does.
   */
  method EvaluateReplacements(generators: map<string, () -> string>) returns (replacements: map<string, string>)
    ensures replacements.Keys == generators.Keys
    ensures forall k :: k in replacements ==> replacements[k] == Utils.CStr(generators[k]())
  {
    replacements := map[];
    var rest := generators.Keys;
    while rest != {}
      invariant rest <= generators.Keys
      invariant replacements.Keys == generators.Keys - rest
      invariant forall k :: k in replacements ==> replacements[k] == Utils.CStr(generators[k]())
      decreases rest
    {
      var k :| k in rest;
      replacements := replacements[k := Utils.CStr(generators[k]())];
      rest := rest - {k};
    }
  }

  /**
   * replacingRequestHandler (map of generators): the page is served with every generator's text,
   * up to its first NUL, under the generator's key.
   */
  method ReplacingGeneratorHandler(generators: map<string, () -> string>, status: nat, contentType: string, page: string)
    returns (r: ResponseData)
    ensures Declares(r) && r.statusCode == status && r.response.code == status
    ensures r.response.body.Templated? && r.response.body.page == page
    ensures r.response.body.replacements.Keys == generators.Keys
    ensures r.response.body.replacements == map k | k in generators :: Utils.CStr(generators[k]())
  {
    var replacements := EvaluateReplacements(generators);
    assert replacements == map k | k in generators :: Utils.CStr(generators[k]());
    r := ReplacingRequestHandler(replacements, status, contentType, page);
  }

  // ---------------------------------------------------------------- the 405 handler

  /** The names of the methods among the first `n` bits of `valid`, in METHODS order. */
  function ValidNames(valid: Mask, n: nat): seq<string>
    requires n <= |METHODS|
  {
    if n == 0 then []
    else ValidNames(valid, n - 1) + (if Has(valid, n - 1) then [METHOD_NAMES[n - 1]] else [])
  }

  /** The position of a method name in METHOD_NAMES (7 for any other text). */
  function IndexOfName(name: string): (i: nat)
    ensures i <= |METHODS|
    ensures i < |METHODS| ==> METHOD_NAMES[i] == name
  {
    if name == "GET" then 0
    else if name == "POST" then 1
    else if name == "DELETE" then 2
    else if name == "PUT" then 3
    else if name == "PATCH" then 4
    else if name == "HEAD" then 5
    else if name == "OPTIONS" then 6
    else 7
  }

  lemma NamesAreDistinct(j: nat)
    requires j < |METHODS|
    ensures IndexOfName(METHOD_NAMES[j]) == j
  {
  }

  /** Every name of `names` is one of the first `n` methods and its bit is set in `valid`. */
  predicate NamesWithin(names: seq<string>, valid: Mask, n: nat) {
    forall a :: 0 <= a < |names| ==> IndexOfName(names[a]) < n && Has(valid, IndexOfName(names[a]))
  }

  /** The names follow METHODS order strictly. */
  predicate NamesIncreasing(names: seq<string>) {
    forall a, b :: 0 <= a < b < |names| ==> IndexOfName(names[a]) < IndexOfName(names[b])
  }

  lemma {:induction false} ValidNamesElements(valid: Mask, n: nat)
    requires n <= |METHODS|
    ensures NamesWithin(ValidNames(valid, n), valid, n)
  {
    if n > 0 {
      ValidNamesElements(valid, n - 1);
      NamesAreDistinct(n - 1);
      var names := ValidNames(valid, n);
      var before := ValidNames(valid, n - 1);
      forall a | 0 <= a < |names|
        ensures IndexOfName(names[a]) < n && Has(valid, IndexOfName(names[a]))
      {
        if a < |before| {
          assert names[a] == before[a];
        } else {
          assert Has(valid, n - 1) && names[a] == METHOD_NAMES[n - 1];
        }
      }
    }
  }

  lemma {:induction false} ValidNamesIncreasing(valid: Mask, n: nat)
    requires n <= |METHODS|
    ensures NamesIncreasing(ValidNames(valid, n))
  {
    if n > 0 {
      ValidNamesIncreasing(valid, n - 1);
      ValidNamesElements(valid, n - 1);
      NamesAreDistinct(n - 1);
      var names := ValidNames(valid, n);
      var before := ValidNames(valid, n - 1);
      forall a, b | 0 <= a < b < |names|
        ensures IndexOfName(names[a]) < IndexOfName(names[b])
      {
        assert names[a] == before[a];
        if b < |before| {
          assert names[b] == before[b];
        } else {
          assert names[b] == METHOD_NAMES[n - 1];
        }
      }
    }
  }

  /** Method `j` is listed exactly when its bit is set. */
  lemma {:induction false} ValidNamesMember(valid: Mask, n: nat, j: nat)
    requires j < n <= |METHODS|
    ensures METHOD_NAMES[j] in ValidNames(valid, n) <==> Has(valid, j)
  {
    var names := ValidNames(valid, n);
    NamesAreDistinct(j);
    ValidNamesElements(valid, n);
    if j < n - 1 {
      ValidNamesMember(valid, n - 1, j);
      NamesAreDistinct(n - 1);
    }
    if METHOD_NAMES[j] in names {
      var a :| 0 <= a < |names| && names[a] == METHOD_NAMES[j];
    }
  }

  /**
   * The list names exactly the methods of the mask, each once, in GET, POST, DELETE, PUT, PATCH,
   * HEAD, OPTIONS order.
   */
  lemma ValidNamesOrdered(valid: Mask, n: nat)
    requires n <= |METHODS|
    ensures var names := ValidNames(valid, n);
      (forall j :: 0 <= j < n ==> (METHOD_NAMES[j] in names <==> Has(valid, j)))
      && NamesWithin(names, valid, n) && NamesIncreasing(names)
  {
    forall j | 0 <= j < n
      ensures METHOD_NAMES[j] in ValidNames(valid, n) <==> Has(valid, j)
    {
      ValidNamesMember(valid, n, j);
    }
    ValidNamesElements(valid, n);
    ValidNamesIncreasing(valid, n);
  }

  /** Each of the seven tests `validMethods & HTTP_X` reads one bit. */
  lemma MethodTests(m: Mask)
    ensures (m & GET != 0) == Has(m, 0) && (m & POST != 0) == Has(m, 1) && (m & DELETE != 0) == Has(m, 2)
    ensures (m & PUT != 0) == Has(m, 3) && (m & PATCH != 0) == Has(m, 4) && (m & HEAD != 0) == Has(m, 5)
    ensures (m & OPTIONS != 0) == Has(m, 6)
  {
  }

  /** The seven tests of invalidMethodHandler, each appending one name to `valid`. */
  method CollectValid(validMethods: Mask) returns (valid: seq<string>)
    ensures valid == ValidNames(validMethods, |METHODS|)
  {
    MethodTests(validMethods);
    valid := [];
    if validMethods & GET != 0 {
      valid := valid + ["GET"];
    }
    assert valid == ValidNames(validMethods, 1);
    if validMethods & POST != 0 {
      valid := valid + ["POST"];
    }
    assert valid == ValidNames(validMethods, 2);
    if validMethods & DELETE != 0 {
      valid := valid + ["DELETE"];
    }
    assert valid == ValidNames(validMethods, 3);
    if validMethods & PUT != 0 {
      valid := valid + ["PUT"];
    }
    assert valid == ValidNames(validMethods, 4);
    if validMethods & PATCH != 0 {
      valid := valid + ["PATCH"];
    }
    assert valid == ValidNames(validMethods, 5);
    if validMethods & HEAD != 0 {
      valid := valid + ["HEAD"];
    }
    assert valid == ValidNames(validMethods, 6);
    if validMethods & OPTIONS != 0 {
      valid := valid + ["OPTIONS"];
    }
  }

  /** `items` joined by `sep`. */
  function Join(items: seq<string>, sep: string): string {
    if items == [] then ""
    else Join(items[..|items| - 1], sep) + (if |items| > 1 then sep else "") + items[|items| - 1]
  }

  /**
   * The first `n` items as the details text lists them: ", " between items, and "and " before the
   * last item of the whole list.
   */
  function DetailsPrefix(items: seq<string>, n: nat): string
    requires n <= |items|
  {
    if n == 0 then ""
    else
      var separator := if n - 1 == 0 then "" else if n - 1 == |items| - 1 then ", and " else ", ";
      DetailsPrefix(items, n - 1) + separator + items[n - 1]
  }

  /** Joining builds the list one item at a time. */
  lemma JoinStep(items: seq<string>, sep: string, i: nat)
    requires i < |items|
    ensures Join(items[..i + 1], sep) == Join(items[..i], sep) + (if i > 0 then sep else "") + items[i]
  {
    assert items[..i + 1][..i] == items[..i];
  }

  /** The Allow header value: the valid methods joined by ", ". */
  method AllowList(valid: seq<string>) returns (validStr: string)
    ensures validStr == Join(valid, ", ")
  {
    validStr := "";
    var i := 0;
    while i < |valid|
      invariant i <= |valid|
      invariant validStr == Join(valid[..i], ", ")
    {
      JoinStep(valid, ", ", i);
      if i > 0 {
        validStr := validStr + ", ";
      }
      validStr := validStr + valid[i];
      i := i + 1;
    }
    assert valid[..i] == valid;
  }

  /** The list in the details text. */
  method DetailsList(valid: seq<string>) returns (validStr: string)
    ensures validStr == DetailsPrefix(valid, |valid|)
  {
    validStr := "";
    var i := 0;
    while i < |valid|
      invariant i <= |valid|
      invariant validStr == DetailsPrefix(valid, i)
    {
      if i > 0 {
        validStr := validStr + ", ";
        if i == |valid| - 1 {
          validStr := validStr + "and ";
        }
      }
      validStr := validStr + valid[i];
      i := i + 1;
    }
  }

  /** Before the last item the details text is the plain ", "-joined list. */
  lemma {:induction false} DetailsPrefixIsJoin(items: seq<string>, n: nat)
    requires n < |items|
    ensures DetailsPrefix(items, n) == Join(items[..n], ", ")
  {
    if n > 0 {
      DetailsPrefixIsJoin(items, n - 1);
      JoinStep(items, ", ", n - 1);
    }
  }

  /**
   * The details text is the Allow list with "and " in front of its last item, once there are at
   * least two items (so GET and HEAD read "GET, and HEAD").
   */
  lemma {:induction false} DetailsIsAllowWithAnd(items: seq<string>)
    requires |items| >= 2
    ensures var n := |items|;
      DetailsPrefix(items, n) == Join(items[..n - 1] + ["and " + items[n - 1]], ", ")
  {
    var n := |items|;
    var marked := items[..n - 1] + ["and " + items[n - 1]];
    var head := Join(items[..n - 1], ", ");
    DetailsPrefixIsJoin(items, n - 1);
    assert DetailsPrefix(items, n) == head + ", and " + items[n - 1];
    JoinStep(marked, ", ", n - 1);
    assert marked[..n - 1] == items[..n - 1];
    assert marked[..n] == marked;
    Regroup(head, items[n - 1]);
  }

  lemma Regroup(head: string, last: string)
    ensures head + ", and " + last == head + ", " + ("and " + last)
  {
    assert ", and " == ", " + "and ";
  }

  /** The three replacements of the error page for a 405 answer. */
  function MethodNotAllowedReplacements(request: Request, details: string): map<string, string> {
    map[
      "TITLE" := "Error 405 Method Not Allowed",
      "ERROR" := "The page cannot handle " + MethodName(request.requestMethod) + " requests!",
      "DETAILS" := "The page \"" + request.url + "\" can handle the request types " + details + "."
    ]
  }

  /**
   * invalidMethodHandler: the error page with status 405, the valid methods listed in its details
   * text and, joined by ", ", in the Allow header.
   */
  method InvalidMethodHandler(validMethods: Mask, request: Request, errorPage: string) returns (r: ResponseData)
    ensures Declares(r) && r.statusCode == 405 && r.response.code == 405
    ensures r.response.headers == [Header("Allow", Join(ValidNames(validMethods, |METHODS|), ", "))]
    ensures r.response.body
      == Templated(errorPage, MethodNotAllowedReplacements(request, DetailsPrefix(ValidNames(validMethods, |METHODS|), |ValidNames(validMethods, |METHODS|)|)))
  {
    var valid := CollectValid(validMethods);
    var details := DetailsList(valid);
    var replacements := MethodNotAllowedReplacements(request, details);
    r := ReplacingRequestHandler(replacements, 405, "text/html", errorPage);
    var allow := AllowList(valid);
    r := r.(response := r.response.(headers := r.response.headers + [Header("Allow", allow)]));
  }

  /** A GET-only route answers other methods with "Allow: GET, HEAD" and "GET, and HEAD" in the page. */
  lemma GetOnlyRouteNames()
    ensures ValidNames(GET | HEAD, |METHODS|) == ["GET", "HEAD"]
  {
    MethodTests(GET | HEAD);
    assert ValidNames(GET | HEAD, 1) == ["GET"];
    assert ValidNames(GET | HEAD, 2) == ["GET"];
    assert ValidNames(GET | HEAD, 3) == ["GET"];
    assert ValidNames(GET | HEAD, 4) == ["GET"];
    assert ValidNames(GET | HEAD, 5) == ["GET"];
    assert ValidNames(GET | HEAD, 6) == ["GET", "HEAD"];
  }

  lemma GetOnlyRouteLists()
    ensures Join(["GET", "HEAD"], ", ") == "GET, HEAD"
    ensures DetailsPrefix(["GET", "HEAD"], 2) == "GET, and HEAD"
  {
    var l: seq<string> := ["GET", "HEAD"];
    assert l[..1] == ["GET"] && l[..1][..0] == [];
  }

  // ---------------------------------------------------------------- registration

  /** What a route of the server runs. */
  datatype Action =
    | Tracking(handler: Handler)
    | HeadWrapper(handler: Handler)
    | InvalidMethod(validMethods: Mask)

  datatype Route = Route(uri: string, methods: Mask, action: Action)

  /** The response a route's action gives to a request. */
  method Run(action: Action, request: Request, errorPage: string) returns (r: ResponseData)
    ensures action.Tracking? ==> r == action.handler.respond(request)
    ensures action.HeadWrapper? ==> r == HeadWrapped(action.handler.respond(request))
    ensures action.InvalidMethod? ==> Declares(r) && r.statusCode == 405 && r.response.code == 405
    ensures action.InvalidMethod? ==>
      r.response.headers == [Header("Allow", Join(ValidNames(action.validMethods, |METHODS|), ", "))]
    ensures action.InvalidMethod? ==>
      var valid := ValidNames(action.validMethods, |METHODS|);
      r.response.body == Templated(errorPage, MethodNotAllowedReplacements(request, DetailsPrefix(valid, |valid|)))
  {
    match action
    case Tracking(h) =>
      r := h.respond(request);
    case HeadWrapper(h) =>
      r := HeadWrapped(h.respond(request));
    case InvalidMethod(valid) =>
      r := InvalidMethodHandler(valid, request, errorPage);
  }

  /** The global AsyncWebServer's route list, in registration order. */
  class Server {
    var routes: seq<Route>

    constructor ()
      ensures routes == []
    {
      routes := [];
    }

    /** `server.on(uri, methods, action)`. */
    method On(uri: string, methods: Mask, action: Action)
      modifies this
      ensures routes == old(routes) + [Route(uri, methods, action)]
    {
      routes := routes + [Route(uri, methods, action)];
    }
  }

  /** The routes registerRequestHandler adds for one handler. */
  function Registrations(uri: string, methods: Mask, handler: Handler): seq<Route> {
    [Route(uri, methods, Tracking(handler))]
    + (if methods & HEAD == 0 then [Route(uri, HEAD, HeadWrapper(handler))] else [])
    + [Route(uri, (methods | HEAD) ^ ANY, InvalidMethod(methods | HEAD))]
  }

  /** registerRequestHandler. */
  method RegisterRequestHandler(server: Server, uri: string, methods: Mask, handler: Handler)
    modifies server
    ensures server.routes == old(server.routes) + Registrations(uri, methods, handler)
  {
    var m := methods;
    server.On(uri, m, Tracking(handler));
    if m & HEAD == 0 {
      m := m | HEAD;
      server.On(uri, HEAD, HeadWrapper(handler));
    }
    server.On(uri, m ^ ANY, InvalidMethod(m));
  }

  /**
   * A route registered for GET alone gets a HEAD wrapper and a 405 route whose handler, run by Run,
   * answers with "Allow: GET, HEAD" and names "GET, and HEAD" in its page.
   */
  lemma GetOnlyRegistration(uri: string, handler: Handler)
    ensures var rs := Registrations(uri, GET, handler);
      && |rs| == 3 && rs[1] == Route(uri, HEAD, HeadWrapper(handler))
      && rs[2].action == InvalidMethod(GET | HEAD)
      && ValidNames(rs[2].action.validMethods, |METHODS|) == ["GET", "HEAD"]
      && Join(ValidNames(rs[2].action.validMethods, |METHODS|), ", ") == "GET, HEAD"
      && DetailsPrefix(ValidNames(rs[2].action.validMethods, |METHODS|), 2) == "GET, and HEAD"
  {
    GetOnlyRouteNames();
    GetOnlyRouteLists();
  }

  /**
   * For a method set within HTTP_ANY the registered masks split HTTP_ANY: they are pairwise
   * disjoint and together cover it; a HEAD wrapper is added exactly when HEAD is not handled, and
   * the 405 handler lists exactly the methods outside its own mask.
   */
  lemma RegistrationSplitsMethods(uri: string, methods: Mask, handler: Handler)
    requires methods & ANY == methods
    ensures var rs := Registrations(uri, methods, handler);
      (forall a, b :: 0 <= a < b < |rs| ==> rs[a].methods & rs[b].methods == 0)
      && (if |rs| == 3 then rs[0].methods | rs[1].methods | rs[2].methods else rs[0].methods | rs[1].methods) == ANY
      && (|rs| == 3 <==> methods & HEAD == 0)
      && rs[|rs| - 1].action == InvalidMethod(rs[|rs| - 1].methods ^ ANY)
  {
  }
}
