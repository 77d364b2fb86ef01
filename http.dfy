/**
 * The vocabulary shared by the web handlers: ESPAsyncWebServer's request method bits and the
 * ResponseData triple the handlers return.
 */
module Http {
  import opened Common

  /** WebRequestMethodComposite, an 8-bit set of request methods. */
  type Mask = bv8

  const GET: Mask := 1
  const POST: Mask := 2
  const DELETE: Mask := 4
  const PUT: Mask := 8
  const PATCH: Mask := 16
  const HEAD: Mask := 32
  const OPTIONS: Mask := 64
  const ANY: Mask := 127

  /** The single-method values, in bit order (the order the 405 handler lists them in). */
  const METHODS: seq<Mask> := [GET, POST, DELETE, PUT, PATCH, HEAD, OPTIONS]

  /** Bit `i` of `mask` is set, as `mask & (1 << i)` tests it. */
  predicate Has(mask: Mask, i: nat)
    requires i < 8
  {
    mask & (1 << i) != 0
  }

  lemma SetBit(mask: Mask, i: nat, j: nat)
    requires i < 8 && j < 8
    ensures Has(mask | (1 << i), j) <==> Has(mask, j) || j == i
  {
  }

  /** Adding the methods of `b` that HTTP_ANY covers sets bit `i` of `a` exactly for those. */
  lemma AddMethodsBit(a: Mask, b: Mask, i: nat)
    requires i < 8
    ensures Has(a | (b & ANY), i) <==> Has(a, i) || (i < 7 && Has(b, i))
  {
  }

  /** The method at position `i` of METHODS is the single bit `1 << i`. */
  lemma MethodBit(i: nat)
    requires i < |METHODS|
    ensures METHODS[i] == 1 << i
    ensures forall j :: 0 <= j < 8 ==> (Has(METHODS[i], j) <==> j == i)
  {
  }

  /** The names AsyncWebServerRequest::methodToString gives the single methods, in METHODS order. */
  const METHOD_NAMES: seq<string> := ["GET", "POST", "DELETE", "PUT", "PATCH", "HEAD", "OPTIONS"]

  /** The position of a single method in METHODS, which is its bit index. */
  function MethodIndex(m: Mask): (i: nat)
    requires m in METHODS
    ensures i < |METHODS| && METHODS[i] == m
  {
    if m == GET then 0
    else if m == POST then 1
    else if m == DELETE then 2
    else if m == PUT then 3
    else if m == PATCH then 4
    else if m == HEAD then 5
    else 6
  }

  /** The name of a request method. */
  function MethodName(m: Mask): string {
    if m in METHODS then METHOD_NAMES[MethodIndex(m)] else "UNKNOWN"
  }

  datatype Header = Header(name: string, value: string)

  /** Where a response's body comes from. */
  datatype Body =
    | Bytes(data: seq<byte>)
      /** A gzip member inflated on the fly; `size` is what the decompressor reports. */
    | Inflated(compressed: seq<byte>, size: nat)
      /** A page whose placeholders are substituted while it is sent. */
    | Templated(page: string, replacements: map<string, string>)
    | NoBody

  /** An AsyncWebServerResponse, as far as the handlers shape it. */
  datatype Response =
    | Response(code: nat, contentType: string, length: nat, headers: seq<Header>, body: Body)
      /** AsyncHeadOnlyResponse: sends the wrapped response's headers without its body. */
    | HeadOnly(wrapped: Response)

  datatype Request = Request(url: string, requestMethod: Mask)

  /** HTTPRequestHandler: builds the response to a request. */
  datatype Handler = Handler(respond: Request -> ResponseData)

  /** HTTPFallbackRequestHandler: also told which methods the path does handle. */
  datatype Fallback = Fallback(respond: (Mask, Request) -> ResponseData)

  /** web::ResponseData: the response object, its declared content length and its status code. */
  datatype ResponseData = ResponseData(response: Response, contentLength: nat, statusCode: nat)
}
