/**
 * web::AsyncTrackingFallbackWebHandler (src/AsyncTrackingFallbackWebHandler.cpp): a handler for one
 * path prefix that keeps one request handler per request method, falls back to a handler that is
 * told the supported methods, and counts every request it answers.
 */
module Dispatch {
  import opened Common
  import opened Http
  import Counters

  /** `n >> k` on an unsigned integer: `k` halvings, each dropping the lowest bit. */
  function Shr(n: nat, k: nat): nat {
    if k == 0 then n else Shr(n / 2, k - 1)
  }

  lemma {:induction false} ShrZero(n: nat, k: nat)
    ensures Shr(n, k) == 0 <==> n < Pow2(k)
  {
    if k > 0 {
      ShrZero(n / 2, k - 1);
    }
  }

  lemma {:induction false} Pow2Monotone(a: nat, b: nat)
    requires a <= b
    ensures Pow2(a) <= Pow2(b)
    decreases b
  {
    if a < b {
      Pow2Monotone(a, b - 1);
    }
  }

  /** At most one exponent brackets a number between consecutive powers of two. */
  lemma MsbUnique(n: nat, r: nat, s: nat)
    requires Pow2(r) <= n < Pow2(r + 1)
    requires Pow2(s) <= n < Pow2(s + 1)
    ensures r == s
  {
    if r < s {
      Pow2Monotone(r + 1, s);
    } else if s < r {
      Pow2Monotone(s + 1, r);
    }
  }

  /** The index of the most significant set bit of `n`, and 0 for 0. */
  function Msb(n: nat): (r: nat)
    ensures n == 0 ==> r == 0
    ensures n != 0 ==> Pow2(r) <= n < Pow2(r + 1)
  {
    if n < 2 then 0 else 1 + Msb(n / 2)
  }

  /** A number below 2^k has its most significant bit below k. */
  lemma MsbBelow(n: nat, k: nat)
    requires 0 < k && n < Pow2(k)
    ensures Msb(n) < k
  {
    if n != 0 && Msb(n) >= k {
      Pow2Monotone(k, Msb(n));
    }
  }

  /**
   * get_msb: the index of the most significant set bit, 0 for 0. The loop tests
   * `number >> (idx + 1)`; from 2^31 on it would shift a uint32_t by 32, which C leaves
   * undefined, hence the precondition.
   */
  method GetMsb(number: nat) returns (idx: nat)
    requires number < Pow2(31)
    ensures idx <= 30
    ensures number == 0 ==> idx == 0
    ensures number != 0 ==> Pow2(idx) <= number < Pow2(idx + 1)
    ensures idx == Msb(number)
  {
    idx := 0;
    while Shr(number, idx + 1) != 0
      invariant idx <= 30
      invariant number == 0 ==> idx == 0
      invariant number != 0 ==> Pow2(idx) <= number
      decreases 30 - idx
    {
      ShrZero(number, idx + 1);
      idx := idx + 1;
      if idx > 30 {
        Pow2Monotone(31, idx);
      }
    }
    ShrZero(number, idx + 1);
    if number != 0 {
      MsbUnique(number, idx, Msb(number));
    }
  }

  /** The method at position `i` of METHODS has the value 2^i, so get_msb maps it back to `i`. */
  lemma MethodValue(i: nat)
    requires i < |METHODS|
    ensures METHODS[i] as int == Pow2(i)
    ensures Pow2(i) <= METHODS[i] as int < Pow2(i + 1)
  {
    assert Pow2(1) == 2 && Pow2(2) == 4 && Pow2(3) == 8 && Pow2(4) == 16;
    assert Pow2(5) == 32 && Pow2(6) == 64 && Pow2(7) == 128;
  }

  /** The number of handler slots, get_msb(HTTP_ANY) + 1. */
  const SLOTS: nat := 7

  /**
   * The slot `_getHandler` reads for a method value: get_msb of the value. Any value within
   * HTTP_ANY lands in one of the SLOTS slots; a single method lands in its own slot.
   */
  function SlotOf(m: Mask): (i: nat)
    requires m <= ANY
    ensures i < SLOTS && i == Msb(m as int)
    ensures m in METHODS ==> i == MethodIndex(m)
  {
    assert Pow2(7) == 128 by {
      assert Pow2(1) == 2 && Pow2(2) == 4 && Pow2(3) == 8 && Pow2(4) == 16;
      assert Pow2(5) == 32 && Pow2(6) == 64;
    }
    MsbBelow(m as int, 7);
    if m in METHODS then
      var j := MethodIndex(m);
      MethodValue(j);
      MsbUnique(m as int, Msb(m as int), j);
      Msb(m as int)
    else
      Msb(m as int)
  }

  /** The response sent when neither a handler nor a fallback exists: `beginResponse(500)`, length 0. */
  const INTERNAL_ERROR: ResponseData := ResponseData(Response(500, "", 0, [], NoBody), 0, 500)

  /** The methods whose slots hold a handler, as the bits of a mask. */
  function HandledMask(slots: seq<Option<Handler>>): Mask
    requires |slots| <= 8
  {
    if slots == [] then 0
    else
      var last := |slots| - 1;
      HandledMask(slots[..last]) | (if slots[last].Some? then 1 << last else 0)
  }

  /** Extending the scanned slots by slot `i` adds bit `i` when that slot holds a handler. */
  lemma HandledMaskStep(slots: seq<Option<Handler>>, i: nat)
    requires i < |slots| <= 8
    ensures HandledMask(slots[..i + 1]) == HandledMask(slots[..i]) | (if slots[i].Some? then 1 << i else 0)
  {
    assert slots[..i + 1][..i] == slots[..i];
  }

  /** Bit `i` of the mask is set exactly when slot `i` holds a handler. */
  lemma {:induction false} HandledMaskBit(slots: seq<Option<Handler>>, i: nat)
    requires |slots| <= 8 && i < 8
    ensures Has(HandledMask(slots), i) <==> i < |slots| && slots[i].Some?
    decreases |slots|
  {
    if slots != [] {
      var last := |slots| - 1;
      var m := HandledMask(slots[..last]);
      HandledMaskBit(slots[..last], i);
      if slots[last].Some? {
        SetBit(m, last, i);
      } else {
        assert m | 0 == m;
      }
      if i < last {
        assert slots[..last][i] == slots[i];
      }
    }
  }

  lemma HandledMaskBits(slots: seq<Option<Handler>>)
    requires |slots| <= 8
    ensures forall i :: 0 <= i < 8 ==> (Has(HandledMask(slots), i) <==> i < |slots| && slots[i].Some?)
  {
    forall i | 0 <= i < 8
      ensures Has(HandledMask(slots), i) <==> i < |slots| && slots[i].Some?
    {
      HandledMaskBit(slots, i);
    }
  }

  /** Two masks with the same bits are equal. */
  lemma MaskExtensional(a: Mask, b: Mask)
    requires forall i :: 0 <= i < 8 ==> (Has(a, i) <==> Has(b, i))
    ensures a == b
  {
    assert Has(a, 0) == Has(b, 0) && Has(a, 1) == Has(b, 1) && Has(a, 2) == Has(b, 2);
    assert Has(a, 3) == Has(b, 3) && Has(a, 4) == Has(b, 4) && Has(a, 5) == Has(b, 5);
    assert Has(a, 6) == Has(b, 6) && Has(a, 7) == Has(b, 7);
  }

  /** The slots after `setHandler(methods, handler)`: each slot whose bit is set now holds `handler`. */
  function Assign(slots: seq<Option<Handler>>, methods: Mask, handler: Handler): (r: seq<Option<Handler>>)
    requires |slots| <= 8
    ensures |r| == |slots|
  {
    seq(|slots|, i requires 0 <= i < |slots| => if Has(methods, i) then Some(handler) else slots[i])
  }

  /** After `setHandler(methods, h)` the handled methods are the old ones plus `methods` (within HTTP_ANY). */
  lemma AssignHandled(slots: seq<Option<Handler>>, methods: Mask, handler: Handler)
    requires |slots| == SLOTS
    ensures HandledMask(Assign(slots, methods, handler)) == HandledMask(slots) | (methods & ANY)
  {
    var r := Assign(slots, methods, handler);
    var before := HandledMask(slots);
    forall i | 0 <= i < 8
      ensures Has(HandledMask(r), i) <==> Has(before | (methods & ANY), i)
    {
      HandledMaskBit(slots, i);
      HandledMaskBit(r, i);
      AddMethodsBit(before, methods, i);
    }
    MaskExtensional(HandledMask(r), before | (methods & ANY));
  }

  /** String::startsWith. */
  predicate StartsWith(s: string, prefix: string) {
    |prefix| <= |s| && s[..|prefix|] == prefix
  }

  /**
   * canHandle's path test: a non-empty `uri` matches the path itself and every path below it,
   * but not a longer name that merely begins with it.
   */
  function UriMatches(uri: string, url: string): (r: bool)
    ensures r <==> |uri| > 0 && StartsWith(url, uri) && (|url| == |uri| || url[|uri|] == '/')
  {
    if |uri| == 0 then false
    else
      assert StartsWith(url, uri + "/") ==> url[..|uri|] == (uri + "/")[..|uri|];
      assert (uri + "/")[..|uri|] == uri;
      url == uri || StartsWith(url, uri + "/")
  }

  lemma UriMatchExamples()
    ensures UriMatches("/a", "/a") && UriMatches("/a", "/a/b")
    ensures !UriMatches("/a", "/ab") && !UriMatches("", "/a") && !UriMatches("/a", "/")
  {
    assert "/ab"[2] == 'b';
  }

  class TrackingHandler {
    const uri: string
    var fallback: Option<Fallback>
    var handlers: seq<Option<Handler>>

    ghost predicate Valid()
      reads this
    {
      |handlers| == SLOTS
    }

    /** The table is sized `get_msb(HTTP_ANY) + 1` and starts with every slot empty. */
    constructor (uri: string, fallback: Option<Fallback>)
      ensures Valid() && this.uri == uri && this.fallback == fallback
      ensures forall i :: 0 <= i < |handlers| ==> handlers[i].None?
    {
      var top := GetMsb(ANY as int);
      assert Pow2(6) <= ANY as int < Pow2(7);
      MsbUnique(ANY as int, top, 6);
      this.uri := uri;
      this.fallback := fallback;
      handlers := seq(top + 1, _ => None);
    }

    /**
     * `_getHandler`: the slot at get_msb of the method value, which for a single request method
     * is its own slot.
     */
    method GetHandler(m: Mask) returns (h: Option<Handler>)
      requires Valid() && m <= ANY
      ensures h == handlers[SlotOf(m)]
      ensures m in METHODS ==> h == handlers[MethodIndex(m)]
    {
      var idx := GetMsb(m as int);
      assert idx == SlotOf(m);
      h := handlers[idx];
    }

    /** `setHandler`: overwrites exactly the slots whose bit is set in `methods`. */
    method SetHandler(methods: Mask, handler: Handler)
      requires Valid()
      modifies this`handlers
      ensures Valid()
      ensures handlers == Assign(old(handlers), methods, handler)
      ensures forall i :: 0 <= i < SLOTS ==> handlers[i] == if Has(methods, i) then Some(handler) else old(handlers[i])
    {
      var i := 0;
      while i < |handlers|
        invariant Valid() && i <= |handlers|
        invariant forall j :: 0 <= j < |handlers| ==>
          handlers[j] == if j < i && Has(methods, j) then Some(handler) else old(handlers[j])
      {
        if methods & (1 << i) != 0 {
          handlers := handlers[i := Some(handler)];
        }
        i := i + 1;
      }
    }

    method SetFallbackHandler(f: Option<Fallback>)
      modifies this`fallback
      ensures fallback == f
    {
      fallback := f;
    }

    /** `getHandledMethods`: bit `i` of the result is set exactly when slot `i` holds a handler. */
    method GetHandledMethods() returns (methods: Mask)
      requires Valid()
      ensures methods == HandledMask(handlers)
      ensures forall i :: 0 <= i < 8 ==> (Has(methods, i) <==> i < |handlers| && handlers[i].Some?)
    {
      methods := 0;
      var i := 0;
      while i < |handlers|
        invariant i <= |handlers|
        invariant methods == HandledMask(handlers[..i])
      {
        HandledMaskStep(handlers, i);
        if handlers[i].Some? {
          methods := methods | (1 << i);
        } else {
          assert methods | 0 == methods;
        }
        i := i + 1;
      }
      assert handlers[..i] == handlers;
      HandledMaskBits(handlers);
    }

    /** `canHandle`. */
    function CanHandle(url: string): (r: bool)
      ensures r <==> |uri| > 0 && StartsWith(url, uri) && (|url| == |uri| || url[|uri|] == '/')
    {
      UriMatches(uri, url)
    }

    /**
     * `handleRequest`: the method's own handler, else the fallback told the handled methods, else
     * an empty 500 response; then exactly the counter cell [url][(method, status)] goes up by one.
     * The method value is used unchecked: a composite such as 0 or HTTP_ANY reads the slot of its
     * highest bit and is counted under its own value.
     */
    method HandleRequest(request: Request, counters: Counters.RequestCounters) returns (response: ResponseData)
      requires Valid() && counters.Valid() && request.requestMethod <= ANY
      modifies counters
      ensures counters.Valid()
      ensures var slot := handlers[SlotOf(request.requestMethod)];
        if slot.Some? then response == slot.value.respond(request)
        else if fallback.Some? then response == fallback.value.respond(HandledMask(handlers), request)
        else response == INTERNAL_ERROR
      ensures counters.table
        == Counters.Bump(old(counters.table), request.url, Counters.Key(request.requestMethod, response.statusCode))
    {
      response := INTERNAL_ERROR;
      var handler := GetHandler(request.requestMethod);
      if handler.Some? {
        response := handler.value.respond(request);
      } else if fallback.Some? {
        var handled := GetHandledMethods();
        response := fallback.value.respond(handled, request);
      }
      counters.Increment(request.url, Counters.Key(request.requestMethod, response.statusCode));
    }
  }
}
