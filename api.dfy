/** api.go: the client object with its nonce, the authenticated request path
    with its response envelope, and the shaping of the endpoints' results. */
module Api {
  import opened Wrappers
  import opened Go
  import opened Signer

  // ---------------------------------------------------------------------------
  // Values

  /** The errors a call can end with: the exchange's own message (`Error`), or
      an error passed through from the HTTP transport or the JSON decoder. */
  datatype Failure =
    | ApiError(message: Bytes)
    | TransportError(detail: Bytes)
    | DecodeError(detail: Bytes)

  /** `responseWrapper`: the envelope around every authenticated response;
      `data` is the raw, not yet decoded, "return" member. */
  datatype Envelope = Envelope(success: Int64, errorMsg: Bytes, data: Bytes)

  /** What `query` hands to the HTTP client: the parameters as url.Values
      (the form body) and the `Key` and `Sign` headers. */
  datatype Request = Request(form: map<Bytes, seq<Bytes>>, key: Bytes, sign: Bytes)

  /** `Depth`: one order-book level. Prices and amounts are float64 in the
      client; here they are an opaque element type. */
  datatype Depth<N> = Depth(price: N, amount: N)

  /** `DepthResponse`. */
  datatype DepthResponse<N> = DepthResponse(asks: seq<Depth<N>>, bids: seq<Depth<N>>)

  /** A JSON decoder into one target type (encoding/json is not modelled). */
  type Decoder<T> = Bytes -> Result<T, Failure>

  /** The signed POST to the private endpoint, answered by the body of the
      response or a transport error. */
  type Transport = Request -> Result<Bytes, Failure>

  /** The GET of `<base>/<pair>/<action>` on the public endpoint. */
  type PublicTransport = (Bytes, Bytes) -> Result<Bytes, Failure>

  /** What the client uses but does not implement: the package's `unreserved`
      table (built by `InitUnreserved`), HMAC-SHA512, the two HTTP paths and
      the envelope decoder. */
  datatype Services = Services(
    unreserved: array<bool>,
    hmac: Hmac,
    send: Transport,
    get: PublicTransport,
    decodeEnvelope: Decoder<Envelope>)
  {
    predicate Valid()
      reads unreserved
    {
      UnreservedTable(unreserved)
    }
  }

  const MethodKey: Bytes := Ascii("method")
  const NonceKey: Bytes := Ascii("nonce")
  const OrderIdKey: Bytes := Ascii("order_id")
  const AsksKey: Bytes := Ascii("asks")
  const BidsKey: Bytes := Ascii("bids")
  const DepthAction: Bytes := Ascii("depth")
  const TradeNilMessage: Bytes := Ascii("TradeRequest is nil.")

  // ---------------------------------------------------------------------------
  // Parameter maps

  /** `buildError`: the exchange's message as an `Error`. */
  function BuildError(msg: Bytes): (e: Failure)
    ensures e.ApiError? && e.message == msg
  {
    ApiError(msg)
  }

  /** `makeParams`: a fresh map whose only key is "method". */
  function MakeParams(action: Bytes): (params: map<Bytes, Bytes>)
    ensures params.Keys == {MethodKey}
    ensures params[MethodKey] == action
  {
    map[MethodKey := action]
  }

  /** `multimap`: every value wrapped as a one-element list, keys unchanged. */
  method Multimap(p: map<Bytes, Bytes>) returns (q: map<Bytes, seq<Bytes>>)
    ensures q.Keys == p.Keys
    ensures forall k :: k in q ==> q[k] == [p[k]]
  {
    q := map[];
    var rest := p.Keys;
    while rest != {}
      invariant rest <= p.Keys
      invariant q.Keys == p.Keys - rest
      invariant forall k :: k in q ==> q[k] == [p[k]]
      decreases rest
    {
      var k :| k in rest;
      q := q[k := [p[k]]];
      rest := rest - {k};
    }
  }

  /** `addOptions` after the JSON round trip: `fields` are the option's
      members as text, stored one by one over `params`, in whatever order the
      map yields them. A member of the option replaces a parameter of the same
      name, and nothing else changes. */
  method AddOptions(params: map<Bytes, Bytes>, fields: map<Bytes, Bytes>) returns (r: map<Bytes, Bytes>)
    ensures r == params + fields
  {
    r := params;
    var rest := fields.Keys;
    while rest != {}
      invariant rest <= fields.Keys
      invariant r.Keys == params.Keys + (fields.Keys - rest)
      invariant forall k :: k in r ==> r[k] == if k in fields && k !in rest then fields[k] else params[k]
      decreases rest
    {
      var k :| k in rest;
      r := r[k := fields[k]];
      rest := rest - {k};
    }
  }

  /** Nonce text is digits and at most a leading '-', all unreserved, so the
      signer's encoder passes it through unchanged. */
  lemma NonceTextUnescaped(n: int)
    ensures Encoded(Decimal(n)) == Decimal(n)
  {
    DecimalRoundTrip(n);
    EncodedUnchanged(Decimal(n));
  }

  /** The nonce parameter is signed as the plain text "nonce=<decimal>". */
  lemma NoncePiece(sent: map<Bytes, Bytes>, n: Int64, order: seq<Bytes>)
    requires NonceKey in sent && sent[NonceKey] == Decimal(n)
    requires Enumerates(order, sent.Keys)
    ensures NonceKey + [Equals] + Decimal(n) in Pieces(sent, order)
  {
    assert Encoded(NonceKey) == NonceKey by {
      assert forall i :: 0 <= i < |NonceKey| ==> 'a' as int <= NonceKey[i] as int <= 'z' as int;
      EncodedUnchanged(NonceKey);
    }
    NonceTextUnescaped(n);
    var i :| 0 <= i < |order| && order[i] == NonceKey;
    assert Pieces(sent, order)[i] == Piece(NonceKey, Decimal(n));
  }

  /** The payload `query` signs: one piece per parameter, the nonce among
      them, and reading the payload back gives the parameters as `query` left
      them, whatever the iteration order. */
  lemma SignedPayloadOfQuery(sent: map<Bytes, Bytes>, n: Int64, order: seq<Bytes>)
    requires NonceKey in sent && sent[NonceKey] == Decimal(n)
    requires Enumerates(order, sent.Keys)
    ensures |Pieces(sent, order)| == |sent|
    ensures NonceKey + [Equals] + Decimal(n) in Pieces(sent, order)
    ensures ParsePayload(Payload(sent, order)) == sent
  {
    PayloadRoundTrip(sent, order);
    NoncePiece(sent, n, order);
  }

  // ---------------------------------------------------------------------------
  // The response envelope

  /** What `query` makes of a response body: with the wrapper, a decoded
      envelope whose success flag is 0 becomes the exchange's error and any
      other flag has its "return" member decoded; without it, the body itself
      is decoded. */
  function Unwrap<R>(body: Bytes, usingWrapp: bool, decodeEnvelope: Decoder<Envelope>, decode: Decoder<R>): Result<R, Failure>
  {
    if !usingWrapp then decode(body)
    else
      match decodeEnvelope(body)
      case Failure(e) => Failure(e)
      case Success(env) => if env.success == 0 then Failure(BuildError(env.errorMsg)) else decode(env.data)
  }

  /** The outcome of a request: a transport error, or the unwrapped body. */
  function Respond<R>(reply: Result<Bytes, Failure>, usingWrapp: bool, decodeEnvelope: Decoder<Envelope>, decode: Decoder<R>): Result<R, Failure>
  {
    match reply
    case Failure(e) => Failure(e)
    case Success(body) => Unwrap(body, usingWrapp, decodeEnvelope, decode)
  }

  /** An envelope with success 0 yields `Error{error}` whatever the payload
      decoder would have done: the "return" member is never decoded. */
  lemma EnvelopeFailureSkipsPayload<R>(body: Bytes, decodeEnvelope: Decoder<Envelope>, d1: Decoder<R>, d2: Decoder<R>)
    requires decodeEnvelope(body).Success? && decodeEnvelope(body).value.success == 0
    ensures Unwrap(body, true, decodeEnvelope, d1) == Failure(ApiError(decodeEnvelope(body).value.errorMsg))
    ensures Unwrap(body, true, decodeEnvelope, d1) == Unwrap(body, true, decodeEnvelope, d2)
  {
  }

  /** Any non-zero success flag, not only 1, has the payload decoded. */
  lemma EnvelopeSuccessDecodesPayload<R>(body: Bytes, decodeEnvelope: Decoder<Envelope>, decode: Decoder<R>)
    requires decodeEnvelope(body).Success? && decodeEnvelope(body).value.success != 0
    ensures Unwrap(body, true, decodeEnvelope, decode) == decode(decodeEnvelope(body).value.data)
  {
  }

  /** An envelope the decoder rejects, or a transport error, is passed through
      unchanged. */
  lemma EnvelopeErrorsPassThrough<R>(reply: Result<Bytes, Failure>, decodeEnvelope: Decoder<Envelope>, decode: Decoder<R>)
    requires reply.Failure? || decodeEnvelope(reply.value).Failure?
    ensures reply.Failure? ==> Respond(reply, true, decodeEnvelope, decode) == Failure(reply.error)
    ensures reply.Success? ==> Respond(reply, true, decodeEnvelope, decode) == Failure(decodeEnvelope(reply.value).error)
  {
  }

  // ---------------------------------------------------------------------------
  // The nonce sequence

  /** The nonce after `n` authenticated calls from `start`. */
  function NonceAfter(start: Int64, n: nat): Int64
  {
    if n == 0 then start else Int64Succ(NonceAfter(start, n - 1))
  }

  /** Until int64 overflows, call i of a client sends start + i, so the nonces
      sent strictly increase. */
  lemma {:induction false} NoncesIncrease(start: Int64, n: nat)
    requires start + n <= MaxInt64
    ensures forall i :: 0 <= i <= n ==> NonceAfter(start, i) == start + i
    ensures forall i, j :: 0 <= i < j <= n ==> NonceAfter(start, i) < NonceAfter(start, j)
  {
    if n > 0 {
      NoncesIncrease(start, n - 1);
    }
  }

  /** At the top of the int64 range the next nonce wraps to the bottom. */
  lemma NonceWraps(start: Int64, n: nat)
    requires start + n == MaxInt64
    ensures NonceAfter(start, n + 1) == MinInt64
  {
    NoncesIncrease(start, n);
  }

  // ---------------------------------------------------------------------------
  // History flattening and order-book levels

  /** The history entries decoded in the order `order` visits them; the first
      entry that fails to decode ends the loop with its error. */
  function Flattened<T>(entries: map<Bytes, Bytes>, order: seq<Bytes>, decode: Decoder<T>): Result<seq<T>, Failure>
    requires forall i :: 0 <= i < |order| ==> order[i] in entries
    decreases |order|
  {
    if order == [] then Success([])
    else
      match Flattened(entries, order[..|order| - 1], decode)
      case Failure(e) => Failure(e)
      case Success(xs) =>
        match decode(entries[order[|order| - 1]])
        case Failure(e) => Failure(e)
        case Success(x) => Success(xs + [x])
  }

  /** Flattening succeeds exactly when every entry decodes, and then yields
      one element per entry, in visiting order; otherwise it fails with the
      error of the first entry, in visiting order, that does not decode. */
  lemma {:induction false} FlattenedOutcome<T>(entries: map<Bytes, Bytes>, order: seq<Bytes>, decode: Decoder<T>)
    requires forall i :: 0 <= i < |order| ==> order[i] in entries
    ensures Flattened(entries, order, decode).Success? <==> forall i :: 0 <= i < |order| ==> decode(entries[order[i]]).Success?
    ensures Flattened(entries, order, decode).Success? ==>
      && |Flattened(entries, order, decode).value| == |order|
      && forall i :: 0 <= i < |order| ==> Flattened(entries, order, decode).value[i] == decode(entries[order[i]]).value
    ensures Flattened(entries, order, decode).Failure? ==>
      exists i :: 0 <= i < |order|
        && decode(entries[order[i]]) == Failure(Flattened(entries, order, decode).error)
        && forall j :: 0 <= j < i ==> decode(entries[order[j]]).Success?
    decreases |order|
  {
    if order != [] {
      var n := |order|;
      var init := order[..n - 1];
      FlattenedOutcome(entries, init, decode);
      assert forall i :: 0 <= i < n - 1 ==> init[i] == order[i];
      var r0 := Flattened(entries, init, decode);
      if r0.Failure? {
        var i :| 0 <= i < |init| && decode(entries[init[i]]) == Failure(r0.error)
          && forall j :: 0 <= j < i ==> decode(entries[init[j]]).Success?;
        assert decode(entries[order[i]]) == Failure(Flattened(entries, order, decode).error);
      }
    }
  }

  /** Once one entry has failed, the entries visited after it do not matter. */
  lemma {:induction false} FlattenedFailureStays<T>(entries: map<Bytes, Bytes>, o1: seq<Bytes>, o2: seq<Bytes>, decode: Decoder<T>)
    requires forall i :: 0 <= i < |o1| ==> o1[i] in entries
    requires forall i :: 0 <= i < |o2| ==> o2[i] in entries
    requires Flattened(entries, o1, decode).Failure?
    ensures Flattened(entries, o1 + o2, decode) == Flattened(entries, o1, decode)
    decreases |o2|
  {
    if o2 != [] {
      var o2init := o2[..|o2| - 1];
      var o := o1 + o2;
      assert o[..|o| - 1] == o1 + o2init;
      FlattenedFailureStays(entries, o1, o2init, decode);
      assert Flattened(entries, o[..|o| - 1], decode).Failure?;
    } else {
      assert o1 + o2 == o1;
    }
  }

  /** The history loop of `TransHistory`, `TradeHistory` and `ActiveOrders`:
      each entry of the map-shaped payload is decoded and appended, in the
      map's iteration order, and the first decoding error is returned with no
      result. `order` is the full iteration order, of which the loop visits a
      prefix when it stops early. */
  method FlattenHistory<T>(entries: map<Bytes, Bytes>, decode: Decoder<T>)
    returns (r: Result<seq<T>, Failure>, ghost order: seq<Bytes>)
    ensures Enumerates(order, entries.Keys)
    ensures r == Flattened(entries, order, decode)
  {
    var resp: seq<T> := [];
    var rest := entries.Keys;
    order := [];
    while rest != {}
      invariant rest <= entries.Keys
      invariant Enumerates(order, entries.Keys - rest)
      invariant Flattened(entries, order, decode) == Success(resp)
      decreases rest
    {
      var k :| k in rest;
      var item := decode(entries[k]);
      assert (order + [k])[..|order|] == order;
      EnumerationStep(order, entries.Keys - rest, k);
      assert (entries.Keys - rest) + {k} == entries.Keys - (rest - {k});
      if item.Failure? {
        ghost var tail := AnyOrder(rest - {k});
        EnumerationsConcat(order + [k], entries.Keys - (rest - {k}), tail, rest - {k});
        assert entries.Keys - (rest - {k}) + (rest - {k}) == entries.Keys;
        FlattenedFailureStays(entries, order + [k], tail, decode);
        order := order + [k] + tail;
        return Failure(item.error), order;
      }
      resp := resp + [item.value];
      order := order + [k];
      rest := rest - {k};
    }
    assert entries.Keys - rest == entries.Keys;
    r := Success(resp);
  }

  /** Every level array of the depth payload has at least a price and an amount. */
  ghost predicate WellShaped<N>(m: map<Bytes, seq<seq<N>>>)
  {
    forall k, i :: k in m && 0 <= i < |m[k]| ==> |m[k][i]| >= 2
  }

  /** Levels decoded positionally: element 0 is the price, element 1 the amount. */
  function Levels<N>(items: seq<seq<N>>): seq<Depth<N>>
    requires forall i :: 0 <= i < |items| ==> |items[i]| >= 2
  {
    seq(|items|, i requires 0 <= i < |items| && |items[i]| >= 2 => Depth(items[i][0], items[i][1]))
  }

  /** One inner loop of `GetDepth`: each level array of `items` is appended
      to `acc` as `Depth{value[0], value[1]}`, in array order. */
  method AppendLevels<N>(acc: seq<Depth<N>>, items: seq<seq<N>>) returns (r: seq<Depth<N>>)
    requires forall i :: 0 <= i < |items| ==> |items[i]| >= 2
    ensures r == acc + Levels(items)
  {
    r := acc;
    var j := 0;
    while j < |items|
      invariant 0 <= j <= |items|
      invariant r == acc + Levels(items[..j])
    {
      var value := items[j];
      r := r + [Depth(value[0], value[1])];
      assert items[..j + 1] == items[..j] + [value];
      j := j + 1;
    }
    assert items[..j] == items;
  }

  /** The asks after the keys of `order` have been visited. */
  function AsksOf<N>(m: map<Bytes, seq<seq<N>>>, order: seq<Bytes>): seq<Depth<N>>
    requires WellShaped(m)
    requires forall i :: 0 <= i < |order| ==> order[i] in m
    decreases |order|
  {
    if order == [] then []
    else
      var k := order[|order| - 1];
      AsksOf(m, order[..|order| - 1]) + if k == AsksKey then Levels(m[k]) else []
  }

  /** The bids after the keys of `order` have been visited: every key other
      than "asks" counts as bids. */
  function BidsOf<N>(m: map<Bytes, seq<seq<N>>>, order: seq<Bytes>): seq<Depth<N>>
    requires WellShaped(m)
    requires forall i :: 0 <= i < |order| ==> order[i] in m
    decreases |order|
  {
    if order == [] then []
    else
      var k := order[|order| - 1];
      BidsOf(m, order[..|order| - 1]) + if k == AsksKey then [] else Levels(m[k])
  }

  /** The asks do not depend on the iteration order: they are the levels under
      "asks", in array order. */
  lemma {:induction false} AsksOrderFree<N>(m: map<Bytes, seq<seq<N>>>, order: seq<Bytes>)
    requires WellShaped(m)
    requires forall i :: 0 <= i < |order| ==> order[i] in m
    requires forall i, j :: 0 <= i < j < |order| ==> order[i] != order[j]
    ensures AsksOf(m, order) == if AsksKey in order then Levels(m[AsksKey]) else []
    decreases |order|
  {
    if order != [] {
      var init := order[..|order| - 1];
      AsksOrderFree(m, init);
      assert order == init + [order[|order| - 1]];
    }
  }

  /** The bids are the levels under the other keys; when the only other key
      is `k` (as "bids" in the exchange's payload), they are k's levels in
      array order, whatever the iteration order. */
  lemma {:induction false} BidsFromOneKey<N>(m: map<Bytes, seq<seq<N>>>, order: seq<Bytes>, k: Bytes)
    requires WellShaped(m)
    requires k != AsksKey
    requires forall i :: 0 <= i < |order| ==> order[i] in m && (order[i] == AsksKey || order[i] == k)
    requires forall i, j :: 0 <= i < j < |order| ==> order[i] != order[j]
    ensures BidsOf(m, order) == if k in order then Levels(m[k]) else []
    decreases |order|
  {
    if order != [] {
      var init := order[..|order| - 1];
      BidsFromOneKey(m, init, k);
      assert order == init + [order[|order| - 1]];
    }
  }

  /** The exchange's order book {"asks": ..., "bids": ...} comes out as its
      two level arrays, for every iteration order. */
  lemma DepthOfAsksAndBids<N>(m: map<Bytes, seq<seq<N>>>, order: seq<Bytes>)
    requires WellShaped(m)
    requires m.Keys == {AsksKey, BidsKey}
    requires Enumerates(order, m.Keys)
    ensures AsksOf(m, order) == Levels(m[AsksKey])
    ensures BidsOf(m, order) == Levels(m[BidsKey])
  {
    AsksOrderFree(m, order);
    assert AsksKey[0] != BidsKey[0];
    BidsFromOneKey(m, order, BidsKey);
  }

  // ---------------------------------------------------------------------------
  // The client

  /** The request `query` sends for the parameters `sent`: the key identifier
      in the clear, the signature over the payload built in iteration order
      `order`, and the parameters as one-element lists. */
  ghost predicate SignedRequest(svc: Services, auth: Auth, sent: map<Bytes, Bytes>, order: seq<Bytes>, request: Request)
  {
    && Enumerates(order, sent.Keys)
    && request.key == auth.accessKey
    && request.sign == SignatureOf(svc.hmac, auth.secretKey, Payload(sent, order))
    && request.form.Keys == sent.Keys
    && (forall k :: k in request.form ==> request.form[k] == [sent[k]])
  }

  /** `request` is what `query` sends for `sent`, for some iteration order
      of the signer's loop. */
  ghost predicate Signed(svc: Services, auth: Auth, sent: map<Bytes, Bytes>, request: Request)
  {
    exists order :: SignedRequest(svc, auth, sent, order, request)
  }

  /** `Btce`: the credentials and the nonce of the last signed request. */
  class Btce {
    const auth: Auth
    var nonce: Int64

    /** `New`: the nonce starts at the given Unix time. */
    constructor New(auth: Auth, now: Int64)
      ensures this.auth == auth && nonce == now
    {
      this.auth := auth;
      nonce := now;
    }

    /** `query`: the nonce is advanced and stored in `params` before anything
        is sent, so it advances even when the call then fails; the parameters
        are signed, sent, and the response unwrapped. `sent` is `params` as
        `query` leaves it, and `order` the order in which the signer visited it. */
    method Query<R>(svc: Services, params: map<Bytes, Bytes>, decode: Decoder<R>, usingWrapp: bool)
      returns (r: Result<R, Failure>, ghost sent: map<Bytes, Bytes>, ghost request: Request, ghost order: seq<Bytes>)
      requires svc.Valid()
      modifies this
      ensures nonce == Int64Succ(old(nonce))
      ensures sent == params[NonceKey := Decimal(nonce)]
      ensures SignedRequest(svc, auth, sent, order, request)
      ensures r == Respond(svc.send(request), usingWrapp, svc.decodeEnvelope, decode)
    {
      nonce := Int64Succ(nonce);
      var p := params[NonceKey := Decimal(nonce)];
      sent := p;
      var s;
      s, order := NewSign(svc.unreserved, svc.hmac, auth, p);
      var form := Multimap(p);
      var req := Request(form, s.key, s.signature);
      request := req;
      assert SignedRequest(svc, auth, sent, order, request);
      var reply := svc.send(req);
      r := Respond(reply, usingWrapp, svc.decodeEnvelope, decode);
    }

    /** `n` successive calls of `query` on one client: the nonce ends `n`
        int64 steps after where it was, so call i has signed and sent
        NonceAfter(old(nonce), i), and as long as int64 does not overflow
        that is old(nonce) + n. */
    method QueryRepeatedly<R>(svc: Services, params: map<Bytes, Bytes>, decode: Decoder<R>, usingWrapp: bool, n: nat)
      requires svc.Valid()
      modifies this
      ensures nonce == NonceAfter(old(nonce), n)
      ensures old(nonce) + n <= MaxInt64 ==> nonce == old(nonce) + n
    {
      ghost var start := nonce;
      var i := 0;
      while i < n
        invariant 0 <= i <= n
        invariant nonce == NonceAfter(start, i)
      {
        var r;
        ghost var sent, request, signOrder;
        r, sent, request, signOrder := Query(svc, params, decode, usingWrapp);
        i := i + 1;
      }
      if start + n <= MaxInt64 {
        NoncesIncrease(start, n);
      }
    }

    /** `GetInfo`. */
    method GetInfo<R>(svc: Services, decode: Decoder<R>)
      returns (r: Result<R, Failure>, ghost sent: map<Bytes, Bytes>, ghost request: Request)
      requires svc.Valid()
      modifies this
      ensures nonce == Int64Succ(old(nonce))
      ensures sent == map[MethodKey := Ascii("getInfo"), NonceKey := Decimal(nonce)]
      ensures Signed(svc, auth, sent, request)
      ensures r == Respond(svc.send(request), true, svc.decodeEnvelope, decode)
    {
      var params := MakeParams(Ascii("getInfo"));
      ghost var signOrder;
      r, sent, request, signOrder := Query(svc, params, decode, true);
    }

    /** The common body of the three history endpoints: an optional options
        record, the signed call, and the map-shaped payload flattened. */
    method History<T>(svc: Services, action: Bytes, option: Option<map<Bytes, Bytes>>,
                      decodeEntries: Decoder<map<Bytes, Bytes>>, decodeItem: Decoder<T>)
      returns (r: Result<seq<T>, Failure>, ghost sent: map<Bytes, Bytes>, ghost request: Request, ghost order: seq<Bytes>)
      requires svc.Valid()
      modifies this
      ensures nonce == Int64Succ(old(nonce))
      ensures sent == (if option.Some? then MakeParams(action) + option.value else MakeParams(action))[NonceKey := Decimal(nonce)]
      ensures Signed(svc, auth, sent, request)
      ensures match Respond(svc.send(request), true, svc.decodeEnvelope, decodeEntries)
        case Failure(e) => r == Failure(e)
        case Success(entries) => Enumerates(order, entries.Keys) && r == Flattened(entries, order, decodeItem)
    {
      var params := MakeParams(action);
      if option.Some? {
        params := AddOptions(params, option.value);
      }
      var resp;
      ghost var signOrder;
      resp, sent, request, signOrder := Query(svc, params, decodeEntries, true);
      if resp.Failure? {
        order := [];
        return Failure(resp.error), sent, request, order;
      }
      r, order := FlattenHistory(resp.value, decodeItem);
    }

    /** `TransHistory`. */
    method TransHistory<T>(svc: Services, option: Option<map<Bytes, Bytes>>,
                           decodeEntries: Decoder<map<Bytes, Bytes>>, decodeItem: Decoder<T>)
      returns (r: Result<seq<T>, Failure>, ghost sent: map<Bytes, Bytes>, ghost request: Request, ghost order: seq<Bytes>)
      requires svc.Valid()
      modifies this
      ensures nonce == Int64Succ(old(nonce))
      ensures sent == (if option.Some? then MakeParams(Ascii("TransHistory")) + option.value else MakeParams(Ascii("TransHistory")))[NonceKey := Decimal(nonce)]
      ensures Signed(svc, auth, sent, request)
      ensures match Respond(svc.send(request), true, svc.decodeEnvelope, decodeEntries)
        case Failure(e) => r == Failure(e)
        case Success(entries) => Enumerates(order, entries.Keys) && r == Flattened(entries, order, decodeItem)
    {
      r, sent, request, order := History(svc, Ascii("TransHistory"), option, decodeEntries, decodeItem);
    }

    /** `TradeHistory`. */
    method TradeHistory<T>(svc: Services, option: Option<map<Bytes, Bytes>>,
                           decodeEntries: Decoder<map<Bytes, Bytes>>, decodeItem: Decoder<T>)
      returns (r: Result<seq<T>, Failure>, ghost sent: map<Bytes, Bytes>, ghost request: Request, ghost order: seq<Bytes>)
      requires svc.Valid()
      modifies this
      ensures nonce == Int64Succ(old(nonce))
      ensures sent == (if option.Some? then MakeParams(Ascii("TradeHistory")) + option.value else MakeParams(Ascii("TradeHistory")))[NonceKey := Decimal(nonce)]
      ensures Signed(svc, auth, sent, request)
      ensures match Respond(svc.send(request), true, svc.decodeEnvelope, decodeEntries)
        case Failure(e) => r == Failure(e)
        case Success(entries) => Enumerates(order, entries.Keys) && r == Flattened(entries, order, decodeItem)
    {
      r, sent, request, order := History(svc, Ascii("TradeHistory"), option, decodeEntries, decodeItem);
    }

    /** `ActiveOrders`. */
    method ActiveOrders<T>(svc: Services, option: Option<map<Bytes, Bytes>>,
                           decodeEntries: Decoder<map<Bytes, Bytes>>, decodeItem: Decoder<T>)
      returns (r: Result<seq<T>, Failure>, ghost sent: map<Bytes, Bytes>, ghost request: Request, ghost order: seq<Bytes>)
      requires svc.Valid()
      modifies this
      ensures nonce == Int64Succ(old(nonce))
      ensures sent == (if option.Some? then MakeParams(Ascii("ActiveOrders")) + option.value else MakeParams(Ascii("ActiveOrders")))[NonceKey := Decimal(nonce)]
      ensures Signed(svc, auth, sent, request)
      ensures match Respond(svc.send(request), true, svc.decodeEnvelope, decodeEntries)
        case Failure(e) => r == Failure(e)
        case Success(entries) => Enumerates(order, entries.Keys) && r == Flattened(entries, order, decodeItem)
    {
      r, sent, request, order := History(svc, Ascii("ActiveOrders"), option, decodeEntries, decodeItem);
    }

    /** `Trade`: a nil request is refused with an `Error` before anything is
        signed or sent, so the nonce does not move. */
    method Trade<R>(svc: Services, option: Option<map<Bytes, Bytes>>, decode: Decoder<R>)
      returns (r: Result<R, Failure>, ghost sent: map<Bytes, Bytes>, ghost request: Request)
      requires svc.Valid()
      modifies this
      ensures option.None? ==> r == Failure(ApiError(TradeNilMessage)) && nonce == old(nonce)
      ensures option.Some? ==>
        && nonce == Int64Succ(old(nonce))
        && sent == (MakeParams(Ascii("Trade")) + option.value)[NonceKey := Decimal(nonce)]
        && Signed(svc, auth, sent, request)
        && r == Respond(svc.send(request), true, svc.decodeEnvelope, decode)
    {
      var params := MakeParams(Ascii("Trade"));
      if option.Some? {
        params := AddOptions(params, option.value);
      } else {
        sent, request := map[], Request(map[], [], []);
        return Failure(ApiError(TradeNilMessage)), sent, request;
      }
      ghost var signOrder;
      r, sent, request, signOrder := Query(svc, params, decode, true);
    }

    /** `CancelOrder`: the order id is sent as its decimal text. */
    method CancelOrder<R>(svc: Services, orderId: Int64, decode: Decoder<R>)
      returns (r: Result<R, Failure>, ghost sent: map<Bytes, Bytes>, ghost request: Request)
      requires svc.Valid()
      modifies this
      ensures nonce == Int64Succ(old(nonce))
      ensures sent == map[MethodKey := Ascii("CancelOrder"), OrderIdKey := Decimal(orderId), NonceKey := Decimal(nonce)]
      ensures Signed(svc, auth, sent, request)
      ensures r == Respond(svc.send(request), true, svc.decodeEnvelope, decode)
    {
      var params := MakeParams(Ascii("CancelOrder"));
      params := params[OrderIdKey := Decimal(orderId)];
      ghost var signOrder;
      r, sent, request, signOrder := Query(svc, params, decode, true);
    }

    /** `GetDepth`: the public depth document decoded as a map of level
        arrays; the levels under "asks" go to the asks in array order and the
        levels under every other key go to the bids, key by key in the map's
        iteration order. No nonce is used. */
    method GetDepth<N>(svc: Services, pair: Bytes, decode: Decoder<map<Bytes, seq<seq<N>>>>)
      returns (r: Result<DepthResponse<N>, Failure>, ghost order: seq<Bytes>)
      requires forall body :: decode(body).Success? ==> WellShaped(decode(body).value)
      ensures svc.get(pair, DepthAction).Failure? ==> r == Failure(svc.get(pair, DepthAction).error)
      ensures svc.get(pair, DepthAction).Success? && decode(svc.get(pair, DepthAction).value).Failure? ==>
        r == Failure(decode(svc.get(pair, DepthAction).value).error)
      ensures svc.get(pair, DepthAction).Success? && decode(svc.get(pair, DepthAction).value).Success? ==>
        var m := decode(svc.get(pair, DepthAction).value).value;
        && Enumerates(order, m.Keys)
        && r == Success(DepthResponse(AsksOf(m, order), BidsOf(m, order)))
    {
      order := [];
      var reply := svc.get(pair, DepthAction);
      if reply.Failure? {
        return Failure(reply.error), order;
      }
      var decoded := decode(reply.value);
      if decoded.Failure? {
        return Failure(decoded.error), order;
      }
      var m := decoded.value;
      var asks: seq<Depth<N>> := [];
      var bids: seq<Depth<N>> := [];
      var rest := m.Keys;
      while rest != {}
        invariant rest <= m.Keys
        invariant Enumerates(order, m.Keys - rest)
        invariant asks == AsksOf(m, order) && bids == BidsOf(m, order)
        decreases rest
      {
        var key :| key in rest;
        assert (order + [key])[..|order|] == order;
        if key == AsksKey {
          asks := AppendLevels(asks, m[key]);
        } else {
          bids := AppendLevels(bids, m[key]);
        }
        EnumerationStep(order, m.Keys - rest, key);
        assert (m.Keys - rest) + {key} == m.Keys - (rest - {key});
        order := order + [key];
        rest := rest - {key};
      }
      assert m.Keys - rest == m.Keys;
      r := Success(DepthResponse(asks, bids));
    }
  }
}
