# btcego signing and envelope core, in Dafny

A model of the request-signing core of btcego, a Go client for the BTC-e
exchange API, and of the response shaping around it:

- `sign.go` — the package's table of unreserved characters and its `init`,
  the byte-level percent-encoder `Encode` (section 2.3 and 2.1 of RFC 3986:
  unreserved bytes are copied, every other byte, including bytes above 127,
  becomes `%` and two upper-case hex digits), and `NewSign`, which joins
  `Encode(k)=Encode(v)` pieces with `&` and signs the payload with
  HMAC-SHA512 (RFC 2104), lower-case hex.
- `api.go` — the `Btce` client object with its int64 nonce, `query` (nonce
  step, signing, the `{success, error, return}` envelope), `makeParams`,
  `multimap`, `addOptions`, `buildError`, the authenticated endpoints
  (`GetInfo`, `TransHistory`, `TradeHistory`, `ActiveOrders`, `Trade`,
  `CancelOrder`) and the public `GetDepth`.

Files:

- `wrappers.dfy` — `Option` (a pointer that may be nil) and `Result` (a Go
  `(value, error)` return).
- `go.dfy` (module `Go`) — Go strings as byte sequences, int64 with its
  wrap-around, `range` over a map as any enumeration of its keys
  (`Enumerates`), and the standard-library functions the core calls:
  `fmt.Sprint` of an integer (`Decimal`), `strings.Join`,
  `hex.EncodeToString` (`HexEncode`), `strings.ToLower`. Reference
  functions the core does not call (`ParseDecimal`, `HexDecode`, and
  `Split`, Go's `strings.Split`) state what these promise by inverting them.
- `sign.dfy` (module `Signer`) — `sign.go`.
- `api.dfy` (module `Api`) — `api.go`.

Imperative code stays imperative: `Encode` keeps its two scan loops, its
`3 * len(s)` byte buffer and write index; `init`, `NewSign`, `multimap`,
`addOptions`, the history loop and `GetDepth` are loops; `Btce` is a class
whose `nonce` field `Query` updates. Each loop is proved against a function
(`Encoded`, `Pieces`/`Payload`, `Flattened`, `AsksOf`/`BidsOf`), and the
properties are proved about those functions.

Go map iteration order is unspecified. Every loop over a map picks its next
key with `:|` from the keys not yet visited. The loops whose result depends
on that order (`NewSign`, `Query`, the history loop, `GetDepth`) return, as a
ghost out-parameter, the order they used; their contracts hold for that
order whatever it is, and the lemmas are stated for every enumeration of the
keys. `multimap` and `addOptions` give the same map in every order, and
their contracts say so without one.

Collaborators the core does not implement are parameters (`Api.Services`
and the per-endpoint decoders): HMAC-SHA512 is `hmac: (key, message) ->
64-byte digest`; the signed POST is `send: Request -> Result<body, error>`;
the public GET is `get: (pair, action) -> Result<body, error>`; each JSON
decoder is a function `Bytes -> Result<T, Failure>`; the clock that seeds the
nonce is the constructor's `now`.

Two points where the code is followed as written:

- The POST body is not built with `Encode`: `query` encodes
  `multimap(params)` with `url.Values.Encode` (sorted keys, `+` for a space)
  and posts that text, which it also measures for `Content-Length`. The
  model's `Request` carries the url.Values, and that encoding is left out.
- The signed payload is built in map iteration order, so two calls with the
  same parameters may sign different payloads; the model records that order
  and proves that every order yields a payload that reads back as the same
  parameter map (`Signer.PayloadRoundTrip`).

## Model

| member | source | states |
|---|---|---|
| `Signer.UnreservedLiteralExact` | sign.go:15 | a character is in the `init` literal exactly when it is an RFC 3986 unreserved character; the duplicated '0' changes nothing |
| `Signer.InitUnreserved` | sign.go:10-19 | the 128-entry table holds true exactly for A–Z, a–z, 0–9, '-', '_', '.', '~' |
| `Signer.Encode` | sign.go:23-50 | both loops as written (early return of `s`, the `3*len(s)` buffer and index `ei`, in bounds) compute the byte-by-byte encoding `Encoded(s)` |
| `Signer.PutEscape` | sign.go:40-43 | the three writes of an escape put '%' and the two digits of the byte after the bytes already written, which stay as they were |
| `Signer.EncodedAppend` | sign.go:37-48 | the encoding is per byte: encoding a concatenation concatenates the encodings |
| `Signer.EncodedUnchanged` | sign.go:24-34 | `Encode(s) == s` exactly when every byte is unreserved ASCII, the empty string included |
| `Signer.EncodedLength` | sign.go:35-49 | `len(s) <= len(Encode(s)) <= 3*len(s)`, with equality on the left exactly when nothing is escaped |
| `Signer.EncodedAlphabet` | sign.go:37-48 | the output holds only unreserved bytes, '%' and upper-case hex digits; it is ASCII and contains no '=' and no '&' |
| `Signer.EscapedByte` | sign.go:39-43 | a byte above 127 or not unreserved becomes '%', `charsTof[c>>4]`, `charsTof[c&0xF]`, whose digits spell `c` |
| `Signer.EncodedRoundTrip` | sign.go:37-48 | percent-decoding the output gives back the input, so the encoding is injective |
| `Signer.EncodedInjective` | sign.go:23-50 | distinct strings have distinct encodings |
| `Signer.NewSign` | sign.go:57-67 | for the order in which the map was iterated, the signature is the lower-cased hex of HMAC(secret, pieces joined by '&'), and the key is `AccessKey` unchanged |
| `Signer.PieceRoundTrip` | sign.go:60 | a piece `Encode(k)=Encode(v)` has exactly one '=', no '&', and splits back into `(k, v)` |
| `Signer.PayloadRoundTrip` | sign.go:58-62 | for every iteration order: one piece per parameter, splitting on '&' recovers the pieces, each piece has exactly one '=', and parsing the payload gives back the parameter map |
| `Signer.SignatureShape` | sign.go:63-66 | the signature is 128 lower-case hex digits that decode to the 64-byte digest, and it equals the plain hex encoding of the digest, so `ToLower` changes nothing |
| `Go.HexEncodeShape` | sign.go:65 | hex encoding doubles the length, uses only 0-9a-f and decodes back to the digest |
| `Go.ToLowerOfHex` | sign.go:65 | lower-casing hex text is the identity |
| `Go.SplitJoin` | sign.go:62 | splitting a join on the separator recovers the parts when no part contains it |
| `Go.EnumerationSize` | sign.go:59 | an iteration order of a map visits exactly as many keys as the map has |
| `Go.Int64Succ` | api.go:60 | `nonce + 1` on int64 is n + 1 below the maximum |
| `Go.Int64SuccModular` | api.go:60 | `nonce + 1` on int64 is n + 1 modulo 2^64 in two's complement, for every n, the maximum included |
| `Go.DecimalRoundTrip` | api.go:61 | `fmt.Sprint` of an integer is digits with at most a leading '-', and reads back as the same number |
| `Go.DecimalInjective` | api.go:61 | distinct nonces are sent as distinct texts |
| `Api.Btce.New` | api.go:39-41 | the client keeps the credentials and starts its nonce at the given time |
| `Api.Btce.Query` | api.go:59-103 | the nonce advances by one (int64) before any I/O, whatever the outcome; `params` gains exactly `nonce` = decimal of the new nonce; the request carries the key, the signature of those parameters in the order the signer visited them, and `multimap` of them; the result is the unwrapped reply |
| `Api.Btce.QueryRepeatedly` | api.go:59-61 | after n calls of `query` on one client the nonce is `NonceAfter(old, n)`: n int64 steps on, which is old + n short of overflow |
| `Api.NoncesIncrease` | api.go:60 | until int64 overflow, call i sends start + i, so nonces strictly increase |
| `Api.NonceWraps` | api.go:60 | past 2^63-1 the nonce wraps to -2^63 |
| `Api.NonceTextUnescaped` | api.go:61 | the nonce text passes through the signer's encoder unchanged |
| `Api.NoncePiece` | api.go:61-62 | the signed payload contains the piece `nonce=<decimal>` |
| `Api.SignedPayloadOfQuery` | api.go:60-62 | the payload `query` signs has one piece per parameter, including the nonce, and reads back as the parameters sent |
| `Api.EnvelopeFailureSkipsPayload` | api.go:94-96 | success 0 yields `Error{error}` whatever the payload decoder does: `return` is never decoded |
| `Api.EnvelopeSuccessDecodesPayload` | api.go:97 | any non-zero success flag, not only 1, has `return` decoded into the response |
| `Api.EnvelopeErrorsPassThrough` | api.go:78-93 | a transport error, or an envelope that fails to decode, is returned as is |
| `Api.Multimap` | api.go:119-125 | same keys as the input, each mapped to the one-element list of its value |
| `Api.BuildError` | api.go:127-129 | the message is wrapped as an `Error` carrying it |
| `Api.MakeParams` | api.go:131-135 | the only key is "method", mapped to the action |
| `Api.AddOptions` | api.go:137-145 | the option's fields are stored over the parameters in any order: the result is the parameters overridden by the fields, nothing else changes |
| `Api.Btce.GetInfo` | api.go:181-188 | sends exactly `method=getInfo` and the new nonce, signed; the result is the unwrapped reply |
| `Api.FlattenHistory` | api.go:228-236 | in the map's iteration order, decodes and appends each entry; the first decoding error is returned with no result |
| `Api.FlattenedOutcome` | api.go:229-236 | success exactly when every entry decodes, then one element per entry in visiting order; otherwise the error of the first failing entry |
| `Api.FlattenedFailureStays` | api.go:231-233 | after the first failure, later entries do not change the outcome |
| `Api.Btce.History` | api.go:219-237 | the three history endpoints: `method`, the option's fields if present, the nonce; the envelope error or the flattened payload |
| `Api.Btce.TransHistory` | api.go:219-237 | `History` with method "TransHistory" |
| `Api.Btce.TradeHistory` | api.go:271-289 | `History` with method "TradeHistory" |
| `Api.Btce.ActiveOrders` | api.go:308-326 | `History` with method "ActiveOrders" |
| `Api.Btce.Trade` | api.go:347-359 | a nil request yields `Error{"TradeRequest is nil."}` and leaves the nonce unchanged; otherwise `method=Trade` plus the fields, signed and sent |
| `Api.Btce.CancelOrder` | api.go:367-375 | sends exactly `method=CancelOrder`, `order_id` = decimal of the id, and the nonce |
| `Api.Btce.GetDepth` | api.go:448-471 | transport and decoding errors are returned; otherwise, in the map's iteration order, levels under "asks" go to `Asks` and those under every other key to `Bids`, each as `Depth{value[0], value[1]}` |
| `Api.AppendLevels` | api.go:456-466 | one inner loop appends each level array as `Depth{value[0], value[1]}`, in array order |
| `Api.AsksOrderFree` | api.go:455-460 | the asks are the "asks" levels in array order, whatever the iteration order |
| `Api.BidsFromOneKey` | api.go:461-466 | every key other than "asks" feeds the bids; with one such key they are its levels in array order |
| `Api.DepthOfAsksAndBids` | api.go:454-468 | `{"asks": A, "bids": B}` yields asks A and bids B, positionally decoded, for every iteration order |

## Left out

- HTTP transport (request construction, headers `Key`, `Sign`, `Content-Type`, `Content-Length`, `client.Do`, `http.Get`, closing the body, URL formatting): I/O, given as the `send` and `get` parameters. `http.NewRequest` can only fail on a bad method or URL, both constants here, so that error path is not modelled.
- The text of the POST body, which `query` computes with `url.Values.Encode` (api.go:69, and again for `Content-Length` at api.go:76): standard-library form encoding; the request carries the url.Values.
- HMAC-SHA512 and the digest bytes: foreign cryptography, given as the `hmac` parameter.
- JSON encoding and decoding, including the marshal round trip, `omitempty` and `fmt.Sprint` of the option values inside `addOptions`: library behaviour. Decoders are parameters; `AddOptions` takes the option's fields already as text.
- The float64 fields of the response types and the response structs themselves (`Funds`, `GetInfoResponse`, `TransOrder`, …): plain records filled by the decoder, modelled as type parameters.
- `time.Now().Unix()` in `New`: a clock; the seed is the `now` parameter.
- The `debug` printing branch, which a constant switches off, and `Error.Error()`'s `fmt.Sprintf` text.
- The panics of `GetDepth` on payloads that are not arrays of arrays of at least two numbers: `GetDepth` requires a decoder that yields well-shaped levels.
- `queryWoAuth`'s URL building and the other public endpoints (`GetFee`, `GetTicker`, `GetTrades`): plain GET-and-decode glue with no logic beyond what `GetDepth` shows.
- The aliasing of `params`: `query` writes the nonce into the caller's map; the model returns that map as the ghost `sent`.
- `Api.Btce.Trade`: for a nil request the ghost `sent` and `request` are placeholders, since nothing is sent.
- `Go.ToLower`: only the ASCII case mapping of `strings.ToLower` is modelled, because the only text it is applied to is hex.
- The package-level `unreserved` table is passed to the signer in `Services` instead of being a global.
- Concurrent use of one client (a race on `nonce`): the code has no locking and the model is sequential.
- example/main.go: a usage demo that calls the network.
