# jsonrpc-types envelope, modelled in Dafny

`jsonrpc-types` defines the envelope of a JSON-RPC message and nothing else.
It covers a protocol version tag (`"1.0"` or `"2.0"`), a header that carries
the tag and an optional numeric `id`, a request that flattens the header and
a caller's payload into one JSON object, and a response whose payload is a
body holding an optional `result` and an optional `error`. The crate has no
hand-written codec. The wire format comes from serde's derive and its
`rename`, `flatten` and `skip_serializing_if` attributes. This project writes
that format out as explicit encode and decode functions over a JSON value
type and proves its shape and round-trip properties.

Files:

- `wrappers.dfy` (module `Wrappers`): `Option` and `Result`.
- `serde_json.dfy` (module `SerdeJson`): the JSON value (`Null`, `Bool`,
  integer `Number`, `String`, `Array`, `Object` over `map<string, Value>`)
  and the kinds of decode and encode errors.
- `jsonrpc.dfy` (module `JsonRpc`): the envelope types, their constructors,
  the codecs and the lemmas.

Payload types `T`, `R` and `E` are type parameters. Their serde
implementations are not part of this model. Each codec is passed in as an
encoder `X -> Value` and a decoder `Value -> Result<X, DecodeError>`. What a
property needs of those codecs is written as a ghost predicate:

- `RoundTrips`: the decoder inverts the encoder.
- `NeverNull`: the encoder never produces `null`.
- `FlattensBesideHeader`: the encoder produces an object whose keys avoid
  `jsonrpc` and `id`, and the decoder inverts it.

The wire rules that the model writes out:

- `Version` is the string `"1.0"` or `"2.0"`. Any other string fails as an
  unknown variant, and a non-string fails as well.
- The header always emits both `jsonrpc` and `id`. An absent id is `null`.
  On decoding, a missing `jsonrpc` fails. A missing or `null` `id` is an
  absent id. An `id` that is negative or above the 64-bit `usize` maximum
  fails. Keys other than these two are ignored.
- A request is encoded as the header's entries plus the payload's entries
  in one object. If both have the same key, the payload's value is kept,
  as `serde_json::to_value` does. A payload that encodes to `null` adds no
  entries. A payload that encodes to anything other than an object or
  `null` cannot be flattened, and encoding fails.
- A request is decoded by reading the header from `jsonrpc` and `id` and
  giving the rest of the object to the payload decoder. This is how serde's
  flattening works: the header claims its two keys first. If instead the
  payload decoder saw the whole object, the result would be the same
  whenever that decoder ignores `jsonrpc` and `id`.
- A response body emits `result` only when there is a result and `error`
  only when there is an error. An absent field is never written as `null`.
  On decoding, each key is read on its own, and a missing key or a `null`
  gives an absent field. Nothing checks that exactly one is present.
- `JsonRpcResponse` is a transparent newtype around a request whose payload
  is a response body.

## Model

| member | source | states |
|---|---|---|
| `JsonRpc.EncodeVersion` | src/lib.rs:1-7 | `One` is written as the string `"1.0"` and `Two` as `"2.0"`, and nothing else is ever written |
| `JsonRpc.DecodeVersion` | src/lib.rs:1-7 | only `"1.0"` and `"2.0"` decode, each to the variant that encodes to it; any other string is an unknown variant, and a non-string fails |
| `JsonRpc.VersionRoundTrip` | src/lib.rs:2-7 | decoding an encoded version gives the same version |
| `JsonRpc.VersionWire` | src/lib.rs:87-105 | `One` is `"1.0"` and `Two` is `"2.0"` on the wire, in both directions |
| `JsonRpc.Header.V1` | src/lib.rs:16-21 | `Header::v1(id)` has version `One` and keeps `id` unchanged, whether present or not |
| `JsonRpc.Header.V2` | src/lib.rs:23-28 | `Header::v2(id)` has version `Two` and keeps `id` unchanged |
| `JsonRpc.EncodeId` | src/lib.rs:12 | an absent id is written as `null` and a present id as that number |
| `JsonRpc.DecodeId` | src/lib.rs:12 | `null` is an absent id and an integer from 0 to the `usize` maximum is that id; everything else fails; a decoded id re-encodes to the input |
| `JsonRpc.IdRoundTrip` | src/lib.rs:12 | decoding an encoded id gives the same id, present or absent |
| `JsonRpc.EncodeHeader` | src/lib.rs:9-13 | the header encodes to an object with exactly the keys `jsonrpc` and `id`; `jsonrpc` holds the version's tag, and `id` is `null` exactly when the id is absent and the id's number otherwise |
| `JsonRpc.DecodeHeaderFields` | src/lib.rs:9-13 | a missing `jsonrpc` is a missing-field error; decoding succeeds exactly when `jsonrpc` decodes as a version and `id` is missing or decodes as an id; on success the version comes from `jsonrpc`, the id from `id`, and a missing `id` is an absent id |
| `JsonRpc.DecodeHeader` | src/lib.rs:9-13 | a non-object fails with a type error; an object without `jsonrpc` fails with a missing-field error; on success `jsonrpc` holds the tag of the decoded version |
| `JsonRpc.HeaderRoundTrip` | src/lib.rs:9-13 | decoding an encoded header gives the same header |
| `JsonRpc.DecodeHeaderExactly` | src/lib.rs:9-13 | an object decodes to header `h` if and only if its `jsonrpc` is `h`'s encoded tag and its `id` is `h`'s encoded id, or is missing while `h` has no id |
| `JsonRpc.HeaderWire` | src/lib.rs:126-146 | `v2(Some(42))` encodes to `{"jsonrpc":"2.0","id":42}` and `v1(None)` to `{"jsonrpc":"1.0","id":null}`; `{"jsonrpc":"1.0","id":123}` decodes to `v1(Some(123))` and `{"jsonrpc":"2.0","id":null}` to `v2(None)`; tag `"3.0"` is an unknown variant |
| `JsonRpc.Flatten` | src/lib.rs:35-36 | a flattened payload contributes an object's entries, or none for `null`; any other value cannot be flattened |
| `JsonRpc.EncodeRequest` | src/lib.rs:31-37 | encoding succeeds exactly when the payload flattens; the result is one object whose keys are the header's and the payload's, with the payload's values and the header's values on the header keys the payload lacks |
| `JsonRpc.DecodeRequest` | src/lib.rs:31-37 | decoding succeeds exactly when the input is an object whose header decodes and whose entries other than `jsonrpc` and `id` decode as the payload; the parts of the result are those two decodings |
| `JsonRpc.RequestRoundTrip` | src/lib.rs:148-177 | for a payload that flattens beside the header, the encoding is the union of the header object and the payload object, and decoding it gives back the same request |
| `JsonRpc.Response.FromResult` | src/lib.rs:67-72 | `Response::result(r)` has `result == Some(r)` and no error |
| `JsonRpc.Response.FromError` | src/lib.rs:74-79 | `Response::error(e)` has `error == Some(e)` and no result |
| `JsonRpc.EncodeResponse` | src/lib.rs:58-64 | the body encodes to an object with no keys but `result` and `error`; each key is present exactly when its field is, and holds that field's encoding |
| `JsonRpc.DecodeOptional` | src/lib.rs:60-63 | a missing key or `null` is an absent field; any other value is present: it fails exactly when the decoder fails, and otherwise gives `Some` of the decoded value |
| `JsonRpc.DecodeResponse` | src/lib.rs:58-64 | a non-object fails; an object decodes exactly when its `result` and `error` entries decode on their own, with no check between the two |
| `JsonRpc.ResponseOmitsAbsent` | src/lib.rs:258-269 | a result-only body is `{"result": …}` with no `error` key, an error-only body is `{"error": …}` with no `result` key, and a body with neither is `{}` |
| `JsonRpc.ResponseRoundTrip` | src/lib.rs:58-64 | with codecs that round-trip and never emit `null`, every body decodes back to itself, including bodies with both fields or neither |
| `JsonRpc.ResponseDecodeIsLenient` | src/lib.rs:58-64 | an object holding both `result` and `error` decodes to a body with both, and `{}` to a body with neither |
| `JsonRpc.NullResultIsLost` | src/lib.rs:60-61 | a result whose encoding is `null`, such as a unit result, decodes back as no result |
| `JsonRpc.JsonRpcResponse.FromResult` | src/lib.rs:43-48 | `JsonRpcResponse::result(h, r)` keeps header `h` and has body `Response::result(r)` |
| `JsonRpc.JsonRpcResponse.FromError` | src/lib.rs:50-55 | `JsonRpcResponse::error(h, e)` keeps header `h` and has body `Response::error(e)` |
| `JsonRpc.EncodeJsonRpcResponse` | src/lib.rs:39-40 | a response always encodes, to one object holding the header's two entries and the body's entries |
| `JsonRpc.DecodeJsonRpcResponse` | src/lib.rs:39-40 | a response decodes exactly as a request whose payload is a body; the header comes from `jsonrpc`/`id` and the body from the other entries |
| `JsonRpc.ResultResponseWire` | src/lib.rs:179-205 | `result(h, r)` encodes to `h`'s two keys plus `result` and no `error`; decoding that object gives back `h` and `r`, whatever decoder the error type has |
| `JsonRpc.ErrorResponseWire` | src/lib.rs:207-245 | `error(h, e)` encodes to `h`'s two keys plus `error` and no `result`; decoding that object gives back `h` and `e`, whatever decoder the result type has |
| `JsonRpc.JsonRpcResponseRoundTrip` | src/lib.rs:39-56 | with result and error codecs that round-trip and never emit `null`, every response decodes back to itself |

## Left out

- JSON text is not modelled: lexing, printing, string escaping and number formatting belong to `serde_json`. Numbers are integers only, so floating-point values are not modelled.
- serde's derived decoders also accept a JSON array for a struct (such as `["1.0", 1]` for a header) and a one-entry map for a unit variant. Only the object and string forms are modelled.
- Which error is reported when several things are wrong is not modelled faithfully. serde reads the keys that are present in the order it meets them: the order of the text for `from_str`, the map's order for `from_value`. It reports the first bad value it meets, and a missing field only after all present keys were read. So `{"id": true}` fails on `id` in serde, but with a missing-field error for `jsonrpc` in the model. The model checks a missing `jsonrpc` first, then `jsonrpc`'s value, then `id`, and `result` before `error`. Error messages are reduced to their kind.
- Duplicate keys in JSON text are not modelled, because an object is a map.
- Payload keys that collide with `jsonrpc` or `id` are not given a meaning. Encoding keeps the payload's value, and no round-trip is claimed for such payloads.
- The `usize` bound is that of a 64-bit target. 32-bit targets are not modelled.
- The derived `Clone`, `Debug` and `PartialEq` implementations are not modelled. Equality is Dafny's structural equality.
- JsonRpc.ResponseRoundTrip: the round trip holds only for codecs that never emit `null`. Otherwise serde decodes an explicit `null` as an absent field, and `JsonRpc.NullResultIsLost` states what is then read back.
