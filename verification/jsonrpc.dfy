/**
 * The JSON-RPC message envelope of `jsonrpc-types` (src/lib.rs) and the wire
 * encoding its serde attributes give it: version tags, a header that always
 * carries `jsonrpc` and `id`, a payload flattened beside the header, and a
 * response body that emits only the fields that are present.
 *
 * Payload types stay type parameters. Their codecs are passed in as an
 * encoder `X -> Value` and a decoder `Value -> Result<X, DecodeError>`, and
 * what a property needs of them is stated as a ghost predicate below.
 */
module JsonRpc {
  import opened Wrappers
  import opened SerdeJson

  // ---------------------------------------------------------------------
  // Data model
  // ---------------------------------------------------------------------

  /** The protocol version tag: "1.0" or "2.0" on the wire. */
  datatype Version = One | Two

  /** Largest `usize` on a 64-bit target. */
  const UsizeMax: nat := 0xFFFF_FFFF_FFFF_FFFF

  type Usize = n: nat | n <= UsizeMax

  const JsonrpcKey: string := "jsonrpc"
  const IdKey: string := "id"
  const ResultKey: string := "result"
  const ErrorKey: string := "error"

  /** The keys a header occupies in a flattened message. */
  const HeaderKeys: set<string> := {JsonrpcKey, IdKey}

  datatype Header = Header(jsonrpc: Version, id: Option<Usize>) {

    /** `Header::v1`: a version 1.0 header with the given id. */
    static function V1(id: Option<Usize>): (h: Header)
      ensures h.jsonrpc == One && h.id == id
    {
      Header(One, id)
    }

    /** `Header::v2`: a version 2.0 header with the given id. */
    static function V2(id: Option<Usize>): (h: Header)
      ensures h.jsonrpc == Two && h.id == id
    {
      Header(Two, id)
    }
  }

  /** A header and a payload whose fields share one JSON object. */
  datatype JsonRpcRequest<T> = JsonRpcRequest(header: Header, payload: T)

  /** The body of a response: a result, an error, or (outside the constructors) both or neither. */
  datatype Response<R, E> = Response(result: Option<R>, error: Option<E>) {

    /** `Response::result`: a successful body. */
    static function FromResult(result: R): (b: Response<R, E>)
      ensures b.result == Some(result) && b.error == None
    {
      Response(Some(result), None)
    }

    /** `Response::error`: a failed body. */
    static function FromError(error: E): (b: Response<R, E>)
      ensures b.result == None && b.error == Some(error)
    {
      Response(None, Some(error))
    }
  }

  /** A request whose payload is a response body (a Rust newtype, transparent on the wire). */
  datatype JsonRpcResponse<R, E> = JsonRpcResponse(request: JsonRpcRequest<Response<R, E>>) {

    /** `JsonRpcResponse::result`: the header as given, with a successful body. */
    static function FromResult(header: Header, result: R): (resp: JsonRpcResponse<R, E>)
      ensures resp.request.header == header
      ensures resp.request.payload.result == Some(result) && resp.request.payload.error == None
    {
      JsonRpcResponse(JsonRpcRequest(header, Response.FromResult(result)))
    }

    /** `JsonRpcResponse::error`: the header as given, with a failed body. */
    static function FromError(header: Header, error: E): (resp: JsonRpcResponse<R, E>)
      ensures resp.request.header == header
      ensures resp.request.payload.result == None && resp.request.payload.error == Some(error)
    {
      JsonRpcResponse(JsonRpcRequest(header, Response.FromError(error)))
    }
  }

  // ---------------------------------------------------------------------
  // Version
  // ---------------------------------------------------------------------

  /** Each variant is written as its own tag string: `One` as "1.0", `Two` as "2.0". */
  function EncodeVersion(v: Version): (j: Value)
    ensures j == String("1.0") || j == String("2.0")
    ensures j == String("1.0") <==> v == One
  {
    match v
    case One => String("1.0")
    case Two => String("2.0")
  }

  /** Exactly the two tag strings decode; any other string is an unknown variant. */
  function DecodeVersion(j: Value): (r: Result<Version, DecodeError>)
    ensures r.Ok? <==> j == String("1.0") || j == String("2.0")
    ensures r.Ok? ==> EncodeVersion(r.value) == j
    ensures j.String? && r.Err? ==> r.error == UnknownVariant(j.s)
    ensures !j.String? ==> r.Err?
  {
    match j
    case String(s) =>
      if s == "1.0" then Ok(One)
      else if s == "2.0" then Ok(Two)
      else Err(UnknownVariant(s))
    case _ => Err(InvalidType("enum Version"))
  }

  // ---------------------------------------------------------------------
  // Header
  // ---------------------------------------------------------------------

  /** `id` is always emitted: a number when present, `null` when absent. */
  function EncodeId(id: Option<Usize>): (j: Value)
    ensures j.Null? <==> id.None?
    ensures id.Some? ==> j == Number(id.value)
  {
    match id
    case None => Null
    case Some(n) => Number(n)
  }

  /** `null` is an absent id; any other value must be an integer in `usize` range. */
  function DecodeId(j: Value): (r: Result<Option<Usize>, DecodeError>)
    ensures r.Ok? ==> EncodeId(r.value) == j
    ensures r.Ok? <==> j.Null? || (j.Number? && 0 <= j.n <= UsizeMax)
  {
    match j
    case Null => Ok(None)
    case Number(n) => if 0 <= n <= UsizeMax then Ok(Some(n)) else Err(InvalidValue("usize"))
    case _ => Err(InvalidType("usize"))
  }

  function EncodeHeader(h: Header): (j: Value)
    ensures j.Object? && j.fields.Keys == HeaderKeys
    ensures j.fields[JsonrpcKey] == EncodeVersion(h.jsonrpc)
    ensures j.fields[IdKey] == Null <==> h.id == None
    ensures h.id.Some? ==> j.fields[IdKey] == Number(h.id.value)
  {
    Object(map[JsonrpcKey := EncodeVersion(h.jsonrpc), IdKey := EncodeId(h.id)])
  }

  /**
   * Decodes a header from the entries of an object, ignoring keys other than
   * `jsonrpc` and `id`. A missing `jsonrpc` fails; a missing `id` is an absent id.
   */
  function DecodeHeaderFields(m: map<string, Value>): (r: Result<Header, DecodeError>)
    ensures JsonrpcKey !in m ==> r == Err(MissingField(JsonrpcKey))
    ensures r.Ok? <==> JsonrpcKey in m && DecodeVersion(m[JsonrpcKey]).Ok? && (IdKey !in m || DecodeId(m[IdKey]).Ok?)
    ensures r.Ok? ==> JsonrpcKey in m && DecodeVersion(m[JsonrpcKey]) == Ok(r.value.jsonrpc)
    ensures r.Ok? ==> if IdKey in m then DecodeId(m[IdKey]) == Ok(r.value.id) else r.value.id == None
  {
    if JsonrpcKey !in m then Err(MissingField(JsonrpcKey))
    else
      var version :- DecodeVersion(m[JsonrpcKey]);
      var id :- if IdKey in m then DecodeId(m[IdKey]) else Ok(None);
      Ok(Header(version, id))
  }

  function DecodeHeader(j: Value): (r: Result<Header, DecodeError>)
    ensures !j.Object? ==> r == Err(InvalidType("struct Header"))
    ensures j.Object? && JsonrpcKey !in j.fields ==> r == Err(MissingField(JsonrpcKey))
    ensures r.Ok? ==> j.Object? && j.fields[JsonrpcKey] == EncodeVersion(r.value.jsonrpc)
  {
    match j
    case Object(m) => DecodeHeaderFields(m)
    case _ => Err(InvalidType("struct Header"))
  }

  // ---------------------------------------------------------------------
  // Request: header and payload flattened into one object
  // ---------------------------------------------------------------------

  /**
   * The entries a flattened field contributes: those of an object, none for
   * `null` (a unit or `None` payload); anything else cannot be flattened.
   */
  function Flatten(j: Value): (r: Result<map<string, Value>, EncodeError>)
    ensures r.Ok? <==> j.Object? || j.Null?
    ensures j.Object? ==> r == Ok(j.fields)
    ensures j.Null? ==> r == Ok(map[])
  {
    match j
    case Object(m) => Ok(m)
    case Null => Ok(map[])
    case _ => Err(CannotFlatten)
  }

  /**
   * The header's entries and the payload's entries in one object. On a key
   * both have, the payload's value is the one kept.
   */
  function EncodeRequest<T>(req: JsonRpcRequest<T>, encodePayload: T -> Value): (r: Result<Value, EncodeError>)
    ensures r.Ok? <==> Flatten(encodePayload(req.payload)).Ok?
    ensures r.Ok? ==> var p := Flatten(encodePayload(req.payload)).value;
      && r.value.Object?
      && r.value.fields.Keys == HeaderKeys + p.Keys
      && (forall k :: k in p ==> r.value.fields[k] == p[k])
      && (forall k :: k in HeaderKeys && k !in p ==> r.value.fields[k] == EncodeHeader(req.header).fields[k])
  {
    var p :- Flatten(encodePayload(req.payload));
    Ok(Object(EncodeHeader(req.header).fields + p))
  }

  /**
   * Splits an object into a header and a payload. The header takes `jsonrpc`
   * and `id`; the payload decoder sees the remaining entries. Either part
   * failing fails the whole message.
   */
  function DecodeRequest<T>(j: Value, decodePayload: Value -> Result<T, DecodeError>): (r: Result<JsonRpcRequest<T>, DecodeError>)
    ensures r.Ok? <==> j.Object? && DecodeHeader(j).Ok? && decodePayload(Object(j.fields - HeaderKeys)).Ok?
    ensures r.Ok? ==> DecodeHeader(j) == Ok(r.value.header)
    ensures r.Ok? ==> decodePayload(Object(j.fields - HeaderKeys)) == Ok(r.value.payload)
  {
    match j
    case Object(m) =>
      var header :- DecodeHeaderFields(m);
      var payload :- decodePayload(Object(m - HeaderKeys));
      Ok(JsonRpcRequest(header, payload))
    case _ => Err(InvalidType("map"))
  }

  // ---------------------------------------------------------------------
  // Response body: absent fields are omitted, not written as null
  // ---------------------------------------------------------------------

  function EncodeResponse<R, E>(b: Response<R, E>, encodeResult: R -> Value, encodeError: E -> Value): (j: Value)
    ensures j.Object? && j.fields.Keys <= {ResultKey, ErrorKey}
    ensures ResultKey in j.fields <==> b.result.Some?
    ensures ErrorKey in j.fields <==> b.error.Some?
    ensures b.result.Some? ==> j.fields[ResultKey] == encodeResult(b.result.value)
    ensures b.error.Some? ==> j.fields[ErrorKey] == encodeError(b.error.value)
  {
    var results := if b.result.Some? then map[ResultKey := encodeResult(b.result.value)] else map[];
    var errors := if b.error.Some? then map[ErrorKey := encodeError(b.error.value)] else map[];
    Object(results + errors)
  }

  /** An optional field: a missing key or a `null` is absent; anything else goes to the decoder. */
  function DecodeOptional<X>(m: map<string, Value>, key: string, decode: Value -> Result<X, DecodeError>): (r: Result<Option<X>, DecodeError>)
    ensures key !in m || m[key] == Null ==> r == Ok(None)
    ensures key in m && m[key] != Null ==> (r.Ok? <==> decode(m[key]).Ok?)
    ensures r.Ok? && r.value.Some? ==> key in m && decode(m[key]) == Ok(r.value.value)
    ensures key in m && m[key] != Null && decode(m[key]).Ok? ==> r == Ok(Some(decode(m[key]).value))
  {
    if key !in m then Ok(None)
    else match m[key]
      case Null => Ok(None)
      case v =>
        var x :- decode(v);
        Ok(Some(x))
  }

  /**
   * Decodes each of `result` and `error` on its own. Nothing checks that
   * exactly one is present, and keys other than these two are ignored.
   */
  function DecodeResponse<R, E>(j: Value, decodeResult: Value -> Result<R, DecodeError>, decodeError: Value -> Result<E, DecodeError>): (r: Result<Response<R, E>, DecodeError>)
    ensures !j.Object? ==> r == Err(InvalidType("struct Response"))
    ensures r.Ok? <==> j.Object? && DecodeOptional(j.fields, ResultKey, decodeResult).Ok? && DecodeOptional(j.fields, ErrorKey, decodeError).Ok?
    ensures r.Ok? ==> r.value.result == DecodeOptional(j.fields, ResultKey, decodeResult).value
    ensures r.Ok? ==> r.value.error == DecodeOptional(j.fields, ErrorKey, decodeError).value
  {
    match j
    case Object(m) =>
      var result :- DecodeOptional(m, ResultKey, decodeResult);
      var error :- DecodeOptional(m, ErrorKey, decodeError);
      Ok(Response(result, error))
    case _ => Err(InvalidType("struct Response"))
  }

  // ---------------------------------------------------------------------
  // JsonRpcResponse: a request whose payload is a response body
  // ---------------------------------------------------------------------

  function EncodeJsonRpcResponse<R, E>(resp: JsonRpcResponse<R, E>, encodeResult: R -> Value, encodeError: E -> Value): (j: Value)
    ensures var body := EncodeResponse(resp.request.payload, encodeResult, encodeError).fields;
      && j.Object?
      && j.fields.Keys == HeaderKeys + body.Keys
      && (forall k :: k in HeaderKeys ==> j.fields[k] == EncodeHeader(resp.request.header).fields[k])
      && (forall k :: k in body ==> j.fields[k] == body[k])
  {
    var r := EncodeRequest(resp.request, (b: Response<R, E>) => EncodeResponse(b, encodeResult, encodeError));
    r.value
  }

  function DecodeJsonRpcResponse<R, E>(j: Value, decodeResult: Value -> Result<R, DecodeError>, decodeError: Value -> Result<E, DecodeError>): (r: Result<JsonRpcResponse<R, E>, DecodeError>)
    ensures r.Ok? <==> DecodeRequest(j, (v: Value) => DecodeResponse(v, decodeResult, decodeError)).Ok?
    ensures r.Ok? ==> DecodeHeader(j) == Ok(r.value.request.header)
    ensures r.Ok? ==> DecodeResponse(Object(j.fields - HeaderKeys), decodeResult, decodeError) == Ok(r.value.request.payload)
  {
    var req :- DecodeRequest(j, (v: Value) => DecodeResponse(v, decodeResult, decodeError));
    Ok(JsonRpcResponse(req))
  }

  // ---------------------------------------------------------------------
  // What the properties need of the payload codecs
  // ---------------------------------------------------------------------

  /** Decoding an encoded payload gives it back. */
  ghost predicate RoundTrips<X(!new)>(encode: X -> Value, decode: Value -> Result<X, DecodeError>) {
    forall x :: decode(encode(x)) == Ok(x)
  }

  /** No payload encodes to `null` (a unit result, for one, does). */
  ghost predicate NeverNull<X(!new)>(encode: X -> Value) {
    forall x :: encode(x) != Null
  }

  /**
   * A payload that can sit beside a header: it encodes to an object whose keys
   * avoid `jsonrpc` and `id`, and decoding that object gives it back.
   */
  ghost predicate FlattensBesideHeader<X(!new)>(encode: X -> Value, decode: Value -> Result<X, DecodeError>) {
    forall x :: encode(x).Object? && encode(x).fields.Keys !! HeaderKeys && decode(encode(x)) == Ok(x)
  }

  // ---------------------------------------------------------------------
  // Properties
  // ---------------------------------------------------------------------

  lemma VersionRoundTrip(v: Version)
    ensures DecodeVersion(EncodeVersion(v)) == Ok(v)
  {
  }

  /** The tags the version serialization tests pin down. */
  lemma VersionWire()
    ensures EncodeVersion(One) == String("1.0") && EncodeVersion(Two) == String("2.0")
    ensures DecodeVersion(String("1.0")) == Ok(One) && DecodeVersion(String("2.0")) == Ok(Two)
  {
  }

  lemma IdRoundTrip(id: Option<Usize>)
    ensures DecodeId(EncodeId(id)) == Ok(id)
  {
  }

  lemma HeaderRoundTrip(h: Header)
    ensures DecodeHeader(EncodeHeader(h)) == Ok(h)
  {
  }

  /**
   * Decoding is exactly the inverse of encoding on the header keys: an object
   * decodes to `h` iff its `jsonrpc` is `h`'s tag and its `id` is `h`'s id as
   * encoded, or is missing while `h` has no id. Other keys play no part.
   */
  lemma DecodeHeaderExactly(j: Value, h: Header)
    ensures DecodeHeader(j) == Ok(h) <==>
      && j.Object?
      && JsonrpcKey in j.fields && j.fields[JsonrpcKey] == EncodeVersion(h.jsonrpc)
      && (if IdKey in j.fields then j.fields[IdKey] == EncodeId(h.id) else h.id == None)
  {
  }

  /** The header serialization and deserialization tests. */
  lemma HeaderWire()
    ensures EncodeHeader(Header.V2(Some(42))) == Object(map[JsonrpcKey := String("2.0"), IdKey := Number(42)])
    ensures EncodeHeader(Header.V1(None)) == Object(map[JsonrpcKey := String("1.0"), IdKey := Null])
    ensures DecodeHeader(Object(map[JsonrpcKey := String("1.0"), IdKey := Number(123)])) == Ok(Header.V1(Some(123)))
    ensures DecodeHeader(Object(map[JsonrpcKey := String("2.0"), IdKey := Null])) == Ok(Header.V2(None))
    ensures DecodeHeader(Object(map[JsonrpcKey := String("3.0"), IdKey := Number(1)])) == Err(UnknownVariant("3.0"))
  {
  }

  /**
   * A request whose payload flattens beside the header encodes to the union
   * of the two objects, and decoding that object recovers the request.
   */
  lemma RequestRoundTrip<T(!new)>(req: JsonRpcRequest<T>, encodePayload: T -> Value, decodePayload: Value -> Result<T, DecodeError>)
    requires FlattensBesideHeader(encodePayload, decodePayload)
    ensures EncodeRequest(req, encodePayload).Ok?
    ensures EncodeRequest(req, encodePayload).value == Object(EncodeHeader(req.header).fields + encodePayload(req.payload).fields)
    ensures DecodeRequest(EncodeRequest(req, encodePayload).value, decodePayload) == Ok(req)
  {
    var p := encodePayload(req.payload).fields;
    var m := EncodeHeader(req.header).fields + p;
    assert m - HeaderKeys == p;
    HeaderRoundTrip(req.header);
    DecodeHeaderExactly(Object(m), req.header);
  }

  /** Only the keys of present fields are emitted; an empty body is the empty object. */
  lemma ResponseOmitsAbsent<R, E>(result: R, error: E, encodeResult: R -> Value, encodeError: E -> Value)
    ensures EncodeResponse(Response.FromResult(result), encodeResult, encodeError) == Object(map[ResultKey := encodeResult(result)])
    ensures EncodeResponse(Response.FromError(error), encodeResult, encodeError) == Object(map[ErrorKey := encodeError(error)])
    ensures EncodeResponse(Response(None, None), encodeResult, encodeError) == Object(map[])
  {
  }

  /** With codecs that round-trip and never emit `null`, every body round-trips, including ones with both or neither field. */
  lemma ResponseRoundTrip<R(!new), E(!new)>(b: Response<R, E>, encodeResult: R -> Value, decodeResult: Value -> Result<R, DecodeError>, encodeError: E -> Value, decodeError: Value -> Result<E, DecodeError>)
    requires RoundTrips(encodeResult, decodeResult) && NeverNull(encodeResult)
    requires RoundTrips(encodeError, decodeError) && NeverNull(encodeError)
    ensures DecodeResponse(EncodeResponse(b, encodeResult, encodeError), decodeResult, decodeError) == Ok(b)
  {
  }

  /**
   * Decoding does not enforce that exactly one of `result` and `error` is
   * present: an object with both decodes to a body with both, and one with
   * neither to a body with neither.
   */
  lemma ResponseDecodeIsLenient<R, E>(r: Value, e: Value, decodeResult: Value -> Result<R, DecodeError>, decodeError: Value -> Result<E, DecodeError>)
    requires r != Null && decodeResult(r).Ok?
    requires e != Null && decodeError(e).Ok?
    ensures DecodeResponse(Object(map[ResultKey := r, ErrorKey := e]), decodeResult, decodeError)
      == Ok(Response(Some(decodeResult(r).value), Some(decodeError(e).value)))
    ensures DecodeResponse(Object(map[]), decodeResult, decodeError) == Ok(Response(None, None))
  {
  }

  /** A result that encodes to `null` (a unit result) is read back as no result at all. */
  lemma NullResultIsLost<R, E>(result: R, encodeResult: R -> Value, decodeResult: Value -> Result<R, DecodeError>, encodeError: E -> Value, decodeError: Value -> Result<E, DecodeError>)
    requires encodeResult(result) == Null
    ensures DecodeResponse(EncodeResponse(Response.FromResult(result), encodeResult, encodeError), decodeResult, decodeError)
      == Ok(Response(None, None))
  {
  }

  /**
   * A successful response is the header's two keys plus `result`, and no
   * `error`. Decoding it gives back the header and the result, whatever
   * decoder is used for the absent error.
   */
  lemma ResultResponseWire<R, E>(h: Header, result: R, encodeResult: R -> Value, decodeResult: Value -> Result<R, DecodeError>, encodeError: E -> Value, decodeError: Value -> Result<E, DecodeError>)
    requires decodeResult(encodeResult(result)) == Ok(result) && encodeResult(result) != Null
    ensures EncodeJsonRpcResponse(JsonRpcResponse.FromResult(h, result), encodeResult, encodeError)
      == Object(EncodeHeader(h).fields[ResultKey := encodeResult(result)])
    ensures DecodeJsonRpcResponse(EncodeJsonRpcResponse(JsonRpcResponse.FromResult(h, result), encodeResult, encodeError), decodeResult, decodeError)
      == Ok(JsonRpcResponse.FromResult(h, result))
  {
  }

  /**
   * A failed response is the header's two keys plus `error`, and no
   * `result`. Decoding it gives back the header and the error, whatever
   * decoder is used for the absent result.
   */
  lemma ErrorResponseWire<R, E>(h: Header, error: E, encodeResult: R -> Value, decodeResult: Value -> Result<R, DecodeError>, encodeError: E -> Value, decodeError: Value -> Result<E, DecodeError>)
    requires decodeError(encodeError(error)) == Ok(error) && encodeError(error) != Null
    ensures EncodeJsonRpcResponse(JsonRpcResponse.FromError(h, error), encodeResult, encodeError)
      == Object(EncodeHeader(h).fields[ErrorKey := encodeError(error)])
    ensures DecodeJsonRpcResponse(EncodeJsonRpcResponse(JsonRpcResponse.FromError(h, error), encodeResult, encodeError), decodeResult, decodeError)
      == Ok(JsonRpcResponse.FromError(h, error))
  {
  }

  /** Every response round-trips when its payload codecs do and never emit `null`. */
  lemma JsonRpcResponseRoundTrip<R(!new), E(!new)>(resp: JsonRpcResponse<R, E>, encodeResult: R -> Value, decodeResult: Value -> Result<R, DecodeError>, encodeError: E -> Value, decodeError: Value -> Result<E, DecodeError>)
    requires RoundTrips(encodeResult, decodeResult) && NeverNull(encodeResult)
    requires RoundTrips(encodeError, decodeError) && NeverNull(encodeError)
    ensures DecodeJsonRpcResponse(EncodeJsonRpcResponse(resp, encodeResult, encodeError), decodeResult, decodeError) == Ok(resp)
  {
  }
}
