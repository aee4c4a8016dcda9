/**
 * The request pipeline around the Board handlers: the tracing interceptors
 * for unary and streaming calls, the interceptor that hands the store to the
 * handler, the chain the server installs, and the classification of a
 * handler error into a span status.
 *
 * The tracing backend is an opaque recorder: an interceptor's result says
 * which span it finished and which header-decoding errors it reported, and
 * the unary one also which handler errors it logged.
 */
module Service {
  import opened Results
  import opened Errors
  import Database

  // ---------------------------------------------------------------------------
  // Span statuses and the classification of handler errors

  /** The span status categories of the tracing library. */
  datatype SpanStatus =
    | SpanStatusUndefined | SpanStatusOK | SpanStatusCanceled | SpanStatusUnknown
    | SpanStatusInvalidArgument | SpanStatusDeadlineExceeded | SpanStatusNotFound
    | SpanStatusAlreadyExists | SpanStatusPermissionDenied | SpanStatusResourceExhausted
    | SpanStatusFailedPrecondition | SpanStatusAborted | SpanStatusOutOfRange
    | SpanStatusUnimplemented | SpanStatusInternalError | SpanStatusUnavailable
    | SpanStatusDataLoss | SpanStatusUnauthenticated

  /** Only three codes get a status of their own; every other one is left unclassified. */
  function ToSpanStatus(err: Error): (s: SpanStatus)
    ensures s == SpanStatusInternalError <==> CodeOf(err) == Internal
    ensures s == SpanStatusInvalidArgument <==> CodeOf(err) == InvalidArgument
    ensures s == SpanStatusFailedPrecondition <==> CodeOf(err) == FailedPrecondition
    ensures s == SpanStatusUndefined <==>
      CodeOf(err) != Internal && CodeOf(err) != InvalidArgument && CodeOf(err) != FailedPrecondition
  {
    match CodeOf(err)
    case Internal => SpanStatusInternalError
    case InvalidArgument => SpanStatusInvalidArgument
    case FailedPrecondition => SpanStatusFailedPrecondition
    case _ => SpanStatusUndefined
  }

  /** A plain error -- every error the Board handlers return -- leaves the span unclassified. */
  lemma PlainErrorIsUndefined(message: string)
    ensures ToSpanStatus(Plain(message)) == SpanStatusUndefined
    ensures forall err: Error :: err.Plain? ==> ToSpanStatus(err) != SpanStatusFailedPrecondition
  {
  }

  // ---------------------------------------------------------------------------
  // Hexadecimal identifiers

  newtype Byte = b: int | 0 <= b < 256

  predicate IsHexDigit(c: char) {
    '0' <= c <= '9' || 'a' <= c <= 'f' || 'A' <= c <= 'F'
  }

  function DigitValue(c: char): (v: int)
    requires IsHexDigit(c)
    ensures 0 <= v < 16
  {
    if '0' <= c <= '9' then c as int - '0' as int
    else if 'a' <= c <= 'f' then c as int - 'a' as int + 10
    else c as int - 'A' as int + 10
  }

  /** The lower-case digit for a value below sixteen. */
  function Digit(v: int): (c: char)
    requires 0 <= v < 16
    ensures IsHexDigit(c) && DigitValue(c) == v
  {
    if v < 10 then ('0' as int + v) as char else ('a' as int + v - 10) as char
  }

  /** Why a value does not decode: the first character that is no hex digit, or an odd length. */
  datatype HexError = InvalidByte(c: char) | OddLength

  /**
   * Decoding a header value pair by pair. The first character that is not a
   * hex digit is reported, and only a value made of digits is reported for
   * its odd length.
   */
  function HexDecode(s: string): (r: Result<seq<Byte>, HexError>)
    ensures r.Success? <==> |s| % 2 == 0 && forall i :: 0 <= i < |s| ==> IsHexDigit(s[i])
    ensures r.Success? ==> |r.value| == |s| / 2
    ensures r.Failure? && r.error.InvalidByte? ==>
      exists i :: 0 <= i < |s| && s[i] == r.error.c && !IsHexDigit(s[i]) &&
        forall j :: 0 <= j < i ==> IsHexDigit(s[j])
    ensures r.Failure? && r.error.OddLength? ==>
      |s| % 2 == 1 && forall i :: 0 <= i < |s| ==> IsHexDigit(s[i])
  {
    if |s| == 0 then Success([])
    else if !IsHexDigit(s[0]) then Failure(InvalidByte(s[0]))
    else if |s| == 1 then Failure(OddLength)
    else if !IsHexDigit(s[1]) then Failure(InvalidByte(s[1]))
    else
      match HexDecode(s[2..])
      case Success(rest) => Success([(16 * DigitValue(s[0]) + DigitValue(s[1])) as Byte] + rest)
      case Failure(e) =>
        assert forall i :: 2 <= i < |s| ==> s[i] == s[2..][i - 2];
        Failure(e)
  }

  /** Two lower-case digits per byte, high nibble first. */
  function HexEncode(bytes: seq<Byte>): (s: string)
    ensures |s| == 2 * |bytes|
    ensures forall i :: 0 <= i < |s| ==> IsHexDigit(s[i])
  {
    if bytes == [] then ""
    else [Digit(bytes[0] as int / 16), Digit(bytes[0] as int % 16)] + HexEncode(bytes[1..])
  }

  /** Every encoded identifier decodes back to its bytes. */
  lemma {:induction false} DecodeEncoded(bytes: seq<Byte>)
    ensures HexDecode(HexEncode(bytes)) == Success(bytes)
  {
    if bytes != [] {
      var s := HexEncode(bytes);
      var b := bytes[0] as int;
      assert s[2..] == HexEncode(bytes[1..]);
      assert 16 * DigitValue(s[0]) + DigitValue(s[1]) == 16 * (b / 16) + b % 16 == b;
      DecodeEncoded(bytes[1..]);
      assert bytes == [bytes[0]] + bytes[1..];
    }
  }

  // ---------------------------------------------------------------------------
  // Call metadata and spans

  /** Incoming call metadata: each lower-case key carries a list of values. */
  type Metadata = map<string, seq<string>>

  const TraceHeader := "traceid"
  const SpanHeader := "spanid"

  /** Bytes in a trace id and in a span id: a longer value would be decoded past the identifier's end. */
  const TraceIdBytes := 16
  const SpanIdBytes := 8

  /** The values sent under a key; an absent key has none. */
  function Values(md: Metadata, key: string): (vs: seq<string>)
    ensures key !in md ==> vs == []
  {
    if key in md then md[key] else []
  }

  /** A span identifier: generated by the library, all zero, or decoded from a header. */
  datatype Ident = Generated | Zero | Decoded(bytes: seq<Byte>)

  const Op := "grpc.server"

  datatype Span = Span(op: string, description: string, traceId: Ident, spanId: Ident, parentSpanId: Ident,
                       status: SpanStatus)

  /** An identifier read from a header, and the decoding errors that were reported on the way. */
  datatype HeaderRead = HeaderRead(id: Ident, reported: seq<HexError>)

  /**
   * Reading one propagated identifier: only the first value counts, no value
   * leaves the identifier as it was, and a value that does not decode is
   * reported while the call goes on with the identifier it had.
   */
  function ReadHeader(md: Metadata, key: string, current: Ident): (h: HeaderRead)
    ensures Values(md, key) == [] ==> h == HeaderRead(current, [])
    ensures Values(md, key) != [] && HexDecode(Values(md, key)[0]).Success? ==>
      h == HeaderRead(Decoded(HexDecode(Values(md, key)[0]).value), [])
    ensures Values(md, key) != [] && HexDecode(Values(md, key)[0]).Failure? ==>
      h == HeaderRead(current, [HexDecode(Values(md, key)[0]).error])
  {
    var vs := Values(md, key);
    if vs == [] then HeaderRead(current, [])
    else
      match HexDecode(vs[0])
      case Success(bytes) => HeaderRead(Decoded(bytes), [])
      case Failure(e) => HeaderRead(current, [e])
  }

  /** Values after the first are never looked at. */
  lemma FirstValueOnly(md: Metadata, key: string, v: string, rest: seq<string>, current: Ident)
    ensures ReadHeader(md[key := [v] + rest], key, current) == ReadHeader(md[key := [v]], key, current)
  {
  }

  /** An identifier of the right width sent in its encoded form arrives intact. */
  lemma EncodedHeaderArrives(md: Metadata, key: string, bytes: seq<Byte>, rest: seq<string>, current: Ident)
    requires (key == TraceHeader && |bytes| <= TraceIdBytes) || (key == SpanHeader && |bytes| <= SpanIdBytes)
    ensures ReadHeader(md[key := [HexEncode(bytes)] + rest], key, current) == HeaderRead(Decoded(bytes), [])
  {
    DecodeEncoded(bytes);
  }

  /** Which span field the `spanid` header is decoded into. */
  datatype SpanTarget = IntoSpanId | IntoParentSpanId

  /** A freshly started span and the errors reported while reading the headers. */
  datatype Opened = Opened(span: Span, reported: seq<HexError>)

  /**
   * The span the tracing interceptors open: op and description fixed, the
   * trace id from `traceid` (generated otherwise), the `spanid` header into
   * the chosen field, status not yet set. Trace-header errors are reported
   * before span-header errors.
   */
  function OpenSpan(md: Metadata, fullMethod: string, target: SpanTarget): (o: Opened)
    ensures o.span.op == Op && o.span.description == fullMethod && o.span.status == SpanStatusUndefined
    ensures o.span.traceId == ReadHeader(md, TraceHeader, Generated).id
    ensures target == IntoSpanId ==>
      o.span.spanId == ReadHeader(md, SpanHeader, Generated).id && o.span.parentSpanId == Zero
    ensures target == IntoParentSpanId ==>
      o.span.spanId == Generated && o.span.parentSpanId == ReadHeader(md, SpanHeader, Zero).id
    ensures o.reported == ReadHeader(md, TraceHeader, Generated).reported + ReadHeader(md, SpanHeader, Zero).reported
  {
    var trace := ReadHeader(md, TraceHeader, Generated);
    match target
    case IntoSpanId =>
      var sp := ReadHeader(md, SpanHeader, Generated);
      Opened(Span(Op, fullMethod, trace.id, sp.id, Zero, SpanStatusUndefined), trace.reported + sp.reported)
    case IntoParentSpanId =>
      var sp := ReadHeader(md, SpanHeader, Zero);
      Opened(Span(Op, fullMethod, trace.id, Generated, sp.id, SpanStatusUndefined), trace.reported + sp.reported)
  }

  // ---------------------------------------------------------------------------
  // Interceptors

  /** What a handler sees: the call's metadata, the current span and the store handle. */
  datatype Context = Context(md: Metadata, span: Option<Span>, session: Option<Database.Store>)

  /** A unary handler's `(resp, err)`. */
  datatype Outcome<R> = Outcome(resp: R, err: Option<Error>)

  /** What a tracing interceptor hands back, the span it finished, and what it reported and logged. */
  datatype Traced<T> = Traced(result: T, span: Span, reported: seq<HexError>, logged: seq<Error>)

  /** The status the span is finished with: classified only when the handler failed. */
  function FinalStatus(err: Option<Error>): (s: SpanStatus)
    ensures err.None? ==> s == SpanStatusUndefined
    ensures err.Some? ==> s == ToSpanStatus(err.value)
  {
    match err
    case None => SpanStatusUndefined
    case Some(e) => ToSpanStatus(e)
  }

  /**
   * The unary tracing interceptor: the handler runs exactly once, on the
   * context carrying the new span, whatever the headers held; its outcome is
   * returned unchanged, and its error is logged and classified into the span.
   */
  function SentryUnary<Q, R>(ctx: Context, req: Q, fullMethod: string, handler: (Context, Q) -> Outcome<R>)
    : (t: Traced<Outcome<R>>)
    ensures t.result == handler(ctx.(span := Some(OpenSpan(ctx.md, fullMethod, IntoParentSpanId).span)), req)
    ensures t.span == OpenSpan(ctx.md, fullMethod, IntoParentSpanId).span.(status := FinalStatus(t.result.err))
    ensures t.reported == OpenSpan(ctx.md, fullMethod, IntoParentSpanId).reported
    ensures t.logged == if t.result.err.Some? then [t.result.err.value] else []
  {
    var started := OpenSpan(ctx.md, fullMethod, IntoParentSpanId);
    var outcome := handler(ctx.(span := Some(started.span)), req);
    Traced(outcome, started.span.(status := FinalStatus(outcome.err)), started.reported,
           if outcome.err.Some? then [outcome.err.value] else [])
  }

  /**
   * The streaming tracing interceptor: as the unary one, except that the
   * `spanid` header names the span itself and nothing is logged.
   */
  function SentryStream(ctx: Context, fullMethod: string, handler: Context -> Option<Error>): (t: Traced<Option<Error>>)
    ensures t.result == handler(ctx.(span := Some(OpenSpan(ctx.md, fullMethod, IntoSpanId).span)))
    ensures t.span == OpenSpan(ctx.md, fullMethod, IntoSpanId).span.(status := FinalStatus(t.result))
    ensures t.reported == OpenSpan(ctx.md, fullMethod, IntoSpanId).reported
    ensures t.logged == []
  {
    var started := OpenSpan(ctx.md, fullMethod, IntoSpanId);
    var err := handler(ctx.(span := Some(started.span)));
    Traced(err, started.span.(status := FinalStatus(err)), started.reported, [])
  }

  /** The store-handle interceptor: the same request, the handle added, the outcome unchanged. */
  function DBUnary<Q, R>(session: Database.Store, ctx: Context, req: Q, handler: (Context, Q) -> Outcome<R>)
    : (o: Outcome<R>)
    ensures o == handler(ctx.(session := Some(session)), req)
  {
    handler(ctx.(session := Some(session)), req)
  }

  /** The unary chain the server installs: tracing outermost, then the store handle, then the handler. */
  function ServeUnary<Q, R>(session: Database.Store, ctx: Context, req: Q, fullMethod: string,
                            handler: (Context, Q) -> Outcome<R>): (t: Traced<Outcome<R>>)
    ensures t.result ==
      handler(Context(ctx.md, Some(OpenSpan(ctx.md, fullMethod, IntoParentSpanId).span), Some(session)), req)
  {
    SentryUnary(ctx, req, fullMethod, (c, q) => DBUnary(session, c, q, handler))
  }

  // ---------------------------------------------------------------------------
  // Properties of the pipeline

  /**
   * Through the chain, the handler sees the call's metadata, the span and the
   * store handle; the span does not depend on the handle, and the handler's
   * error is what classifies it.
   */
  lemma ChainOrder<Q, R>(session: Database.Store, ctx: Context, req: Q, fullMethod: string,
                         handler: (Context, Q) -> Outcome<R>)
    ensures var t := ServeUnary(session, ctx, req, fullMethod, handler);
      var seen := Context(ctx.md, Some(OpenSpan(ctx.md, fullMethod, IntoParentSpanId).span), Some(session));
      t.result == handler(seen, req) &&
      t.span == SentryUnary(ctx.(session := None), req, fullMethod, handler).span.(status := FinalStatus(handler(seen, req).err)) &&
      t.reported == SentryUnary(ctx.(session := None), req, fullMethod, handler).reported
  {
  }

  /**
   * A malformed `traceid` is reported and the call goes on: the handler still
   * runs and its outcome is returned, under a generated trace id.
   */
  lemma MalformedTraceHeaderIsOnlyReported<Q, R>(ctx: Context, req: Q, fullMethod: string,
                                                handler: (Context, Q) -> Outcome<R>)
    requires Values(ctx.md, TraceHeader) != [] && HexDecode(Values(ctx.md, TraceHeader)[0]).Failure?
    requires |Values(ctx.md, TraceHeader)[0]| <= 2 * TraceIdBytes
    ensures var t := SentryUnary(ctx, req, fullMethod, handler);
      t.reported != [] && t.reported[0] == HexDecode(Values(ctx.md, TraceHeader)[0]).error &&
      t.span.traceId == Generated &&
      t.result == handler(ctx.(span := Some(OpenSpan(ctx.md, fullMethod, IntoParentSpanId).span)), req)
  {
  }

  /**
   * The same well-formed `spanid` names the parent of a unary call's span but
   * the span itself of a streaming call.
   */
  lemma SpanHeaderTarget(ctx: Context, fullMethod: string, bytes: seq<Byte>)
    requires |bytes| <= SpanIdBytes
    requires SpanHeader in ctx.md && ctx.md[SpanHeader] != [] && ctx.md[SpanHeader][0] == HexEncode(bytes)
    ensures OpenSpan(ctx.md, fullMethod, IntoParentSpanId).span.parentSpanId == Decoded(bytes)
    ensures OpenSpan(ctx.md, fullMethod, IntoParentSpanId).span.spanId == Generated
    ensures OpenSpan(ctx.md, fullMethod, IntoSpanId).span.spanId == Decoded(bytes)
    ensures OpenSpan(ctx.md, fullMethod, IntoSpanId).span.parentSpanId == Zero
  {
    DecodeEncoded(bytes);
  }

  /** A handler that only fails with plain errors leaves every span unclassified. */
  lemma PlainFailuresLeaveSpanUndefined<Q, R>(session: Database.Store, ctx: Context, req: Q, fullMethod: string,
                                             handler: (Context, Q) -> Outcome<R>)
    requires forall c: Context, q: Q :: handler(c, q).err.Some? ==> handler(c, q).err.value.Plain?
    ensures ServeUnary(session, ctx, req, fullMethod, handler).span.status == SpanStatusUndefined
  {
  }
}
