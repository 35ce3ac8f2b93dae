/**
  The reply a management server sends for one request: the id of the request it
  answers, and either the value the invoked member returned or the exception it
  threw. Values are immutable, as the Java class's fields are all final.
 */
module Message {
  import opened Wrappers

  /** A response; `None` is a Java `null`. The payload types are left opaque. */
  datatype Response<V, E> = Response(requestId: Option<string>, result: Option<V>, exception: Option<E>)

  /** The invariant both constructors establish: never a result and an exception at once. */
  predicate AtMostOnePayload<V, E>(r: Response<V, E>) {
    !(r.result.Some? && r.exception.Some?)
  }

  /** A request was handled successfully exactly when no exception is carried. */
  predicate Succeeded<V, E>(r: Response<V, E>) {
    r.exception.None?
  }

  // ---------------------------------------------------------------------------
  // Construction and access

  /** `new Response(String, Object)`: a successful invocation result (null for a void method). */
  function WithResult<V, E>(requestId: Option<string>, result: Option<V>): (r: Response<V, E>)
    ensures r.requestId == requestId && r.result == result && r.exception.None?
    ensures AtMostOnePayload(r) && Succeeded(r)
  {
    Response(requestId, result, None)
  }

  /** `new Response(String, Exception)`: the exception an invocation threw. */
  function WithException<V, E>(requestId: Option<string>, exception: Option<E>): (r: Response<V, E>)
    ensures r.requestId == requestId && r.exception == exception && r.result.None?
    ensures AtMostOnePayload(r)
    ensures Succeeded(r) <==> exception.None?
  {
    Response(requestId, None, exception)
  }

  function GetRequestId<V, E>(r: Response<V, E>): Option<string> { r.requestId }

  function GetResult<V, E>(r: Response<V, E>): Option<V> { r.result }

  function GetException<V, E>(r: Response<V, E>): Option<E> { r.exception }

  /** The responses one of the two Java constructors can produce. */
  ghost predicate Constructible<V(!new), E(!new)>(r: Response<V, E>) {
    (exists id, v :: r == WithResult(id, v)) || (exists id, e :: r == WithException(id, e))
  }

  /** A response is constructible exactly when it does not carry both payloads. */
  lemma ConstructibleIffAtMostOnePayload<V(!new), E(!new)>(r: Response<V, E>)
    ensures Constructible(r) <==> AtMostOnePayload(r)
  {
    if r.exception.None? {
      assert r == WithResult(r.requestId, r.result);
    } else if r.result.None? {
      assert r == WithException(r.requestId, r.exception);
    }
  }

  /** The getters hand back exactly what the result constructor was given. */
  lemma GettersOfWithResult<V, E>(requestId: Option<string>, result: Option<V>)
    ensures GetRequestId(WithResult<V, E>(requestId, result)) == requestId
    ensures GetResult(WithResult<V, E>(requestId, result)) == result
    ensures GetException(WithResult<V, E>(requestId, result)) == None
  {
  }

  /** The getters hand back exactly what the exception constructor was given. */
  lemma GettersOfWithException<V, E>(requestId: Option<string>, exception: Option<E>)
    ensures GetRequestId(WithException<V, E>(requestId, exception)) == requestId
    ensures GetResult(WithException<V, E>(requestId, exception)) == None
    ensures GetException(WithException<V, E>(requestId, exception)) == exception
  {
  }

  /**
    A void method's success carries neither a result nor an exception, and with a
    null payload the two constructors build the same response.
   */
  lemma NullPayloadConstructorsAgree<V, E>(requestId: Option<string>)
    ensures WithResult<V, E>(requestId, None) == WithException<V, E>(requestId, None)
    ensures Succeeded(WithResult<V, E>(requestId, None))
    ensures GetResult(WithResult<V, E>(requestId, None)).None?
  {
  }

  // ---------------------------------------------------------------------------
  // toString

  const Prefix: string := "Response [requestId="
  const ResultTag: string := ", result="
  const ExceptionTag: string := ", exception="
  const Close: string := "]"

  /** Java string conversion of a possibly-null String: `null` becomes "null". */
  function RenderId(id: Option<string>): (s: string)
    ensures id.Some? ==> s == id.value
    ensures s == "null" <==> id.None? || id == Some("null")
  {
    match id
    case None => "null"
    case Some(s) => s
  }

  /** How `toString` reports a payload: whether it is there, never what it is. */
  function Flag(present: bool): string {
    if present then "not null" else "null"
  }

  /** The text `toString` produces for a rendered id and the two presence flags. */
  function Render(id: string, hasResult: bool, hasException: bool): string {
    Prefix + id + ResultTag + Flag(hasResult) + ExceptionTag + Flag(hasException) + Close
  }

  function ToString<V, E>(r: Response<V, E>): string {
    Render(RenderId(r.requestId), r.result.Some?, r.exception.Some?)
  }

  /** All that `toString` shows of a response. */
  datatype Rendering = Rendering(id: string, hasResult: bool, hasException: bool)

  predicate StartsWith(s: string, p: string) {
    |p| <= |s| && s[..|p|] == p
  }

  predicate EndsWith(s: string, t: string) {
    |t| <= |s| && s[|s| - |t|..] == t
  }

  /** Removes a trailing `tag + Flag(b) + close` and reports which flag it was. */
  function StripFlag(s: string, tag: string, close: string): (p: Option<(string, bool)>)
    ensures p.Some? ==> s == p.value.0 + (tag + Flag(p.value.1) + close)
  {
    var present := tag + Flag(true) + close;
    var absent := tag + Flag(false) + close;
    if EndsWith(s, present) then
      assert s == s[..|s| - |present|] + s[|s| - |present|..];
      Some((s[..|s| - |present|], true))
    else if EndsWith(s, absent) then
      assert s == s[..|s| - |absent|] + s[|s| - |absent|..];
      Some((s[..|s| - |absent|], false))
    else None
  }

  /** Reads back what `toString` wrote; `None` for text it cannot have written. */
  function Parse(s: string): Option<Rendering> {
    if !StartsWith(s, Prefix) then None
    else
      match StripFlag(s[|Prefix|..], ExceptionTag, Close)
      case None => None
      case Some((body, hasException)) =>
        match StripFlag(body, ResultTag, "")
        case None => None
        case Some((id, hasResult)) => Some(Rendering(id, hasResult, hasException))
  }

  /** Regrouping the seven pieces of a rendering the way `Parse` takes them apart. */
  lemma Regroup(p: string, id: string, rt: string, a: string, et: string, b: string, c: string)
    ensures p + id + rt + a + et + b + c == p + ((id + (rt + a + "")) + (et + b + c))
  {
  }

  /** Whatever `Parse` accepts is the rendering it reports. */
  lemma ParseSound(s: string)
    ensures Parse(s).Some? ==> s == Render(Parse(s).value.id, Parse(s).value.hasResult, Parse(s).value.hasException)
  {
    if Parse(s).Some? {
      var x := Parse(s).value;
      var rest := s[|Prefix|..];
      assert s == Prefix + rest;
      var (body, hasException) := StripFlag(rest, ExceptionTag, Close).value;
      var (id, hasResult) := StripFlag(body, ResultTag, "").value;
      assert x == Rendering(id, hasResult, hasException);
      Regroup(Prefix, id, ResultTag, Flag(hasResult), ExceptionTag, Flag(hasException), Close);
    }
  }

  /** With a tag ending in '=', a trailing "null" flag never looks like a trailing "not null" one. */
  lemma FlagsDiffer(body: string, tag: string, close: string)
    requires |tag| > 0 && tag[|tag| - 1] == '='
    ensures !EndsWith(body + tag + Flag(false) + close, tag + Flag(true) + close)
  {
    var s := body + tag + Flag(false) + close;
    var t := tag + Flag(true) + close;
    var k := |close| + 5;
    if |t| <= |s| {
      assert s[|s| - k] == '=';
      assert t[|t| - k] == ' ';
      assert s[|s| - |t|..][|t| - k] == s[|s| - k];
    }
  }

  /** Stripping finds exactly the flag that was appended, given a tag whose last character is '='. */
  lemma StripFlagOfAppend(body: string, tag: string, close: string, b: bool)
    requires |tag| > 0 && tag[|tag| - 1] == '='
    ensures StripFlag(body + tag + Flag(b) + close, tag, close) == Some((body, b))
  {
    var s := body + tag + Flag(b) + close;
    var t := tag + Flag(b) + close;
    assert s == body + t;
    assert s[|s| - |t|..] == t;
    assert s[..|s| - |t|] == body;
    if !b {
      FlagsDiffer(body, tag, close);
    }
  }

  /** `Parse` inverts `Render`: the rendered id and both flags are recovered. */
  lemma {:induction false} ParseRender(id: string, hasResult: bool, hasException: bool)
    ensures Parse(Render(id, hasResult, hasException)) == Some(Rendering(id, hasResult, hasException))
  {
    var s := Render(id, hasResult, hasException);
    var body := id + ResultTag + Flag(hasResult) + "";
    var rest := body + ExceptionTag + Flag(hasException) + Close;
    Regroup(Prefix, id, ResultTag, Flag(hasResult), ExceptionTag, Flag(hasException), Close);
    assert s == Prefix + rest;
    assert s[..|Prefix|] == Prefix;
    assert s[|Prefix|..] == rest;
    StripFlagOfAppend(body, ExceptionTag, Close, hasException);
    StripFlagOfAppend(id, ResultTag, "", hasResult);
  }

  /** Text is a `toString` output of some rendering exactly when `Parse` reads that rendering from it. */
  lemma ParseIffRender(s: string, x: Rendering)
    ensures Parse(s) == Some(x) <==> s == Render(x.id, x.hasResult, x.hasException)
  {
    ParseSound(s);
    if s == Render(x.id, x.hasResult, x.hasException) {
      ParseRender(x.id, x.hasResult, x.hasException);
    }
  }

  /** `toString` reports the rendered id and whether each payload is present. */
  lemma ToStringReadsBack<V, E>(r: Response<V, E>)
    ensures Parse(ToString(r)) == Some(Rendering(RenderId(r.requestId), r.result.Some?, r.exception.Some?))
  {
    ParseRender(RenderId(r.requestId), r.result.Some?, r.exception.Some?);
  }

  /**
    Two responses print alike exactly when their ids render alike and the same
    payloads are present: the contents of result and exception never matter.
   */
  lemma ToStringEqualIff<V, E>(a: Response<V, E>, b: Response<V, E>)
    ensures ToString(a) == ToString(b) <==>
              RenderId(a.requestId) == RenderId(b.requestId) &&
              a.result.Some? == b.result.Some? &&
              a.exception.Some? == b.exception.Some?
  {
    ToStringReadsBack(a);
    ToStringReadsBack(b);
  }

  /** A null request id and the id "null" print the same. */
  lemma NullIdPrintsAsNullText<V, E>(result: Option<V>, exception: Option<E>)
    ensures ToString(Response(None, result, exception)) == ToString(Response(Some("null"), result, exception))
    ensures RenderId(None) == "null"
  {
  }

  /**
    `new Response("some-id", null)` picks the more specific overload,
    `Response(String, Exception)`, and prints neither payload as present.
   */
  lemma SomeIdNullPayload<V, E>()
    ensures GetResult(WithException<V, E>(Some("some-id"), None)).None?
    ensures GetException(WithException<V, E>(Some("some-id"), None)).None?
    ensures ToString(WithException<V, E>(Some("some-id"), None)) ==
              "Response [requestId=some-id, result=null, exception=null]"
  {
    var s0 := Prefix + "some-id";
    assert s0 == "Response [requestId=some-id";
    var s1 := s0 + ResultTag + Flag(false);
    assert s1 == "Response [requestId=some-id, result=null";
    var s2 := s1 + ExceptionTag + Flag(false);
    assert s2 == "Response [requestId=some-id, result=null, exception=null";
    assert ToString(WithException<V, E>(Some("some-id"), None)) == s2 + Close;
  }
}
