# Response message model

A Dafny model of the `Response` message of the simple-jmx remote management
protocol. A `Response` is the server's immutable reply to one request. It holds
the `requestId` of that request and either the value the invoked member
returned or the exception it threw. A void method's result is `null`, so
success means "no exception", not "a result is present". `toString` shows the
request id and whether each payload is present, but never what the payloads
contain.

On the Dafny side:

- `Message.Response<V, E>` is a datatype with fields `requestId: Option<string>`,
  `result: Option<V>` and `exception: Option<E>`.
- `None` stands for a Java `null`.
- `V` and `E` are opaque type parameters for the `Object` and `Exception` payloads.
- Datatype values are immutable, so the class's `final` fields ("nothing
  changes after construction") come for free.
- Java's two constructors are the functions `WithResult` and `WithException`,
  and its three getters are `GetRequestId`, `GetResult` and `GetException`.
- `ToString` builds the same text Java's `toString` builds.
- `RenderId` follows Java string conversion: concatenating a `null` String
  gives `"null"`.
- To state that `ToString` loses only the payload contents, the model also has
  its inverse, `Parse`. `Parse` reads a rendering back into the shown id and
  the two presence flags, and the lemmas prove that it round-trips.

The Java call `new Response("some-id", null)` resolves to the more specific
overload, `Response(String, Exception)`. The model writes it out that way in
`SomeIdNullPayload`.

Both payloads may be null. A void method's result
(`new Response(id, (Object) null)`) and a null exception both give a response
with neither payload. The invariant is therefore "at most one payload"
(`AtMostOnePayload`), and `NullPayloadConstructorsAgree` shows that both
constructors build the same response for a null payload.

## Model

| member | source | states |
|---|---|---|
| Message.WithResult | src/main/java/nl/futureedge/simple/jmx/message/Response.java:26-30 | stores the request id and the result unchanged, leaves the exception null, keeps at most one payload, and counts as a success |
| Message.WithException | src/main/java/nl/futureedge/simple/jmx/message/Response.java:40-44 | stores the request id and the exception unchanged, leaves the result null, keeps at most one payload, and is a success exactly when the exception is null |
| Message.GetRequestId | src/main/java/nl/futureedge/simple/jmx/message/Response.java:46-48 | returns the request id the response was built with; specified by `GettersOfWithResult` and `GettersOfWithException` |
| Message.GetResult | src/main/java/nl/futureedge/simple/jmx/message/Response.java:50-52 | returns the stored result, null after the exception constructor; specified by `GettersOfWithResult` and `GettersOfWithException` |
| Message.GetException | src/main/java/nl/futureedge/simple/jmx/message/Response.java:54-56 | returns the stored exception, null after the result constructor; specified by `GettersOfWithResult` and `GettersOfWithException` |
| Message.ToString | src/main/java/nl/futureedge/simple/jmx/message/Response.java:59-62 | the text of `toString`; its exact shape is fixed by `ToStringReadsBack` with `ParseSound`, and its independence from payload contents by `ToStringEqualIff` |
| Message.RenderId | src/main/java/nl/futureedge/simple/jmx/message/Response.java:60 | Java string conversion of the request id: a present id prints as itself, and the text is "null" exactly when the id is null or is the string "null" |
| Message.ConstructibleIffAtMostOnePayload | src/main/java/nl/futureedge/simple/jmx/message/Response.java:26-44 | one of the two constructors can produce a response exactly when it does not carry both a result and an exception |
| Message.GettersOfWithResult | src/main/java/nl/futureedge/simple/jmx/message/Response.java:46-56 | after the result constructor, the getters return the given id, the given result and a null exception |
| Message.GettersOfWithException | src/main/java/nl/futureedge/simple/jmx/message/Response.java:46-56 | after the exception constructor, the getters return the given id, a null result and the given exception |
| Message.NullPayloadConstructorsAgree | src/main/java/nl/futureedge/simple/jmx/message/Response.java:6-8 | a void success has neither result nor exception and is still a success; with a null payload the two constructors give the same response |
| Message.StripFlag | src/main/java/nl/futureedge/simple/jmx/message/Response.java:60-61 | whenever it strips a trailing `tag + "null"/"not null" + close`, the input is the remainder followed by exactly that suffix |
| Message.StripFlagOfAppend | src/main/java/nl/futureedge/simple/jmx/message/Response.java:60-61 | after a tag ending in '=', each of the two flag texts is recognised as itself and not as the other |
| Message.ParseSound | src/main/java/nl/futureedge/simple/jmx/message/Response.java:59-62 | any text that `Parse` accepts is exactly the `toString` rendering of the id and flags it reports |
| Message.ParseRender | src/main/java/nl/futureedge/simple/jmx/message/Response.java:59-62 | `Parse` recovers the shown id and both presence flags from every rendering |
| Message.ParseIffRender | src/main/java/nl/futureedge/simple/jmx/message/Response.java:59-62 | a text is the rendering of an id and two flags if and only if `Parse` reads those back from it |
| Message.ToStringReadsBack | src/main/java/nl/futureedge/simple/jmx/message/Response.java:59-62 | `toString` has the shape `Response [requestId=<id>, result=<null or not null>, exception=<null or not null>]`, with each flag set by whether that field is null |
| Message.ToStringEqualIff | src/main/java/nl/futureedge/simple/jmx/message/Response.java:60-61 | two responses print alike if and only if their ids render alike and the same payloads are present; payload contents never matter |
| Message.NullIdPrintsAsNullText | src/main/java/nl/futureedge/simple/jmx/message/Response.java:60 | a null request id prints as `null`, the same as the id string "null" |
| Message.SomeIdNullPayload | src/test/java/nl/futureedge/simple/jmx/server/ServerConnectionTest.java:102 | `new Response("some-id", null)` has a null result and a null exception, and prints as `Response [requestId=some-id, result=null, exception=null]` |

## Left out

- Java serialization (`serialVersionUID`, the `Message` marker interface): library behaviour with no logic in this class.
- The contents of the `Object` and `Exception` payloads: they are opaque type parameters, and `toString` never looks inside them.
- Object identity and `equals`: `Response` does not override `equals`, and the model compares values.
- `AbstractAuthenticator`: a thin wrapper over JAAS login and the security manager. It only calls foreign code.
- The `JmxObject` test fixture and the `ServerConnectionTest` harness. The connection engine, the message framing streams and the notification bridge they exercise are not part of this model. The test is used only for the `new Response("some-id", null)` case.
- RenderId and ToString: a Dafny `string` is a sequence of Unicode scalar values, while a Java `String` is a sequence of UTF-16 code units, so a request id holding an unpaired surrogate has no counterpart in the model; nothing in the class depends on it.
- Concurrency, socket I/O and logging: none of these is in the modelled class.
