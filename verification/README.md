# The wire layer of neuriplo-kserve-client, modelled and proved

A Dafny 4.11 model of the parts of the C++ client that turn tensors into bytes on a connection and back:
the keep-alive HTTP transport and its framing, the response parser and de-chunker, the request builder, the
retry and back-off loop, the JSON, binary-extension and gRPC tensor codecs, and endpoint parsing.
`dafny verify dfyconfig.toml` checks the whole project.

## How it is laid out

| file | what it holds |
|---|---|
| `Wrappers`, `Text`, `Numerals`, `Powers`, `LittleEndian` | results, substring search, header lines, numerals and the C++ number readers, powers of two, raw integers |
| `Framing`, `HeaderLines`, `Chunks`, `FramedReader` | the end-of-message test, an encoder for the chunked coding, the read loop |
| `Response`, `Requests`, `Endpoints` | the response parser, the request builder, the endpoint parser |
| `Sessions`, `Transports` | every run of attempts as a state machine; the connection classes that refine it |
| `Backoff`, `Retry` | the delay arithmetic and the retry loop |
| `Half`, `Json`, `TensorCodec`, `BinaryExtension`, `GrpcContents` | the tensor codecs |
| `HttpClients` | retried round trips and `infer` |
| `EndToEnd` | whole requests and replies, also cut off in the middle |

Wire text is a sequence of characters, tensor data a sequence of bytes. A thrown exception is the `Err` of a
`Result`. What the C++ code does in loops and through objects is a method or a class here, proved equal to a
function; the properties are lemmas about the functions.

## What is assumed of the surroundings

- A connection is an object whose writes may be partial or fail, whose reads return any non-empty piece of the
  unread bytes, a close or an error, and whose peer answers each request that arrived in full with one reply.
  The replies are an arbitrary function of connection, request number and request.
- `Sessions.WellFramed` asks of the replies that none of them is taken for complete before its end.
  `Framing.ContentLengthFraming`, `Chunks.ChunkedFraming`, `Chunks.OtherZeroNeverCompletes`,
  `Chunks.TrailersNeverComplete` and `HeaderLines.CloseDelimited` say which replies those are.
- JSON text is a pair dump/parse; parse gives back what dump wrote, which is null for infinities and NaNs, and this is
  asked only of documents the library can write: integers of 64 bits and strings it takes as text (`Json.TextCodec`).
  On any other document dump throws.
- Conversions between numeric kinds that round are arbitrary functions; `Casts.Exact` asks that a binary32 pattern
  survives storage as binary64, but that a signalling NaN turns quiet, and that exactly the finite ones stay finite.
  Such conversions exist: `TensorCodec.ExactCastsExist`.
- Size arithmetic is over unbounded naturals, except in the end-of-message test, where the wrap-around of a
  negative Content-Length is kept. `int` has 32 and `long` 64 bits.
- Characters outside ASCII have no lower case. In bit patterns, disjoint ors are additions and shifts are
  multiplications and divisions by powers of two.

## Where the code does less than its comments say

The model follows the code. Each line names the result that says exactly when the stated behaviour holds.

- The end of a chunked message is a substring search (src/KserveHttpClient.cpp:279-283). It is right exactly when the last
  chunk is a bare `0` and no chunk contains CRLF `0` CRLF CRLF once it stands between its line breaks:
  `Chunks.ChunkedFraming`. With such chunks, a message whose last chunk has more zeros or an extension, or that has
  trailers, never completes: `Chunks.OtherZeroNeverCompletes`, `Chunks.TrailersNeverComplete`. The parser takes such messages:
  `Response.ChunkedRoundTrip`, with `Response.LongZeroDisagrees` for one on which the two disagree.
- A head whose lines mention both Transfer-Encoding and chunked anywhere makes Content-Length irrelevant:
  `Framing.ContentLengthFraming`, `Requests.RequestFraming`, `HeaderLines.LooksChunkedByLine`.
- The body is never checked against Content-Length (src/KserveProtocol.cpp:193-196): `Response.PlainBody`. A message the
  peer cuts off is refused exactly when the cut falls in the head: `Response.CutPlainMessage`, `EndToEnd.ClosedMidMessage`.
- A chunked body that ends early is refused exactly when it ends inside the data of a chunk
  (src/KserveProtocol.cpp:219-221); anywhere else the payload so far passes for the whole one: `Response.CutChunkedBody`,
  `EndToEnd.ClosedMidChunks`.
- `floatToHalf` rounds toward zero exactly below 2^16; above, it gives an infinity or, for most values, a NaN
  (src/KserveProtocol.cpp:42-46): `Half.TowardZeroIff`.
- An FP16 tensor comes back exactly when its only NaNs are the quiet ones without payload: `TensorCodec.HalfTensorRoundTrip`.
- A JSON tensor with an infinity or a NaN is written with null in its place, which the decoder refuses
  (src/KserveProtocol.cpp:333-345): `EndToEnd.JsonEcho`.
- Typed gRPC BOOL tensors are written to one field and read from another (src/KserveGrpcClient.cpp:136-138, 202-203):
  only the empty one comes back, `GrpcContents.TypedRoundTrip`.
- KSERVE_MAX_RETRIES is documented as total attempts (include/KserveRetry.hpp:24) and coded as retries
  (src/KserveRetry.cpp:46-56): `Retry.MaxRetriesCountsRetries`.
- The comment on `wantsClose` speaks of the HTTP/1.0 default (src/KserveHttpClient.cpp:326-333), which is not applied:
  `HeaderLines.Http10Kept`. Of a Connection field only one space and then options beginning with close count:
  `HeaderLines.FieldDecidesClose`, `HeaderLines.CloseSpellings`.

## Model

| member | source | states |
|---|---|---|
| Framing.Monotone | src/KserveHttpClient.cpp:271-300 | once a buffer counts as a complete message, every extension of it does, whatever its framing |
| Framing.AfterHead | src/KserveHttpClient.cpp:271-300 | with a whole header block the decision depends on the block's first blank line only: the first terminator after it for a head that reads as chunked, the announced length otherwise |
| Framing.FindsLength | src/KserveHttpClient.cpp:286-293 | the marker search stops at the first Content-Length line after the start line, in any letter case, and reads exactly its number, whatever the other lines hold |
| Framing.LengthDecides | src/KserveHttpClient.cpp:288-293 | a length-framed message is complete if and only if at least the announced number of body bytes is there |
| Framing.NegativeLength | src/KserveHttpClient.cpp:290-293 | a negative Content-Length wraps: such a message is complete with its head if and only if the length does not reach behind its start |
| Framing.UnreadableLength | src/KserveHttpClient.cpp:289-296 | with a Content-Length that is no number the message never counts as complete |
| Framing.ContentLengthFraming | src/KserveHttpClient.cpp:267-300 | complete as a whole and on no proper prefix, for every body, if and only if the head does not read as chunked or the first terminator happens to end the body |
| Framing.TerminatorFraming | src/KserveHttpClient.cpp:279-284 | a message whose head reads as chunked ends at the first CRLF 0 CRLF CRLF, and is self-delimiting exactly when that is its end |
| Framing.LastPrefixDecides | src/KserveHttpClient.cpp:271-300 | no proper prefix is complete if and only if the longest one is not |
| HeaderLines.HeadContains | src/KserveHttpClient.cpp:276-280 | a substring test on the lower-cased header block holds exactly when one single line passes it |
| HeaderLines.LooksChunkedByLine | src/KserveHttpClient.cpp:279-280 | a head reads as chunked exactly when some line mentions Transfer-Encoding and some line, possibly another, mentions chunked |
| HeaderLines.CloseDelimited | src/KserveHttpClient.cpp:298-299 | with neither a length line nor a sign of chunking no buffer ever counts as complete |
| HeaderLines.WantsCloseByLine | src/KserveHttpClient.cpp:326-333 | a response asks for the close exactly when one of its header lines contains "connection: close"; its body never does |
| HeaderLines.FieldDecidesClose | src/KserveHttpClient.cpp:326-333 | a Connection field with any white space and any options asks for the close if and only if exactly one space stands before options that begin with close |
| HeaderLines.CloseSpellings | src/KserveHttpClient.cpp:326-333 | "Connection: close" is understood, "Connection:close" and "Connection: keep-alive, close" are not |
| HeaderLines.Http10Kept | src/KserveHttpClient.cpp:326-333 | an HTTP/1.0 reply without such a line does not ask for the close |
| Chunks.ChunkedFraming | src/KserveHttpClient.cpp:279-283 | a chunked message with any sizes, extensions and data and any last chunk is self-delimiting if and only if no chunk contains the terminator between its line breaks and the last chunk is a bare "0" |
| Chunks.FirstTerminator | src/KserveHttpClient.cpp:281-283 | the first terminator of the encoded chunks is the closing one if and only if every chunk is clean |
| Chunks.InlineIsClean | src/KserveHttpClient.cpp:281-283 | data without a line break is always clean |
| Chunks.CleanWithLineBreak | src/KserveHttpClient.cpp:281-283 | clean is more than that: one chunk with a line break that is clean, and one that is not |
| Chunks.TrailersNeverComplete | src/KserveHttpClient.cpp:279-283 | clean chunks, any last chunk line and a trailer section never count as complete, whole or cut |
| Chunks.OtherZeroNeverCompletes | src/KserveHttpClient.cpp:279-283 | neither do clean chunks that end in a zero size written otherwise than "0", or with an extension |
| Chunks.PlainPayload | src/KserveProtocol.cpp:198-225 | every split of a payload into non-empty pieces has a chunk encoding with that payload |
| Chunks.DataStandsThere | src/KserveProtocol.cpp:218-224 | the offsets the cut results speak of are where the data of each chunk stands in the encoded body |
| FramedReader.SegmentationIndependence | src/KserveHttpClient.cpp:305-324 | however recv splits a self-delimiting message, the reader returns exactly it, not marked as closed |
| FramedReader.SomeSplitFails | src/KserveHttpClient.cpp:305-324 | every message that is not self-delimiting has a split the reader gets wrong |
| FramedReader.CloseInTheMiddle | src/KserveHttpClient.cpp:314-323 | a close before the end hands over exactly the bytes that came, marked as closed |
| Transports.Connection.SendAll | src/KserveHttpClient.cpp:118-127 | for every pattern of partial writes: on normal return exactly the data was added to the wire, on failure a proper prefix of it |
| Transports.Connection.RecvSome | src/KserveHttpClient.cpp:38-41 | a read takes between one and the buffer size of the unread bytes from their front, or reports a close or, without TLS, an error |
| Transports.Connection.ReadFramed | src/KserveHttpClient.cpp:302-324 | the read loop computes the reading function of the events it met; its result is a non-empty prefix of the unread bytes, complete unless the peer closed |
| FramedReader.StreamRecovered | src/KserveHttpClient.cpp:372-392 | the bytes of self-delimiting requests, and any unfinished one after them, are taken apart by the same end test into exactly these requests |
| Transports.HttpConnection.Drop | src/KserveHttpClient.cpp:53-58 | afterwards no transport is held and none that was ever opened is open |
| Transports.HttpConnection.EnsureConnected | src/KserveHttpClient.cpp:335-349 | on return the held transport was opened for the endpoint's host, port and TLS flag; it is the old one exactly when that already did, otherwise a new one and the old one is closed; a failure leaves none |
| Transports.HttpConnection.Exchange | src/KserveHttpClient.cpp:357-361 | what is read and parsed is the peer's reply to this very request on this transport, all of it unless the peer closed, and then nothing is left unread |
| Transports.HttpConnection.RoundTrip | src/KserveHttpClient.cpp:351-370 | keeps the invariant of the connection holder over any run: of all transports ever opened at most one is open, its target the stored one, nothing unread on it; on each of them stand the requests that went out in full and at most a proper part of one whose sending failed; the log of attempts is a legal run of the session machine ending in the present state, and the list of opened transports only grows; a transport is held afterwards if and only if the response was read in full and did not ask for the close |
| Transports.HttpConnection.StreamsRecovered | src/KserveHttpClient.cpp:351-370 | after any run of self-delimiting requests this holds of every connection ever opened, dropped ones included |
| Sessions.WholeRun | src/KserveHttpClient.cpp:43-46 | in every run, attempts on one connection are consecutive, to one target, numbered as the server counts them, all but the last answered in full without a wish to close; a connection that failed, was closed by the peer or was answered with such a wish is never used again |
| Sessions.RawIsOwnReply | src/KserveHttpClient.cpp:354-370 | in every legal run each raw response is a prefix of the reply issued for that very attempt on that very connection, and all of it unless the peer closed early; that the code makes only legal runs is Exchange and RoundTrip |
| Sessions.FreshAfterFailure | src/KserveHttpClient.cpp:43-46 | the attempt after one that failed, was closed by the peer or was answered with a wish to close goes out as the first request of a connection no earlier attempt used |
| Sessions.NextConnection | src/KserveHttpClient.cpp:335-364 | in every run the next attempt goes out on the same connection, as its next request, if and only if the response was read in full, did not ask for the close and the target is the same; otherwise as the first request of a connection no earlier attempt used |
| Sessions.FieldDecidesConnection | src/KserveHttpClient.cpp:326-364 | from the header lines: after a reply read in full the next attempt to the same target goes out on a new connection if and only if the Connection field has one space before options that begin with close |
| Sessions.StreamOfRun | src/KserveHttpClient.cpp:351-370 | the bytes a run of self-delimiting requests puts on a connection, a send that failed included, are taken apart into exactly the requests that went out on it in full |
| Response.DechunkBody | src/KserveProtocol.cpp:198-225 | the de-chunking loop computes the recursive decoding, its error case included |
| Response.ReadInferenceLength | src/KserveProtocol.cpp:178-191 | the header scan with its blank-skipping loop |
| Response.StatusOfMessage | src/KserveProtocol.cpp:151-157 | the status code is read from every status line, with a reason phrase or without one, whatever follows |
| Response.NoBlankRefused | src/KserveProtocol.cpp:151-153 | what came without a blank has no status line and is refused |
| Response.BadStatusRefused | src/KserveProtocol.cpp:151-157 | a status code that does not begin like a number is refused |
| Response.ParseMessage | src/KserveProtocol.cpp:148-227 | on a message with a whole header block: its status, its length header, and its body decoded exactly when the head reads as chunked |
| Response.PlainBody | src/KserveProtocol.cpp:193-196 | under a head that announces n bytes, whatever was received is taken for the body; it is shorter than announced exactly when the end test calls the message incomplete |
| Response.CutPlainMessage | src/KserveProtocol.cpp:148-196 | a length-framed message cut anywhere is refused if and only if the cut falls before the end of the blank line, and is otherwise taken with its status and the cut body |
| Response.ChunkedRoundTrip | src/KserveProtocol.cpp:198-225 | every chunking of a payload, with any sizes in either case or with leading zeros, extensions and trailers, parses to the status and exactly the payload |
| Response.TwoChunkingsAgree | src/KserveProtocol.cpp:198-225 | two chunkings of one payload parse alike |
| Response.LongZeroDisagrees | src/KserveProtocol.cpp:198-225 | one legal message, its last chunk written "00", that the end test never completes and the parser decodes |
| Response.CutChunkedBody | src/KserveProtocol.cpp:198-225 | for every length at which an encoded body is cut: an error if and only if the cut falls inside the data of some chunk, and otherwise the payload of exactly the chunks whose data arrived |
| Response.BadSizeLine | src/KserveProtocol.cpp:209-217 | a size line without a size ends the decoding with the payload before it |
| Response.NoInferenceLength | src/KserveProtocol.cpp:176-191 | when no header line carries the field, the response counts as a plain JSON one |
| Response.UnreadInferenceLength | src/KserveProtocol.cpp:185-190 | a length header that is no number counts as none |
| Response.ReadsInferenceLength | src/KserveProtocol.cpp:176-191 | the JSON header length is the number on the first line that carries the field, in any letter case, with any white space or none around it and any leading zeros |
| Requests.RequestIsMessage | src/KserveHttpClient.cpp:372-392 | the request text is a start line, the header lines, a Content-Length line with the body's length, a blank line and the body |
| Requests.LeadLinesAre | src/KserveHttpClient.cpp:372-387 | the lines one by one: start line, Host, keep-alive, the content type and the bearer token where there is one, the further headers last |
| Requests.RequestFraming | src/KserveHttpClient.cpp:372-392 | for inline inputs a request is complete at its last byte and nowhere earlier, if and only if its lines do not read as chunked or the first terminator happens to end the body |
| Requests.OtherFields | src/KserveHttpClient.cpp:286-289 | neither the fixed header lines nor the Inference-Header-Content-Length line is taken for a Content-Length line |
| Requests.BinaryRequestFraming | src/KserveHttpClient.cpp:573-584 | a binary-mode request is self-delimiting for every body when path, host and token do not mention Transfer-Encoding |
| Requests.JsonRequestFraming | src/KserveHttpClient.cpp:372-392 | so is a JSON-mode request |
| Endpoints.Parse | src/KserveProtocol.cpp:122-146 | the parser with its loop over trailing slashes computes the parsing function |
| Endpoints.StripsScheme | src/KserveProtocol.cpp:14-31 | the printed scheme is the stripped one, and text that starts with a host and a port has none |
| Endpoints.EndpointRoundTrip | src/KserveProtocol.cpp:122-146 | any scheme or none, host, port or none, prefix and number of trailing slashes read back as printed, with the default port when none is given |
| Endpoints.PortDecides | src/KserveProtocol.cpp:122-146 | with something after the colon parsing succeeds if and only if it reads as an int, which is the port, and fails otherwise |
| Endpoints.PortsRefused | src/KserveProtocol.cpp:138-140 | no number and a number beyond an int are no ports |
| Numerals.ScanToken | src/KserveHttpClient.cpp:292 | the C++ number readers invert every decimal or hexadecimal numeral, whatever blanks precede it and whatever does not continue it follows |
| Numerals.ReadsSigned | src/KserveHttpClient.cpp:292 | stoi and stol give the signed value when it is in range and throw when it is not |
| Numerals.ReadsHex | src/KserveProtocol.cpp:209-214 | stoul in base 16 gives the value below 2^64, throws beyond, and takes a minus sign modulo 2^64 |
| Numerals.Characters | src/KserveProtocol.cpp:211-213 | digits of both cases count, as do blanks, tabs and line breaks before them |
| Numerals.ScanMarked | src/KserveProtocol.cpp:211-213 | a hexadecimal numeral after 0x or 0X is read as the same number |
| Numerals.Print | src/KserveHttpClient.cpp:390 | printing gives digits of the base with the printed value |
| Backoff.DelayMonotone | src/KserveRetry.cpp:73-90 | every delay lies between 0 and the maximum, and grows with the attempt number and the random unit |
| Backoff.DelayBand | src/KserveRetry.cpp:82-89 | the delay lies in the rounded jitter band around the capped term and reaches its ends at units 0 and 1 and beyond |
| Backoff.DelayAtHalf | src/KserveRetry.cpp:78-89 | at unit one half the delay is the capped doubling term itself |
| Backoff.DelayIsNearest | src/KserveRetry.cpp:73-90 | the delay is the whole number of milliseconds nearest to the capped doubling term spread by the jitter and kept between 0 and the maximum, the greater one half way, and 0 before the first attempt |
| Retry.RunWithRetry | include/KserveRetry.hpp:62-82 | for every behaviour of the attempts: between one and the allowed number of them, one wait fewer, each attempt but the last threw or was retryable, and the outcome is that of the last |
| Retry.RunIsUnique | include/KserveRetry.hpp:62-82 | the contract of a retry run fixes the number of attempts, their outcomes and the waits |
| Retry.RunSpelledOut | include/KserveRetry.hpp:62-82 | every attempt but the last threw or was retryable, there are at most max(max_attempts, 1), and fewer than max_attempts only when the last returned something not retryable |
| Retry.RunWithinBudget | include/KserveRetry.hpp:67-78 | no retry run has more attempts than allowed, and every one has at least one |
| Retry.TotalWait | include/KserveRetry.hpp:67-81 | the waits of a run add up to at most the number of retries times the maximum delay |
| Retry.TotalWaitAtHalf | include/KserveRetry.hpp:32-34 | with the unit at one half they add up to the capped doubling series |
| Retry.MaxRetriesCountsRetries | src/KserveRetry.cpp:46-60 | the value n of KSERVE_MAX_RETRIES allows n + 1 attempts |
| Retry.MaxRetriesIgnored | src/KserveRetry.cpp:46-60 | unset, unreadable and negative values leave the policy as it was |
| Half.NarrowingTruncates | src/KserveProtocol.cpp:35-57 | below 2^16 narrowing keeps the sign, and the magnitude lies between the half pattern's value and the next one's |
| Half.TowardZeroIff | src/KserveProtocol.cpp:33-57 | narrowing a finite number rounds toward zero if and only if its magnitude is below 2^16, which is what the exponent test says; above it gives an infinity or a NaN |
| Half.NarrowingMonotone | src/KserveProtocol.cpp:35-57 | larger magnitudes below 2^16 do not narrow to smaller ones |
| Half.Widen | src/KserveProtocol.cpp:93-120 | the normalising loop ends and computes the widening function |
| Half.WideningExact | src/KserveProtocol.cpp:93-120 | widening a finite half, subnormal or not, keeps its value |
| Half.NarrowWiden | src/KserveProtocol.cpp:35-120 | narrowing undoes widening on every half that is not a NaN |
| Half.NarrowNaN | src/KserveProtocol.cpp:42-46 | every NaN narrows to the quiet half NaN of its sign without payload |
| Half.WidenNaN | src/KserveProtocol.cpp:112-113 | a half NaN widens to a NaN of its sign |
| TensorCodec.SizesAgree | src/KserveProtocol.cpp:268-283 | the element size of every supported datatype is what datatypeByteWidth says |
| TensorCodec.ReadArray | src/KserveProtocol.cpp:59-75 | the element loop reads all elements, and refuses a length that is no multiple of the element size |
| TensorCodec.ReadAllAt | src/KserveProtocol.cpp:69-73 | the n-th number of the JSON array is made from the n-th group of bytes, for every n |
| TensorCodec.IntegerValue | src/KserveProtocol.cpp:297-324 | an integer element is what its bytes spell, low byte first, less 256 to the width exactly when the type is signed and the top bit of its last byte is set |
| TensorCodec.EncodedAt | src/KserveProtocol.cpp:285-326 | for every datatype by name, the n-th number of an encoded tensor is what its n-th group of bytes spells, low byte first, signed or not, or the float it holds |
| TensorCodec.WriteArray | src/KserveProtocol.cpp:77-89 | the element loop appends the bytes of each value or fails with the first one that is no number |
| TensorCodec.EncodeSucceedsIff | src/KserveProtocol.cpp:285-326 | encoding succeeds if and only if the datatype is supported (those with a width, but BF16) and the length is a multiple of its width, with length over width elements |
| TensorCodec.DecodeSucceedsIff | src/KserveProtocol.cpp:328-383 | decoding succeeds if and only if the data is an array, the datatype is supported and every element is a number, or a boolean where the JSON library converts it; the result has one width of bytes per element |
| TensorCodec.DecodedAt | src/KserveProtocol.cpp:328-383 | for every datatype by name, the n-th group of decoded bytes spells what the n-th element stands for: integers modulo the width, booleans as 0 and 1, other numbers by the cast, narrowed for FP16 |
| TensorCodec.BoolsDecoded | src/KserveProtocol.cpp:364-367 | in a BOOL array the n-th byte is 1 for true and 0 for false, and a number modulo 256 |
| TensorCodec.IntegersDecoded | src/KserveProtocol.cpp:346-383 | an integer in the range of the datatype comes out as itself, in two's complement for the signed ones |
| TensorCodec.ArrayRoundTrip | src/KserveProtocol.cpp:59-89 | a tensor comes back from its JSON array if and only if each of its elements does |
| TensorCodec.IntegerTensorRoundTrip | src/KserveProtocol.cpp:297-383 | integer and binary64 tensors of every whole number of elements come back byte for byte, with length over width elements; other lengths are refused |
| TensorCodec.HalfTensorRoundTrip | src/KserveProtocol.cpp:293-296 | an FP16 tensor comes back if and only if it holds no NaN but the quiet ones without payload |
| TensorCodec.NaNHalfStaysNaN | src/KserveProtocol.cpp:341-345 | an FP16 NaN element comes back as the quiet NaN of its sign |
| TensorCodec.DecodeNarrows | src/KserveProtocol.cpp:341-345 | decoding FP16 gives one half per number, in order, each keeping the sign and truncating a magnitude below 2^16 |
| TensorCodec.FloatTensorRoundTrip | src/KserveProtocol.cpp:287-289 | an FP32 tensor comes back byte for byte if and only if it holds no signalling NaN |
| LittleEndian.ToFromLE | src/KserveProtocol.cpp:84-86 | packing inverts unpacking for every width |
| LittleEndian.WrapTwice | src/KserveProtocol.cpp:346-355 | a cast through a wider integer type first changes nothing |
| BinaryExtension.NodeDescribes | src/KserveProtocol.cpp:385-415 | the node built for a tensor reads back as its name, datatype, shape and byte count, with nothing inline |
| BinaryExtension.BinaryNodeSays | src/KserveProtocol.cpp:385-397 | the node built for a binary tensor names it, gives its datatype, shape and byte count under the members read, and no data |
| BinaryExtension.SplitFramed | src/KserveProtocol.cpp:417-427 | splitting a body at the JSON length returns the document its text says and the blob it was framed from |
| BinaryExtension.SliceOutputs | src/KserveHttpClient.cpp:605-621 | the offset loop computes the recursive slicing, its errors included |
| BinaryExtension.BinaryRoundTrip | src/KserveProtocol.cpp:385-438 | tensors of any sizes come back from their nodes and the blob in order, wherever in a larger blob they stand |
| BinaryExtension.SlicingSucceedsIff | src/KserveHttpClient.cpp:605-621 | slicing succeeds if and only if every node can be read and the announced sizes add up to no more than the blob |
| BinaryExtension.SlicesPartitionBlob | src/KserveHttpClient.cpp:605-621 | the data of the binary outputs, in order, is exactly the announced part of the blob, which the final offset ends |
| BinaryExtension.EachSlice | src/KserveHttpClient.cpp:605-621 | each binary output is the in-bounds slice that starts where the sizes before it end; an inline output is its own node's data |
| BinaryExtension.OutputIsNode | src/KserveHttpClient.cpp:605-621 | each output by the members of its node: name, datatype (FP32 when missing), shape; its bytes are the announced slice, or without a size what its data array decodes to, and then no blob is taken |
| BinaryExtension.ReadableIff | src/KserveHttpClient.cpp:605-621 | a node can be read if and only if its name and datatype are strings or missing, its shape and size numbers or missing, and inline data an array the decoder takes |
| GrpcContents.TensorContents.FillInts | src/KserveGrpcClient.cpp:100-113 | the fill loop appends every element's value to the field of its datatype |
| GrpcContents.TensorContents.EncodeInput | src/KserveGrpcClient.cpp:115-153 | the message gains exactly the tensor's elements, or an error leaves it unchanged |
| GrpcContents.EncodeTakes | src/KserveGrpcClient.cpp:115-153 | typed contents take exactly the integer datatypes, BOOL, FP32 and FP64, and whole elements of them |
| GrpcContents.FillsField | src/KserveGrpcClient.cpp:115-153 | which one field an integer tensor fills, by datatype, and its n-th value, negative exactly for a signed datatype with the top bit set |
| GrpcContents.AppendBytes | src/KserveGrpcClient.cpp:157-164 | the append loop adds the bytes of each value cast to the element width |
| GrpcContents.ReadsField | src/KserveGrpcClient.cpp:166-218 | an integer output: its n-th element is the n-th value of its own field cast to the width, and the n-th truncated fp64 value only when that field is empty |
| GrpcContents.ReadsBools | src/KserveGrpcClient.cpp:202-203 | a BOOL output is one byte a value, 1 for true |
| GrpcContents.ReadsFloats | src/KserveGrpcClient.cpp:166-218 | an FP32 output: the n-th pattern of its own field, the n-th fp64 value narrowed only when that field is empty; an FP64 output: the n-th fp64 pattern |
| GrpcContents.TypedRoundTrip | src/KserveGrpcClient.cpp:115-218 | typed contents come back byte for byte, the empty tensor included, if and only if the tensor is not a non-empty BOOL one, which comes back empty |
| GrpcContents.AgreesWithHttp | src/KserveGrpcClient.cpp:115-218 | on every datatype both codecs support they accept the same byte arrays, and they give the same bytes back if and only if the tensor is neither a non-empty BOOL one nor an FP32 one with a signalling NaN |
| GrpcContents.ReadResponse | src/KserveGrpcClient.cpp:323-342 | the output loop takes the raw entry of its own index where there is one and the typed contents otherwise |
| GrpcContents.EachRequestTensor | src/KserveGrpcClient.cpp:293-310 | the i-th request tensor carries the name, datatype and shape of its input, with empty contents when the payload goes raw |
| GrpcContents.EachOutput | src/KserveGrpcClient.cpp:323-342 | the i-th output has its own raw entry where there are that many, and its typed contents otherwise, an empty datatype read as FP32 |
| GrpcContents.RawEcho | src/KserveGrpcClient.cpp:293-342 | request tensors echoed with their raw payloads are read as the same tensors, an empty datatype as FP32 |
| GrpcContents.TypedEcho | src/KserveGrpcClient.cpp:293-342 | echoed typed contents are read as the same tensors, non-empty BOOL tensors aside |
| HttpClients.WithRetry | src/KserveHttpClient.cpp:394-403 | retried round trips are a complete retry run of attempts with one and the same request, keep the connection's invariant, and return the last attempt's outcome; repeated for failures and retryable statuses only |
| HttpClients.RunIsByStatus | src/KserveRetry.cpp:92-94 | attempts are repeated after failures and the statuses 429, 502, 503 and 504, and after nothing else |
| HttpClients.RetryStartsFresh | src/KserveHttpClient.cpp:394-403 | after an attempt that threw, the next one starts on a connection no earlier attempt used, after the prescribed wait |
| HttpClients.BuildInputs | src/KserveHttpClient.cpp:543-561 | the input loop in both modes, a missing payload or an unencodable tensor refused |
| HttpClients.InputsUsableIff | src/KserveHttpClient.cpp:543-561 | the inputs can be sent if and only if each has data and, in JSON mode, a supported datatype and whole elements |
| EndToEnd.SendableOnlyIf | src/KserveHttpClient.cpp:534-572 | a request is sent only when the endpoint parses, every input is usable and every name is text to the JSON library |
| HttpClients.InlineNodeSays | src/KserveHttpClient.cpp:552-558 | the node built in JSON mode names the input, gives its datatype, shape and array under the members read, and no byte count |
| EndToEnd.BinaryInputs | src/KserveHttpClient.cpp:543-561 | in binary mode the loop builds the node of every input and the concatenation of their bytes, in order |
| EndToEnd.BinaryRequestBody | src/KserveHttpClient.cpp:543-584 | the body of a binary request, split at the announced length and sliced, gives back the inputs |
| EndToEnd.BinaryRequestText | src/KserveHttpClient.cpp:573-584 | the text of a binary request is a message with the JSON part and the blob as its body, and its length header reads as the length of the JSON part |
| HttpClients.HttpClient.PathIs | src/KserveHttpClient.cpp:405-412 | the path is the prefix and the infer path of the model, with its version where there is one |
| HttpClients.RequestHolds | src/KserveHttpClient.cpp:539-572 | the document holds the id, the nodes, and in binary mode with known output names one entry a name that asks for binary data |
| EndToEnd.BinaryRequestIs | src/KserveHttpClient.cpp:534-584 | a binary request of the client is the message with its path and token whose body is the document and the blob |
| EndToEnd.JsonRequestText | src/KserveHttpClient.cpp:534-584 | a JSON request of the client is the message with its path, token and the JSON content type whose body is the document |
| EndToEnd.JsonRequestDelimits | src/KserveHttpClient.cpp:534-584 | a JSON request of the client is complete at its last byte and nowhere earlier |
| EndToEnd.JsonRequestBody | src/KserveHttpClient.cpp:562-572 | the body of a JSON request, parsed, has the inputs as nodes that read as the tensors if and only if all elements are finite, and asks for no outputs |
| HttpClients.ReadInlines | src/KserveHttpClient.cpp:630-641 | the output loop of a JSON response |
| HttpClients.InlineIsNode | src/KserveHttpClient.cpp:630-641 | each output of a JSON response by the members of its node, and when it can be read |
| EndToEnd.DecodeBinaryBody | src/KserveHttpClient.cpp:589-622 | a 200 response whose body is the document of some tensors followed by their blob, with the document's length announced, decodes to these tensors |
| EndToEnd.MixedRoundTrip | src/KserveHttpClient.cpp:605-621 | tensors sent as binary nodes and as inline arrays in any mixture come back in order; only the binary ones take blob bytes |
| EndToEnd.MixedBody | src/KserveHttpClient.cpp:595-622 | a binary body whose nodes are binary and inline in any mixture decodes to all the tensors, the inline ones from what their arrays are once written and read |
| HttpClients.HttpClient.Infer | src/KserveHttpClient.cpp:534-642 | nothing is sent when the endpoint, an input or the document is unusable; otherwise every attempt carries the one request to the parsed endpoint, and the result is what the last response decodes to; it is exactly the tensors the last reply carries when that was not cut off, and an error or these tensors when it cannot be misread; an error whenever the last attempt failed or was answered with a status other than 200 |
| HttpClients.ReplyIsAnswer | src/KserveHttpClient.cpp:577-642 | in every run: if the server's reply to the last attempt parses and decodes to some tensors and was read without a close, these tensors are the answer |
| HttpClients.OtherStatusIsError | src/KserveHttpClient.cpp:589-593 | only an attempt answered with status 200 can give tensors |
| HttpClients.NoWrongAnswer | src/KserveHttpClient.cpp:577-642 | in every run, however the last attempt ended: if the server's reply to it cannot be misread as anything but some tensors, the answer is an error or these tensors |
| EndToEnd.OtherStatusRefused | src/KserveHttpClient.cpp:589-593 | any message with another status, whatever its framing and body and wherever it is cut, is an error |
| EndToEnd.NoOutputsRefused | src/KserveHttpClient.cpp:595-628 | a 200 response is an error when its document cannot be parsed, reaches behind the body, or has no array of outputs |
| EndToEnd.ClosedMidMessage | src/KserveHttpClient.cpp:314-323 | a close anywhere inside a length-framed message, from the reader to the parser: an error if and only if it falls in the head, otherwise the announced status with the cut body |
| EndToEnd.ClosedMidChunks | src/KserveHttpClient.cpp:314-323 | a close anywhere inside a chunked body that does not count as complete before its end, from the reader to the parser: an error if and only if it falls inside the data of a chunk, otherwise a response with the payload of the chunks that arrived |
| EndToEnd.BinaryResponseEndToEnd | src/KserveHttpClient.cpp:595-622 | tensors framed as a binary response, under any head that announces the JSON length in any spelling, plain or in any chunking with any last chunk and trailers, are exactly what the client returns |
| EndToEnd.CutBinaryBody | src/KserveProtocol.cpp:417-438 | a binary body cut anywhere is refused under the announced JSON length |
| EndToEnd.CutPlainReply | src/KserveHttpClient.cpp:595-622 | a plain binary reply cut anywhere before its end is refused |
| EndToEnd.CutChunkedReply | src/KserveHttpClient.cpp:595-622 | a chunked binary reply cut anywhere in its body passes, for exactly the tensors, if and only if the data of every chunk arrived |
| EndToEnd.BinaryNeverMisread | src/KserveHttpClient.cpp:595-622 | wherever a binary reply is cut off, in its head, its JSON part, its blob or its chunking, what came is refused or is exactly the tensors |
| EndToEnd.JsonEcho | src/KserveHttpClient.cpp:552-559 | inputs of supported datatypes, of whole elements, with 64-bit dimensions and names that are text, echoed as outputs of a JSON response, are read as the same tensors if and only if no element is an infinity or a NaN, and the response is refused otherwise |
| TensorCodec.PrintedRoundTrip | src/KserveProtocol.cpp:333-345 | an encoded array that went through its text decodes to the same bytes if and only if all elements are finite, and fails otherwise, for every datatype |
| EndToEnd.JsonResponseEndToEnd | src/KserveHttpClient.cpp:624-641 | the same through the parser, under any head without the length field, plain or in any chunking |

## Left out

- Sockets, name resolution, timeouts and OpenSSL: connect, send and recv are open choices with the contracts above.
- JSON text and float printing: only documents as values, and what of them their text keeps.
- gRPC channels, stubs, contexts and their retry wrapper, which instantiates the loop proved here.
- Environment and file readers apart from KSERVE_MAX_RETRIES, secrets, certificates, path builders, the repository index, metadata and health probes: each is settled by reading one branch.
- Interim 1xx responses and replies that start before the request is complete.
- Response.DechunkBody: does not model the wrap-around of the size arithmetic for chunk sizes near 2^64.
- BinaryExtension.SliceOutputs: a shape given as a JSON object is refused, where the JSON library would walk its values; error texts are shortened.
- Backoff.DelayMonotone: is about exact reals, where the code computes in binary64.
- FP32 and FP64 arithmetic beyond bit patterns, and the random source: the unit is an input of each wait.
