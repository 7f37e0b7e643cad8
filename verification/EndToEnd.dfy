/** From the tensors to the bytes and back: what whole requests and replies come to, also when the
    connection is closed in the middle of one. */
module EndToEnd {
  import opened Wrappers
  import opened Text
  import opened Numerals
  import opened Framing
  import opened HeaderLines
  import opened Chunks
  import opened Response
  import opened FramedReader
  import opened Endpoints
  import opened Requests
  import opened LittleEndian
  import opened Json
  import opened TensorCodec
  import opened BinaryExtension
  import opened HttpClients

  // ---- the connection closed in the middle of a reply ----

  /** The peer closes in the middle of a length-framed message: the reader hands over what came, and the
      parser refuses it exactly when the blank line had not come whole; otherwise it returns the
      announced status with the cut body. */
  lemma {:induction false} ClosedMidMessage(ls: seq<string>, k: nat, f: NumberField, body: string, m: nat,
                                            events: seq<RecvEvent>, status: nat)
    requires LengthFramed(ls, k, f, |body|) && !LooksChunked(LowerHead(ls)) && StatusLine(ls[0], status)
    requires 0 < m < |Message(ls, body)| && FramedReader.Splits(events, Message(ls, body)[..m])
    ensures ReadFrom("", events + [PeerClosed]) == Closed(Message(ls, body)[..m])
    ensures ParseHttpResponse(Message(ls, body)[..m]).Err? <==> m < |Join(ls)| + 4
    ensures m >= |Join(ls)| + 4 ==>
              ParseHttpResponse(Message(ls, body)[..m]) ==
              Ok(HttpResponse(status, body[..m - (|Join(ls)| + 4)], InferenceLength(Join(ls))))
  {
    hide MessageComplete, Join, LowerHead, LooksChunked, StatusLine, ParseHttpResponse, InferenceLength, Splits, ReadFrom,
      FirstTerminatorAtEnd, Message;
    ContentLengthFraming(ls, k, f, body);
    CloseInTheMiddle(events, Message(ls, body), m);
    MessageLength(ls, body);
    CutPlainMessage(ls, k, f, body, m, status);
  }

  lemma {:induction false} MessageLength(ls: seq<string>, body: string)
    ensures |Message(ls, body)| == |Join(ls)| + 4 + |body|
  {
  }

  /** The peer closes in the middle of a chunked body that does not count as complete before its end:
      what came is refused exactly when the close fell inside the data of a chunk, and otherwise passes
      for a response with the payload of the chunks that arrived. */
  lemma {:induction false} ClosedMidChunks(ls: seq<string>, cs: seq<Chunk>, size: string, ext: string, trailers: string,
                                           m: nat, events: seq<RecvEvent>, status: nat)
    requires ls != [] && AllLines(ls) && LooksChunked(LowerHead(ls)) && StatusLine(ls[0], status)
    requires AllValid(cs) && ZeroLine(size, ext)
    requires NeverEarly(Message(ls, Encode(cs, size + ext + CRLF + trailers)))
    requires m < |Encode(cs, size + ext + CRLF + trailers)|
    requires FramedReader.Splits(events, Message(ls, Encode(cs, size + ext + CRLF + trailers)[..m]))
    ensures var raw := Message(ls, Encode(cs, size + ext + CRLF + trailers)[..m]);
            && ReadFrom("", events + [PeerClosed]) == Closed(raw)
            && (ParseHttpResponse(raw).Err? <==> exists j: nat :: CutsData(cs, j, m))
            && (ParseHttpResponse(raw).Ok? <==> exists n: nat :: Arrived(cs, n, m))
            && (forall n: nat :: n <= |cs| && Arrived(cs, n, m) ==>
                  ParseHttpResponse(raw) == Ok(HttpResponse(status, Payload(cs[..n]), InferenceLength(Join(ls)))))
  {
    hide MessageComplete, LowerHead, LooksChunked, StatusLine, ParseHttpResponse, InferenceLength, Splits, ReadFrom,
      NeverEarly, AllValid, ZeroLine, Encode, Dechunk, CutsData, Arrived, Join, Payload, AllLines;
    var tail := size + ext + CRLF + trailers;
    var body := Encode(cs, tail);
    var raw, short := Message(ls, body), Message(ls, body[..m]);
    assert raw[..|short|] == short;
    CloseInTheMiddle(events, raw, |short|);
    ParseMessage(ls, body[..m], status);
    CutChunkedBody(cs, tail, size, ext, trailers, m);
  }

  // ---- binary responses ----

  function ResponseDocument(nodes: seq<Json>): Json {
    Obj(map["outputs" := Arr(nodes)])
  }

  lemma {:induction false} DocumentPrinted(nodes: seq<Json>)
    ensures Printed(ResponseDocument(nodes)) == ResponseDocument(PrintedAll(nodes))
  {
    PrintedArr(nodes);
    assert Printed(ResponseDocument(nodes)).members == ResponseDocument(PrintedAll(nodes)).members;
  }

  lemma {:induction false} DocumentWritable(codec: TextCodec, nodes: seq<Json>)
    requires codec.Inverts() && AllWritable(codec.isText, nodes)
    ensures codec.Accepts(ResponseDocument(nodes))
  {
    hide Writable, AllWritable, Printed;
    NodeKeys(codec);
    hide TextCodec.Inverts;
    ArrWritable(codec.isText, nodes);
    ObjWritable(codec.isText, map["outputs" := Arr(nodes)]);
  }

  /** The JSON part of a binary response that carries the tensors, and the whole body. */
  function BinaryHeader(codec: TextCodec, ts: seq<Tensor>): string {
    codec.dump(ResponseDocument(Nodes(ts)))
  }

  function BinaryBody(codec: TextCodec, ts: seq<Tensor>): string {
    BinaryHeader(codec, ts) + ToText(Blob(ts))
  }

  /** Tensors that can be carried: sizes and dimensions of 64 bits, names and datatypes that are text. */
  ghost predicate Carriable(codec: TextCodec, ts: seq<Tensor>) {
    codec.Inverts() && Encodable(ts) && AllText(codec, ts)
  }

  /** The body with the last bytes of the blob missing, if any, is split at the announced length. */
  lemma {:induction false} SplitCut(codec: TextCodec, ts: seq<Tensor>, k: nat)
    requires Carriable(codec, ts) && k <= |Blob(ts)|
    ensures SplitBinaryBody(codec, BinaryHeader(codec, ts) + ToText(Blob(ts)[..k]), |BinaryHeader(codec, ts)|) ==
            Ok((ResponseDocument(Nodes(ts)), Blob(ts)[..k]))
  {
    hide SplitBinaryBody, Printed, TextCodec.Accepts, TextCodec.Inverts, Encodable, AllText, Nodes, Blob, AllWritable;
    NodesAsText(codec, ts);
    DocumentWritable(codec, Nodes(ts));
    DocumentPrinted(Nodes(ts));
    SplitFramed(codec, ResponseDocument(Nodes(ts)), Blob(ts)[..k]);
  }

  lemma {:induction false} DecodeBinaryBody(codec: TextCodec, c: Casts, ts: seq<Tensor>)
    requires Carriable(codec, ts)
    ensures DecodeResponse(codec, c, HttpResponse(200, BinaryBody(codec, ts), |BinaryHeader(codec, ts)|)) == Ok(ts)
  {
    hide TakeOutputs, SplitBinaryBody, TextCodec.Inverts, Encodable, AllText, BinaryHeader, Nodes, Blob;
    SplitCut(codec, ts, |Blob(ts)|);
    assert Blob(ts)[..|Blob(ts)|] == Blob(ts);
    BinaryRoundTrip(c, ts, [], []);
    assert [] + Blob(ts) + [] == Blob(ts);
  }

  /** Cut anywhere, a binary body is refused: its JSON part, or the slice of some tensor, is not all there. */
  lemma {:induction false} CutBinaryBody(codec: TextCodec, c: Casts, ts: seq<Tensor>, p: nat)
    requires Carriable(codec, ts) && p < |BinaryBody(codec, ts)|
    ensures DecodeResponse(codec, c, HttpResponse(200, BinaryBody(codec, ts)[..p], |BinaryHeader(codec, ts)|)).Err?
  {
    hide TakeOutputs, TextCodec.Inverts, Encodable, AllText, BinaryHeader, Nodes, Blob, BlobTotal, Readable, SplitBinaryBody;
    var n := |BinaryHeader(codec, ts)|;
    if p < n {
      TooShortForHeader(codec, BinaryBody(codec, ts)[..p], n);
    } else {
      var k := p - n;
      CutText(Blob(ts), k);
      assert BinaryBody(codec, ts)[..p] == BinaryHeader(codec, ts) + ToText(Blob(ts))[..k];
      SplitCut(codec, ts, k);
      NodesAnnounceBlob(c, ts);
      SlicingSucceedsIff(c, Nodes(ts), Blob(ts)[..k], 0);
    }
  }

  lemma {:induction false} TooShortForHeader(codec: TextCodec, body: string, n: nat)
    requires |body| < n
    ensures SplitBinaryBody(codec, body, n).Err?
  {
  }

  lemma {:induction false} CutText(bytes: seq<Byte>, k: nat)
    requires k <= |bytes|
    ensures ToText(bytes)[..k] == ToText(bytes[..k])
  {
  }

  /** A head for a binary response: status 200, and line k, the first with that field, announces the
      length of the JSON part. */
  ghost predicate BinaryHead(codec: TextCodec, ts: seq<Tensor>, ls: seq<string>, k: nat, f: NumberField) {
    && 1 <= k < |ls| && AllLines(ls) && StatusLine(ls[0], 200)
    && ls[k] == f.Line() && f.Valid(INFERENCE_LENGTH, |BinaryHeader(codec, ts)|)
    && !SomeLineHas(ls[..k], INFERENCE_LENGTH)
  }

  /** The body in transit: as it is, or in any chunking with any last chunk and trailers. */
  function InTransit(ls: seq<string>, cs: seq<Chunk>, size: string, ext: string, trailers: string): string {
    if LooksChunked(LowerHead(ls)) then Encode(cs, size + ext + CRLF + trailers) else Payload(cs)
  }

  /** Tensors framed as a binary response, sent under any head that announces the JSON length, plain or
      in any chunking with any last chunk and trailers, are what the client returns. */
  lemma {:induction false} BinaryResponseEndToEnd(codec: TextCodec, c: Casts, ts: seq<Tensor>, ls: seq<string>, k: nat,
                                                  f: NumberField, cs: seq<Chunk>, size: string, ext: string, trailers: string)
    requires Carriable(codec, ts) && BinaryHead(codec, ts, ls, k, f)
    requires AllValid(cs) && ZeroLine(size, ext) && Payload(cs) == BinaryBody(codec, ts)
    ensures Carries(codec, c, Message(ls, InTransit(ls, cs, size, ext, trailers)), ts)
  {
    hide ParseHttpResponse, DecodeResponse, StatusLine, SomeLineHas, Carriable, BinaryBody, BinaryHeader, LowerHead,
      Join, LooksChunked, Encode, AllLines, Payload, AllValid, ZeroLine, NumberField.Valid, Message;
    ReadsInferenceLength(ls, k, f, |BinaryHeader(codec, ts)|);
    DecodeBinaryBody(codec, c, ts);
    if LooksChunked(LowerHead(ls)) {
      ChunkedRoundTrip(ls, cs, size, ext, trailers, 200);
    } else {
      ParseMessage(ls, Payload(cs), 200);
    }
  }

  /** Under such a head, bytes that parse to only part of the body are refused. */
  lemma {:induction false} PartOfBody(codec: TextCodec, c: Casts, ts: seq<Tensor>, ls: seq<string>, k: nat, f: NumberField,
                                      raw: string, p: nat)
    requires Carriable(codec, ts) && BinaryHead(codec, ts, ls, k, f) && p <= |BinaryBody(codec, ts)|
    requires ParseHttpResponse(raw) == Ok(HttpResponse(200, BinaryBody(codec, ts)[..p], InferenceLength(Join(ls))))
    ensures if p == |BinaryBody(codec, ts)| then Decoded(codec, c, raw) == Ok(ts) else Decoded(codec, c, raw).Err?
  {
    hide ParseHttpResponse, DecodeResponse, StatusLine, SomeLineHas, Carriable, BinaryBody, BinaryHeader, Join,
      AllLines, NumberField.Valid, InferenceLength;
    ReadsInferenceLength(ls, k, f, |BinaryHeader(codec, ts)|);
    if p < |BinaryBody(codec, ts)| {
      CutBinaryBody(codec, c, ts, p);
    } else {
      assert BinaryBody(codec, ts)[..p] == BinaryBody(codec, ts);
      DecodeBinaryBody(codec, c, ts);
    }
  }

  /** A plain binary reply cut anywhere before its end is refused. */
  lemma {:induction false} CutPlainReply(codec: TextCodec, c: Casts, ts: seq<Tensor>, ls: seq<string>, k: nat,
                                         f: NumberField, m: nat)
    requires Carriable(codec, ts) && BinaryHead(codec, ts, ls, k, f) && !LooksChunked(LowerHead(ls))
    requires m < |Message(ls, BinaryBody(codec, ts))|
    ensures Decoded(codec, c, Message(ls, BinaryBody(codec, ts))[..m]).Err?
  {
    hide ParseHttpResponse, DecodeResponse, StatusLine, SomeLineHas, Carriable, BinaryBody, LowerHead,
      Join, LooksChunked, AllLines, NumberField.Valid, InferenceLength;
    var body := BinaryBody(codec, ts);
    if m < |Join(ls)| + 4 {
      CutInHead(ls, body, m);
    } else {
      var p := m - (|Join(ls)| + 4);
      assert Message(ls, body)[..m] == Message(ls, body[..p]);
      ParseMessage(ls, body[..p], 200);
      PartOfBody(codec, c, ts, ls, k, f, Message(ls, body)[..m], p);
    }
  }

  lemma {:induction false} PayloadSplit(cs: seq<Chunk>, n: nat)
    requires n <= |cs|
    ensures Payload(cs) == Payload(cs[..n]) + Payload(cs[n..])
  {
    if n == 0 {
      assert cs[0..] == cs && cs[..0] == [];
    } else {
      PayloadSplit(cs[1..], n - 1);
      assert cs[..n][1..] == cs[1..][..n - 1] && cs[n..] == cs[1..][n - 1..];
    }
  }

  /** The payload of some of the first chunks is a part of the whole one, a proper part unless they are all. */
  lemma {:induction false} PayloadPart(cs: seq<Chunk>, n: nat)
    requires AllValid(cs) && n <= |cs|
    ensures |Payload(cs[..n])| <= |Payload(cs)| && Payload(cs[..n]) == Payload(cs)[..|Payload(cs[..n])|]
    ensures |Payload(cs[..n])| < |Payload(cs)| <==> n < |cs|
  {
    PayloadSplit(cs, n);
    assert cs[..n] + cs[n..] == cs;
    if n < |cs| {
      assert cs[n].Valid();
      assert Payload(cs[n..]) != "";
    } else {
      assert Payload(cs[n..]) == "";
    }
  }

  /** A chunked binary reply cut anywhere in its body: it passes, for exactly the tensors, if and only if
      the data of every chunk arrived, and is refused otherwise. */
  lemma {:induction false} CutChunkedReply(codec: TextCodec, c: Casts, ts: seq<Tensor>, ls: seq<string>, k: nat, f: NumberField,
                                           cs: seq<Chunk>, size: string, ext: string, trailers: string, m: nat)
    requires Carriable(codec, ts) && BinaryHead(codec, ts, ls, k, f) && LooksChunked(LowerHead(ls))
    requires AllValid(cs) && ZeroLine(size, ext) && Payload(cs) == BinaryBody(codec, ts)
    requires m <= |Encode(cs, size + ext + CRLF + trailers)|
    ensures var raw := Message(ls, Encode(cs, size + ext + CRLF + trailers)[..m]);
            if Arrived(cs, |cs|, m) then Decoded(codec, c, raw) == Ok(ts) else Decoded(codec, c, raw).Err?
  {
    hide ParseHttpResponse, DecodeResponse, StatusLine, SomeLineHas, Carriable, BinaryBody, BinaryHeader, LowerHead, ZeroLine,
      Join, LooksChunked, AllLines, NumberField.Valid, InferenceLength, Encode, Payload, AllValid, Arrived, CutsData, Dechunk, Message;
    var tail := size + ext + CRLF + trailers;
    var part := Encode(cs, tail)[..m];
    ParseMessage(ls, part, 200);
    CutChunkedBody(cs, tail, size, ext, trailers, m);
    assert cs[..|cs|] == cs;
    if Dechunk(part, 0).Ok? {
      var some: nat :| Arrived(cs, some, m);
      var n := if Arrived(cs, |cs|, m) then |cs| else some;
      ArrivedOf(cs, n, m);
      PayloadPart(cs, n);
      PartOfBody(codec, c, ts, ls, k, f, Message(ls, part), |Payload(cs[..n])|);
    }
  }

  lemma {:induction false} ArrivedOf(cs: seq<Chunk>, n: nat, m: nat)
    requires Arrived(cs, n, m)
    ensures n <= |cs|
  {
  }

  /** However a binary reply is framed and wherever it is cut, the client returns the tensors it carries
      or an error, never anything else. */
  lemma {:induction false} BinaryNeverMisread(codec: TextCodec, c: Casts, ts: seq<Tensor>, ls: seq<string>, k: nat, f: NumberField,
                                              cs: seq<Chunk>, size: string, ext: string, trailers: string)
    requires Carriable(codec, ts) && BinaryHead(codec, ts, ls, k, f)
    requires AllValid(cs) && ZeroLine(size, ext) && Payload(cs) == BinaryBody(codec, ts)
    ensures NeverMisread(codec, c, Message(ls, InTransit(ls, cs, size, ext, trailers)), ts)
  {
    hide ParseHttpResponse, DecodeResponse, StatusLine, SomeLineHas, Carriable, BinaryBody, BinaryHeader, LowerHead, ZeroLine,
      Join, LooksChunked, AllLines, NumberField.Valid, Encode, Payload, AllValid, Arrived, Decoded, Message;
    var body := InTransit(ls, cs, size, ext, trailers);
    var reply := Message(ls, body);
    BinaryResponseEndToEnd(codec, c, ts, ls, k, f, cs, size, ext, trailers);
    MessageLength(ls, body);
    forall m | 0 <= m <= |reply|
      ensures Decoded(codec, c, reply[..m]).Err? || Decoded(codec, c, reply[..m]) == Ok(ts)
    {
      if m == |reply| {
        assert reply[..m] == reply;
      } else if !LooksChunked(LowerHead(ls)) {
        CutPlainReply(codec, c, ts, ls, k, f, m);
      } else if m < |Join(ls)| + 4 {
        CutInHead(ls, body, m);
        HeadRefused(codec, c, reply[..m]);
      } else {
        var p := m - (|Join(ls)| + 4);
        CutMessage(ls, body, p);
        CutChunkedReply(codec, c, ts, ls, k, f, cs, size, ext, trailers, p);
      }
    }
  }

  lemma {:induction false} HeadRefused(codec: TextCodec, c: Casts, raw: string)
    requires ParseHttpResponse(raw).Err?
    ensures Decoded(codec, c, raw).Err?
  {
  }

  lemma {:induction false} CutMessage(ls: seq<string>, body: string, p: nat)
    requires p <= |body|
    ensures |Message(ls, body)| == |Join(ls)| + 4 + |body|
    ensures Message(ls, body)[..|Join(ls)| + 4 + p] == Message(ls, body[..p])
  {
  }

  // ---- binary requests ----

  function Inputs(ts: seq<Tensor>): (inputs: seq<InferInput>)
    ensures |inputs| == |ts|
  {
    seq(|ts|, i requires 0 <= i < |ts| => InferInput(ts[i].name, ts[i].datatype_, ts[i].shape, Some(ts[i].data)))
  }

  /** In binary mode the input loop builds the node of every tensor and the concatenation of their bytes. */
  lemma {:induction false} BinaryInputs(c: Casts, ts: seq<Tensor>)
    ensures InputNodes(c, true, Inputs(ts)) == Ok(Nodes(ts)) && InputBlob(true, Inputs(ts)) == Blob(ts)
  {
    hide BinaryNode, EncodeTensorData;
    if ts != [] {
      assert Inputs(ts)[1..] == Inputs(ts[1..]);
      BinaryInputs(c, ts[1..]);
    }
  }

  /** The document of a request and its text. */
  lemma {:induction false} RequestAsText(codec: TextCodec, nodes: seq<Json>, binary: bool, outputNames: seq<string>)
    requires codec.Inverts() && AllWritable(codec.isText, nodes) && PrintedAll(nodes) == nodes
    requires forall i :: 0 <= i < |outputNames| ==> codec.isText(outputNames[i])
    ensures codec.Accepts(RequestJson(nodes, binary, outputNames))
    ensures Printed(RequestJson(nodes, binary, outputNames)) == RequestJson(nodes, binary, outputNames)
  {
    hide Writable, Printed, AllWritable, RequestBinaryOutput;
    RequestKeys(codec);
    var members := RequestJson(nodes, binary, outputNames).members;
    OutputRequestsAsText(codec, outputNames);
    hide TextCodec.Inverts;
    ArrWritable(codec.isText, nodes);
    ArrWritable(codec.isText, OutputRequests(outputNames));
    LeafWritable(codec.isText, "kserve-client", 0);
    ObjWritable(codec.isText, members);
    PrintedArr(nodes);
    PrintedArr(OutputRequests(outputNames));
    LeafPrinted("kserve-client", 0, false);
    SameMembers(members);
  }

  lemma {:induction false} SameMembers(members: map<string, Json>)
    requires forall key :: key in members ==> Printed(members[key]) == members[key]
    ensures Printed(Obj(members)) == Obj(members)
  {
    assert Printed(Obj(members)).members == members;
  }

  lemma {:induction false} LeafPrinted(s: string, i: int, b: bool)
    ensures Printed(Str(s)) == Str(s) && Printed(Int(i)) == Int(i) && Printed(Bool(b)) == Bool(b)
  {
  }

  lemma {:induction false} RequestKeys(codec: TextCodec)
    requires codec.Inverts()
    ensures codec.isText("id") && codec.isText("inputs") && codec.isText("outputs") && codec.isText("kserve-client")
    ensures codec.isText("name") && codec.isText("parameters") && codec.isText("binary_data")
  {
    hide Printed, Writable;
    assert Ascii("id") && Ascii("inputs") && Ascii("outputs") && Ascii("kserve-client");
    assert Ascii("name") && Ascii("parameters") && Ascii("binary_data");
  }

  lemma {:induction false} OutputRequestsAsText(codec: TextCodec, names: seq<string>)
    requires codec.Inverts() && forall i :: 0 <= i < |names| ==> codec.isText(names[i])
    ensures AllWritable(codec.isText, OutputRequests(names)) && PrintedAll(OutputRequests(names)) == OutputRequests(names)
  {
    hide Writable, Printed;
    RequestKeys(codec);
    hide TextCodec.Inverts;
    var wanted := map["binary_data" := Bool(true)];
    LeafPrinted("", 0, true);
    SameMembers(wanted);
    BoolWritable(codec.isText);
    ObjWritable(codec.isText, wanted);
    forall i | 0 <= i < |names|
      ensures Writable(codec.isText, OutputRequests(names)[i]) && Printed(OutputRequests(names)[i]) == OutputRequests(names)[i]
    {
      var members := RequestBinaryOutput(names[i]).members;
      LeafPrinted(names[i], 0, true);
      LeafWritable(codec.isText, names[i], 0);
      ObjWritable(codec.isText, members);
      SameMembers(members);
    }
    PrintedSame(OutputRequests(names));
  }

  lemma {:induction false} BoolWritable(isText: string -> bool)
    ensures Writable(isText, Bool(true))
  {
  }

  /** The body of a binary request, split at the announced length and sliced, gives back the inputs. */
  lemma {:induction false} BinaryRequestBody(codec: TextCodec, c: Casts, ts: seq<Tensor>, outputNames: seq<string>)
    requires Carriable(codec, ts) && forall i :: 0 <= i < |outputNames| ==> codec.isText(outputNames[i])
    ensures InputNodes(c, true, Inputs(ts)).Ok?
    ensures var document := RequestJson(InputNodes(c, true, Inputs(ts)).value, true, outputNames);
            var json := codec.dump(document);
            && codec.Accepts(document)
            && SplitBinaryBody(codec, json + ToText(InputBlob(true, Inputs(ts))), |json|) == Ok((document, Blob(ts)))
            && document.members["inputs"] == Arr(Nodes(ts))
            && TakeOutputs(c, Nodes(ts), Blob(ts), 0) == Ok((ts, |Blob(ts)|))
  {
    hide SplitBinaryBody, Printed, TextCodec.Accepts, TextCodec.Inverts, Encodable, AllText, Nodes, Blob, AllWritable,
      InputNodes, InputBlob, TakeOutputs;
    BinaryInputs(c, ts);
    NodesAsText(codec, ts);
    RequestAsText(codec, Nodes(ts), true, outputNames);
    SplitFramed(codec, RequestJson(Nodes(ts), true, outputNames), Blob(ts));
    BinaryRoundTrip(c, ts, [], []);
    assert [] + Blob(ts) + [] == Blob(ts);
  }

  /** The text of a binary request is a message with this body, and its length header announces the JSON part. */
  lemma {:induction false} BinaryRequestText(ep: Endpoint, path: string, token: string, json: string, blob: seq<Byte>)
    requires Inline(path) && Inline(ep.host) && Inline(token) && |json| < LONG_LIMIT
    requires !SomeLineHas(LeadLines("POST", ep, path, token, "application/octet-stream", []), INFERENCE_LENGTH)
    ensures var lines := LeadLines("POST", ep, path, token, "application/octet-stream", [AnnouncingLine(|json|)]) +
                         [LengthLineOf(|json + ToText(blob)|)];
            && InferRequest(ep, path, token, json, true, blob) == Message(lines, json + ToText(blob))
            && InferenceLength(Join(lines)) == |json|
  {
    hide BuildRequest, SomeLineHas, InferenceLength, HeaderText, Join, LengthLineOf, Message, Decimal, AllSpace;
    var line := AnnouncingLine(|json|);
    HeaderTextOne(line);
    RequestIsMessage("POST", ep, path, token, "application/octet-stream", [line], json + ToText(blob));
    var lead := LeadLines("POST", ep, path, token, "application/octet-stream", []);
    var lines := LeadLines("POST", ep, path, token, "application/octet-stream", [line]) + [LengthLineOf(|json + ToText(blob)|)];
    assert lead + [] == lead;
    assert lines[..|lead|] == lead && lines[|lead|] == line;
    AnnouncingField(|json|);
    ReadsInferenceLength(lines, |lead|, AnnouncedBy(|json|), |json|);
  }

  function AnnouncingLine(n: nat): string {
    INFERENCE_HEADER + ": " + Decimal(n)
  }

  function AnnouncedBy(n: nat): NumberField {
    NumberField(INFERENCE_HEADER + ":", " ", Decimal(n), "")
  }

  lemma {:induction false} AnnouncingField(n: nat)
    requires n < LONG_LIMIT
    ensures AnnouncedBy(n).Valid(INFERENCE_LENGTH, n) && AnnouncedBy(n).Line() == AnnouncingLine(n)
    ensures AnnouncingLine(n) == "Inference-Header-Content-Length: " + Decimal(n)
  {
    hide ToLower, IsToken, ValueOf;
    LowerName();
    assert IsToken(Decimal(n), 10) && ValueOf(Decimal(n), 10) == n;
    assert " " + Decimal(n) + "" == " " + Decimal(n);
    assert INFERENCE_HEADER + ":" + (" " + Decimal(n)) == INFERENCE_HEADER + ": " + Decimal(n);
  }

  lemma {:induction false} LowerName()
    ensures ToLower(INFERENCE_HEADER + ":") == INFERENCE_LENGTH
  {
  }

  /** So with the client's own path, token and inputs. */
  lemma {:induction false} BinaryRequestIs(client: HttpClient, inputs: seq<InferInput>)
    requires client.Sendable(inputs, true)
    ensures var ep := ParseEndpoint(client.endpoint, 8080).value;
            var json := client.codec.dump(RequestJson(InputNodes(client.casts, true, inputs).value, true, client.outputNames));
            var body := json + ToText(InputBlob(true, inputs));
            client.RequestText(inputs, true) ==
            Message(LeadLines("POST", ep, client.Path(ep), client.token, "application/octet-stream", [AnnouncingLine(|json|)]) +
                    [LengthLineOf(|body|)], body)
  {
    hide BuildRequest, LeadLines, LengthLineOf, Message, ParseEndpoint, RequestJson, InputNodes, HttpClient.Path,
      TextCodec.Accepts, InputBlob, HeaderText, Decimal;
    var ep := ParseEndpoint(client.endpoint, 8080).value;
    var json := client.codec.dump(RequestJson(InputNodes(client.casts, true, inputs).value, true, client.outputNames));
    HeaderTextOne(AnnouncingLine(|json|));
    RequestIsMessage("POST", ep, client.Path(ep), client.token, "application/octet-stream", [AnnouncingLine(|json|)],
                     json + ToText(InputBlob(true, inputs)));
  }

  // ---- JSON mode ----

  /** A tensor the JSON mode can send: a supported datatype, whole elements, dimensions of 64 bits and a
      name that is text. */
  ghost predicate JsonSends(codec: TextCodec, t: Tensor) {
    && (forall k :: 0 <= k < |t.shape| ==> IsLong(t.shape[k]))
    && KindOf(t.datatype_).Some?
    && |t.data| % ElementSize(KindOf(t.datatype_).value) == 0
    && codec.isText(t.name)
  }

  ghost predicate AllSent(codec: TextCodec, ts: seq<Tensor>) {
    forall i :: 0 <= i < |ts| ==> JsonSends(codec, ts[i])
  }

  /** No element is an infinity or a NaN. */
  predicate FiniteTensor(t: Tensor) {
    match KindOf(t.datatype_)
    case None => false
    case Some(k) =>
      KindIsKnown(t.datatype_);
      |t.data| % ElementSize(k) == 0 && FiniteElements(k, t.data)
  }

  ghost predicate AllFinite(ts: seq<Tensor>) {
    forall i :: 0 <= i < |ts| ==> FiniteTensor(ts[i])
  }

  function NodeOf(c: Casts, t: Tensor): Result<Json> {
    InputNode(c, false, InferInput(t.name, t.datatype_, t.shape, Some(t.data)))
  }

  lemma {:induction false} InlinePrinted(name: string, datatype_: string, shape: seq<int>, data: seq<Json>)
    ensures Printed(InlineNode(name, datatype_, shape, data)) == InlineNode(name, datatype_, shape, PrintedAll(data))
  {
    IntsPrinted(shape);
    PrintedArr(data);
    LeafPrinted(name, 0, false);
    LeafPrinted(datatype_, 0, false);
    InlineMembers(name, datatype_, shape, data);
  }

  lemma {:induction false} InlineMembers(name: string, datatype_: string, shape: seq<int>, data: seq<Json>)
    requires Printed(Str(name)) == Str(name) && Printed(Str(datatype_)) == Str(datatype_)
    requires Printed(Arr(IntArray(shape))) == Arr(IntArray(shape)) && Printed(Arr(data)) == Arr(PrintedAll(data))
    ensures Printed(InlineNode(name, datatype_, shape, data)) == InlineNode(name, datatype_, shape, PrintedAll(data))
  {
    assert Printed(InlineNode(name, datatype_, shape, data)).members ==
           InlineNode(name, datatype_, shape, PrintedAll(data)).members;
  }

  lemma {:induction false} InlineWritable(codec: TextCodec, c: Casts, t: Tensor)
    requires codec.Inverts() && JsonSends(codec, t)
    ensures NodeOf(c, t).Ok? && codec.Accepts(NodeOf(c, t).value)
  {
    hide Writable, Printed, ReadAll, AllWritable, IsLong, KindOf;
    NodeKeys(codec);
    DatatypeIsText(codec, t.datatype_);
    hide TextCodec.Inverts;
    KindIsKnown(t.datatype_);
    SizesAgree(t.datatype_);
    var data := ReadAll(c, KindOf(t.datatype_).value, t.data);
    ReadWritable(c, KindOf(t.datatype_).value, t.data, codec.isText);
    ArrWritable(codec.isText, data);
    IntsWritable(codec.isText, t.shape);
    LeafWritable(codec.isText, t.name, 0);
    LeafWritable(codec.isText, t.datatype_, 0);
    ObjWritable(codec.isText, InlineNode(t.name, t.datatype_, t.shape, data).members);
  }

  lemma {:induction false} DatatypeIsText(codec: TextCodec, datatype_: string)
    requires codec.Inverts() && KindOf(datatype_).Some?
    ensures codec.isText(datatype_)
  {
    hide Printed, Writable;
    assert Ascii(datatype_);
  }

  /** One tensor through its text: the same again, or refused when an element is not finite. */
  lemma {:induction false} InlineComesBack(codec: TextCodec, c: Casts, t: Tensor)
    requires c.Exact() && JsonSends(codec, t) && NodeOf(c, t).Ok?
    ensures if FiniteTensor(t) then TakeInline(c, Printed(NodeOf(c, t).value)) == Ok(t)
            else TakeInline(c, Printed(NodeOf(c, t).value)).Err?
  {
    hide Printed, ReadAll, WriteAll, FiniteElements, Casts.Exact, GetLongs, KindOf, ElementSize, IsLong;
    KindIsKnown(t.datatype_);
    SizesAgree(t.datatype_);
    LongsComeBack(c, t.shape);
    var data := ReadAll(c, KindOf(t.datatype_).value, t.data);
    InlinePrinted(t.name, t.datatype_, t.shape, data);
    PrintedRoundTrip(c, KindOf(t.datatype_).value, t.data);
  }

  lemma {:induction false} InlinesComeBack(codec: TextCodec, c: Casts, ts: seq<Tensor>)
    requires codec.Inverts() && c.Exact() && AllSent(codec, ts)
    ensures InputNodes(c, false, Inputs(ts)).Ok?
    ensures AllWritable(codec.isText, InputNodes(c, false, Inputs(ts)).value)
    ensures if AllFinite(ts) then TakeInlines(c, PrintedAll(InputNodes(c, false, Inputs(ts)).value)) == Ok(ts)
            else TakeInlines(c, PrintedAll(InputNodes(c, false, Inputs(ts)).value)).Err?
  {
    hide JsonSends, FiniteTensor, TakeInline, InputNode, Printed, Writable, TextCodec.Inverts, Casts.Exact;
    if ts != [] {
      assert Inputs(ts)[1..] == Inputs(ts[1..]);
      assert Inputs(ts)[0] == InferInput(ts[0].name, ts[0].datatype_, ts[0].shape, Some(ts[0].data));
      InlineWritable(codec, c, ts[0]);
      InlineComesBack(codec, c, ts[0]);
      InlinesComeBack(codec, c, ts[1..]);
      FiniteHead(ts);
      var first, rest := NodeOf(c, ts[0]).value, InputNodes(c, false, Inputs(ts[1..])).value;
      WritableMore(codec.isText, first, rest);
      assert PrintedAll([first] + rest)[1..] == PrintedAll(rest);
      assert [ts[0]] + ts[1..] == ts;
    }
  }

  lemma {:induction false} FiniteHead(ts: seq<Tensor>)
    requires ts != []
    ensures AllFinite(ts) <==> FiniteTensor(ts[0]) && AllFinite(ts[1..])
  {
    hide FiniteTensor;
    assert ts == [ts[0]] + ts[1..];
  }

  lemma {:induction false} WritableMore(isText: string -> bool, first: Json, rest: seq<Json>)
    requires Writable(isText, first) && AllWritable(isText, rest)
    ensures AllWritable(isText, [first] + rest)
  {
    hide Writable;
  }

  /** The text of a JSON response that echoes the inputs. */
  function EchoText(codec: TextCodec, c: Casts, ts: seq<Tensor>): string
    requires InputNodes(c, false, Inputs(ts)).Ok?
  {
    codec.dump(ResponseDocument(InputNodes(c, false, Inputs(ts)).value))
  }

  /** JSON mode: the nodes built for the inputs, written as the outputs of a response, are read as the same
      tensors exactly when all their elements are finite. An infinity or a NaN is written as null, and the
      response is refused. */
  lemma {:induction false} JsonEcho(codec: TextCodec, c: Casts, ts: seq<Tensor>)
    requires codec.Inverts() && c.Exact() && AllSent(codec, ts)
    ensures InputNodes(c, false, Inputs(ts)).Ok?
    ensures if AllFinite(ts) then DecodeResponse(codec, c, HttpResponse(200, EchoText(codec, c, ts), -1)) == Ok(ts)
            else DecodeResponse(codec, c, HttpResponse(200, EchoText(codec, c, ts), -1)).Err?
  {
    hide InputNodes, TakeInlines, AllSent, AllFinite, AllWritable, Printed, Writable, Casts.Exact, ResponseDocument;
    InlinesComeBack(codec, c, ts);
    var nodes := InputNodes(c, false, Inputs(ts)).value;
    DocumentWritable(codec, nodes);
    DocumentPrinted(nodes);
    assert codec.parse(codec.dump(ResponseDocument(nodes))) == Some(ResponseDocument(PrintedAll(nodes)));
    OutputsOf(PrintedAll(nodes));
  }

  lemma {:induction false} OutputsOf(nodes: seq<Json>)
    ensures OutputNodes(ResponseDocument(nodes)) == Ok(nodes)
  {
  }

  /** JSON mode end to end: the echo, sent under any head without the length field, plain or in any chunking. */
  lemma {:induction false} JsonResponseEndToEnd(codec: TextCodec, c: Casts, ts: seq<Tensor>, ls: seq<string>, cs: seq<Chunk>,
                                                size: string, ext: string, trailers: string)
    requires codec.Inverts() && c.Exact() && AllSent(codec, ts)
    requires ls != [] && AllLines(ls) && StatusLine(ls[0], 200) && !SomeLineHas(ls, INFERENCE_LENGTH)
    requires AllValid(cs) && ZeroLine(size, ext)
    ensures InputNodes(c, false, Inputs(ts)).Ok?
    ensures Payload(cs) == EchoText(codec, c, ts) ==>
              var reply := Message(ls, InTransit(ls, cs, size, ext, trailers));
              if AllFinite(ts) then Carries(codec, c, reply, ts) else Decoded(codec, c, reply).Err?
  {
    hide ParseHttpResponse, DecodeResponse, StatusLine, SomeLineHas, TextCodec.Inverts, LowerHead, InferenceLength,
      Join, LooksChunked, Encode, AllLines, Payload, AllValid, ZeroLine, Message, InputNodes, AllSent, AllFinite, Casts.Exact, EchoText;
    JsonEcho(codec, c, ts);
    NoInferenceLength(ls);
    if LooksChunked(LowerHead(ls)) {
      ChunkedRoundTrip(ls, cs, size, ext, trailers, 200);
    } else {
      ParseMessage(ls, Payload(cs), 200);
    }
  }

  // ---- JSON requests ----

  /** The text of a JSON request is a message with the document as its body. */
  lemma {:induction false} JsonRequestText(client: HttpClient, inputs: seq<InferInput>)
    requires client.Sendable(inputs, false)
    ensures var ep := ParseEndpoint(client.endpoint, 8080).value;
            var json := client.codec.dump(RequestJson(InputNodes(client.casts, false, inputs).value, false, client.outputNames));
            client.RequestText(inputs, false) ==
            Message(LeadLines("POST", ep, client.Path(ep), client.token, "application/json", []) + [LengthLineOf(|json|)], json)
  {
    hide BuildRequest, LeadLines, LengthLineOf, Message, ParseEndpoint, RequestJson, InputNodes, HttpClient.Path,
      TextCodec.Accepts, InputBlob;
    var ep := ParseEndpoint(client.endpoint, 8080).value;
    var json := client.codec.dump(RequestJson(InputNodes(client.casts, false, inputs).value, false, client.outputNames));
    assert HeaderText([]) == "";
    RequestIsMessage("POST", ep, client.Path(ep), client.token, "application/json", [], json);
  }

  /** And it is complete at its last byte and nowhere earlier. */
  lemma {:induction false} JsonRequestDelimits(client: HttpClient, inputs: seq<InferInput>, ep: Endpoint)
    requires client.Sendable(inputs, false) && ParseEndpoint(client.endpoint, 8080) == Ok(ep)
    requires Inline(client.Path(ep)) && Inline(ep.host) && Inline(client.token)
    requires !LineHas("POST " + client.Path(ep) + " HTTP/1.1", TRANSFER_ENCODING)
    requires !LineHas("Host: " + ep.host, TRANSFER_ENCODING)
    requires !LineHas("Authorization: Bearer " + client.token, TRANSFER_ENCODING)
    requires |client.RequestText(inputs, false)| < LONG_LIMIT
    ensures SelfDelimiting(client.RequestText(inputs, false))
  {
    hide BuildRequest, SelfDelimiting, ParseEndpoint, RequestJson, InputNodes, LineHas, HttpClient.Path, TextCodec.Accepts, InputBlob;
    var json := client.codec.dump(RequestJson(InputNodes(client.casts, false, inputs).value, false, client.outputNames));
    JsonRequestFraming(ep, client.Path(ep), client.token, json);
  }

  /** The body of a JSON request, parsed: its inputs are an array of nodes that read as the tensors exactly when
      all their elements are finite. */
  lemma {:induction false} JsonRequestBody(codec: TextCodec, c: Casts, ts: seq<Tensor>, outputNames: seq<string>)
    requires codec.Inverts() && c.Exact() && AllSent(codec, ts)
    ensures InputNodes(c, false, Inputs(ts)).Ok?
    ensures var document := RequestJson(InputNodes(c, false, Inputs(ts)).value, false, outputNames);
            && codec.Accepts(document)
            && match codec.parse(codec.dump(document))
               case None => false
               case Some(read) =>
                 && read.Obj? && "inputs" in read.members && read.members["inputs"].Arr? && "outputs" !in read.members
                 && if AllFinite(ts) then TakeInlines(c, read.members["inputs"].items) == Ok(ts)
                    else TakeInlines(c, read.members["inputs"].items).Err?
  {
    hide InputNodes, TakeInlines, AllSent, AllFinite, AllWritable, Printed, Writable, Casts.Exact;
    InlinesComeBack(codec, c, ts);
    var nodes := InputNodes(c, false, Inputs(ts)).value;
    var document := RequestJson(nodes, false, outputNames);
    RequestKeys(codec);
    assert document == Obj(map["id" := Str("kserve-client"), "inputs" := Arr(nodes)]);
    LeafWritable(codec.isText, "kserve-client", 0);
    ArrWritable(codec.isText, nodes);
    ObjWritable(codec.isText, document.members);
    assert codec.parse(codec.dump(document)) == Some(Printed(document));
    RequestPrinted(nodes);
  }

  lemma {:induction false} RequestPrinted(nodes: seq<Json>)
    ensures Printed(Obj(map["id" := Str("kserve-client"), "inputs" := Arr(nodes)])) ==
            Obj(map["id" := Str("kserve-client"), "inputs" := Arr(PrintedAll(nodes))])
  {
    PrintedArr(nodes);
    assert Printed(Obj(map["id" := Str("kserve-client"), "inputs" := Arr(nodes)])).members ==
           map["id" := Str("kserve-client"), "inputs" := Arr(PrintedAll(nodes))];
  }

  // ---- inputs that are refused ----

  lemma {:induction false} NodeOfInput(c: Casts, binary: bool, inputs: seq<InferInput>, i: nat)
    requires InputNodes(c, binary, inputs).Ok? && i < |inputs|
    ensures |InputNodes(c, binary, inputs).value| == |inputs|
    ensures InputNode(c, binary, inputs[i]) == Ok(InputNodes(c, binary, inputs).value[i])
    decreases i
  {
    hide InputNode;
    NodeCount(c, binary, inputs);
    if i > 0 {
      NodeOfInput(c, binary, inputs[1..], i - 1);
    }
  }

  lemma {:induction false} NodeCount(c: Casts, binary: bool, inputs: seq<InferInput>)
    requires InputNodes(c, binary, inputs).Ok?
    ensures |InputNodes(c, binary, inputs).value| == |inputs|
  {
    hide InputNode;
    if inputs != [] {
      NodeCount(c, binary, inputs[1..]);
    }
  }

  /** A request is sent only when the endpoint can be parsed, every input is usable, and every name is text
      to the JSON library, which throws on another. */
  lemma {:induction false} SendableOnlyIf(client: HttpClient, inputs: seq<InferInput>, binary: bool, i: nat)
    requires client.Sendable(inputs, binary) && i < |inputs|
    ensures ParseEndpoint(client.endpoint, 8080).Ok? && Usable(binary, inputs[i]) && client.codec.isText(inputs[i].name)
  {
    hide ParseEndpoint, InputNodes, InputNode, Usable, Writable, RequestJson;
    InputsUsableIff(client.casts, binary, inputs);
    NodeOfInput(client.casts, binary, inputs, i);
    var nodes := InputNodes(client.casts, binary, inputs).value;
    var document := RequestJson(nodes, binary, client.outputNames);
    RequestHolds(nodes, binary, client.outputNames);
    ObjWritable(client.codec.isText, document.members);
    ArrWritable(client.codec.isText, nodes);
    assert Writable(client.codec.isText, nodes[i]);
    NameOfNode(client.casts, binary, inputs[i], client.codec.isText);
  }

  lemma {:induction false} NameOfNode(c: Casts, binary: bool, input: InferInput, isText: string -> bool)
    requires InputNode(c, binary, input).Ok? && Writable(isText, InputNode(c, binary, input).value)
    ensures isText(input.name)
  {
    hide Writable, EncodeTensorData;
    var node := InputNode(c, binary, input).value;
    ObjWritable(isText, node.members);
    LeafWritable(isText, input.name, 0);
    assert "name" in node.members && node.members["name"] == Str(input.name);
  }

  // ---- responses that are refused ----

  /** Any status but 200 is an error, whatever the framing and the body, and however much of them came. */
  lemma {:induction false} OtherStatusRefused(codec: TextCodec, c: Casts, ls: seq<string>, body: string, s: nat, m: nat)
    requires ls != [] && AllLines(ls) && StatusLine(ls[0], s) && s != 200 && m <= |Message(ls, body)|
    ensures Decoded(codec, c, Message(ls, body)[..m]).Err?
  {
    hide ParseHttpResponse, StatusLine, LooksChunked, LowerHead, InferenceLength, Join, Dechunk, SplitBinaryBody, TakeOutputs,
      TakeInlines, OutputNodes;
    if m < |Join(ls)| + 4 {
      CutInHead(ls, body, m);
    } else {
      var p := m - (|Join(ls)| + 4);
      assert Message(ls, body)[..m] == Message(ls, body[..p]);
      ParseMessage(ls, body[..p], s);
    }
  }

  /** A document with an array of outputs. */
  predicate HasOutputs(document: Json) {
    document.Obj? && "outputs" in document.members && document.members["outputs"].Arr?
  }

  /** A 200 response is an error when its document cannot be parsed or has no array of outputs; in a binary one
      the document is the announced part of the body. */
  lemma {:induction false} NoOutputsRefused(codec: TextCodec, c: Casts, response: HttpResponse)
    requires response.status == 200
    requires var n := response.inferenceHeaderLength;
             n > |response.body| ||
             match codec.parse(if n >= 0 then response.body[..n] else response.body)
             case None => true
             case Some(document) => !HasOutputs(document)
    ensures DecodeResponse(codec, c, response).Err?
  {
    hide TakeOutputs, TakeInlines;
  }

  // ---- responses that mix binary and inline outputs ----

  /** An output tensor, sent in the blob, or in its node as an array. */
  datatype Sent = InBlob(t: Tensor) | InNode(t: Tensor, items: seq<Json>)

  function SentNode(s: Sent): Json {
    match s
    case InBlob(t) => BinaryNode(t.name, t.datatype_, t.shape, |t.data|)
    case InNode(t, items) => InlineNode(t.name, t.datatype_, t.shape, items)
  }

  function SentNodes(ss: seq<Sent>): (nodes: seq<Json>)
    ensures |nodes| == |ss|
  {
    if ss == [] then [] else [SentNode(ss[0])] + SentNodes(ss[1..])
  }

  /** Only the tensors sent in the blob take bytes of it. */
  function SentBlob(ss: seq<Sent>): seq<Byte> {
    if ss == [] then [] else (if ss[0].InBlob? then ss[0].t.data else []) + SentBlob(ss[1..])
  }

  function Tensors(ss: seq<Sent>): seq<Tensor> {
    if ss == [] then [] else [ss[0].t] + Tensors(ss[1..])
  }

  /** 64-bit sizes and dimensions, and arrays that decode to the data. */
  ghost predicate Sends(c: Casts, s: Sent) {
    && |s.t.data| <= LONG_MAX && (forall k :: 0 <= k < |s.t.shape| ==> IsLong(s.t.shape[k]))
    && (s.InNode? ==> DecodeTensorData(c, Arr(s.items), s.t.datatype_) == Ok(s.t.data))
  }

  ghost predicate AllSend(c: Casts, ss: seq<Sent>) {
    forall i :: 0 <= i < |ss| ==> Sends(c, ss[i])
  }

  /** Tensors sent in any mixture come back in order, wherever in a larger blob theirs stands. */
  lemma {:induction false} MixedRoundTrip(c: Casts, ss: seq<Sent>, before: seq<Byte>, after: seq<Byte>)
    requires AllSend(c, ss)
    ensures TakeOutputs(c, SentNodes(ss), before + SentBlob(ss) + after, |before|) == Ok((Tensors(ss), |before| + |SentBlob(ss)|))
    decreases ss
  {
    hide TakeOutput, SentNode, Sends;
    if ss != [] {
      var s := ss[0];
      var own := if s.InBlob? then s.t.data else [];
      var blob := before + SentBlob(ss) + after;
      BlobParts(before, own, SentBlob(ss[1..]), after);
      assert blob == (before + own) + SentBlob(ss[1..]) + after;
      TakesSent(c, s, blob, |before|);
      MixedRoundTrip(c, ss[1..], before + own, after);
      assert [s.t] + Tensors(ss[1..]) == Tensors(ss);
    }
  }

  lemma {:induction false} TakesSent(c: Casts, s: Sent, blob: seq<Byte>, offset: nat)
    requires Sends(c, s)
    requires s.InBlob? ==> offset + |s.t.data| <= |blob| && blob[offset..offset + |s.t.data|] == s.t.data
    ensures TakeOutput(c, SentNode(s), blob, offset) == Ok((s.t, offset + if s.InBlob? then |s.t.data| else 0))
  {
    match s {
      case InBlob(t) =>
        NodeDescribes(c, t);
        hide Describe, BinaryNode;
      case InNode(t, items) =>
        LongsComeBack(c, t.shape);
        hide GetLongs, DecodeTensorData;
    }
  }

  /** The same through the text: a binary body whose nodes are of both kinds decodes to all the tensors, the
      inline ones from what their arrays are once written and read. */
  lemma {:induction false} MixedBody(codec: TextCodec, c: Casts, ss: seq<Sent>, read: seq<Sent>)
    requires codec.Inverts() && AllSend(c, read) && |read| == |ss|
    requires forall i :: 0 <= i < |ss| ==> codec.Accepts(SentNode(ss[i])) && read[i] == AsRead(ss[i])
    ensures var json := codec.dump(ResponseDocument(SentNodes(ss)));
            DecodeResponse(codec, c, HttpResponse(200, json + ToText(SentBlob(ss)), |json|)) == Ok(Tensors(ss))
  {
    hide SplitBinaryBody, Printed, Writable, TextCodec.Inverts, TakeOutputs, AllSend, SentNodes, AllWritable;
    SentAsText(codec, ss, read);
    DocumentWritable(codec, SentNodes(ss));
    DocumentPrinted(SentNodes(ss));
    SplitFramed(codec, ResponseDocument(SentNodes(ss)), SentBlob(ss));
    SentAsRead(ss, read);
    MixedRoundTrip(c, read, [], []);
    assert [] + SentBlob(read) + [] == SentBlob(read);
    OutputsOf(SentNodes(read));
  }

  /** What is read of an output: its array as the text says it. */
  function AsRead(s: Sent): Sent {
    match s
    case InBlob(t) => s
    case InNode(t, items) => InNode(t, PrintedAll(items))
  }

  lemma {:induction false} SentAsText(codec: TextCodec, ss: seq<Sent>, read: seq<Sent>)
    requires |read| == |ss| && forall i :: 0 <= i < |ss| ==> codec.Accepts(SentNode(ss[i])) && read[i] == AsRead(ss[i])
    ensures AllWritable(codec.isText, SentNodes(ss)) && PrintedAll(SentNodes(ss)) == SentNodes(read)
  {
    hide Writable, Printed, SentNode, AsRead;
    if ss != [] {
      SentAsText(codec, ss[1..], read[1..]);
      NodeAsRead(ss[0]);
      WritableMore(codec.isText, SentNode(ss[0]), SentNodes(ss[1..]));
      PrintedMore(SentNode(ss[0]), SentNodes(ss[1..]));
    }
  }

  lemma {:induction false} PrintedMore(first: Json, rest: seq<Json>)
    ensures PrintedAll([first] + rest) == [Printed(first)] + PrintedAll(rest)
  {
    hide Printed;
  }

  lemma {:induction false} NodeAsRead(s: Sent)
    ensures Printed(SentNode(s)) == SentNode(AsRead(s))
  {
    hide Printed, BinaryNode, InlineNode;
    match s {
      case InBlob(t) => BinaryNodePrinted(t.name, t.datatype_, t.shape, |t.data|);
      case InNode(t, items) => InlinePrinted(t.name, t.datatype_, t.shape, items);
    }
  }

  lemma {:induction false} SentAsRead(ss: seq<Sent>, read: seq<Sent>)
    requires |read| == |ss| && forall i :: 0 <= i < |ss| ==> read[i] == AsRead(ss[i])
    ensures SentBlob(read) == SentBlob(ss) && Tensors(read) == Tensors(ss)
  {
    if ss != [] {
      SentAsRead(ss[1..], read[1..]);
    }
  }
}
