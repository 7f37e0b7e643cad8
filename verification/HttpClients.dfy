/** HttpClient::infer on top of the connection, the retry loop and the codecs. */
module HttpClients {
  import opened Wrappers
  import opened Text
  import opened Numerals
  import opened Framing
  import opened HeaderLines
  import opened Chunks
  import opened Response
  import opened FramedReader
  import opened Endpoints
  import opened Requests
  import opened Sessions
  import opened Transports
  import opened Backoff
  import opened Retry
  import opened LittleEndian
  import opened Json
  import opened TensorCodec
  import opened BinaryExtension

  // ---- withRetry over roundTrip ----

  const RETRYABLE: HttpResponse -> bool := (r: HttpResponse) => IsRetryableHttpStatus(r.status)

  /** What the retry loop saw of a stretch of the log. */
  function Results(log: seq<Attempt>): (rs: seq<Result<HttpResponse>>)
    ensures |rs| == |log| && forall i :: 0 <= i < |log| ==> rs[i] == OutcomeResult(log[i].outcome)
  {
    seq(|log|, i requires 0 <= i < |log| => OutcomeResult(log[i].outcome))
  }

  ghost predicate SameRequest(log: seq<Attempt>, target: Target, request: string) {
    forall i :: 0 <= i < |log| ==> log[i].target == target && log[i].request == request
  }

  /** The attempts were repeated for the right reasons: every one but the last failed or was answered 429, 502,
      503 or 504; there are no more than allowed, and fewer only when the last was answered otherwise. */
  ghost predicate RetriedByStatus(policy: RetryPolicy, made: seq<Attempt>) {
    && 1 <= |made| <= (if policy.maxAttempts > 1 then policy.maxAttempts else 1)
    && (forall i :: 0 <= i < |made| - 1 ==> made[i].outcome.Answered? ==> made[i].outcome.response.status in {429, 502, 503, 504})
    && (|made| < policy.maxAttempts ==>
          made[|made| - 1].outcome.Answered? && made[|made| - 1].outcome.response.status !in {429, 502, 503, 504})
  }

  lemma {:induction false} RunIsByStatus(policy: RetryPolicy, made: seq<Attempt>, units: seq<real>, sleeps: seq<int>)
    requires RetryRun(policy, RETRYABLE, Results(made), units, sleeps)
    ensures RetriedByStatus(policy, made)
  {
    hide RetryRun;
    RunSpelledOut(policy, RETRYABLE, Results(made), units, sleeps);
    forall i | 0 <= i < |made| - 1 && made[i].outcome.Answered?
      ensures made[i].outcome.response.status in {429, 502, 503, 504}
    {
      assert Results(made)[i] == Ok(made[i].outcome.response);
    }
  }

  /** Round trips with back-off: the attempts made are a complete retry run, each one is a legal step of
      the connection's session, and the outcome is that of the last. */
  method WithRetry(conn: HttpConnection, policy: RetryPolicy, ep: Endpoint, request: string)
    returns (r: Result<HttpResponse>, sleeps: seq<int>, ghost units: seq<real>)
    requires conn.Valid() && WellFramed(conn.server)
    modifies conn, if conn.transport == null then {} else {conn.transport}
    ensures conn.Valid()
    ensures old(conn.history) <= conn.history
    ensures conn.transport != null ==> conn.transport == old(conn.transport) || fresh(conn.transport)
    ensures |old(conn.log)| < |conn.log| && conn.log[..|old(conn.log)|] == old(conn.log)
    ensures SameRequest(conn.log[|old(conn.log)|..], TargetOf(ep), request)
    ensures RetryRun(policy, RETRYABLE, Results(conn.log[|old(conn.log)|..]), units, sleeps)
    ensures RetriedByStatus(policy, conn.log[|old(conn.log)|..])
    ensures LegalRun(conn.server, conn.log)
    ensures r == OutcomeResult(conn.log[|conn.log| - 1].outcome)
  {
    hide WellFramed, BackoffDelayMs, LegalRun, After, HttpConnection.Tidy, HttpConnection.Recorded, HttpConnection.Owned;
    var i := 1;
    sleeps, units := [], [];
    ghost var made: seq<Attempt> := [];
    while true
      invariant conn.Valid() && old(conn.history) <= conn.history
      invariant conn.transport != null ==> conn.transport == old(conn.transport) || fresh(conn.transport)
      invariant conn.log == old(conn.log) + made
      invariant 1 <= i <= Budget(policy) && |made| == |sleeps| == |units| == i - 1
      invariant SameRequest(made, TargetOf(ep), request)
      invariant forall k :: 0 <= k < |made| ==> !Stops(policy, RETRYABLE, k + 1, OutcomeResult(made[k].outcome))
      invariant forall k :: 0 <= k < |sleeps| ==> sleeps[k] == BackoffDelayMs(policy, k + 1, units[k])
      decreases Budget(policy) - i
    {
      var last := i >= Budget(policy);
      ghost var before := conn.log;
      r := conn.RoundTrip(ep, request);
      ghost var a := conn.log[|before|];
      assert conn.log == before + [a];
      assert conn.log == old(conn.log) + (made + [a]);
      made := made + [a];
      if last || (r.Ok? && !RETRYABLE(r.value)) {
        assert conn.log[|old(conn.log)|..] == made;
        RunIsByStatus(policy, made, units, sleeps);
        return;
      }
      var unit: real := *;
      sleeps := sleeps + [BackoffDelayMs(policy, i, unit)];
      units := units + [unit];
      i := i + 1;
    }
  }

  /** Retrying and the session together: after an attempt that threw, the next one starts on a
      connection that no earlier attempt used. */
  lemma {:induction false} RetryStartsFresh(server: Server, log: seq<Attempt>, from: nat, k: nat,
                                            policy: RetryPolicy, units: seq<real>, sleeps: seq<int>)
    requires LegalRun(server, log) && from < |log|
    requires RetryRun(policy, RETRYABLE, Results(log[from..]), units, sleeps)
    requires from <= k && k + 1 < |log| && OutcomeResult(log[k].outcome).Err?
    ensures log[k + 1].index == 0
    ensures forall j :: 0 <= j <= k && log[j].Connected() ==> log[j].id < log[k + 1].id
    ensures sleeps[k - from] == BackoffDelayMs(policy, k - from + 1, units[k - from])
  {
    hide BackoffDelayMs, LegalRun;
    FreshAfterFailure(server, log, k);
    assert |log[from..]| == |log| - from;
  }

  // ---- building the request ----

  datatype InferInput = InferInput(name: string, datatype_: string, shape: seq<int>, data: Option<seq<Byte>>)

  function InlineNode(name: string, datatype_: string, shape: seq<int>, data: seq<Json>): Json {
    Obj(map["name" := Str(name), "datatype" := Str(datatype_), "shape" := Arr(IntArray(shape)), "data" := Arr(data)])
  }

  function InputNode(c: Casts, binary: bool, input: InferInput): Result<Json> {
    match input.data
    case None => Err("KServe input '" + input.name + "' has no data")
    case Some(bytes) =>
      if binary then Ok(BinaryNode(input.name, input.datatype_, input.shape, |bytes|))
      else
        var data :- EncodeTensorData(c, bytes, input.datatype_);
        Ok(InlineNode(input.name, input.datatype_, input.shape, data))
  }

  function InputNodes(c: Casts, binary: bool, inputs: seq<InferInput>): Result<seq<Json>> {
    if inputs == [] then Ok([])
    else
      var first :- InputNode(c, binary, inputs[0]);
      var rest :- InputNodes(c, binary, inputs[1..]);
      Ok([first] + rest)
  }

  function InputBlob(binary: bool, inputs: seq<InferInput>): seq<Byte> {
    if inputs == [] || !binary then []
    else (if inputs[0].data.Some? then inputs[0].data.value else []) + InputBlob(binary, inputs[1..])
  }

  /** The inputs can be turned into nodes exactly when each has data and, in JSON mode, a supported datatype and
      whole elements. */
  lemma {:induction false} InputsUsableIff(c: Casts, binary: bool, inputs: seq<InferInput>)
    ensures InputNodes(c, binary, inputs).Ok? <==>
            forall i :: 0 <= i < |inputs| ==> Usable(binary, inputs[i])
  {
    hide EncodeTensorData, BinaryNode, InlineNode, Usable;
    if inputs != [] {
      InputUsableIff(c, binary, inputs[0]);
      InputsUsableIff(c, binary, inputs[1..]);
      assert inputs == [inputs[0]] + inputs[1..];
    }
  }

  predicate Usable(binary: bool, input: InferInput) {
    input.data.Some? &&
    (binary || (DatatypeByteWidth(input.datatype_) > 0 && input.datatype_ != "BF16" &&
                |input.data.value| % DatatypeByteWidth(input.datatype_) == 0))
  }

  lemma {:induction false} InputUsableIff(c: Casts, binary: bool, input: InferInput)
    ensures InputNode(c, binary, input).Ok? <==> Usable(binary, input)
  {
    hide EncodeTensorData, BinaryNode, InlineNode, DatatypeByteWidth;
    if input.data.Some? {
      EncodeSucceedsIff(c, input.data.value, input.datatype_);
    }
  }

  /** The node built for an input in JSON mode says these things of it. */
  lemma {:induction false} InlineNodeSays(name: string, datatype_: string, shape: seq<int>, data: seq<Json>)
    ensures var node := InlineNode(name, datatype_, shape, data);
            Names(node, name, datatype_) && Announces(node, -1) &&
            "data" in node.members && node.members["data"] == Arr(data) &&
            ((forall k :: 0 <= k < |shape| ==> IsLong(shape[k])) ==> Shaped(node, shape))
  {
  }

  lemma {:induction false} AppendNodes(a: seq<Json>, b: seq<Json>, r: Result<seq<Json>>)
    ensures r.Ok? ==> a + (b + r.value) == a + b + r.value
    ensures r.Ok? ==> [] + r.value == r.value
  {
  }

  /** The loop over the inputs: nodes, and in binary mode the growing blob. */
  method BuildInputs(c: Casts, binary: bool, inputs: seq<InferInput>) returns (r: Result<seq<Json>>, blob: seq<Byte>)
    ensures r == InputNodes(c, binary, inputs)
    ensures r.Ok? ==> blob == InputBlob(binary, inputs)
  {
    hide EncodeTensorData, BinaryNode, InlineNode;
    var nodes: seq<Json> := [];
    blob := [];
    assert inputs[0..] == inputs;
    AppendNodes([], [], InputNodes(c, binary, inputs));
    for i := 0 to |inputs|
      invariant match InputNodes(c, binary, inputs[i..])
                case Ok(rest) => InputNodes(c, binary, inputs) == Ok(nodes + rest)
                case Err(e) => InputNodes(c, binary, inputs) == Err(e)
      invariant InputBlob(binary, inputs) == blob + InputBlob(binary, inputs[i..])
    {
      assert inputs[i..][1..] == inputs[i + 1..];
      var input := inputs[i];
      if input.data.None? {
        return Err("KServe input '" + input.name + "' has no data"), blob;
      }
      var node: Json;
      if binary {
        node, blob := AppendBinaryInput(input.name, input.datatype_, input.shape, input.data.value, blob);
      } else {
        var data := EncodeTensor(c, input.data.value, input.datatype_);
        if data.Err? {
          return Err(data.error), blob;
        }
        node := InlineNode(input.name, input.datatype_, input.shape, data.value);
      }
      AppendNodes(nodes, [node], InputNodes(c, binary, inputs[i + 1..]));
      nodes := nodes + [node];
    }
    assert inputs[|inputs|..] == [];
    assert nodes + [] == nodes;
    r := Ok(nodes);
  }

  function InferPath(modelName: string, modelVersion: string): string {
    if modelVersion == "" then "/v2/models/" + modelName + "/infer"
    else "/v2/models/" + modelName + "/versions/" + modelVersion + "/infer"
  }

  function OutputRequests(names: seq<string>): seq<Json> {
    seq(|names|, i requires 0 <= i < |names| => RequestBinaryOutput(names[i]))
  }

  function RequestJson(nodes: seq<Json>, binary: bool, outputNames: seq<string>): Json {
    Obj(map["id" := Str("kserve-client"), "inputs" := Arr(nodes)] +
        if binary && outputNames != [] then map["outputs" := Arr(OutputRequests(outputNames))] else map[])
  }

  /** The request text for the nodes and the blob. */
  function InferRequest(ep: Endpoint, path: string, token: string, json: string, binary: bool, blob: seq<Byte>): string {
    if binary then
      BuildRequest("POST", ep, path, token, "application/octet-stream",
                   INFERENCE_HEADER + ": " + Decimal(|json|) + CRLF, json + ToText(blob))
    else BuildRequest("POST", ep, path, token, "application/json", "", json)
  }

  // ---- reading the response ----

  function OutputNodes(document: Json): Result<seq<Json>> {
    if Has(document, "outputs") && document.members["outputs"].Arr? then Ok(document.members["outputs"].items)
    else Err("KServe response missing outputs")
  }

  function TakeInline(c: Casts, node: Json): Result<Tensor> {
    var name :- StringValue(node, "name", "");
    var datatype_ :- StringValue(node, "datatype", "FP32");
    var shape :- ReadShape(c, node);
    var data :- InlineData(c, node, datatype_);
    Ok(Tensor(name, datatype_, shape, data))
  }

  /** One output of a JSON response in plain words: when it can be read, and as what. */
  lemma {:induction false} InlineIsNode(c: Casts, node: Json)
    ensures TakeInline(c, node).Ok? <==>
            && StringOrNone(node, "name") && StringOrNone(node, "datatype") && ShapeReadable(node)
            && ("data" in node.members && node.members["data"].Arr? ==>
                  DecodeTensorData(c, node.members["data"], DatatypeOf(node)).Ok?)
    ensures TakeInline(c, node).Ok? ==>
            var out := TakeInline(c, node).value;
            Names(node, out.name, out.datatype_) && Shaped(node, out.shape) && HoldsInline(c, node, out.datatype_, out.data)
  {
    hide DecodeTensorData, ReadShape, Shaped, ShapeReadable;
    if node.Obj? {
      ShapeReadableIff(c, node);
      if ReadShape(c, node).Ok? {
        ShapeIsRead(c, node);
      }
    } else {
      NotANode(node);
    }
  }

  /** What a request document holds: the id, the nodes, and in binary mode, when output names are known, one
      entry a name that asks for binary data. */
  lemma {:induction false} RequestHolds(nodes: seq<Json>, binary: bool, outputNames: seq<string>)
    ensures RequestJson(nodes, binary, outputNames).Obj?
    ensures var members := RequestJson(nodes, binary, outputNames).members;
            && "id" in members && members["id"] == Str("kserve-client")
            && "inputs" in members && members["inputs"] == Arr(nodes)
            && ("outputs" in members <==> binary && outputNames != [])
            && ("outputs" in members ==>
                  members["outputs"].Arr? && |members["outputs"].items| == |outputNames| &&
                  forall i :: 0 <= i < |outputNames| ==> AsksForBinary(members["outputs"].items[i], outputNames[i]))
  {
    hide RequestBinaryOutput, AsksForBinary;
    forall i | 0 <= i < |outputNames|
      ensures AsksForBinary(RequestBinaryOutput(outputNames[i]), outputNames[i])
    {
      RequestsBinary(outputNames[i]);
    }
  }

  predicate AsksForBinary(node: Json, name: string) {
    && node.Obj? && "name" in node.members && node.members["name"] == Str(name)
    && "parameters" in node.members && node.members["parameters"] == Obj(map["binary_data" := Bool(true)])
  }

  lemma {:induction false} RequestsBinary(name: string)
    ensures AsksForBinary(RequestBinaryOutput(name), name)
  {
  }

  function TakeInlines(c: Casts, nodes: seq<Json>): Result<seq<Tensor>> {
    if nodes == [] then Ok([])
    else
      var first :- TakeInline(c, nodes[0]);
      var rest :- TakeInlines(c, nodes[1..]);
      Ok([first] + rest)
  }

  function DecodeResponse(codec: TextCodec, c: Casts, response: HttpResponse): Result<seq<Tensor>> {
    if response.status != 200 then Err("KServe inference failed")
    else if response.inferenceHeaderLength >= 0 then
      var split :- SplitBinaryBody(codec, response.body, response.inferenceHeaderLength);
      var nodes :- OutputNodes(split.0);
      var taken :- TakeOutputs(c, nodes, split.1, 0);
      Ok(taken.0)
    else
      match codec.parse(response.body)
      case None => Err("parse error")
      case Some(document) =>
        var nodes :- OutputNodes(document);
        TakeInlines(c, nodes)
  }

  method ReadInline(c: Casts, node: Json) returns (r: Result<Tensor>)
    ensures r == TakeInline(c, node)
  {
    hide DecodeTensorData, StringValue, ReadShape;
    var name :- StringValue(node, "name", "");
    var datatype_ :- StringValue(node, "datatype", "FP32");
    var shape :- ReadShape(c, node);
    var data: seq<Byte> := [];
    if Has(node, "data") && node.members["data"].Arr? {
      data :- DecodeTensor(c, node.members["data"], datatype_);
    }
    r := Ok(Tensor(name, datatype_, shape, data));
  }

  /** The output loop of a JSON response. */
  method ReadInlines(c: Casts, nodes: seq<Json>) returns (r: Result<seq<Tensor>>)
    ensures r == TakeInlines(c, nodes)
  {
    hide TakeInline;
    var outputs: seq<Tensor> := [];
    assert nodes[0..] == nodes;
    AppendTensors([], [], TakeInlines(c, nodes));
    for i := 0 to |nodes|
      invariant match TakeInlines(c, nodes[i..])
                case Ok(rest) => TakeInlines(c, nodes) == Ok(outputs + rest)
                case Err(e) => TakeInlines(c, nodes) == Err(e)
    {
      assert nodes[i..][1..] == nodes[i + 1..];
      var out := ReadInline(c, nodes[i]);
      if out.Err? {
        return Err(out.error);
      }
      AppendTensors(outputs, [out.value], TakeInlines(c, nodes[i + 1..]));
      outputs := outputs + [out.value];
    }
    assert nodes[|nodes|..] == [];
    assert outputs + [] == outputs;
    r := Ok(outputs);
  }

  method ReadAnswer(codec: TextCodec, c: Casts, response: HttpResponse) returns (r: Result<seq<Tensor>>)
    ensures r == DecodeResponse(codec, c, response)
  {
    hide TakeOutputs, TakeInlines, SplitBinaryBody;
    if response.status != 200 {
      return Err("KServe inference failed");
    }
    if response.inferenceHeaderLength >= 0 {
      var split :- SplitBinaryBody(codec, response.body, response.inferenceHeaderLength);
      var nodes :- OutputNodes(split.0);
      r := SliceOutputs(c, nodes, split.1);
    } else {
      var document := codec.parse(response.body);
      if document.None? {
        return Err("parse error");
      }
      var nodes :- OutputNodes(document.value);
      r := ReadInlines(c, nodes);
    }
  }

  // ---- what is made of the last reply ----

  /** What the bytes read for a reply come to. */
  function Decoded(codec: TextCodec, c: Casts, raw: string): Result<seq<Tensor>> {
    match ParseHttpResponse(raw)
    case Ok(response) => DecodeResponse(codec, c, response)
    case Err(e) => Err(e)
  }

  /** Only a response with status 200 can be an answer. */
  lemma {:induction false} OtherStatusIsError(codec: TextCodec, c: Casts, o: Outcome)
    ensures !o.Answered? || o.response.status != 200 ==> Answer(codec, c, o).Err?
  {
    hide SplitBinaryBody, TakeOutputs, TakeInlines, OutputNodes;
  }

  /** A reply that, parsed and decoded, is the tensors. */
  predicate Carries(codec: TextCodec, c: Casts, reply: string, ts: seq<Tensor>) {
    Decoded(codec, c, reply) == Ok(ts)
  }

  /** Wherever the reply is cut off, what came is refused or is the tensors. */
  predicate NeverMisread(codec: TextCodec, c: Casts, reply: string, ts: seq<Tensor>) {
    forall m :: 0 <= m <= |reply| ==> Decoded(codec, c, reply[..m]).Err? || Decoded(codec, c, reply[..m]) == Ok(ts)
  }

  /** What infer makes of the last attempt: its error, or what its response decodes to. */
  function Answer(codec: TextCodec, c: Casts, o: Outcome): Result<seq<Tensor>> {
    match OutcomeResult(o)
    case Ok(response) => DecodeResponse(codec, c, response)
    case Err(e) => Err(e)
  }

  /** The server's reply to the last attempt, when it was read and the peer did not close. */
  predicate RepliedInFull(server: Server, log: seq<Attempt>, reply: string) {
    log != [] &&
    var a := log[|log| - 1];
    server(a.id, a.index, a.request) == reply &&
    match a.outcome
    case Answered(_, peerClosed, _) => !peerClosed
    case BadResponse(_, peerClosed, _) => !peerClosed
    case _ => false
  }

  /** What the server sent back for the last attempt. */
  function LastReply(server: Server, log: seq<Attempt>): string
    requires log != []
  {
    var a := log[|log| - 1];
    server(a.id, a.index, a.request)
  }

  /** In every run: when the last reply carries the tensors and was not cut off, they are the answer. */
  lemma {:induction false} ReplyIsAnswer(server: Server, log: seq<Attempt>, codec: TextCodec, c: Casts, reply: string,
                                         ts: seq<Tensor>)
    requires LegalRun(server, log) && RepliedInFull(server, log, reply) && Carries(codec, c, reply, ts)
    ensures Answer(codec, c, log[|log| - 1].outcome) == Ok(ts)
  {
    hide ParseHttpResponse, DecodeResponse, MessageComplete;
    LegalAt(server, log, |log| - 1);
  }

  /** However the last attempt ended: when its reply cannot be misread as anything but some tensors, the
      answer is an error or these tensors. */
  lemma {:induction false} NoWrongAnswer(server: Server, log: seq<Attempt>, codec: TextCodec, c: Casts, ts: seq<Tensor>)
    requires LegalRun(server, log) && log != [] && NeverMisread(codec, c, LastReply(server, log), ts)
    ensures Answer(codec, c, log[|log| - 1].outcome).Err? || Answer(codec, c, log[|log| - 1].outcome) == Ok(ts)
  {
    hide ParseHttpResponse, DecodeResponse, MessageComplete;
    LegalAt(server, log, |log| - 1);
    var o := log[|log| - 1].outcome;
    if o.Answered? {
      assert LastReply(server, log)[..|o.raw|] == o.raw;
    }
  }

  lemma {:induction false} RepliesAreAnswers(server: Server, log: seq<Attempt>, codec: TextCodec, c: Casts)
    requires LegalRun(server, log) && log != []
    ensures forall reply, ts :: RepliedInFull(server, log, reply) && Carries(codec, c, reply, ts) ==>
              Answer(codec, c, log[|log| - 1].outcome) == Ok(ts)
    ensures forall ts :: NeverMisread(codec, c, LastReply(server, log), ts) ==>
              Answer(codec, c, log[|log| - 1].outcome).Err? || Answer(codec, c, log[|log| - 1].outcome) == Ok(ts)
  {
    hide LegalRun, RepliedInFull, Carries, NeverMisread, Answer, LastReply;
    forall reply, ts | RepliedInFull(server, log, reply) && Carries(codec, c, reply, ts)
      ensures Answer(codec, c, log[|log| - 1].outcome) == Ok(ts)
    {
      ReplyIsAnswer(server, log, codec, c, reply, ts);
    }
    forall ts | NeverMisread(codec, c, LastReply(server, log), ts)
      ensures Answer(codec, c, log[|log| - 1].outcome).Err? || Answer(codec, c, log[|log| - 1].outcome) == Ok(ts)
    {
      NoWrongAnswer(server, log, codec, c, ts);
    }
  }

  class HttpClient {
    const codec: TextCodec
    const casts: Casts
    const endpoint: string
    const modelName: string
    const modelVersion: string
    const token: string
    const policy: RetryPolicy
    const conn: HttpConnection
    var outputNames: seq<string>

    constructor (codec: TextCodec, casts: Casts, server: Server, endpoint: string, modelName: string,
                 modelVersion: string, token: string, policy: RetryPolicy)
      ensures conn.Valid() && conn.server == server && conn.log == [] && fresh(conn)
      ensures this.codec == codec && this.casts == casts && this.endpoint == endpoint && outputNames == []
    {
      this.codec, this.casts, this.endpoint := codec, casts, endpoint;
      this.modelName, this.modelVersion, this.token, this.policy := modelName, modelVersion, token, policy;
      conn := new HttpConnection(server);
      outputNames := [];
    }

    function Path(ep: Endpoint): string {
      ep.pathPrefix + InferPath(modelName, modelVersion)
    }

    /** The path a request goes to. */
    lemma {:induction false} PathIs(ep: Endpoint)
      ensures Path(ep) == ep.pathPrefix + "/v2/models/" + modelName +
              (if modelVersion == "" then "" else "/versions/" + modelVersion) + "/infer"
    {
    }

    /** The endpoint can be parsed, every input encoded, and the document written. */
    predicate Sendable(inputs: seq<InferInput>, binary: bool)
      reads `outputNames
    {
      && ParseEndpoint(endpoint, 8080).Ok?
      && InputNodes(casts, binary, inputs).Ok?
      && codec.Accepts(RequestJson(InputNodes(casts, binary, inputs).value, binary, outputNames))
    }

    /** The text of the request for these inputs. */
    function RequestText(inputs: seq<InferInput>, binary: bool): string
      requires Sendable(inputs, binary)
      reads `outputNames
    {
      var ep := ParseEndpoint(endpoint, 8080).value;
      var json := codec.dump(RequestJson(InputNodes(casts, binary, inputs).value, binary, outputNames));
      InferRequest(ep, Path(ep), token, json, binary, InputBlob(binary, inputs))
    }

    /** Everything up to the first attempt: the endpoint and the request text, or an error. */
    method Prepare(inputs: seq<InferInput>, binary: bool) returns (r: Result<(Endpoint, string)>)
      ensures r.Ok? <==> Sendable(inputs, binary)
      ensures r.Ok? ==> r.value.0 == ParseEndpoint(endpoint, 8080).value && r.value.1 == RequestText(inputs, binary)
    {
      hide InferRequest, RequestJson, ParseEndpoint, InputNodes, InputBlob, TextCodec.Accepts;
      var ep :- Endpoints.Parse(endpoint, 8080);
      var nodes, blob := BuildInputs(casts, binary, inputs);
      if nodes.Err? {
        return Err(nodes.error);
      }
      var document := RequestJson(nodes.value, binary, outputNames);
      if !codec.Accepts(document) {
        return Err("invalid UTF-8");
      }
      r := Ok((ep, InferRequest(ep, Path(ep), token, codec.dump(document), binary, blob)));
    }

    /** Nothing is sent when the endpoint or an input is unusable; otherwise every attempt carries the one
        request for these inputs to the parsed endpoint, and the result is what the last response
        decodes to, or the failure of the last attempt. */
    method Infer(inputs: seq<InferInput>, binary: bool) returns (r: Result<seq<Tensor>>)
      requires conn.Valid() && WellFramed(conn.server)
      modifies conn, if conn.transport == null then {} else {conn.transport}
      ensures conn.Valid() && old(conn.history) <= conn.history
      ensures |old(conn.log)| <= |conn.log| && conn.log[..|old(conn.log)|] == old(conn.log)
      ensures !Sendable(inputs, binary) ==> r.Err? && conn.log == old(conn.log)
      ensures Sendable(inputs, binary) ==>
                var made := conn.log[|old(conn.log)|..];
                RetriedByStatus(policy, made) &&
                SameRequest(made, TargetOf(ParseEndpoint(endpoint, 8080).value), RequestText(inputs, binary)) &&
                r == Answer(codec, casts, made[|made| - 1].outcome)
      ensures conn.log != old(conn.log) ==>
                var o := conn.log[|conn.log| - 1].outcome;
                !o.Answered? || o.response.status != 200 ==> r.Err?
      ensures conn.log != old(conn.log) ==>
                forall reply, ts :: RepliedInFull(conn.server, conn.log, reply) && Carries(codec, casts, reply, ts) ==>
                  r == Ok(ts)
      ensures conn.log != old(conn.log) ==>
                forall ts :: NeverMisread(codec, casts, LastReply(conn.server, conn.log), ts) ==> r.Err? || r == Ok(ts)
    {
      hide WellFramed, DecodeResponse, RequestText, Sendable, ParseEndpoint, RetryRun, HttpConnection.Valid, LegalRun,
        RepliedInFull, Carries, NeverMisread, LastReply, SameRequest, RetriedByStatus;
      var prepared := Prepare(inputs, binary);
      if prepared.Err? {
        return Err(prepared.error);
      }
      var answer, sleeps, units := WithRetry(conn, policy, prepared.value.0, prepared.value.1);
      assert conn.log[|conn.log| - 1] == conn.log[|old(conn.log)|..][|conn.log| - |old(conn.log)| - 1];
      OtherStatusIsError(codec, casts, conn.log[|conn.log| - 1].outcome);
      RepliesAreAnswers(conn.server, conn.log, codec, casts);
      if answer.Err? {
        return Err(answer.error);
      }
      r := ReadAnswer(codec, casts, answer.value);
    }
  }
}
