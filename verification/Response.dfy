/** parseHttpResponse: the status line, the header scan and the de-chunking loop. */
module Response {
  import opened Wrappers
  import opened Text
  import opened Numerals
  import opened Framing
  import opened HeaderLines
  import opened Chunks

  datatype HttpResponse = HttpResponse(status: int, body: string, inferenceHeaderLength: int)

  const INFERENCE_LENGTH: string := "inference-header-content-length:"

  /** Skips blanks and tabs from `v` on. */
  function SkipBlanks(headers: string, v: nat): (r: nat)
    requires v <= |headers|
    ensures v <= r <= |headers|
    decreases |headers| - v
  {
    if v < |headers| && (headers[v] == ' ' || headers[v] == '\t') then SkipBlanks(headers, v + 1) else v
  }

  /** The JSON header length of the binary tensor extension; -1 when absent or unreadable. */
  function InferenceLength(headers: string): int {
    match Find(ToLower(headers), INFERENCE_LENGTH, 0)
    case None => -1
    case Some(at) =>
      match Stol(headers[SkipBlanks(headers, at + |INFERENCE_LENGTH|)..])
      case None => -1
      case Some(n) => n
  }

  function StatusText(raw: string, firstSpace: nat): string
    requires firstSpace < |raw|
  {
    match Find(raw, " ", firstSpace + 1)
    case None => raw[firstSpace + 1..]
    case Some(secondSpace) => raw[firstSpace + 1..secondSpace]
  }

  function StatusOf(raw: string): Result<int> {
    match Find(raw, " ", 0)
    case None => Err("invalid HTTP response: no status line")
    case Some(firstSpace) =>
      match Stoi(StatusText(raw, firstSpace))
      case None => Err("stoi")
      case Some(status) => Ok(status)
  }

  /** The number a chunk-size line announces, extensions ignored; None when unreadable. */
  function SizeOfLine(line: string): Option<nat> {
    var digits := match Find(line, ";", 0) case None => line case Some(i) => line[..i];
    StoulHex(digits)
  }

  /** The data of the chunks found from `pos` on, up to a zero or unreadable size or the end of the bytes. */
  function Dechunk(body: string, pos: nat): Result<string>
    decreases |body| - pos
  {
    if pos >= |body| then Ok("")
    else
      match Find(body, CRLF, pos)
      case None => Ok("")
      case Some(lineEnd) =>
        match SizeOfLine(body[pos..lineEnd])
        case None => Ok("")
        case Some(n) =>
          if n == 0 then Ok("")
          else if lineEnd + 2 + n > |body| then Err("invalid chunked HTTP body: truncated chunk")
          else
            var rest :- Dechunk(body, lineEnd + 2 + n + 2);
            Ok(body[lineEnd + 2..lineEnd + 2 + n] + rest)
  }

  function ParseHttpResponse(raw: string): Result<HttpResponse> {
    var status :- StatusOf(raw);
    match Find(raw, BLANK, 0)
    case None => Err("invalid HTTP response: no header terminator")
    case Some(headerEnd) =>
      var headers := raw[..headerEnd];
      var body := raw[headerEnd + 4..];
      if LooksChunked(ToLower(headers)) then
        var decoded :- Dechunk(body, 0);
        Ok(HttpResponse(status, decoded, InferenceLength(headers)))
      else
        Ok(HttpResponse(status, body, InferenceLength(headers)))
  }

  function Prepend(front: string, r: Result<string>): Result<string> {
    match r case Ok(rest) => Ok(front + rest) case Err(e) => Err(e)
  }

  lemma {:induction false} PrependEmpty(r: Result<string>)
    ensures Prepend("", r) == r
  {
    if r.Ok? {
      assert "" + r.value == r.value;
    }
  }

  lemma {:induction false} PrependTwice(a: string, b: string, r: Result<string>)
    ensures Prepend(a, Prepend(b, r)) == Prepend(a + b, r)
  {
    if r.Ok? {
      assert a + (b + r.value) == a + b + r.value;
    }
  }

  /** Nothing is decoded from `pos` on: no bytes, no size line, or no size in it. */
  predicate NoChunkAt(body: string, pos: nat) {
    pos >= |body| ||
    match Find(body, CRLF, pos)
    case None => true
    case Some(lineEnd) => SizeOfLine(body[pos..lineEnd]).None? || SizeOfLine(body[pos..lineEnd]).value == 0
  }

  lemma {:induction false} DechunkStops(body: string, pos: nat)
    requires NoChunkAt(body, pos)
    ensures Dechunk(body, pos) == Ok("")
  {
    hide Find, SizeOfLine;
  }

  lemma {:induction false} DechunkTooLong(body: string, pos: nat, lineEnd: nat, n: nat)
    requires pos <= lineEnd <= |body| && Find(body, CRLF, pos) == Some(lineEnd) && SizeOfLine(body[pos..lineEnd]) == Some(n)
    requires pos < |body| && 0 < n && lineEnd + 2 + n > |body|
    ensures Dechunk(body, pos) == Err("invalid chunked HTTP body: truncated chunk")
  {
    hide Find, SizeOfLine;
  }

  /** The de-chunking loop. */
  method DechunkBody(body: string) returns (r: Result<string>)
    ensures r == Dechunk(body, 0)
  {
    hide Find, SizeOfLine, At, Dechunk;
    var decoded, pos := "", 0;
    PrependEmpty(Dechunk(body, 0));
    while pos < |body|
      invariant Dechunk(body, 0) == Prepend(decoded, Dechunk(body, pos))
      decreases |body| - pos
    {
      var lineEnd := Find(body, CRLF, pos);
      if lineEnd.None? {
        break;
      }
      var size := SizeOfLine(body[pos..lineEnd.value]);
      if size.None? || size.value == 0 {
        break;
      }
      var dataStart := lineEnd.value + 2;
      if dataStart + size.value > |body| {
        DechunkTooLong(body, pos, lineEnd.value, size.value);
        return Err("invalid chunked HTTP body: truncated chunk");
      }
      DechunkStep(body, pos, lineEnd.value, size.value);
      PrependTwice(decoded, body[dataStart..dataStart + size.value], Dechunk(body, dataStart + size.value + 2));
      decoded := decoded + body[dataStart..dataStart + size.value];
      pos := dataStart + size.value + 2;
    }
    DechunkStops(body, pos);
    NothingMore(decoded);
    r := Ok(decoded);
  }

  method ReadInferenceLength(headers: string) returns (n: int)
    ensures n == InferenceLength(headers)
  {
    var at := Find(ToLower(headers), INFERENCE_LENGTH, 0);
    if at.None? {
      return -1;
    }
    var v := at.value + |INFERENCE_LENGTH|;
    while v < |headers| && (headers[v] == ' ' || headers[v] == '\t')
      invariant v <= |headers|
      invariant SkipBlanks(headers, at.value + |INFERENCE_LENGTH|) == SkipBlanks(headers, v)
    {
      v := v + 1;
    }
    var value := Stol(headers[v..]);
    n := if value.None? then -1 else value.value;
  }

  method Parse(raw: string) returns (r: Result<HttpResponse>)
    ensures r == ParseHttpResponse(raw)
  {
    hide Find, ToLower, InferenceLength, Dechunk, StatusOf;
    var status :- StatusOf(raw);
    var headerEnd := Find(raw, BLANK, 0);
    if headerEnd.None? {
      return Err("invalid HTTP response: no header terminator");
    }
    var headers := raw[..headerEnd.value];
    var body := raw[headerEnd.value + 4..];
    var chunked := LooksChunked(ToLower(headers));
    var length := ReadInferenceLength(headers);
    if !chunked {
      return Ok(HttpResponse(status, body, length));
    }
    var decoded :- DechunkBody(body);
    r := Ok(HttpResponse(status, decoded, length));
  }

  // ---- what it computes on well-formed messages ----

  /** A status line: no blank before the status code, and a blank or nothing after it. */
  ghost predicate StatusLine(line: string, status: nat) {
    exists proto, reason ::
      line == proto + " " + Decimal(status) + reason && IsStatusLine(proto, status, reason)
  }

  predicate IsStatusLine(proto: string, status: nat, reason: string) {
    !Contains(proto, " ") && (reason == "" || reason[0] == ' ') && status < INT_LIMIT
  }

  lemma {:induction false} StatusAfter(proto: string, status: nat, rest: string)
    requires !Contains(proto, " ") && status < INT_LIMIT
    requires rest != "" && (rest[0] == ' ' || rest[0] == '\r')
    ensures StatusOf(proto + " " + (Decimal(status) + rest)) == Ok(status)
  {
    hide Find, Stoi, Contains;
    SingleSpace(proto, Decimal(status) + rest);
    var t := StatusTextIs(proto + " ", Decimal(status), rest);
    StoiDecimal(status, t);
  }

  lemma {:induction false} ExactLeft(s: string, i: nat)
    requires i < |s| && s[i] == ' '
    ensures At(s, " ", i)
  {
  }

  /** The text handed to stoi: the digits, and at most what stands before the next blank. */
  lemma {:induction false} StatusTextIs(front: string, digits: string, rest: string) returns (t: string)
    requires front != "" && IsToken(digits, 10)
    requires rest != "" && (rest[0] == ' ' || rest[0] == '\r')
    ensures StatusText(front + (digits + rest), |front| - 1) == digits + t
    ensures t == "" || t[0] == '\r'
  {
    var s := digits + rest;
    hide At, Find, IsToken;
    DigitsHaveNoSpace(digits);
    assert s[|digits|] == rest[0];
    if rest[0] == ' ' {
      ExactLeft(s, |digits|);
    }
    var i := Find(s, " ", 0);
    if i.Some? {
      FindShift(front, s, " ", i.value);
      AtChar(s, " ", i.value, 0);
      t := rest[..i.value - |digits|];
      assert s[..i.value] == digits + t;
      assert (front + s)[|front|..|front| + i.value] == s[..i.value];
    } else {
      FindShiftNone(front, s, " ");
      t := rest;
      assert (front + s)[|front|..] == s;
    }
  }

  lemma {:induction false} DigitsHaveNoSpace(ds: string)
    requires IsToken(ds, 10)
    ensures forall i :: 0 <= i < |ds| ==> ds[i] != ' '
  {
    forall i | 0 <= i < |ds|
      ensures ds[i] != ' '
    {
      assert IsDigit(ds[i], 10);
    }
  }

  lemma {:induction false} SingleSpace(proto: string, rest: string)
    requires !Contains(proto, " ")
    ensures Find(proto + " " + rest, " ", 0) == Some(|proto|)
  {
    var s := proto + " " + rest;
    assert s[|proto|..|proto| + 1] == " ";
    assert At(s, " ", |proto|);
    assert s == proto + (" " + rest);
    forall i | 0 <= i < |proto|
      ensures !At(s, " ", i)
    {
      AtLeft(proto, " " + rest, " ", i);
    }
  }

  lemma {:induction false} StatusOfMessage(ls: seq<string>, body: string, status: nat)
    requires ls != [] && StatusLine(ls[0], status)
    ensures StatusOf(Message(ls, body)) == Ok(status)
  {
    hide StatusOf, Find, Message, Decimal;
    var proto, reason :| ls[0] == proto + " " + Decimal(status) + reason && IsStatusLine(proto, status, reason);
    var more := MessageHead(ls, body);
    AfterFirstSpace(proto, Decimal(status), reason, more);
    assert reason + more != "" && (reason + more)[0] == if reason == "" then '\r' else ' ';
    StatusAfter(proto, status, reason + more);
  }

  lemma {:induction false} MessageHead(ls: seq<string>, body: string) returns (more: string)
    requires ls != []
    ensures more != "" && more[0] == '\r' && Message(ls, body) == ls[0] + more
  {
    more := if |ls| == 1 then BLANK + body else CRLF + Join(ls[1..]) + BLANK + body;
  }

  lemma {:induction false} AfterFirstSpace(a: string, b: string, c: string, d: string)
    ensures (a + " " + b + c) + d == a + " " + (b + (c + d))
  {
  }

  /** Without a blank in what came there is no status line. */
  lemma {:induction false} NoBlankRefused(raw: string)
    requires !Contains(raw, " ")
    ensures ParseHttpResponse(raw).Err?
  {
  }

  /** A status code that does not begin like a number is refused. */
  lemma {:induction false} BadStatusRefused(proto: string, text: string, rest: string)
    requires !Contains(proto, " ") && text != "" && NoNumber(text, 10)
    ensures ParseHttpResponse(proto + " " + (text + rest)).Err?
  {
    hide Find, Contains, Scan, Dechunk, InferenceLength, LooksChunked, ToLower, BLANK;
    SingleSpace(proto, text + rest);
    var raw := proto + " " + (text + rest);
    var t := StatusText(raw, |proto|);
    assert raw[|proto| + 1..] == text + rest;
    FirstOfStatus(proto, text, rest);
    ScansNothing("", t, 10);
    assert "" + t == t;
  }

  lemma {:induction false} FirstOfStatus(proto: string, text: string, rest: string)
    requires text != "" && text[0] != ' '
    ensures var t := StatusText(proto + " " + (text + rest), |proto|); t != "" && t[0] == text[0]
  {
    hide Find, At;
    var raw := proto + " " + (text + rest);
    var next := Find(raw, " ", |proto| + 1);
    assert raw[|proto| + 1] == text[0];
    if next.Some? {
      AtChar(raw, " ", next.value, 0);
    }
  }

  /** What parsing a message with a whole header block comes to. */
  lemma {:induction false} ParseMessage(ls: seq<string>, body: string, status: nat)
    requires ls != [] && AllLines(ls) && StatusLine(ls[0], status)
    ensures ParseHttpResponse(Message(ls, body)) ==
            if LooksChunked(LowerHead(ls)) then
              match Dechunk(body, 0)
              case Ok(decoded) => Ok(HttpResponse(status, decoded, InferenceLength(Join(ls))))
              case Err(e) => Err(e)
            else Ok(HttpResponse(status, body, InferenceLength(Join(ls))))
  {
    hide StatusOf, Join, Find, InferenceLength, Dechunk, StatusLine, ToLower, LooksChunked;
    StatusOfMessage(ls, body, status);
    FirstBlankLine(ls, body);
    assert Message(ls, body)[..|Join(ls)|] == Join(ls);
    assert Message(ls, body)[|Join(ls)| + 4..] == body;
  }

  /** Without chunking the body is whatever follows the head. The announced length is not looked at: a
      body of any other length is taken as well, exactly those of them that are too short having been
      refused by the end test. */
  lemma {:induction false} PlainBody(ls: seq<string>, k: nat, f: NumberField, n: nat, received: string, status: nat)
    requires LengthFramed(ls, k, f, n) && StatusLine(ls[0], status) && !LooksChunked(LowerHead(ls))
    ensures ParseHttpResponse(Message(ls, received)) == Ok(HttpResponse(status, received, InferenceLength(Join(ls))))
    ensures |received| < n <==> !MessageComplete(Message(ls, received))
  {
    hide ParseHttpResponse, StatusLine, LooksChunked, LowerHead, InferenceLength, MessageComplete, Message, Join;
    ParseMessage(ls, received, status);
    LengthDecides(ls, k, f, n, received);
  }

  /** A length-framed message cut anywhere: refused exactly when the cut falls before the end of the
      blank line, and otherwise taken with the announced status and the cut body. */
  lemma {:induction false} CutPlainMessage(ls: seq<string>, k: nat, f: NumberField, body: string, m: nat, status: nat)
    requires LengthFramed(ls, k, f, |body|) && StatusLine(ls[0], status) && !LooksChunked(LowerHead(ls))
    requires m <= |Message(ls, body)|
    ensures ParseHttpResponse(Message(ls, body)[..m]).Err? <==> m < |Join(ls)| + 4
    ensures m >= |Join(ls)| + 4 ==>
              ParseHttpResponse(Message(ls, body)[..m]) ==
              Ok(HttpResponse(status, body[..m - (|Join(ls)| + 4)], InferenceLength(Join(ls))))
  {
    hide ParseHttpResponse, StatusLine, LooksChunked, LowerHead, InferenceLength, Join;
    if m < |Join(ls)| + 4 {
      CutInHead(ls, body, m);
    } else {
      assert Message(ls, body)[..m] == Message(ls, body[..m - (|Join(ls)| + 4)]);
      ParseMessage(ls, body[..m - (|Join(ls)| + 4)], status);
    }
  }

  lemma {:induction false} CutInHead(ls: seq<string>, body: string, m: nat)
    requires ls != [] && AllLines(ls) && m < |Join(ls)| + 4
    ensures ParseHttpResponse(Message(ls, body)[..m]).Err?
  {
    hide StatusOf, Find, Join, InferenceLength, Dechunk, LooksChunked, ToLower;
    NoBlankInCut(ls, m);
    assert Message(ls, body)[..m] == (Join(ls) + BLANK)[..m];
  }

  // ---- de-chunking inverts the coding ----

  /** The last chunk line: a zero size, any extension, then whatever trailer section. */
  ghost predicate ZeroTail(tail: string, size: string, ext: string, trailers: string) {
    tail == size + ext + CRLF + trailers && ZeroLine(size, ext)
  }

  lemma {:induction false} ReadsSize(size: string, ext: string, n: nat)
    requires IsToken(size, 16) && ValueOf(size, 16) == n < ULONG_LIMIT && ValidExt(ext)
    ensures SizeOfLine(size + ext) == Some(n)
  {
    hide ValueOf, IsToken, Find, StoulHex, IsDigit;
    var t := SizeTextIs(size, ext);
    assert t != "" ==> t[0] == ext[0];
    HexReads(size, t, n);
  }

  /** The text handed to stoul: the size, and at most what of the extension stands before a semicolon. */
  lemma {:induction false} SizeTextIs(size: string, ext: string) returns (t: string)
    requires IsToken(size, 16)
    ensures t <= ext
    ensures (match Find(size + ext, ";", 0) case None => size + ext case Some(i) => (size + ext)[..i]) == size + t
  {
    var line := size + ext;
    DigitsHaveNoSemicolon(size);
    hide Find, At, IsToken;
    var semi := Find(line, ";", 0);
    if semi.Some? {
      AtChar(line, ";", semi.value, 0);
      t := ext[..semi.value - |size|];
      assert line[..semi.value] == size + t;
    } else {
      t := ext;
    }
  }

  lemma {:induction false} DigitsHaveNoSemicolon(ds: string)
    requires IsToken(ds, 16)
    ensures forall i :: 0 <= i < |ds| ==> ds[i] != ';'
  {
    forall i | 0 <= i < |ds|
      ensures ds[i] != ';'
    {
      assert IsDigit(ds[i], 16);
    }
  }

  lemma {:induction false} HexReads(size: string, t: string, n: nat)
    requires IsToken(size, 16) && ValueOf(size, 16) == n < ULONG_LIMIT
    requires Ends(size, t, 16)
    ensures StoulHex(size + t) == Some(n)
  {
    hide ValueOf, IsToken, Scan, IsDigit;
    ScanToken("", size, t, 16);
    assert "" + size + t == size + t;
  }

  lemma {:induction false} FirstBreak(line: string, rest: string)
    requires Inline(line)
    ensures Find(line + (CRLF + rest), CRLF, 0) == Some(|line|)
  {
    hide At;
    var s := line + (CRLF + rest);
    BreakAtStart(rest);
    AtRight(line, CRLF + rest, CRLF, 0);
    forall i | 0 <= i < |line|
      ensures !At(s, CRLF, i)
    {
      assert s[i] == line[i];
      if At(s, CRLF, i) {
        AtChar(s, CRLF, i, 0);
      }
    }
  }

  lemma {:induction false} BreakAtStart(rest: string)
    ensures At(CRLF + rest, CRLF, 0)
  {
    assert (CRLF + rest)[0..2] == CRLF;
  }

  /** The first line break after `pre` is the one that ends the size line. */
  lemma {:induction false} SizeLineEnds(pre: string, line: string, rest: string)
    requires Inline(line)
    ensures Find(pre + (line + (CRLF + rest)), CRLF, |pre|) == Some(|pre| + |line|)
  {
    hide *;
    FirstBreak(line, rest);
    FindShift(pre, line + (CRLF + rest), CRLF, |line|);
  }

  lemma {:induction false} SliceMiddle(a: string, b: string, c: string)
    ensures (a + (b + c))[|a|..|a| + |b|] == b
  {
  }

  lemma {:induction false} DechunkStop(pre: string, line: string, rest: string)
    requires Inline(line) && SizeOfLine(line) == Some(0)
    ensures Dechunk(pre + (line + (CRLF + rest)), |pre|) == Ok("")
  {
    hide *;
    SizeLineEnds(pre, line, rest);
    SliceMiddle(pre, line, CRLF + rest);
    DechunkZero(pre + (line + (CRLF + rest)), |pre|, |pre| + |line|);
  }

  lemma {:induction false} DechunkZero(body: string, pos: nat, lineEnd: nat)
    requires pos <= lineEnd <= |body| && Find(body, CRLF, pos) == Some(lineEnd)
    requires SizeOfLine(body[pos..lineEnd]) == Some(0)
    ensures Dechunk(body, pos) == Ok("")
  {
    hide Find, SizeOfLine, At;
  }

  lemma {:induction false} DechunkOne(pre: string, line: string, data: string, next: string)
    requires Inline(line) && data != "" && SizeOfLine(line) == Some(|data|)
    ensures Dechunk(pre + OneChunk(line, data, next), |pre|) ==
            Prepend(data, Dechunk(pre + OneChunk(line, data, next), |pre| + |line| + 4 + |data|))
  {
    hide *;
    var body := pre + OneChunk(line, data, next);
    DataOfChunk(pre, line, data, next);
    SizeLineEnds(pre, line, data + (CRLF + next));
    SliceMiddle(pre, line, CRLF + (data + (CRLF + next)));
    DechunkStep(body, |pre|, |pre| + |line|, |data|);
  }

  lemma {:induction false} DataOfChunk(pre: string, line: string, data: string, next: string)
    ensures pre + OneChunk(line, data, next) == pre + (line + (CRLF + (data + (CRLF + next))))
    ensures |pre + OneChunk(line, data, next)| >= |pre| + |line| + 4 + |data|
    ensures (pre + OneChunk(line, data, next))[|pre| + |line| + 2..|pre| + |line| + 2 + |data|] == data
  {
    assert CRLF + data + (CRLF + next) == CRLF + (data + (CRLF + next));
    var front := pre + line + CRLF;
    assert pre + OneChunk(line, data, next) == front + (data + (CRLF + next));
  }

  lemma {:induction false} DechunkStep(body: string, pos: nat, lineEnd: nat, n: nat)
    requires pos <= lineEnd && Find(body, CRLF, pos) == Some(lineEnd) && SizeOfLine(body[pos..lineEnd]) == Some(n)
    requires 0 < n && lineEnd + 2 + n <= |body|
    ensures Dechunk(body, pos) == Prepend(body[lineEnd + 2..lineEnd + 2 + n], Dechunk(body, lineEnd + 4 + n))
  {
    hide Find, SizeOfLine, At;
  }

  /** Whole chunks decode to their payload, and decoding goes on after them. */
  lemma {:induction false} DechunkChunks(pre: string, cs: seq<Chunk>, tail: string)
    requires AllValid(cs)
    ensures |Encode(cs, tail)| >= |tail|
    ensures Dechunk(pre + Encode(cs, tail), |pre|) ==
            Prepend(Payload(cs), Dechunk(pre + Encode(cs, tail), |pre| + (|Encode(cs, tail)| - |tail|)))
    decreases cs
  {
    hide Dechunk, SizeOfLine, ValueOf, Prepend;
    EncodeSplit(cs, tail);
    if cs == [] {
      PrependEmpty(Dechunk(pre + Encode(cs, tail), |pre|));
    } else {
      var line, data, next := cs[0].SizeLine(), cs[0].data, Encode(cs[1..], tail);
      ReadsSize(cs[0].size, cs[0].ext, |data|);
      SizeLineText(cs[0]);
      DechunkOne(pre, line, data, next);
      var front := pre + line + CRLF + data + CRLF;
      OneChunkFront(pre, line, data, next);
      DechunkChunks(front, cs[1..], tail);
      PrependTwice(data, Payload(cs[1..]), Dechunk(front + next, |front| + (|next| - |tail|)));
    }
  }

  /** What the bytes after the last whole chunk come to decides the rest. */
  lemma {:induction false} DechunkTail(cs: seq<Chunk>, tail: string) returns (front: string)
    requires AllValid(cs)
    ensures Encode(cs, tail) == front + tail
    ensures Dechunk(Encode(cs, tail), 0) == Prepend(Payload(cs), Dechunk(front + tail, |front|))
  {
    hide *;
    var body := Encode(cs, tail);
    EncodeSplit(cs, tail);
    assert "" + body == body;
    DechunkChunks("", cs, tail);
    front := body[..|body| - |tail|];
    assert body == front + tail;
  }

  lemma {:induction false} NothingMore(front: string)
    ensures Prepend(front, Ok("")) == Ok(front)
  {
    assert front + "" == front;
  }

  lemma {:induction false} DechunkLast(front: string, tail: string, size: string, ext: string, trailers: string)
    requires ZeroTail(tail, size, ext, trailers)
    ensures Dechunk(front + tail, |front|) == Ok("")
  {
    hide Dechunk, SizeOfLine, ValueOf, IsToken;
    ReadsSize(size, ext, 0);
    TokenInline(size);
    assert tail == (size + ext) + (CRLF + trailers);
    DechunkStop(front, size + ext, trailers);
  }

  lemma {:induction false} DechunkEncode(cs: seq<Chunk>, tail: string, size: string, ext: string, trailers: string)
    requires AllValid(cs) && ZeroTail(tail, size, ext, trailers)
    ensures Dechunk(Encode(cs, tail), 0) == Ok(Payload(cs))
  {
    hide *;
    var front := DechunkTail(cs, tail);
    DechunkLast(front, tail, size, ext, trailers);
    NothingMore(Payload(cs));
  }

  lemma {:induction false} DechunkUnended(pre: string, line: string, data: string, cut: string)
    requires Inline(line) && data != "" && |cut| < 2 && SizeOfLine(line) == Some(|data|)
    ensures Dechunk(pre + (line + (CRLF + (data + cut))), |pre|) == Ok(data)
  {
    hide Find, SizeOfLine, At, Dechunk;
    var body := pre + (line + (CRLF + (data + cut)));
    SizeLineEnds(pre, line, data + cut);
    SliceMiddle(pre, line, CRLF + (data + cut));
    SliceMiddle(pre + line + CRLF, data, cut);
    assert body == (pre + line + CRLF) + (data + cut);
    DechunkStep(body, |pre|, |pre| + |line|, |data|);
    DechunkPast(body, |pre| + |line| + 4 + |data|);
    NothingMore(data);
  }

  lemma {:induction false} DechunkPast(body: string, pos: nat)
    requires pos >= |body|
    ensures Dechunk(body, pos) == Ok("")
  {
    hide Find, SizeOfLine;
  }

  /** A size line without a size ends the decoding, with what came before it. */
  lemma {:induction false} BadSizeLine(cs: seq<Chunk>, line: string, rest: string)
    requires AllValid(cs) && Inline(line) && NoNumber(line, 16)
    ensures Dechunk(Encode(cs, line + (CRLF + rest)), 0) == Ok(Payload(cs))
  {
    hide Dechunk, Encode, Payload, AllValid, SizeOfLine, Find;
    var tail := line + (CRLF + rest);
    var front := DechunkTail(cs, tail);
    SizeLineEnds(front, line, rest);
    SliceMiddle(front, line, CRLF + rest);
    NoSize(line);
    DechunkStops(front + tail, |front|);
    NothingMore(Payload(cs));
  }

  lemma {:induction false} NoSize(line: string)
    requires NoNumber(line, 16)
    ensures SizeOfLine(line) == None
  {
    hide Find, Scan, IsDigit;
    var digits := match Find(line, ";", 0) case None => line case Some(i) => line[..i];
    assert digits != "" ==> digits[0] == line[0];
    ScansNothing("", digits, 16);
    assert "" + digits == digits;
  }

  lemma {:induction false} DechunkShort(pre: string, line: string, data: string, n: nat)
    requires Inline(line) && |data| < n && SizeOfLine(line) == Some(n)
    ensures Dechunk(pre + (line + (CRLF + data)), |pre|).Err?
  {
    hide Find, SizeOfLine, At;
    SizeLineEnds(pre, line, data);
    SliceMiddle(pre, line, CRLF + data);
  }

  lemma {:induction false} DechunkNoBreak(pre: string, line: string, k: nat)
    requires Inline(line) && k <= |line| + 1
    ensures Dechunk(pre + (line + CRLF)[..k], |pre|) == Ok("")
  {
    hide Find, SizeOfLine;
    NoBreakInCut(line, k);
    FindShiftNone(pre, (line + CRLF)[..k], CRLF);
  }

  lemma {:induction false} NoBreakInCut(line: string, k: nat)
    requires Inline(line) && k <= |line| + 1
    ensures Find((line + CRLF)[..k], CRLF, 0).None?
  {
    hide Find, At;
    var s := (line + CRLF)[..k];
    if Find(s, CRLF, 0).Some? {
      var i := Find(s, CRLF, 0).value;
      AtChar(s, CRLF, i, 0);
    }
  }

  lemma {:induction false} OneChunkFront(pre: string, line: string, data: string, next: string)
    ensures pre + OneChunk(line, data, next) == pre + line + CRLF + data + CRLF + next
  {
  }

  lemma {:induction false} TokenInline(ds: string)
    requires IsToken(ds, 16)
    ensures Inline(ds)
  {
    forall i | 0 <= i < |ds|
      ensures ds[i] != '\r' && ds[i] != '\n'
    {
      assert IsDigit(ds[i], 16);
    }
  }

  /** The four ways of cutting an encoded chunk. */
  lemma {:induction false} CutChunk(line: string, data: string, next: string, m: nat)
    requires m <= |OneChunk(line, data, next)|
    ensures |OneChunk(line, data, next)| == |line| + 4 + |data| + |next|
    ensures m <= |line| + 1 ==> OneChunk(line, data, next)[..m] == (line + CRLF)[..m]
    ensures |line| + 2 <= m <= |line| + 2 + |data| ==>
              OneChunk(line, data, next)[..m] == line + (CRLF + data[..m - (|line| + 2)])
    ensures |line| + 2 + |data| <= m <= |line| + 4 + |data| ==>
              OneChunk(line, data, next)[..m] == line + (CRLF + (data + CRLF[..m - (|line| + 2 + |data|)]))
    ensures |line| + 4 + |data| <= m ==>
              OneChunk(line, data, next)[..m] == OneChunk(line, data, next[..m - (|line| + 4 + |data|)])
  {
  }

  lemma {:induction false} CutLastChunk(front: string, tail: string, size: string, ext: string, trailers: string, m: nat)
    requires ZeroTail(tail, size, ext, trailers) && m <= |tail|
    ensures Dechunk(front + tail[..m], |front|) == Ok("")
  {
    hide Dechunk, ZeroLine, SizeOfLine;
    var line := size + ext;
    ZeroLineText(size, ext);
    if m <= |line| + 1 {
      assert tail[..m] == (line + CRLF)[..m];
      DechunkNoBreak(front, line, m);
    } else {
      assert tail[..m] == line + (CRLF + trailers[..m - (|line| + 2)]);
      ReadsZero(size, ext);
      DechunkStop(front, line, trailers[..m - (|line| + 2)]);
    }
  }

  lemma {:induction false} ReadsZero(size: string, ext: string)
    requires ZeroLine(size, ext)
    ensures SizeOfLine(size + ext) == Some(0)
  {
    hide SizeOfLine, ValueOf, IsToken, ValidExt;
    ReadsSize(size, ext, 0);
  }

  /** n chunks arrived whole; the next one did not. */
  lemma {:induction false} DechunkCut(pre: string, cs: seq<Chunk>, tail: string, size: string, ext: string, trailers: string,
                                      m: nat) returns (n: nat)
    requires AllValid(cs) && ZeroTail(tail, size, ext, trailers) && m <= |Encode(cs, tail)|
    ensures n <= |cs| && (n > 0 ==> DataEnd(cs, n - 1) <= m) && (n < |cs| ==> m < DataEnd(cs, n))
    ensures if n < |cs| && DataStart(cs, n) <= m then Dechunk(pre + Encode(cs, tail)[..m], |pre|).Err?
            else Dechunk(pre + Encode(cs, tail)[..m], |pre|) == Ok(Payload(cs[..n]))
    decreases cs
  {
    hide Dechunk, SizeOfLine, ZeroTail, ValueOf, IsToken, ValidExt;
    if cs == [] {
      CutLastChunk(pre, tail, size, ext, trailers, m);
      n := 0;
    } else {
      var c, next := cs[0], Encode(cs[1..], tail);
      var line, data := c.SizeLine(), c.data;
      hide Encode, OneChunk;
      EncodeOne(cs, tail);
      SizeLineText(c);
      ReadsSize(c.size, c.ext, |data|);
      CutChunk(line, data, next, m);
      if m <= |line| + 1 {
        DechunkNoBreak(pre, line, m);
        n := 0;
      } else if m < |line| + 2 + |data| {
        DechunkShort(pre, line, data[..m - (|line| + 2)], |data|);
        n := 0;
      } else if m < |line| + 4 + |data| {
        DechunkUnended(pre, line, data, CRLF[..m - (|line| + 2 + |data|)]);
        PayloadOne(cs);
        n := 1;
      } else {
        var rest := m - (|line| + 4 + |data|);
        DechunkOne(pre, line, data, next[..rest]);
        OneChunkFront(pre, line, data, next[..rest]);
        var k := DechunkCut(pre + line + CRLF + data + CRLF, cs[1..], tail, size, ext, trailers, rest);
        PayloadMore(cs, k);
        n := k + 1;
      }
    }
  }

  lemma {:induction false} EncodeOne(cs: seq<Chunk>, tail: string)
    requires cs != []
    ensures Encode(cs, tail) == OneChunk(cs[0].SizeLine(), cs[0].data, Encode(cs[1..], tail))
  {
  }

  lemma {:induction false} PayloadOne(cs: seq<Chunk>)
    requires cs != []
    ensures Payload(cs[..1]) == cs[0].data
  {
    PayloadMore(cs, 0);
  }

  lemma {:induction false} PayloadMore(cs: seq<Chunk>, k: nat)
    requires k < |cs|
    ensures Payload(cs[..k + 1]) == cs[0].data + Payload(cs[1..][..k])
  {
    assert cs[..k + 1][1..] == cs[1..][..k];
  }

  /** The cut falls inside the data of chunk j. */
  predicate CutsData(cs: seq<Chunk>, j: nat, m: nat) {
    j < |cs| && DataStart(cs, j) <= m < DataEnd(cs, j)
  }

  /** The data of exactly the first n chunks arrived, and nothing of the data of the next one. */
  predicate Arrived(cs: seq<Chunk>, n: nat, m: nat) {
    n <= |cs| && (n > 0 ==> DataEnd(cs, n - 1) <= m) && (n < |cs| ==> m < DataStart(cs, n))
  }

  /** A chunked body that ends early, anywhere: it is refused exactly when the end falls inside the data
      of a chunk, and otherwise taken for the payload of the chunks that arrived. */
  lemma {:induction false} CutChunkedBody(cs: seq<Chunk>, tail: string, size: string, ext: string, trailers: string, m: nat)
    requires AllValid(cs) && ZeroTail(tail, size, ext, trailers) && m <= |Encode(cs, tail)|
    ensures Dechunk(Encode(cs, tail)[..m], 0).Err? <==> exists j: nat :: CutsData(cs, j, m)
    ensures Dechunk(Encode(cs, tail)[..m], 0).Ok? <==> exists n: nat :: Arrived(cs, n, m)
    ensures forall n: nat :: n <= |cs| && Arrived(cs, n, m) ==> Dechunk(Encode(cs, tail)[..m], 0) == Ok(Payload(cs[..n]))
  {
    hide Dechunk, Encode, ZeroTail, AllValid, DataStart, DataEnd, Payload;
    var n := DechunkCut("", cs, tail, size, ext, trailers, m);
    assert "" + Encode(cs, tail)[..m] == Encode(cs, tail)[..m];
    forall j: nat | CutsData(cs, j, m)
      ensures j == n
    {
      OnlyOne(cs, j, n, m);
    }
    forall k: nat | Arrived(cs, k, m)
      ensures k == n && !CutsData(cs, n, m)
    {
      SameNumber(cs, k, n, m);
    }
    if n < |cs| && DataStart(cs, n) <= m {
      assert CutsData(cs, n, m);
    } else {
      assert Arrived(cs, n, m);
    }
  }

  lemma {:induction false} OnlyOne(cs: seq<Chunk>, j: nat, n: nat, m: nat)
    requires n <= |cs| && (n > 0 ==> DataEnd(cs, n - 1) <= m) && (n < |cs| ==> m < DataEnd(cs, n))
    requires CutsData(cs, j, m)
    ensures j == n
  {
    if j + 1 < n {
      DataInOrder(cs, j, n - 1);
    } else if n < j {
      DataInOrder(cs, n, j);
    }
  }

  lemma {:induction false} SameNumber(cs: seq<Chunk>, k: nat, n: nat, m: nat)
    requires n <= |cs| && (n > 0 ==> DataEnd(cs, n - 1) <= m) && (n < |cs| ==> m < DataEnd(cs, n))
    requires Arrived(cs, k, m)
    ensures k == n
  {
    if k + 1 < n {
      DataInOrder(cs, k, n - 1);
    } else if n + 1 < k {
      DataInOrder(cs, n, k - 1);
    }
  }

  /** Section 7.1 of RFC 9112: every chunking of a payload, with any extensions and trailers, decodes to it. */
  lemma {:induction false} ChunkedRoundTrip(ls: seq<string>, cs: seq<Chunk>, size: string, ext: string, trailers: string, status: nat)
    requires ls != [] && AllLines(ls) && StatusLine(ls[0], status) && LooksChunked(LowerHead(ls))
    requires AllValid(cs) && ZeroLine(size, ext)
    ensures ParseHttpResponse(Message(ls, Encode(cs, size + ext + CRLF + trailers))) ==
            Ok(HttpResponse(status, Payload(cs), InferenceLength(Join(ls))))
  {
    hide ParseHttpResponse, Dechunk, InferenceLength, StatusLine, Join, ToLower, LooksChunked, ZeroLine;
    var tail := size + ext + CRLF + trailers;
    var body := Encode(cs, tail);
    ParseMessage(ls, body, status);
    DechunkEncode(cs, tail, size, ext, trailers);
  }

  /** A legal message on which the end test and the parser disagree: with the last chunk written "00" the
      reader waits for more, though the parser would take the message as it is. */
  lemma {:induction false} LongZeroDisagrees()
    ensures var raw := Message(["HTTP/1.1 200 OK", "Transfer-Encoding: chunked"], "1\r\na\r\n00\r\n\r\n");
            !MessageComplete(raw) && ParseHttpResponse(raw) == Ok(HttpResponse(200, "a", -1))
  {
    hide ParseHttpResponse, MessageComplete, LowerHead, LooksChunked, AllClean, AllValid, AllLines, StatusLine, InferenceLength,
      ZeroLine, Message, Join, Encode, Payload;
    var ls, cs := EXAMPLE_HEAD, [Chunk("1", "", "a")];
    ExampleHead();
    ExampleStatus();
    ExampleChunks();
    OtherZeroNeverCompletes(ls, cs, "00", "");
    ChunkedRoundTrip(ls, cs, "00", "", CRLF, 200);
    ExampleBody();
  }

  const EXAMPLE_HEAD: seq<string> := ["HTTP/1.1 200 OK", "Transfer-Encoding: chunked"]

  lemma {:induction false} ExampleHead()
    ensures AllLines(EXAMPLE_HEAD)
    ensures LooksChunked(LowerHead(EXAMPLE_HEAD)) && InferenceLength(Join(EXAMPLE_HEAD)) == -1
  {
    hide LooksChunked, LowerHead, Join, InferenceLength, LineHas;
    ExampleCoding();
    TooShortToHave("HTTP/1.1 200 OK", INFERENCE_LENGTH);
    TooShortToHave("Transfer-Encoding: chunked", INFERENCE_LENGTH);
    TwoLines("HTTP/1.1 200 OK", "Transfer-Encoding: chunked", INFERENCE_LENGTH);
    TwoLines("HTTP/1.1 200 OK", "Transfer-Encoding: chunked", TRANSFER_ENCODING);
    TwoLines("HTTP/1.1 200 OK", "Transfer-Encoding: chunked", CHUNKED);
    hide SomeLineHas;
    LooksChunkedByLine(EXAMPLE_HEAD);
    NoInferenceLength(EXAMPLE_HEAD);
  }

  lemma {:induction false} TwoLines(a: string, b: string, p: string)
    ensures SomeLineHas([a, b], p) <==> LineHas(a, p) || LineHas(b, p)
  {
    hide LineHas;
    assert [a, b][0] == a && [a, b][1] == b;
  }

  lemma {:induction false} ExampleCoding()
    ensures LineHas("Transfer-Encoding: chunked", TRANSFER_ENCODING) && LineHas("Transfer-Encoding: chunked", CHUNKED)
  {
    hide Find, ToLower;
    var low := ToLower("Transfer-Encoding: chunked");
    assert low == "transfer-encoding: chunked";
    assert low[0..18] == TRANSFER_ENCODING && low[19..26] == CHUNKED;
    FoundAt(low, TRANSFER_ENCODING, 0);
    FoundAt(low, CHUNKED, 19);
  }

  lemma {:induction false} ExampleStatus()
    ensures StatusLine("HTTP/1.1 200 OK", 200)
  {
    hide Find, Contains, Print;
    Print200();
    if Contains("HTTP/1.1", " ") {
      ContainsChar("HTTP/1.1", ' ');
    }
    assert "HTTP/1.1 200 OK" == "HTTP/1.1" + " " + "200" + " OK";
    assert IsStatusLine("HTTP/1.1", 200, " OK");
  }

  lemma {:induction false} Print200()
    ensures Decimal(200) == "200"
  {
    assert Print(2, 10) == "2" && Print(20, 10) == "20";
  }

  lemma {:induction false} ContainsChar(s: string, c: char)
    requires Contains(s, [c])
    ensures c in s
  {
    hide At;
    AtChar(s, [c], Find(s, [c], 0).value, 0);
  }

  lemma {:induction false} ExampleChunks()
    ensures var cs := [Chunk("1", "", "a")]; AllValid(cs) && AllClean(cs) && Payload(cs) == "a"
    ensures ZeroLine("00", "")
  {
    hide Clean;
    InlineIsClean(Chunk("1", "", "a"));
    assert ValueOf("1", 16) == 1;
    assert "00"[..1] == "0" && "0"[..0] == "";
    assert ValueOf("0", 16) == 0;
    assert [Chunk("1", "", "a")][1..] == [];
  }

  lemma {:induction false} ExampleBody()
    ensures Encode([Chunk("1", "", "a")], "00" + "" + CRLF + CRLF) == "1\r\na\r\n00\r\n\r\n"
    ensures "00" + "" + CRLF + CRLF == "00" + "" + BLANK
  {
    assert [Chunk("1", "", "a")][1..] == [];
    assert OneChunk("1", "a", "00\r\n\r\n") == "1\r\na\r\n00\r\n\r\n";
  }

  lemma {:induction false} TwoChunkingsAgree(ls: seq<string>, a: seq<Chunk>, b: seq<Chunk>, status: nat)
    requires ls != [] && AllLines(ls) && StatusLine(ls[0], status) && LooksChunked(LowerHead(ls))
    requires AllValid(a) && AllValid(b) && Payload(a) == Payload(b)
    ensures ParseHttpResponse(Message(ls, Encode(a, LAST_CHUNK))) == ParseHttpResponse(Message(ls, Encode(b, LAST_CHUNK)))
  {
    hide ParseHttpResponse, Dechunk, InferenceLength, StatusLine, Join, ToLower, LooksChunked, Encode;
    assert LAST_CHUNK == "0" + "" + CRLF + CRLF;
    assert ValueOf("0", 16) == 0;
    ChunkedRoundTrip(ls, a, "0", "", CRLF, status);
    ChunkedRoundTrip(ls, b, "0", "", CRLF, status);
  }

  // ---- the binary extension header ----

  /** The length header is read from the first line that carries it, whatever its case, the white space
      around the number and the number's leading zeros. */
  lemma {:induction false} ReadsInferenceLength(ls: seq<string>, k: nat, f: NumberField, n: nat)
    requires 1 <= k < |ls| && ls[k] == f.Line() && f.Valid(INFERENCE_LENGTH, n)
    requires !SomeLineHas(ls[..k], INFERENCE_LENGTH)
    ensures InferenceLength(Join(ls)) == n
  {
    hide Join, ToLower, SomeLineHas, InferenceLength, IsLine, ValueOf, IsToken, AllSpace;
    assert ls == ls[..k] + ([f.Line()] + ls[k + 1..]);
    JoinAround(ls[..k], f.Line(), ls[k + 1..]);
    ReadsLengthLine(ls[..k], f, n, if ls[k + 1..] == [] then "" else CRLF + Join(ls[k + 1..]));
  }

  /** Without such a line the response is a plain JSON one. */
  lemma {:induction false} NoInferenceLength(ls: seq<string>)
    requires ls != [] && !SomeLineHas(ls, INFERENCE_LENGTH)
    ensures InferenceLength(Join(ls)) == -1
  {
    hide Join, ToLower, SomeLineHas, Stol, SkipBlanks;
    HeadContains(ls, INFERENCE_LENGTH);
  }

  lemma {:induction false} ReadsLengthLine(pre: seq<string>, f: NumberField, n: nat, after: string)
    requires pre != [] && !SomeLineHas(pre, INFERENCE_LENGTH)
    requires f.Valid(INFERENCE_LENGTH, n)
    requires after == "" || after[0] == '\r'
    ensures InferenceLength(Join(pre) + (CRLF + f.Line() + after)) == n
  {
    hide Join, ToLower, Find, At, SomeLineHas, InferenceLength, SkipBlanks, Stol, IsField, IsToken, ValueOf, AllSpace;
    FieldLine(f, INFERENCE_LENGTH, n);
    NameAt(f.Line(), f.name, f.Value());
    FoundInLine(pre, f.Line(), after, INFERENCE_LENGTH);
    ReadsValue(Join(pre), f, n, after);
  }

  lemma {:induction false} ReadsValue(front: string, f: NumberField, n: nat, after: string)
    requires f.Valid(INFERENCE_LENGTH, n) && (after == "" || after[0] == '\r')
    requires Find(ToLower(front + (CRLF + f.Line() + after)), INFERENCE_LENGTH, 0) == Some(|front| + 2)
    ensures InferenceLength(front + (CRLF + f.Line() + after)) == n
  {
    hide ToLower, Find, InferenceLength, SkipBlanks, Stol, IsToken, ValueOf, AllSpace;
    LineParts(front, f, after);
    var left := front + CRLF + f.name;
    var j := SkipsBlanks(left, f.ws, f.digits, f.ows + after);
    ReadsNumber(f.ws[j..], f.digits, f.ows, after);
    assert f.ws[j..] + (f.digits + (f.ows + after)) == f.ws[j..] + f.digits + f.ows + after;
    InferenceLengthIs(front + (CRLF + f.Line() + after), |front| + 2, |left| + j, n);
  }

  /** A length header that is no number counts as none. */
  lemma {:induction false} UnreadInferenceLength(ls: seq<string>, k: nat, name: string, value: string)
    requires 1 <= k < |ls| && ls[k] == name + value && ToLower(name) == INFERENCE_LENGTH
    requires value != "" && NoNumber(value, 10) && !SomeLineHas(ls[..k], INFERENCE_LENGTH)
    ensures InferenceLength(Join(ls)) == -1
  {
    hide Join, ToLower, SomeLineHas, Find, At, IsField, InferenceLength, NoNumber;
    assert ls == ls[..k] + ([ls[k]] + ls[k + 1..]);
    JoinAround(ls[..k], ls[k], ls[k + 1..]);
    var after := if ls[k + 1..] == [] then "" else CRLF + Join(ls[k + 1..]);
    LowerConcat(name, value);
    NameAt(ls[k], name, ToLower(value));
    FoundInLine(ls[..k], ls[k], after, INFERENCE_LENGTH);
    UnreadValue(Join(ls[..k]), name, value, after);
    ValueLast(Join(ls[..k]), name, value, after);
  }

  lemma {:induction false} ValueLast(front: string, name: string, value: string, after: string)
    ensures front + (CRLF + (name + value) + after) == front + CRLF + name + (value + after)
  {
  }

  lemma {:induction false} UnreadValue(front: string, name: string, value: string, after: string)
    requires Find(ToLower(front + (CRLF + (name + value) + after)), INFERENCE_LENGTH, 0) == Some(|front| + 2)
    requires |name| == |INFERENCE_LENGTH| && value != "" && NoNumber(value, 10)
    ensures InferenceLength(front + (CRLF + (name + value) + after)) == -1
  {
    hide ToLower, Find, SkipBlanks, Scan, IsDigit;
    ValueLast(front, name, value, after);
    SkipsNone(front + CRLF + name, value + after);
    ScansNothing("", value + after, 10);
    assert "" + (value + after) == value + after;
  }

  lemma {:induction false} SkipsNone(left: string, rest: string)
    requires rest != "" && !IsSpace(rest[0])
    ensures SkipBlanks(left + rest, |left|) == |left| && (left + rest)[|left|..] == rest
  {
    assert (left + rest)[|left|] == rest[0];
  }

  lemma {:induction false} LineParts(front: string, f: NumberField, after: string)
    ensures front + (CRLF + f.Line() + after) == front + CRLF + f.name + (f.ws + (f.digits + (f.ows + after)))
  {
  }

  /** The scan stops at the digits, or at a white-space character stol will skip. */
  lemma {:induction false} SkipsBlanks(left: string, ws: string, digits: string, rest: string) returns (j: nat)
    requires AllSpace(ws) && IsToken(digits, 10)
    ensures j <= |ws| && AllSpace(ws[j..])
    ensures |left| + j <= |left + (ws + (digits + rest))|
    ensures SkipBlanks(left + (ws + (digits + rest)), |left|) == |left| + j
    ensures (left + (ws + (digits + rest)))[|left| + j..] == ws[j..] + (digits + rest)
    decreases |ws|
  {
    var text := left + (ws + (digits + rest));
    assert IsDigit(digits[0], 10);
    if ws == "" {
      assert text[|left|] == digits[0];
      j := 0;
    } else if ws[0] == ' ' || ws[0] == '\t' {
      assert text[|left|] == ws[0];
      assert text == left + [ws[0]] + (ws[1..] + (digits + rest));
      var k := SkipsBlanks(left + [ws[0]], ws[1..], digits, rest);
      j := k + 1;
    } else {
      assert text[|left|] == ws[0];
      j := 0;
    }
  }

  lemma {:induction false} InferenceLengthIs(headers: string, at: nat, v: nat, n: int)
    requires Find(ToLower(headers), INFERENCE_LENGTH, 0) == Some(at)
    requires at + |INFERENCE_LENGTH| <= |headers|
    requires SkipBlanks(headers, at + |INFERENCE_LENGTH|) == v && Stol(headers[v..]) == Some(n)
    ensures InferenceLength(headers) == n
  {
    hide Find, ToLower, SkipBlanks, Stol;
  }

  lemma {:induction false} NameAt(line: string, name: string, value: string)
    requires ToLower(line) == ToLower(name) + value
    ensures IsField(line, ToLower(name))
  {
    hide ToLower;
    assert (ToLower(name) + value)[0..|ToLower(name)|] == ToLower(name);
  }
}
