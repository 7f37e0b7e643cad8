/** Where an HTTP/1.1 message ends: the detector of the keep-alive reader, and when it
    agrees with message framing as in section 6.3 of RFC 9112. */
module Framing {
  import opened Wrappers
  import opened Text
  import opened Numerals

  const TRANSFER_ENCODING: string := "transfer-encoding:"
  const CHUNKED: string := "chunked"
  const CONTENT_LENGTH: string := "content-length:"
  const LENGTH_MARKER: string := CRLF + CONTENT_LENGTH
  const LAST_CHUNK: string := "0\r\n\r\n"
  const TERMINATOR: string := "\r\n0\r\n\r\n"

  /** The test made on a lower-cased header block: two unanchored substring searches. */
  predicate LooksChunked(headers: string) {
    Contains(headers, TRANSFER_ENCODING) && Contains(headers, CHUNKED)
  }

  /** static_cast<std::size_t> of a long. */
  function SizeT(n: int): nat
    requires -LONG_LIMIT <= n < LONG_LIMIT
  {
    if n < 0 then n + ULONG_LIMIT else n
  }

  /** The value read at the first line break followed by the field name; None when there is none
      or it does not read as a long. */
  function HeaderLength(headers: string): Option<int> {
    var pos :- Find(headers, LENGTH_MARKER, 0);
    Stol(headers[pos + |LENGTH_MARKER|..])
  }

  /** size_t arithmetic wraps. */
  predicate LengthReached(raw: string, headers: string, bodyStart: nat) {
    match HeaderLength(headers)
    case None => false
    case Some(len) => |raw| >= (bodyStart + SizeT(len)) % ULONG_LIMIT
  }

  /** The zero-length chunk, searched for from the end of the headers on. */
  predicate TerminatorSeen(raw: string, headerEnd: nat) {
    Find(raw, TERMINATOR, headerEnd).Some? || At(raw, LAST_CHUNK, headerEnd + 4)
  }

  /** The choice made once the blank line is found at `headerEnd`. */
  predicate BodyComplete(raw: string, headerEnd: nat)
    requires headerEnd <= |raw|
  {
    var headers := ToLower(raw[..headerEnd]);
    if LooksChunked(headers) then TerminatorSeen(raw, headerEnd)
    else LengthReached(raw, headers, headerEnd + 4)
  }

  predicate MessageComplete(raw: string) {
    match Find(raw, BLANK, 0)
    case None => false
    case Some(headerEnd) => BodyComplete(raw, headerEnd)
  }

  predicate WantsClose(raw: string) {
    var head := match Find(raw, BLANK, 0) case None => raw case Some(i) => raw[..i];
    Contains(ToLower(head), "connection: close")
  }

  lemma {:induction false} TerminatorMonotone(a: string, b: string, headerEnd: nat)
    requires TerminatorSeen(a, headerEnd)
    ensures TerminatorSeen(a + b, headerEnd)
  {
    if Find(a, TERMINATOR, headerEnd).Some? {
      FindExtend(a, b, TERMINATOR, headerEnd);
    } else {
      AtLeft(a, b, LAST_CHUNK, headerEnd + 4);
    }
  }

  lemma {:induction false} BodyMonotone(a: string, b: string, headerEnd: nat)
    requires headerEnd <= |a| && BodyComplete(a, headerEnd)
    ensures BodyComplete(a + b, headerEnd)
  {
    assert (a + b)[..headerEnd] == a[..headerEnd];
    if LooksChunked(ToLower(a[..headerEnd])) {
      TerminatorMonotone(a, b, headerEnd);
    }
  }

  /** More bytes never undo completeness. */
  lemma {:induction false} Monotone(a: string, b: string)
    requires MessageComplete(a)
    ensures MessageComplete(a + b)
  {
    FindExtend(a, b, BLANK, 0);
    BodyMonotone(a, b, Find(a, BLANK, 0).value);
  }

  /** No proper prefix of the message is taken for a complete one. */
  ghost predicate NeverEarly(raw: string) {
    forall m :: 0 <= m < |raw| ==> !MessageComplete(raw[..m])
  }

  /** The detector fires on the whole message and on no proper prefix of it. */
  ghost predicate SelfDelimiting(raw: string) {
    MessageComplete(raw) && NeverEarly(raw)
  }

  lemma {:induction false} PrefixMonotone(raw: string, m: nat, k: nat)
    requires m <= k <= |raw| && MessageComplete(raw[..m])
    ensures MessageComplete(raw[..k])
  {
    hide *;
    Monotone(raw[..m], raw[m..k]);
    assert raw[..m] + raw[m..k] == raw[..k];
  }

  lemma {:induction false} LastPrefixDecides(raw: string)
    requires raw != ""
    ensures NeverEarly(raw) <==> !MessageComplete(raw[..|raw| - 1])
  {
    forall m | 0 <= m < |raw| && MessageComplete(raw[..m])
      ensures MessageComplete(raw[..|raw| - 1])
    {
      PrefixMonotone(raw, m, |raw| - 1);
    }
  }

  lemma {:induction false} StillIncomplete(raw: string, m: nat)
    requires m <= |raw| && !MessageComplete(raw)
    ensures !MessageComplete(raw[..m])
  {
    hide MessageComplete;
    assert raw[..m] + raw[m..] == raw;
    if MessageComplete(raw[..m]) {
      Monotone(raw[..m], raw[m..]);
    }
  }

  lemma {:induction false} IncompleteIsNeverEarly(raw: string)
    requires !MessageComplete(raw)
    ensures NeverEarly(raw)
  {
    hide MessageComplete;
    forall m | 0 <= m < |raw|
      ensures !MessageComplete(raw[..m])
    {
      StillIncomplete(raw, m);
    }
  }

  // ---- the header block ----

  lemma {:induction false} HeadIncomplete(ls: seq<string>, m: nat)
    requires ls != [] && AllLines(ls) && m < |Join(ls)| + 4
    ensures !MessageComplete((Join(ls) + BLANK)[..m])
  {
    NoBlankInCut(ls, m);
  }

  lemma {:induction false} SplitBlank(head: string, rest: string)
    ensures head + BLANK + rest == (head + CRLF) + (CRLF + rest)
  {
    assert BLANK == CRLF + CRLF;
  }

  lemma {:induction false} TerminatorFromBody(head: string, rest: string)
    requires Contains(CRLF + rest, TERMINATOR)
    ensures TerminatorSeen(head + BLANK + rest, |head|)
  {
    var i := Find(CRLF + rest, TERMINATOR, 0).value;
    AtRight(head + CRLF, CRLF + rest, TERMINATOR, i);
    SplitBlank(head, rest);
    assert At(head + BLANK + rest, TERMINATOR, |head| + 2 + i);
  }

  lemma {:induction false} TerminatorChars(s: string, i: nat)
    requires At(s, TERMINATOR, i)
    ensures s[i] == '\r' && s[i + 1] == '\n' && s[i + 2] == '0' && s[i + 3] == '\r' && s[i + 4] == '\n' && s[i + 5] == '\r'
  {
    AtChar(s, TERMINATOR, i, 0);
    AtChar(s, TERMINATOR, i, 1);
    AtChar(s, TERMINATOR, i, 2);
    AtChar(s, TERMINATOR, i, 3);
    AtChar(s, TERMINATOR, i, 4);
    AtChar(s, TERMINATOR, i, 5);
  }

  lemma {:induction false} TerminatorToBody(head: string, rest: string, i: nat)
    requires i >= |head| && At(head + BLANK + rest, TERMINATOR, i)
    ensures Contains(CRLF + rest, TERMINATOR)
  {
    SplitBlank(head, rest);
    var front := head + CRLF;
    var body := CRLF + rest;
    TerminatorChars(front + body, i);
    assert front[|head|] == '\r' && front[|head| + 1] == '\n' && body[0] == '\r';
    AtRight(front, body, TERMINATOR, i - |front|);
  }

  lemma {:induction false} TerminatorInBody(head: string, rest: string)
    ensures TerminatorSeen(head + BLANK + rest, |head|) <==> Contains(CRLF + rest, TERMINATOR)
  {
    var raw := head + BLANK + rest;
    if Find(raw, TERMINATOR, |head|).Some? {
      TerminatorToBody(head, rest, Find(raw, TERMINATOR, |head|).value);
    } else if At(raw, LAST_CHUNK, |head| + 4) {
      AtRight(head + BLANK, rest, LAST_CHUNK, 0);
      assert (CRLF + rest)[0..7] == CRLF + rest[0..5];
      assert At(CRLF + rest, TERMINATOR, 0);
    }
    if Contains(CRLF + rest, TERMINATOR) {
      TerminatorFromBody(head, rest);
    }
  }

  /** The bytes of a message. */
  function Message(ls: seq<string>, body: string): string {
    Join(ls) + BLANK + body
  }

  function LowerHead(ls: seq<string>): string {
    ToLower(Join(ls))
  }

  /** A complete header block: what follows the blank line decides. */
  lemma {:induction false} AfterHead(ls: seq<string>, rest: string)
    requires ls != [] && AllLines(ls)
    ensures MessageComplete(Message(ls, rest)) <==>
            if LooksChunked(LowerHead(ls)) then Contains(CRLF + rest, TERMINATOR)
            else LengthReached(Message(ls, rest), LowerHead(ls), |Join(ls)| + 4)
  {
    FirstBlankLine(ls, rest);
    assert Message(ls, rest)[..|Join(ls)|] == Join(ls);
    TerminatorInBody(Join(ls), rest);
  }

  /** A message is never early when it is still incomplete one body byte short. */
  lemma {:induction false} NeverEarlyMessage(ls: seq<string>, body: string)
    requires ls != [] && AllLines(ls)
    requires body != "" ==> !MessageComplete(Message(ls, body[..|body| - 1]))
    ensures NeverEarly(Message(ls, body))
  {
    hide MessageComplete, Join;
    var raw := Message(ls, body);
    if body != "" {
      assert raw[..|raw| - 1] == Message(ls, body[..|body| - 1]);
    } else {
      HeadIncomplete(ls, |raw| - 1);
      assert raw[..|raw| - 1] == (Join(ls) + BLANK)[..|raw| - 1];
    }
    LastPrefixDecides(raw);
  }

  // ---- Content-Length ----

  predicate IsField(line: string, name: string) {
    At(ToLower(line), name, 0)
  }

  lemma {:induction false} FieldAtLineStart(line: string, rest: string, name: string)
    requires rest == "" || rest[0] == '\r'
    requires Inline(name) && At(ToLower(line + rest), name, 0)
    ensures IsField(line, name)
  {
    LowerConcat(line, rest);
    if |name| > |line| {
      AtChar(ToLower(line + rest), name, 0, |line|);
    } else {
      AtLeft(ToLower(line), ToLower(rest), name, 0);
    }
  }

  /** The field marker is CRLF followed by the field name. */
  lemma {:induction false} MarkerParts(s: string, name: string, i: nat)
    requires At(s, CRLF + name, i)
    ensures s[i] == '\r' && s[i + 1] == '\n' && At(s, name, i + 2)
  {
    AtChar(s, CRLF + name, i, 0);
    AtChar(s, CRLF + name, i, 1);
    assert (CRLF + name)[2..] == name;
    assert s[i + 2..i + 2 + |name|] == s[i..i + |CRLF + name|][2..];
  }

  lemma {:induction false} NoFieldAtBreak(line: string, next: string, rest: string, name: string)
    requires !IsField(next, name) && Inline(name)
    requires rest == "" || rest[0] == '\r'
    ensures !At(ToLower(line + CRLF + (next + rest)), CRLF + name, |line|)
  {
    hide At, IsField, ToLower;
    var front := line + CRLF;
    LowerConcat(front, next + rest);
    if At(ToLower(front + (next + rest)), CRLF + name, |line|) {
      MarkerParts(ToLower(front + (next + rest)), name, |line|);
      AtRight(ToLower(front), ToLower(next + rest), name, 0);
      FieldAtLineStart(next, rest, name);
    }
  }

  lemma {:induction false} NoFieldBefore(ls: seq<string>, rest: string, name: string, i: nat)
    requires ls != [] && AllLines(ls) && i < |Join(ls)| && Inline(name)
    requires forall j :: 1 <= j < |ls| ==> !IsField(ls[j], name)
    requires rest == "" || rest[0] == '\r'
    ensures !At(ToLower(Join(ls) + rest), CRLF + name, i)
  {
    hide At, IsField, ToLower;
    var s := Join(ls) + rest;
    if At(ToLower(s), CRLF + name, i) {
      MarkerParts(ToLower(s), name, i);
      if |ls| > 1 {
        var front := ls[0] + CRLF;
        var tail := Join(ls[1..]) + rest;
        assert s == front + tail;
        if i >= |front| {
          LowerConcat(front, tail);
          AtRight(ToLower(front), ToLower(tail), CRLF + name, i - |front|);
          NoFieldBefore(ls[1..], rest, name, i - |front|);
        } else {
          assert i == |ls[0]|;
          var after := if |ls| == 2 then rest else CRLF + Join(ls[1..][1..]) + rest;
          assert tail == ls[1] + after;
          NoFieldAtBreak(ls[0], ls[1], after, name);
        }
      }
    }
  }

  lemma {:induction false} LowerAround(front: string, line: string, after: string)
    ensures ToLower(front + (CRLF + line + after)) ==
            ToLower(front) + (CRLF + ToLower(line) + ToLower(after))
  {
    LowerConcat(front, CRLF + line + after);
    LowerConcat(CRLF + line, after);
    LowerConcat(CRLF, line);
    assert ToLower(CRLF) == CRLF;
  }

  lemma {:induction false} MarkerAt(front: string, name: string, value: string)
    ensures At(front + (CRLF + name + value), CRLF + name, |front|)
    ensures (front + (CRLF + name + value))[|front| + |CRLF + name|..] == value
  {
    AtRight(front, CRLF + name + value, CRLF + name, 0);
    assert (CRLF + name + value)[0..|CRLF + name|] == CRLF + name;
  }

  /** The first line with the field name is the one the marker search stops at, and the value read
      is everything after the name. */
  lemma {:induction false} FieldFound(pre: seq<string>, line: string, after: string, name: string, value: string)
    requires pre != [] && AllLines(pre) && Inline(name)
    requires forall j :: 1 <= j < |pre| ==> !IsField(pre[j], name)
    requires ToLower(line) == name + value
    ensures var low := ToLower(Join(pre) + (CRLF + line + after));
            Find(low, CRLF + name, 0) == Some(|Join(pre)|) &&
            low[|Join(pre)| + |CRLF + name|..] == value + ToLower(after)
  {
    hide ToLower, Join, IsField, IsLine, At;
    var front, rest := Join(pre), CRLF + line + after;
    var low := ToLower(front + rest);
    LowerAround(front, line, after);
    assert CRLF + (name + value) + ToLower(after) == CRLF + name + (value + ToLower(after));
    MarkerAt(ToLower(front), name, value + ToLower(after));
    forall i | 0 <= i < |front|
      ensures !At(low, CRLF + name, i)
    {
      NoFieldBefore(pre, rest, name, i);
    }
  }

  lemma {:induction false} JoinConcat(a: seq<string>, b: seq<string>)
    requires a != [] && b != []
    ensures Join(a + b) == Join(a) + CRLF + Join(b)
  {
    assert (a + b)[1..] == a[1..] + b;
    if |a| > 1 {
      JoinConcat(a[1..], b);
    }
  }

  /** A header line with a number: the name in any case, optional white space, a decimal numeral. */
  datatype NumberField = NumberField(name: string, ws: string, digits: string, ows: string) {
    ghost predicate Valid(header: string, n: nat) {
      && ToLower(name) == header
      && AllSpace(ws) && AllSpace(ows) && Inline(ws) && Inline(ows)
      && IsToken(digits, 10) && ValueOf(digits, 10) == n
      && n < LONG_LIMIT
    }

    function Value(): string {
      ws + digits + ows
    }

    function Line(): string {
      name + Value()
    }
  }

  lemma {:induction false} LowerInline(s: string)
    requires Inline(ToLower(s))
    ensures Inline(s)
  {
    forall i | 0 <= i < |s|
      ensures s[i] != '\r' && s[i] != '\n'
    {
      assert ToLower(s)[i] == LowerChar(s[i]);
    }
  }

  lemma {:induction false} LowerToken(ds: string)
    requires IsToken(ds, 10)
    ensures ToLower(ds) == ds && Inline(ds)
  {
    forall i | 0 <= i < |ds|
      ensures LowerChar(ds[i]) == ds[i] && ds[i] != '\r' && ds[i] != '\n'
    {
      assert IsDigit(ds[i], 10);
    }
  }

  lemma {:induction false} FieldLine(f: NumberField, header: string, n: nat)
    requires f.Valid(header, n) && Inline(header)
    ensures IsLine(f.Line())
    ensures ToLower(f.Line()) == header + f.Value()
  {
    LowerInline(f.name);
    LowerToken(f.digits);
    assert ToLower(f.Value()) == f.Value();
    LowerConcat(f.name, f.Value());
  }

  /** Header lines `ls` in which line k is the first Content-Length field after the start line. */
  ghost predicate LengthFramed(ls: seq<string>, k: nat, f: NumberField, n: nat) {
    && AllLines(ls) && 1 <= k < |ls|
    && ls[k] == f.Line() && f.Valid(CONTENT_LENGTH, n)
    && (forall j :: 1 <= j < k ==> !IsField(ls[j], CONTENT_LENGTH))
    && |Join(ls)| + 4 < LONG_LIMIT
  }

  lemma {:induction false} ReadsNumber(ws: string, digits: string, ows: string, after: string)
    requires AllSpace(ws) && AllSpace(ows) && IsToken(digits, 10) && ValueOf(digits, 10) < LONG_LIMIT
    requires after == "" || after[0] == '\r'
    ensures Stol(ws + digits + ows + after) == Some(ValueOf(digits, 10))
  {
    hide ValueOf, IsToken, Scan;
    assert ws + digits + ows + after == ws + digits + (ows + after);
    ScanToken(ws, digits, ows + after, 10);
  }

  lemma {:induction false} JoinThree(a: string, b: string, c: string)
    ensures a + CRLF + (b + CRLF + c) == a + (CRLF + b + (CRLF + c))
  {
  }

  lemma {:induction false} JoinAround(a: seq<string>, x: string, b: seq<string>)
    requires a != []
    ensures Join(a + ([x] + b)) == Join(a) + (CRLF + x + if b == [] then "" else CRLF + Join(b))
  {
    JoinConcat(a, [x] + b);
    if b != [] {
      JoinConcat([x], b);
      JoinThree(Join(a), x, Join(b));
    } else {
      assert [x] + b == [x];
    }
  }

  /** The marker search finds exactly that field, and stol reads exactly its value. */
  lemma {:induction false} FindsLength(ls: seq<string>, k: nat, f: NumberField, n: nat)
    requires LengthFramed(ls, k, f, n)
    ensures HeaderLength(LowerHead(ls)) == Some(n)
  {
    hide Join, ToLower, Find, Stol, ValueOf, IsToken, AllSpace;
    var pre, post := ls[..k], ls[k + 1..];
    assert ls == pre + ([f.Line()] + post);
    JoinAround(pre, f.Line(), post);
    var after := if post == [] then "" else CRLF + Join(post);
    FieldLine(f, CONTENT_LENGTH, n);
    FieldFound(pre, f.Line(), after, CONTENT_LENGTH, f.Value());
    ReadsNumber(f.ws, f.digits, f.ows, ToLower(after));
  }

  /** Whatever stands in the first Content-Length line, it is what stol is given. */
  lemma {:induction false} FindsValue(ls: seq<string>, k: nat, name: string, value: string) returns (after: string)
    requires AllLines(ls) && 1 <= k < |ls| && ls[k] == name + value && ToLower(name) == CONTENT_LENGTH
    requires forall j :: 1 <= j < k ==> !IsField(ls[j], CONTENT_LENGTH)
    ensures after == "" || after[0] == '\r'
    ensures HeaderLength(LowerHead(ls)) == Stol(ToLower(value) + after)
  {
    hide Join, ToLower, Find, Stol, IsField, IsLine;
    var pre, post := ls[..k], ls[k + 1..];
    assert ls == pre + ([ls[k]] + post);
    JoinAround(pre, ls[k], post);
    var tail := if post == [] then "" else CRLF + Join(post);
    LowerConcat(name, value);
    FieldFound(pre, ls[k], tail, CONTENT_LENGTH, ToLower(value));
    LowerBreak(tail);
    after := ToLower(tail);
  }

  lemma {:induction false} LowerBreak(s: string)
    ensures |ToLower(s)| == |s| && (s != "" && s[0] == '\r' ==> ToLower(s)[0] == '\r')
  {
  }

  /** A negative length wraps: the message counts as complete with its head when the length does not reach
      behind the start of it, and never otherwise. */
  lemma {:induction false} NegativeLength(ls: seq<string>, k: nat, name: string, ws: string, digits: string, ows: string, rest: string)
    requires AllLines(ls) && 1 <= k < |ls| && ls[k] == name + (ws + ("-" + (digits + ows))) && ToLower(name) == CONTENT_LENGTH
    requires forall j :: 1 <= j < k ==> !IsField(ls[j], CONTENT_LENGTH)
    requires AllSpace(ws) && AllSpace(ows) && IsToken(digits, 10) && 0 < ValueOf(digits, 10) <= LONG_LIMIT
    requires !LooksChunked(LowerHead(ls)) && |Message(ls, rest)| < LONG_LIMIT
    ensures MessageComplete(Message(ls, rest)) <==> ValueOf(digits, 10) <= |Join(ls)| + 4
  {
    hide MessageComplete, Join, ToLower, LooksChunked, IsField, ValueOf, IsToken, AllSpace, Signed, HeaderLength;
    var value := ws + ("-" + (digits + ows));
    var after := FindsValue(ls, k, name, value);
    SpacesStay(ws);
    SpacesStay(ows);
    LowerToken(digits);
    LowerNegative(ws, digits, ows);
    assert value + after == ws + ("-" + (digits + (ows + after)));
    SpaceEnds(digits, ows, after);
    ReadsSigned(ws, "-", digits, ows + after, LONG_LIMIT);
    AfterHead(ls, rest);
    WrapsBelow(|Join(ls)| + 4, ValueOf(digits, 10));
  }

  lemma {:induction false} WrapsBelow(start: int, n: int)
    requires 0 < n <= LONG_LIMIT && 0 <= start < LONG_LIMIT
    ensures (start + SizeT(-n)) % ULONG_LIMIT == if n <= start then start - n else start + ULONG_LIMIT - n
  {
    if n <= start {
      assert (start - n + ULONG_LIMIT) % ULONG_LIMIT == start - n;
    } else {
      assert (start + ULONG_LIMIT - n) % ULONG_LIMIT == start + ULONG_LIMIT - n;
    }
  }

  lemma {:induction false} SpacesStay(ws: string)
    requires AllSpace(ws)
    ensures ToLower(ws) == ws
  {
  }

  lemma {:induction false} LowerNegative(ws: string, digits: string, ows: string)
    requires ToLower(ws) == ws && ToLower(digits) == digits && ToLower(ows) == ows
    ensures ToLower(ws + ("-" + (digits + ows))) == ws + ("-" + (digits + ows))
  {
    LowerConcat(ws, "-" + (digits + ows));
    LowerConcat("-", digits + ows);
    LowerConcat(digits, ows);
  }

  lemma {:induction false} SpaceEnds(digits: string, ows: string, after: string)
    requires AllSpace(ows) && (after == "" || after[0] == '\r')
    ensures Ends(digits, ows + after, 10)
  {
  }

  /** A length that is no number, or out of range, makes the message one that never completes. */
  lemma {:induction false} UnreadableLength(ls: seq<string>, k: nat, name: string, value: string, rest: string)
    requires AllLines(ls) && 1 <= k < |ls| && ls[k] == name + value && ToLower(name) == CONTENT_LENGTH
    requires forall j :: 1 <= j < k ==> !IsField(ls[j], CONTENT_LENGTH)
    requires !LooksChunked(LowerHead(ls))
    requires value != "" && NoNumber(ToLower(value), 10)
    ensures !MessageComplete(Message(ls, rest))
  {
    hide MessageComplete, Join, ToLower, LooksChunked, IsField, HeaderLength, Scan;
    var after := FindsValue(ls, k, name, value);
    ScansNothing("", ToLower(value) + after, 10);
    assert "" + (ToLower(value) + after) == ToLower(value) + after;
    AfterHead(ls, rest);
  }

  /** With a Content-Length of n and no sign of chunking, a message is complete from the moment
      n body bytes are there, whatever bytes they are. */
  lemma {:induction false} LengthDecides(ls: seq<string>, k: nat, f: NumberField, n: nat, rest: string)
    requires LengthFramed(ls, k, f, n) && !LooksChunked(LowerHead(ls))
    ensures MessageComplete(Message(ls, rest)) <==> |rest| >= n
  {
    hide MessageComplete, Join, ToLower, HeaderLength, LooksChunked, Contains;
    FindsLength(ls, k, f, n);
    AfterHead(ls, rest);
  }

  /** The first terminator of the framed body is its last seven bytes. */
  predicate FirstTerminatorAtEnd(body: string) {
    |body| >= 5 && Find(CRLF + body, TERMINATOR, 0) == Some(|body| - 5)
  }

  /** What the detector does with a length-framed message, exactly: it is right about the end unless
      the head reads as chunked, and then only the position of the first terminator counts. */
  lemma {:induction false} ContentLengthFraming(ls: seq<string>, k: nat, f: NumberField, body: string)
    requires LengthFramed(ls, k, f, |body|)
    ensures SelfDelimiting(Message(ls, body)) <==> (LooksChunked(LowerHead(ls)) ==> FirstTerminatorAtEnd(body))
  {
    if LooksChunked(LowerHead(ls)) {
      TerminatorFraming(ls, body);
    } else {
      LengthDecides(ls, k, f, |body|, body);
      if body != "" {
        LengthDecides(ls, k, f, |body|, body[..|body| - 1]);
      }
      NeverEarlyMessage(ls, body);
    }
  }

  lemma {:induction false} ShortBody(s: string)
    requires |s| > 0
    ensures Find(s, TERMINATOR, 0).Some? && Find(s[..|s| - 1], TERMINATOR, 0).None? <==>
            |s| >= 7 && Find(s, TERMINATOR, 0) == Some(|s| - 7)
  {
    var short, last := s[..|s| - 1], s[|s| - 1..];
    assert s == short + last;
    if Find(short, TERMINATOR, 0).Some? {
      FindExtend(short, last, TERMINATOR, 0);
    } else if Find(s, TERMINATOR, 0).Some? {
      var i := Find(s, TERMINATOR, 0).value;
      if i + 7 <= |short| {
        AtLeft(short, last, TERMINATOR, i);
      }
    }
  }

  lemma {:induction false} TerminatorDecides(ls: seq<string>, rest: string)
    requires ls != [] && AllLines(ls) && LooksChunked(LowerHead(ls))
    ensures MessageComplete(Message(ls, rest)) <==> Find(CRLF + rest, TERMINATOR, 0).Some?
  {
    hide MessageComplete, LooksChunked, Find, Message, LowerHead;
    AfterHead(ls, rest);
  }

  /** A head that reads as chunked: the message ends at the first CRLF 0 CRLF CRLF. */
  lemma {:induction false} TerminatorFraming(ls: seq<string>, body: string)
    requires ls != [] && AllLines(ls) && LooksChunked(LowerHead(ls))
    ensures SelfDelimiting(Message(ls, body)) <==> FirstTerminatorAtEnd(body)
  {
    hide MessageComplete, LooksChunked, Find, Join, LowerHead, NeverEarly;
    var raw := Message(ls, body);
    TerminatorDecides(ls, body);
    if body == "" {
      TooShort(CRLF + body);
    } else {
      var short := body[..|body| - 1];
      TerminatorDecides(ls, short);
      assert raw[..|raw| - 1] == Message(ls, short);
      assert (CRLF + body)[..|CRLF + body| - 1] == CRLF + short;
      ShortBody(CRLF + body);
      LastPrefixDecides(raw);
    }
  }

  lemma {:induction false} TooShort(s: string)
    requires |s| < |TERMINATOR|
    ensures Find(s, TERMINATOR, 0).None?
  {
  }
}
