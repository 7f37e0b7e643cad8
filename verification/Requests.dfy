/** buildRequest, and why a server can tell where each request ends. */
module Requests {
  import opened Text
  import opened Numerals
  import opened Framing
  import opened HeaderLines
  import opened Endpoints

  const INFERENCE_HEADER: string := "Inference-Header-Content-Length"

  function BuildRequest(verb: string, ep: Endpoint, path: string, token: string, contentType: string,
                        extraHeaders: string, body: string): string {
    verb + " " + path + " HTTP/1.1\r\n" +
    "Host: " + ep.host + "\r\n" +
    "Connection: keep-alive\r\n" +
    (if contentType != "" then "Content-Type: " + contentType + "\r\n" else "") +
    (if token != "" then "Authorization: Bearer " + token + "\r\n" else "") +
    extraHeaders +
    "Content-Length: " + Decimal(|body|) + "\r\n\r\n" + body
  }

  /** Each line followed by CRLF. */
  function HeaderText(ls: seq<string>): string {
    if ls == [] then "" else ls[0] + CRLF + HeaderText(ls[1..])
  }

  function LengthLineOf(n: nat): string {
    "Content-Length: " + Decimal(n)
  }

  /** The lines before the Content-Length line. */
  function LeadLines(verb: string, ep: Endpoint, path: string, token: string, contentType: string,
                     extra: seq<string>): seq<string> {
    [verb + " " + path + " HTTP/1.1", "Host: " + ep.host, "Connection: keep-alive"] +
    (if contentType != "" then ["Content-Type: " + contentType] else []) +
    (if token != "" then ["Authorization: Bearer " + token] else []) +
    extra
  }

  /** The lines one by one: start line, Host, Connection, the content type and the token where there is one,
      and the further lines last. */
  lemma {:induction false} LeadLinesAre(verb: string, ep: Endpoint, path: string, token: string, contentType: string,
                                        extra: seq<string>)
    ensures var lines := LeadLines(verb, ep, path, token, contentType, extra);
            var n := 3 + (if contentType == "" then 0 else 1) + (if token == "" then 0 else 1);
            && |lines| == n + |extra| && lines[n..] == extra
            && lines[0] == verb + " " + path + " HTTP/1.1"
            && lines[1] == "Host: " + ep.host && lines[2] == "Connection: keep-alive"
            && (contentType != "" ==> lines[3] == "Content-Type: " + contentType)
            && (token != "" ==> lines[n - 1] == "Authorization: Bearer " + token)
  {
  }

  lemma {:induction false} HeaderTextConcat(a: seq<string>, b: seq<string>)
    ensures HeaderText(a + b) == HeaderText(a) + HeaderText(b)
  {
    if a == [] {
      assert a + b == b;
    } else {
      assert (a + b)[1..] == a[1..] + b;
      HeaderTextConcat(a[1..], b);
    }
  }

  lemma {:induction false} JoinLast(ls: seq<string>, last: string)
    ensures Join(ls + [last]) == HeaderText(ls) + last
  {
    if ls == [] {
      assert ls + [last] == [last];
    } else {
      assert (ls + [last])[1..] == ls[1..] + [last];
      JoinLast(ls[1..], last);
    }
  }

  lemma {:induction false} HeaderTextOne(x: string)
    ensures HeaderText([x]) == x + CRLF
  {
    assert HeaderText([x][1..]) == "";
  }

  lemma {:induction false} HeaderTextThree(a: string, b: string, c: string)
    ensures HeaderText([a, b, c]) == a + CRLF + (b + CRLF + (c + CRLF))
  {
    assert [a, b, c] == [a] + ([b] + [c]);
    HeaderTextConcat([a], [b] + [c]);
    HeaderTextConcat([b], [c]);
    HeaderTextOne(a);
    HeaderTextOne(b);
    HeaderTextOne(c);
  }

  /** The request text is the message with those lines. */
  lemma {:induction false} RequestIsMessage(verb: string, ep: Endpoint, path: string, token: string,
                                            contentType: string, extra: seq<string>, body: string)
    ensures BuildRequest(verb, ep, path, token, contentType, HeaderText(extra), body) ==
            Message(LeadLines(verb, ep, path, token, contentType, extra) + [LengthLineOf(|body|)], body)
  {
    hide HeaderText, Decimal, Join;
    var start, host := verb + " " + path + " HTTP/1.1", "Host: " + ep.host;
    var typed := if contentType != "" then ["Content-Type: " + contentType] else [];
    var auth := if token != "" then ["Authorization: Bearer " + token] else [];
    var lead := LeadLines(verb, ep, path, token, contentType, extra);
    assert lead == [start, host, "Connection: keep-alive"] + typed + auth + extra;
    HeaderTextConcat([start, host, "Connection: keep-alive"] + typed + auth, extra);
    HeaderTextConcat([start, host, "Connection: keep-alive"] + typed, auth);
    HeaderTextConcat([start, host, "Connection: keep-alive"], typed);
    HeaderTextThree(start, host, "Connection: keep-alive");
    OptionalLine("Content-Type: ", contentType);
    OptionalLine("Authorization: Bearer ", token);
    JoinLast(lead, LengthLineOf(|body|));
    RequestParts(verb + " " + path, ep.host, HeaderText(typed), HeaderText(auth), HeaderText(extra), Decimal(|body|), body);
  }

  lemma {:induction false} OptionalLine(name: string, value: string)
    ensures HeaderText(if value != "" then [name + value] else []) == if value != "" then name + value + CRLF else ""
  {
    HeaderTextOne(name + value);
  }

  lemma {:induction false} RequestParts(start: string, host: string, typed: string, auth: string, extra: string,
                                        length: string, body: string)
    ensures start + " HTTP/1.1\r\n" + "Host: " + host + "\r\n" + "Connection: keep-alive\r\n" + typed + auth + extra +
            "Content-Length: " + length + "\r\n\r\n" + body ==
            (start + " HTTP/1.1") + CRLF + (("Host: " + host) + CRLF + ("Connection: keep-alive" + CRLF)) +
            typed + auth + extra + ("Content-Length: " + length) + BLANK + body
  {
    assert " HTTP/1.1\r\n" == " HTTP/1.1" + CRLF;
    assert "Connection: keep-alive\r\n" == "Connection: keep-alive" + CRLF;
  }

  lemma {:induction false} NotLength(line: string, k: nat)
    requires k < |line| && k < |CONTENT_LENGTH| && LowerChar(line[k]) != CONTENT_LENGTH[k]
    ensures !IsField(line, CONTENT_LENGTH)
  {
    hide At;
    NotAt(ToLower(line), CONTENT_LENGTH, 0, k);
  }

  /** None of the fixed header lines is taken for a Content-Length field. */
  lemma {:induction false} OtherFields(ep: Endpoint, token: string, contentType: string, n: nat)
    ensures !IsField("Host: " + ep.host, CONTENT_LENGTH)
    ensures !IsField("Connection: keep-alive", CONTENT_LENGTH)
    ensures !IsField("Content-Type: " + contentType, CONTENT_LENGTH)
    ensures !IsField("Authorization: Bearer " + token, CONTENT_LENGTH)
    ensures !IsField(INFERENCE_HEADER + ": " + Decimal(n), CONTENT_LENGTH)
  {
    hide IsField, Decimal;
    NotLength("Host: " + ep.host, 0);
    NotLength("Connection: keep-alive", 3);
    NotLength("Content-Type: " + contentType, 8);
    NotLength("Authorization: Bearer " + token, 0);
    NotLength(INFERENCE_HEADER + ": " + Decimal(n), 0);
  }

  /** Inputs of buildRequest that cannot break a header line apart or add a second length. */
  ghost predicate Sendable(verb: string, ep: Endpoint, path: string, token: string, contentType: string, extra: seq<string>) {
    && Inline(verb) && Inline(path) && Inline(ep.host) && Inline(token) && Inline(contentType)
    && AllLines(extra)
    && forall j :: 0 <= j < |extra| ==> !IsField(extra[j], CONTENT_LENGTH)
  }

  /** Header lines without a Content-Length among them. */
  ghost predicate Others(ls: seq<string>) {
    AllLines(ls) && forall j :: 0 <= j < |ls| ==> !IsField(ls[j], CONTENT_LENGTH)
  }

  lemma {:induction false} OthersConcat(a: seq<string>, b: seq<string>)
    requires Others(a) && Others(b)
    ensures Others(a + b)
  {
    hide IsField, IsLine;
  }

  lemma {:induction false} OneOther(name: string, value: string)
    requires name != "" && Inline(name) && Inline(value) && !IsField(name + value, CONTENT_LENGTH)
    ensures Others([name + value]) && Others([])
  {
    hide IsField;
  }

  lemma {:induction false} LeadLinesShape(verb: string, ep: Endpoint, path: string, token: string,
                                          contentType: string, extra: seq<string>)
    requires Sendable(verb, ep, path, token, contentType, extra)
    ensures AllLines(LeadLines(verb, ep, path, token, contentType, extra)) && LeadLines(verb, ep, path, token, contentType, extra) != []
    ensures forall j :: 1 <= j < |LeadLines(verb, ep, path, token, contentType, extra)| ==>
              !IsField(LeadLines(verb, ep, path, token, contentType, extra)[j], CONTENT_LENGTH)
  {
    hide IsField;
    OtherFields(ep, token, contentType, 0);
    OneOther("Host: ", ep.host);
    assert "Connection: " + "keep-alive" == "Connection: keep-alive";
    OneOther("Connection: ", "keep-alive");
    OneOther("Content-Type: ", contentType);
    OneOther("Authorization: Bearer ", token);
    var start := verb + " " + path + " HTTP/1.1";
    var fixed := ["Host: " + ep.host] + ["Connection: keep-alive"];
    var typed := if contentType != "" then ["Content-Type: " + contentType] else [];
    var auth := if token != "" then ["Authorization: Bearer " + token] else [];
    assert IsLine(start);
    hide IsLine, Others;
    OthersConcat(["Host: " + ep.host], ["Connection: keep-alive"]);
    OthersConcat(fixed, typed);
    OthersConcat(fixed + typed, auth);
    ExtraOthers(extra);
    OthersConcat(fixed + typed + auth, extra);
    assert LeadLines(verb, ep, path, token, contentType, extra) == [start] + (fixed + typed + auth + extra) by {
      assert [start, "Host: " + ep.host, "Connection: keep-alive"] == [start] + fixed;
    }
    StartThenOthers(start, fixed + typed + auth + extra);
  }

  lemma {:induction false} ExtraOthers(extra: seq<string>)
    requires AllLines(extra) && forall j :: 0 <= j < |extra| ==> !IsField(extra[j], CONTENT_LENGTH)
    ensures Others(extra)
  {
    hide IsField, IsLine;
  }

  lemma {:induction false} StartThenOthers(start: string, others: seq<string>)
    requires IsLine(start) && Others(others)
    ensures AllLines([start] + others)
    ensures forall j :: 1 <= j < |[start] + others| ==> !IsField(([start] + others)[j], CONTENT_LENGTH)
  {
    hide IsField, IsLine;
  }

  function DecimalField(n: nat): NumberField {
    NumberField("Content-Length:", " ", Decimal(n), "")
  }

  lemma {:induction false} DecimalFieldValid(n: nat)
    requires n < LONG_LIMIT
    ensures DecimalField(n).Valid(CONTENT_LENGTH, n) && DecimalField(n).Line() == LengthLineOf(n)
  {
    assert ToLower("Content-Length:") == CONTENT_LENGTH;
    assert " " + Decimal(n) + "" == " " + Decimal(n);
    assert "Content-Length:" + (" " + Decimal(n)) == "Content-Length: " + Decimal(n);
  }

  /** A request is complete exactly at its last byte, for the client's own detector, unless its
      header lines read as chunked and the body does not happen to end with the first terminator. */
  lemma {:induction false} RequestFraming(verb: string, ep: Endpoint, path: string, token: string,
                                          contentType: string, extra: seq<string>, body: string)
    requires Sendable(verb, ep, path, token, contentType, extra)
    requires |BuildRequest(verb, ep, path, token, contentType, HeaderText(extra), body)| < LONG_LIMIT
    ensures var lines := LeadLines(verb, ep, path, token, contentType, extra) + [LengthLineOf(|body|)];
            SelfDelimiting(BuildRequest(verb, ep, path, token, contentType, HeaderText(extra), body)) <==>
            (SomeLineHas(lines, TRANSFER_ENCODING) && SomeLineHas(lines, CHUNKED) ==> FirstTerminatorAtEnd(body))
  {
    hide BuildRequest, LeadLines, LengthLineOf, SelfDelimiting, SomeLineHas, FirstTerminatorAtEnd, IsField, HeaderText, Join, LooksChunked, LowerHead;
    var lead := LeadLines(verb, ep, path, token, contentType, extra);
    var lines := lead + [LengthLineOf(|body|)];
    RequestIsMessage(verb, ep, path, token, contentType, extra, body);
    LeadLinesShape(verb, ep, path, token, contentType, extra);
    LeadFramed(lead, body);
    LooksChunkedByLine(lines);
    ContentLengthFraming(lines, |lead|, DecimalField(|body|), body);
  }

  lemma {:induction false} LeadFramed(lead: seq<string>, body: string)
    requires AllLines(lead) && lead != []
    requires forall j :: 1 <= j < |lead| ==> !IsField(lead[j], CONTENT_LENGTH)
    requires |Message(lead + [LengthLineOf(|body|)], body)| < LONG_LIMIT
    ensures LengthFramed(lead + [LengthLineOf(|body|)], |lead|, DecimalField(|body|), |body|)
  {
    hide IsField, Join, DecimalField, LengthLineOf;
    DecimalFieldValid(|body|);
    FieldLine(DecimalField(|body|), CONTENT_LENGTH, |body|);
  }

  /** In JSON mode, for every body, under the same conditions. */
  lemma {:induction false} JsonRequestFraming(ep: Endpoint, path: string, token: string, body: string)
    requires Inline(path) && Inline(ep.host) && Inline(token)
    requires !LineHas("POST " + path + " HTTP/1.1", TRANSFER_ENCODING)
    requires !LineHas("Host: " + ep.host, TRANSFER_ENCODING)
    requires !LineHas("Authorization: Bearer " + token, TRANSFER_ENCODING)
    requires |BuildRequest("POST", ep, path, token, "application/json", "", body)| < LONG_LIMIT
    ensures SelfDelimiting(BuildRequest("POST", ep, path, token, "application/json", "", body))
  {
    hide BuildRequest, SelfDelimiting, FirstTerminatorAtEnd, IsField, LineHas;
    RequestFraming("POST", ep, path, token, "application/json", [], body);
    FixedLinesNotChunked(0, |body|);
    JsonTypeLine();
    assert "POST" + " " + path + " HTTP/1.1" == "POST " + path + " HTTP/1.1";
  }

  lemma {:induction false} JsonTypeLine()
    ensures !LineHas("Content-Type: " + "application/json", TRANSFER_ENCODING)
  {
    hide LineHas;
    NoPattern("Content-Type: " + "application/json", 1);
  }

  /** Binary mode adds one header line, which is never mistaken for the Content-Length. */
  lemma {:induction false} BinaryRequestFraming(ep: Endpoint, path: string, token: string, headerLength: nat, body: string)
    requires Inline(path) && Inline(ep.host) && Inline(token)
    requires !LineHas("POST " + path + " HTTP/1.1", TRANSFER_ENCODING)
    requires !LineHas("Host: " + ep.host, TRANSFER_ENCODING)
    requires !LineHas("Authorization: Bearer " + token, TRANSFER_ENCODING)
    requires |BuildRequest("POST", ep, path, token, "application/octet-stream",
                           INFERENCE_HEADER + ": " + Decimal(headerLength) + CRLF, body)| < LONG_LIMIT
    ensures SelfDelimiting(BuildRequest("POST", ep, path, token, "application/octet-stream",
                                        INFERENCE_HEADER + ": " + Decimal(headerLength) + CRLF, body))
  {
    hide BuildRequest, SelfDelimiting, FirstTerminatorAtEnd, IsField, LineHas;
    var line := INFERENCE_HEADER + ": " + Decimal(headerLength);
    var extra := [line];
    HeaderTextOne(line);
    OtherFields(ep, token, "", headerLength);
    DigitsAreInline(Decimal(headerLength));
    RequestFraming("POST", ep, path, token, "application/octet-stream", extra, body);
    FixedLinesNotChunked(headerLength, |body|);
    assert "POST" + " " + path + " HTTP/1.1" == "POST " + path + " HTTP/1.1";
  }

  lemma {:induction false} DigitsAreInline(ds: string)
    requires IsToken(ds, 10)
    ensures Inline(ds)
  {
    LowerToken(ds);
  }

  lemma {:induction false} FixedLinesNotChunked(headerLength: nat, n: nat)
    ensures !LineHas("Connection: keep-alive", TRANSFER_ENCODING)
    ensures !LineHas("Content-Type: " + "application/octet-stream", TRANSFER_ENCODING)
    ensures !LineHas(INFERENCE_HEADER + ": " + Decimal(headerLength), TRANSFER_ENCODING)
    ensures !LineHas(LengthLineOf(n), TRANSFER_ENCODING)
  {
    hide Decimal, LineHas;
    ConnectionLine();
    TypeLine();
    InferenceLine(headerLength);
    NumberLine("Content-Length: ", n);
  }

  lemma {:induction false} ConnectionLine()
    ensures !LineHas("Connection: keep-alive", TRANSFER_ENCODING)
  {
    hide LineHas;
    NoPattern("Connection: keep-alive", 4);
  }

  lemma {:induction false} TypeLine()
    ensures !LineHas("Content-Type: " + "application/octet-stream", TRANSFER_ENCODING)
  {
    hide LineHas;
    NoPattern("Content-Type: " + "application/octet-stream", 13);
  }

  lemma {:induction false} InferenceLine(n: nat)
    ensures !LineHas(INFERENCE_HEADER + ": " + Decimal(n), TRANSFER_ENCODING)
  {
    hide LineHas;
    NumberLine(INFERENCE_HEADER + ": ", n);
  }

  lemma {:induction false} NoPattern(line: string, k: nat)
    requires k < |TRANSFER_ENCODING|
    requires forall i :: 0 <= i < |line| ==> LowerChar(line[i]) != TRANSFER_ENCODING[k]
    ensures !LineHas(line, TRANSFER_ENCODING)
  {
    hide At;
    if LineHas(line, TRANSFER_ENCODING) {
      AtChar(ToLower(line), TRANSFER_ENCODING, Find(ToLower(line), TRANSFER_ENCODING, 0).value, k);
    }
  }

  lemma {:induction false} NumberLine(name: string, n: nat)
    requires forall i :: 0 <= i < |name| ==> LowerChar(name[i]) != 's'
    ensures !LineHas(name + Decimal(n), TRANSFER_ENCODING)
  {
    hide LineHas;
    var ds := Decimal(n);
    forall i | 0 <= i < |ds|
      ensures LowerChar(ds[i]) != 's'
    {
      assert IsDigit(ds[i], 10);
    }
    NoPattern(name + ds, 4);
  }
}
