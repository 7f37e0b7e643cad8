/** The unanchored substring tests on a header block, read line by line. */
module HeaderLines {
  import opened Wrappers
  import opened Text
  import opened Numerals
  import opened Framing

  predicate LineHas(line: string, p: string) {
    Contains(ToLower(line), p)
  }

  predicate SomeLineHas(ls: seq<string>, p: string) {
    exists j :: 0 <= j < |ls| && LineHas(ls[j], p)
  }

  /** An inline pattern does not reach over a line break. */
  lemma {:induction false} StaysInLine(line: string, rest: string, p: string, i: nat)
    requires p != "" && Inline(p) && i < |line| + 2
    requires At(line + (CRLF + rest), p, i)
    ensures At(line, p, i)
  {
    var s := line + (CRLF + rest);
    assert s[|line|] == '\r' && s[|line| + 1] == '\n';
    if i + |p| > |line| {
      var at := if i <= |line| then |line| else i;
      AtChar(s, p, i, at - i);
    } else {
      AtLeft(line, CRLF + rest, p, i);
    }
  }

  lemma {:induction false} FoundAt(s: string, p: string, i: nat)
    requires At(s, p, i)
    ensures Contains(s, p)
  {
  }

  lemma {:induction false} LowerLines(line: string, rest: string)
    ensures ToLower(line + CRLF + rest) == ToLower(line) + (CRLF + ToLower(rest))
  {
    LowerConcat(line + CRLF, rest);
    LowerConcat(line, CRLF);
    assert ToLower(CRLF) == CRLF;
  }

  /** An occurrence in the block lies in a line; it is in one of `ls` when it starts there. */
  lemma {:induction false} OccursInLine(ls: seq<string>, rest: string, p: string, i: nat)
    requires ls != [] && p != "" && Inline(p)
    requires At(ToLower(Join(ls) + CRLF + rest), p, i) && i < |Join(ls)| + 2
    ensures SomeLineHas(ls, p)
  {
    hide At, ToLower, Contains;
    if |ls| == 1 {
      LowerLines(ls[0], rest);
      StaysInLine(ToLower(ls[0]), ToLower(rest), p, i);
      FoundAt(ToLower(ls[0]), p, i);
      assert LineHas(ls[0], p);
    } else {
      var more := Join(ls[1..]) + CRLF + rest;
      assert Join(ls) + CRLF + rest == ls[0] + CRLF + more;
      LowerLines(ls[0], more);
      if i < |ls[0]| + 2 {
        StaysInLine(ToLower(ls[0]), ToLower(more), p, i);
        FoundAt(ToLower(ls[0]), p, i);
        assert LineHas(ls[0], p);
      } else {
        AtRight(ToLower(ls[0]) + CRLF, ToLower(more), p, i - |ls[0]| - 2);
        assert ToLower(ls[0]) + CRLF + ToLower(more) == ToLower(ls[0]) + (CRLF + ToLower(more));
        OccursInLine(ls[1..], rest, p, i - |ls[0]| - 2);
        var j :| 0 <= j < |ls[1..]| && LineHas(ls[1..][j], p);
        assert LineHas(ls[j + 1], p);
      }
    }
  }

  lemma {:induction false} LineInHead(ls: seq<string>, j: nat, p: string)
    requires j < |ls| && LineHas(ls[j], p)
    ensures Contains(LowerHead(ls), p)
    decreases j
  {
    hide At, ToLower;
    if |ls| > 1 {
      LowerLines(ls[0], Join(ls[1..]));
      var low := ToLower(ls[0]);
      if j == 0 {
        var i := Find(low, p, 0).value;
        AtLeft(low, CRLF + ToLower(Join(ls[1..])), p, i);
        FoundAt(LowerHead(ls), p, i);
      } else {
        LineInHead(ls[1..], j - 1, p);
        var i := Find(LowerHead(ls[1..]), p, 0).value;
        AtRight(low + CRLF, LowerHead(ls[1..]), p, i);
        assert low + CRLF + LowerHead(ls[1..]) == low + (CRLF + LowerHead(ls[1..]));
        FoundAt(LowerHead(ls), p, |low| + 2 + i);
      }
    }
  }

  /** The block contains an inline pattern exactly when one of its lines does. */
  lemma {:induction false} HeadContains(ls: seq<string>, p: string)
    requires ls != [] && p != "" && Inline(p)
    ensures Contains(LowerHead(ls), p) <==> SomeLineHas(ls, p)
  {
    hide At, ToLower, LineHas, Join;
    if Contains(LowerHead(ls), p) {
      var i := Find(LowerHead(ls), p, 0).value;
      LowerLines(Join(ls), "");
      assert Join(ls) + CRLF == Join(ls) + CRLF + "";
      AtLeft(LowerHead(ls), CRLF + ToLower(""), p, i);
      OccursInLine(ls, "", p, i);
    }
    if SomeLineHas(ls, p) {
      var j :| 0 <= j < |ls| && LineHas(ls[j], p);
      LineInHead(ls, j, p);
    }
  }

  /** A head reads as chunked exactly when some line mentions Transfer-Encoding and some line,
      not necessarily the same one, mentions chunked. */
  lemma {:induction false} LooksChunkedByLine(ls: seq<string>)
    requires ls != []
    ensures LooksChunked(LowerHead(ls)) <==> SomeLineHas(ls, TRANSFER_ENCODING) && SomeLineHas(ls, CHUNKED)
  {
    hide SomeLineHas, Contains, LowerHead;
    HeadContains(ls, TRANSFER_ENCODING);
    HeadContains(ls, CHUNKED);
  }

  lemma {:induction false} FieldIn(line: string, after: string, p: string)
    requires IsField(line, p)
    ensures At(ToLower(line) + after, p, 0)
  {
    AtLeft(ToLower(line), after, p, 0);
  }

  /** When no earlier line has it, a pattern is first found inside the line that has it. */
  lemma {:induction false} FoundInLine(pre: seq<string>, line: string, after: string, p: string)
    requires pre != [] && p != "" && Inline(p) && !SomeLineHas(pre, p) && IsField(line, p)
    ensures Find(ToLower(Join(pre) + (CRLF + line + after)), p, 0) == Some(|Join(pre)| + 2)
  {
    hide ToLower, Join, SomeLineHas, At;
    var front := Join(pre);
    var text := front + (CRLF + line + after);
    assert text == front + CRLF + (line + after);
    LowerLines(front, line + after);
    LowerConcat(line, after);
    assert ToLower(text) == ToLower(front) + CRLF + (ToLower(line) + ToLower(after));
    FieldIn(line, ToLower(after), p);
    AtRight(ToLower(front) + CRLF, ToLower(line) + ToLower(after), p, 0);
    forall i | 0 <= i < |front| + 2
      ensures !At(ToLower(text), p, i)
    {
      if At(ToLower(text), p, i) {
        OccursInLine(pre, line + after, p, i);
      }
    }
  }

  /** Only header lines, never the body, can ask for the connection to be closed, and only in the
      spelling with one space. */
  lemma {:induction false} WantsCloseByLine(ls: seq<string>, body: string)
    requires ls != [] && AllLines(ls)
    ensures WantsClose(Message(ls, body)) <==> SomeLineHas(ls, CLOSE)
  {
    hide SomeLineHas, Contains, Join, ToLower, Find;
    FirstBlankLine(ls, body);
    assert Message(ls, body)[..|Join(ls)|] == Join(ls);
    HeadContains(ls, CLOSE);
  }

  const CLOSE: string := "connection: close"

  /** A Connection field line: the name in any case, white space, and a list of options. */
  datatype ConnectionField = ConnectionField(name: string, ws: string, options: string) {
    predicate Valid() {
      && ToLower(name) == "connection:"
      && (forall i :: 0 <= i < |ws| ==> ws[i] == ' ' || ws[i] == '\t')
      && (options != "" ==> options[0] != ' ' && options[0] != '\t')
      && (forall i :: 0 <= i < |options| ==> options[i] != ':')
    }

    function Line(): string {
      name + (ws + options)
    }
  }

  /** Such a line asks for the close exactly when one single space is followed by options that start with
      close, whatever comes after that: not "Connection:close", not with two spaces or a tab, and not where
      close is listed behind another option. */
  lemma {:induction false} CloseInField(f: ConnectionField)
    requires f.Valid()
    ensures LineHas(f.Line(), CLOSE) <==> f.ws == " " && "close" <= ToLower(f.options)
  {
    var value := ToLower(f.ws + f.options);
    OnlyColon(f);
    FirstSpace(f);
    LowerConcat(f.name, f.ws + f.options);
    hide Contains, ToLower, At;
    assert ToLower(f.Line()) == "connection:" + value;
    OnlyAtFront("connection:" + value);
    AfterName(value);
  }

  /** With its only colon where the name ends, a line can have the text at its front alone. */
  lemma {:induction false} OnlyAtFront(low: string)
    requires forall i :: 0 <= i < |low| && low[i] == ':' ==> i == 10
    ensures Contains(low, CLOSE) <==> At(low, CLOSE, 0)
  {
    hide At, Find;
    if Contains(low, CLOSE) {
      AtChar(low, CLOSE, Find(low, CLOSE, 0).value, 10);
    }
    if At(low, CLOSE, 0) {
      FoundAt(low, CLOSE, 0);
    }
  }

  lemma {:induction false} BlanksStay(ws: string)
    requires forall i :: 0 <= i < |ws| ==> ws[i] == ' ' || ws[i] == '\t'
    ensures ToLower(ws) == ws
  {
  }

  lemma {:induction false} OnlyColon(f: ConnectionField)
    requires f.Valid()
    ensures var low := "connection:" + ToLower(f.ws + f.options);
            forall i :: 0 <= i < |low| && low[i] == ':' ==> i == 10
  {
    var value := f.ws + f.options;
    forall i | 0 <= i < |value|
      ensures LowerChar(value[i]) != ':'
    {
    }
  }

  lemma {:induction false} AfterName(value: string)
    ensures At("connection:" + value, CLOSE, 0) <==> " close" <= value
  {
    var s := "connection:" + value;
    assert CLOSE == "connection:" + " close";
    if |value| >= 6 {
      assert s[0..17] == "connection:" + value[..6];
      if At(s, CLOSE, 0) {
        assert (s[0..17])[11..] == value[..6];
        assert CLOSE[11..] == " close";
      }
    }
  }

  lemma {:induction false} FirstSpace(f: ConnectionField)
    requires f.Valid()
    ensures " close" <= ToLower(f.ws + f.options) <==> f.ws == " " && "close" <= ToLower(f.options)
  {
    LowerConcat(f.ws, f.options);
    BlanksStay(f.ws);
    var low := ToLower(f.options);
    assert f.options != "" ==> low[0] == LowerChar(f.options[0]) && LowerChar(f.options[0]) != ' ';
    hide ToLower;
    if f.ws == "" {
      assert f.ws + low == low;
      NotPrefix(" close", low, 0);
    } else if |f.ws| == 1 {
      assert f.ws == [f.ws[0]];
      UnderFirst(f.ws[0], low);
    } else {
      NotPrefix(" close", f.ws + low, 1);
    }
  }

  lemma {:induction false} NotPrefix(p: string, s: string, k: nat)
    requires k < |p| && (k < |s| ==> s[k] != p[k])
    ensures !(p <= s)
  {
  }

  lemma {:induction false} UnderFirst(c: char, low: string)
    ensures " close" <= [c] + low <==> c == ' ' && "close" <= low
  {
    assert " close" == [' '] + "close";
    ConsPrefix(' ', c, "close", low);
  }

  lemma {:induction false} ConsPrefix(c: char, d: char, p: string, s: string)
    ensures [c] + p <= [d] + s <==> c == d && p <= s
  {
    var x, y := [c] + p, [d] + s;
    assert x[0] == c && y[0] == d;
    assert forall i :: 0 <= i < |p| ==> x[i + 1] == p[i];
    assert forall i :: 0 <= i < |s| ==> y[i + 1] == s[i];
    if x <= y {
      forall i | 0 <= i < |p|
        ensures p[i] == s[i]
      {
        assert x[i + 1] == y[i + 1];
      }
    }
  }

  /** When no other line has the text, this field decides for the message. */
  lemma {:induction false} FieldDecidesClose(ls: seq<string>, k: nat, f: ConnectionField, body: string)
    requires AllLines(ls) && k < |ls| && f.Valid() && ls[k] == f.Line()
    requires forall j :: 0 <= j < |ls| && j != k ==> !LineHas(ls[j], CLOSE)
    ensures WantsClose(Message(ls, body)) <==> f.ws == " " && "close" <= ToLower(f.options)
  {
    hide LineHas, WantsClose, Message, ToLower, ConnectionField.Valid, ConnectionField.Line;
    CloseInField(f);
    WantsCloseByLine(ls, body);
  }

  /** Three spellings of one request: only the first is understood. */
  lemma {:induction false} CloseSpellings()
    ensures LineHas("Connection: close", CLOSE)
    ensures !LineHas("Connection:close", CLOSE)
    ensures !LineHas("Connection: keep-alive, close", CLOSE)
  {
    hide LineHas, ToLower;
    LowerWords();
    CloseInField(ConnectionField("Connection:", " ", "close"));
    CloseInField(ConnectionField("Connection:", "", "close"));
    CloseInField(ConnectionField("Connection:", " ", "keep-alive, close"));
    NotPrefix("close", ToLower("keep-alive, close"), 0);
    SpellingTexts();
  }

  lemma {:induction false} LowerWords()
    ensures ToLower("Connection:") == "connection:" && ToLower("close") == "close"
    ensures ToLower("keep-alive, close")[0] == 'k'
  {
  }

  lemma {:induction false} SpellingTexts()
    ensures "Connection:" + (" " + "close") == "Connection: close" && "Connection:" + ("" + "close") == "Connection:close"
    ensures "Connection:" + (" " + "keep-alive, close") == "Connection: keep-alive, close"
  {
  }

  /** The HTTP/1.0 default is not applied: without a Connection line the connection is kept. */
  lemma {:induction false} Http10Kept(ls: seq<string>, body: string)
    requires ls != [] && AllLines(ls) && ls[0] == "HTTP/1.0 200 OK"
    requires forall j :: 1 <= j < |ls| ==> !LineHas(ls[j], CLOSE)
    ensures !WantsClose(Message(ls, body))
  {
    hide LineHas, WantsClose, Message;
    TooShortToHave("HTTP/1.0 200 OK", CLOSE);
    WantsCloseByLine(ls, body);
  }

  lemma {:induction false} TooShortToHave(line: string, p: string)
    requires |line| < |p|
    ensures !LineHas(line, p)
  {
  }

  // ---- messages without framing ----

  lemma {:induction false} NoLengthField(ls: seq<string>)
    requires ls != [] && AllLines(ls)
    requires forall j :: 1 <= j < |ls| ==> !IsField(ls[j], CONTENT_LENGTH)
    ensures HeaderLength(LowerHead(ls)) == None
  {
    hide Join, ToLower, IsField, At, Stol;
    if Find(LowerHead(ls), LENGTH_MARKER, 0).Some? {
      var i := Find(LowerHead(ls), LENGTH_MARKER, 0).value;
      assert Join(ls) + "" == Join(ls);
      NoFieldBefore(ls, "", CONTENT_LENGTH, i);
    }
  }

  /** With neither a length nor a sign of chunking the message never completes: only the close of the
      connection ends it, whatever the body. */
  lemma {:induction false} CloseDelimited(ls: seq<string>, body: string)
    requires ls != [] && AllLines(ls) && !LooksChunked(LowerHead(ls))
    requires forall j :: 1 <= j < |ls| ==> !IsField(ls[j], CONTENT_LENGTH)
    ensures !MessageComplete(Message(ls, body)) && NeverEarly(Message(ls, body))
  {
    hide MessageComplete, Join, ToLower, IsField, LooksChunked, Contains, HeaderLength;
    NoLengthField(ls);
    AfterHead(ls, body);
    IncompleteIsNeverEarly(Message(ls, body));
  }
}
