/** The chunked transfer coding of section 7.1 of RFC 9112: an encoder to hold against the
    client's end test and its de-chunking loop. */
module Chunks {
  import opened Text
  import opened Numerals
  import opened Framing

  /** A chunk: any hexadecimal size numeral, anything inline that is not part of it, and the data. */
  datatype Chunk = Chunk(size: string, ext: string, data: string) {
    ghost predicate Valid() {
      && IsToken(size, 16) && ValueOf(size, 16) == |data|
      && 0 < |data| < ULONG_LIMIT
      && ValidExt(ext)
    }

    function SizeLine(): string {
      size + ext
    }
  }

  predicate ValidExt(ext: string) {
    Inline(ext) && (ext == "" || (!IsDigit(ext[0], 16) && ext[0] != 'x' && ext[0] != 'X'))
  }

  ghost predicate AllValid(cs: seq<Chunk>) {
    forall i :: 0 <= i < |cs| ==> cs[i].Valid()
  }

  function Encode(cs: seq<Chunk>, tail: string): string {
    if cs == [] then tail
    else OneChunk(cs[0].SizeLine(), cs[0].data, Encode(cs[1..], tail))
  }

  function Payload(cs: seq<Chunk>): string {
    if cs == [] then "" else cs[0].data + Payload(cs[1..])
  }

  /** Where the data of chunk j stands in the encoded body. */
  function DataStart(cs: seq<Chunk>, j: nat): nat
    requires j < |cs|
    decreases j
  {
    if j == 0 then |cs[0].SizeLine()| + 2
    else |cs[0].SizeLine()| + 4 + |cs[0].data| + DataStart(cs[1..], j - 1)
  }

  function DataEnd(cs: seq<Chunk>, j: nat): nat
    requires j < |cs|
  {
    DataStart(cs, j) + |cs[j].data|
  }

  lemma {:induction false} DataStandsThere(cs: seq<Chunk>, tail: string, j: nat)
    requires j < |cs|
    ensures DataEnd(cs, j) + 2 <= |Encode(cs, tail)|
    ensures Encode(cs, tail)[DataStart(cs, j)..DataEnd(cs, j)] == cs[j].data
    decreases j
  {
    var line, data, next := cs[0].SizeLine(), cs[0].data, Encode(cs[1..], tail);
    assert Encode(cs, tail) == OneChunk(line, data, next);
    hide Encode;
    if j == 0 {
      DataOfOne(line, data, next);
    } else {
      DataStandsThere(cs[1..], tail, j - 1);
      hide DataStart;
      BehindOne(line, data, next, DataStart(cs[1..], j - 1), DataEnd(cs[1..], j - 1));
    }
  }

  lemma {:induction false} DataOfOne(line: string, data: string, next: string)
    ensures |OneChunk(line, data, next)| == |line| + 4 + |data| + |next|
    ensures OneChunk(line, data, next)[|line| + 2..|line| + 2 + |data|] == data
  {
    assert OneChunk(line, data, next) == (line + CRLF) + (data + (CRLF + next));
  }

  lemma {:induction false} BehindOne(line: string, data: string, next: string, i: nat, j: nat)
    requires i <= j <= |next|
    ensures |OneChunk(line, data, next)| == |line| + 4 + |data| + |next|
    ensures OneChunk(line, data, next)[|line| + 4 + |data| + i..|line| + 4 + |data| + j] == next[i..j]
  {
    assert OneChunk(line, data, next) == (line + CRLF + data + CRLF) + next;
  }

  lemma {:induction false} DataInOrder(cs: seq<Chunk>, j: nat, k: nat)
    requires j < k < |cs|
    ensures DataEnd(cs, j) < DataStart(cs, k)
    decreases j
  {
    if j > 0 {
      DataInOrder(cs[1..], j - 1, k - 1);
    }
  }

  /** Any split of a payload into non-empty pieces has an encoding. */
  function Plain(pieces: seq<string>): (cs: seq<Chunk>)
    requires forall i :: 0 <= i < |pieces| ==> 0 < |pieces[i]| < ULONG_LIMIT
    ensures |cs| == |pieces| && AllValid(cs)
    ensures forall i :: 0 <= i < |cs| ==> cs[i].data == pieces[i]
  {
    seq(|pieces|, i requires 0 <= i < |pieces| => Chunk(Hex(|pieces[i]|), "", pieces[i]))
  }

  lemma {:induction false} PlainPayload(pieces: seq<string>)
    requires forall i :: 0 <= i < |pieces| ==> 0 < |pieces[i]| < ULONG_LIMIT
    ensures Payload(Plain(pieces)) == Concat(pieces)
  {
    if pieces != [] {
      PlainPayload(pieces[1..]);
      assert Plain(pieces)[1..] == Plain(pieces[1..]);
    }
  }

  lemma {:induction false} SizeLineText(c: Chunk)
    requires c.Valid()
    ensures IsLine(c.SizeLine()) && c.SizeLine() != "0"
  {
    forall i | 0 <= i < |c.size|
      ensures c.size[i] != '\r' && c.size[i] != '\n'
    {
      assert IsDigit(c.size[i], 16);
    }
    assert ValueOf("0", 16) == 0;
    assert c.SizeLine() == "0" ==> c.size == "0";
  }

  lemma {:induction false} EncodeHead(cs: seq<Chunk>, tail: string)
    requires AllValid(cs) && tail != "" && tail[0] != '\r'
    ensures Encode(cs, tail) != "" && Encode(cs, tail)[0] != '\r'
  {
    if cs != [] {
      SizeLineText(cs[0]);
    }
  }

  /** A chunk in whose data, put back between its line breaks, the end test sees no terminator. */
  predicate Clean(c: Chunk) {
    !Contains(CRLF + c.data + CRLF, TERMINATOR)
  }

  /** The first three bytes of a line break and a line of text fit nowhere in the middle of a terminator. */
  lemma {:induction false} NoBreakInside(s: string, i: nat, off: nat)
    requires At(s, TERMINATOR, i) && i < off && off + 2 < i + 7
    ensures !(s[off] == '\r' && s[off + 1] == '\n' && s[off + 2] != '\r')
  {
    TerminatorChars(s, i);
    AtChar(s, TERMINATOR, i, off - i);
  }

  /** No terminator starts in one piece of data and ends beyond the line break after it. */
  lemma {:induction false} NoStraddle(data: string, next: string, i: nat)
    requires next != "" && next[0] != '\r'
    requires At(CRLF + data + (CRLF + next), TERMINATOR, i) && i < 2 + |data|
    ensures At(CRLF + data + CRLF, TERMINATOR, i)
  {
    var s := CRLF + data + (CRLF + next);
    var front := CRLF + data + CRLF;
    var off := 2 + |data|;
    assert s == front + next;
    assert s[off] == '\r' && s[off + 1] == '\n' && s[off + 2] == next[0];
    if i + 7 <= |front| {
      AtLeft(front, next, TERMINATOR, i);
    } else {
      NoBreakInside(s, i, off);
    }
  }

  /** No terminator starts at a size line. */
  lemma {:induction false} NoTerminatorAtSize(line: string, rest: string, i: nat)
    requires IsLine(line) && line != "0" && i < 2 + |line|
    ensures !At(CRLF + line + (CRLF + rest), TERMINATOR, i)
  {
    var s := CRLF + line + (CRLF + rest);
    assert s[1] == '\n' && s[2] == line[0];
    assert i >= 2 ==> s[i] == line[i - 2];
    assert |line| > 1 ==> s[3] == line[1];
    assert |line| == 1 ==> line[0] != '0';
    if At(s, TERMINATOR, i) {
      TerminatorChars(s, i);
    }
  }

  /** One encoded chunk between a line break and the text of the next size line. */
  function OneChunk(line: string, data: string, next: string): string {
    line + (CRLF + data + (CRLF + next))
  }

  lemma {:induction false} ChunkParts(line: string, data: string, next: string)
    ensures CRLF + OneChunk(line, data, next) == (CRLF + line) + (CRLF + data + (CRLF + next))
  {
  }

  /** A terminator can start in the chunk itself only inside its data and line breaks. */
  lemma {:induction false} PastChunk(line: string, data: string, next: string, i: nat)
    requires IsLine(line) && line != "0" && next != "" && next[0] != '\r'
    requires !Contains(CRLF + data + CRLF, TERMINATOR)
    requires At(CRLF + OneChunk(line, data, next), TERMINATOR, i)
    ensures i >= 4 + |line| + |data| && At(CRLF + next, TERMINATOR, i - 4 - |line| - |data|)
  {
    hide At, IsLine;
    ChunkParts(line, data, next);
    assert CRLF + (data + (CRLF + next)) == CRLF + data + (CRLF + next);
    if i < 2 + |line| {
      NoTerminatorAtSize(line, data + (CRLF + next), i);
    } else {
      var j := i - 2 - |line|;
      AtRight(CRLF + line, CRLF + data + (CRLF + next), TERMINATOR, j);
      if j < 2 + |data| {
        NoStraddle(data, next, j);
      } else {
        AtRight(CRLF + data, CRLF + next, TERMINATOR, j - 2 - |data|);
      }
    }
  }

  lemma {:induction false} BeyondChunk(line: string, data: string, next: string, m: nat)
    requires At(CRLF + next, TERMINATOR, m)
    ensures At(CRLF + OneChunk(line, data, next), TERMINATOR, 4 + |line| + |data| + m)
  {
    hide At;
    ChunkParts(line, data, next);
    AtRight(CRLF + data, CRLF + next, TERMINATOR, m);
    AtRight(CRLF + line, CRLF + data + (CRLF + next), TERMINATOR, 2 + |data| + m);
  }

  lemma {:induction false} InsideChunk(line: string, data: string, next: string, m: nat)
    requires At(CRLF + data + CRLF, TERMINATOR, m)
    ensures At(CRLF + OneChunk(line, data, next), TERMINATOR, 2 + |line| + m)
  {
    ChunkParts(line, data, next);
    AtLeft(CRLF + data + CRLF, next, TERMINATOR, m);
    assert CRLF + data + CRLF + next == CRLF + data + (CRLF + next);
    AtRight(CRLF + line, CRLF + data + (CRLF + next), TERMINATOR, m);
  }

  ghost predicate AllClean(cs: seq<Chunk>) {
    forall j :: 0 <= j < |cs| ==> Clean(cs[j])
  }

  /** Between clean chunks there is no terminator before the tail. */
  lemma {:induction false} NoTerminatorInChunks(cs: seq<Chunk>, tail: string, i: nat)
    requires AllValid(cs) && AllClean(cs)
    requires tail != "" && tail[0] != '\r'
    requires i + |tail| < |Encode(cs, tail)|
    ensures !At(CRLF + Encode(cs, tail), TERMINATOR, i)
  {
    hide At, Contains;
    if At(CRLF + Encode(cs, tail), TERMINATOR, i) {
      SizeLineText(cs[0]);
      EncodeHead(cs[1..], tail);
      PastChunk(cs[0].SizeLine(), cs[0].data, Encode(cs[1..], tail), i);
      NoTerminatorInChunks(cs[1..], tail, i - 4 - |cs[0].SizeLine()| - |cs[0].data|);
    }
  }

  lemma {:induction false} EncodeSplit(cs: seq<Chunk>, tail: string)
    ensures |Encode(cs, tail)| >= |tail|
    ensures Encode(cs, tail)[|Encode(cs, tail)| - |tail|..] == tail
  {
    if cs != [] {
      EncodeSplit(cs[1..], tail);
      var next := Encode(cs[1..], tail);
      var front := cs[0].SizeLine() + CRLF + cs[0].data + CRLF;
      assert Encode(cs, tail) == front + next;
      assert (front + next)[|front| + (|next| - |tail|)..] == next[|next| - |tail|..];
    }
  }

  lemma {:induction false} WhereUnclean(c: Chunk) returns (m: nat)
    requires !Clean(c)
    ensures At(CRLF + c.data + CRLF, TERMINATOR, m) && m + 7 <= |c.data| + 4
  {
    hide At;
    m := Find(CRLF + c.data + CRLF, TERMINATOR, 0).value;
  }

  /** A chunk that is not clean makes the end test fire inside the body. */
  lemma {:induction false} EarlyTerminator(cs: seq<Chunk>, tail: string, k: nat) returns (i: nat)
    requires k < |cs| && !Clean(cs[k])
    ensures At(CRLF + Encode(cs, tail), TERMINATOR, i) && i + 7 + |tail| <= |CRLF + Encode(cs, tail)|
  {
    var line, data, next := cs[0].SizeLine(), cs[0].data, Encode(cs[1..], tail);
    EncodeSplit(cs[1..], tail);
    assert Encode(cs, tail) == OneChunk(line, data, next);
    hide Encode, At, Clean;
    if k == 0 {
      var m := WhereUnclean(cs[0]);
      InsideChunk(line, data, next, m);
      i := 2 + |line| + m;
    } else {
      var m := EarlyTerminator(cs[1..], tail, k - 1);
      BeyondChunk(line, data, next, m);
      i := 4 + |line| + |data| + m;
    }
  }

  lemma {:induction false} ClosingAlone()
    ensures At(CRLF + LAST_CHUNK, TERMINATOR, 0)
  {
    assert (CRLF + LAST_CHUNK)[0..7] == TERMINATOR;
  }

  lemma {:induction false} ClosingTerminator(cs: seq<Chunk>)
    ensures var body := Encode(cs, LAST_CHUNK);
            |body| >= 5 && At(CRLF + body, TERMINATOR, |body| - 5)
  {
    hide At;
    if cs == [] {
      ClosingAlone();
    } else {
      ClosingTerminator(cs[1..]);
      var next := Encode(cs[1..], LAST_CHUNK);
      BeyondChunk(cs[0].SizeLine(), cs[0].data, next, |next| - 5);
    }
  }

  /** The first terminator is the closing one exactly when every chunk is clean. */
  lemma {:induction false} FirstTerminator(cs: seq<Chunk>)
    requires AllValid(cs)
    ensures FirstTerminatorAtEnd(Encode(cs, LAST_CHUNK)) <==> AllClean(cs)
  {
    hide Encode, Clean, At;
    var body := Encode(cs, LAST_CHUNK);
    if AllClean(cs) {
      ClosingTerminator(cs);
      forall i | 0 <= i < |body| - 5
        ensures !At(CRLF + body, TERMINATOR, i)
      {
        NoTerminatorInChunks(cs, LAST_CHUNK, i);
      }
    } else {
      var k :| 0 <= k < |cs| && !Clean(cs[k]);
      var i := EarlyTerminator(cs, LAST_CHUNK, k);
    }
  }

  /** A chunk line that announces the end: zeros, and any extension. */
  ghost predicate ZeroLine(size: string, ext: string) {
    IsToken(size, 16) && ValueOf(size, 16) == 0 && ValidExt(ext)
  }

  lemma {:induction false} ZeroLineText(size: string, ext: string)
    requires ZeroLine(size, ext)
    ensures IsLine(size + ext)
  {
    hide ValueOf;
    forall i | 0 <= i < |size|
      ensures size[i] != '\r' && size[i] != '\n'
    {
      assert IsDigit(size[i], 16);
    }
  }

  /** After a last chunk line other than a bare "0" there is no terminator at the end of the body. */
  lemma {:induction false} NoOtherTerminator(cs: seq<Chunk>, line: string, i: nat)
    requires IsLine(line) && line != "0"
    requires i + |line + BLANK| >= |Encode(cs, line + BLANK)|
    ensures !At(CRLF + Encode(cs, line + BLANK), TERMINATOR, i)
  {
    hide At, Encode;
    if At(CRLF + Encode(cs, line + BLANK), TERMINATOR, i) {
      TerminatorInTail(cs, line + BLANK, i);
      NoTerminatorInLines([line], i + |line + BLANK| - |Encode(cs, line + BLANK)|);
    }
  }

  lemma {:induction false} FirstTerminatorOf(cs: seq<Chunk>, line: string)
    requires AllValid(cs) && IsLine(line)
    ensures FirstTerminatorAtEnd(Encode(cs, line + BLANK)) <==> AllClean(cs) && line == "0"
  {
    hide Encode, Clean, Find, At;
    if line == "0" {
      assert line + BLANK == LAST_CHUNK;
      FirstTerminator(cs);
    } else {
      EncodeSplit(cs, line + BLANK);
      NoOtherTerminator(cs, line, |Encode(cs, line + BLANK)| - 5);
    }
  }

  /** The end of a chunked message is found where it is, for every way of receiving it, exactly when no
      chunk holds the terminator text between its line breaks and the last chunk is a bare "0". */
  lemma {:induction false} ChunkedFraming(ls: seq<string>, cs: seq<Chunk>, size: string, ext: string)
    requires ls != [] && AllLines(ls) && LooksChunked(LowerHead(ls)) && AllValid(cs) && ZeroLine(size, ext)
    ensures SelfDelimiting(Message(ls, Encode(cs, size + ext + BLANK))) <==> AllClean(cs) && size + ext == "0"
  {
    hide SelfDelimiting, LowerHead, LooksChunked, Encode, FirstTerminatorAtEnd, ZeroLine, AllClean;
    ZeroLineText(size, ext);
    TerminatorFraming(ls, Encode(cs, size + ext + BLANK));
    FirstTerminatorOf(cs, size + ext);
  }

  /** Data without a line break is clean. */
  lemma {:induction false} InlineIsClean(c: Chunk)
    requires Inline(c.data)
    ensures Clean(c)
  {
    var s := CRLF + c.data + CRLF;
    assert forall i :: 0 <= i < |s| && s[i] == '\r' ==> i == 0 || i == 2 + |c.data|;
    if Contains(s, TERMINATOR) {
      TerminatorChars(s, Find(s, TERMINATOR, 0).value);
    }
  }

  /** Clean is weaker than having no line break: this chunk has one. */
  lemma {:induction false} CleanWithLineBreak()
    ensures Clean(Chunk("3", "", "a\r\n")) && !Clean(Chunk("3", "", "0\r\n"))
  {
    var good := CRLF + "a\r\n" + CRLF;
    assert good == "\r\na\r\n\r\n";
    if Contains(good, TERMINATOR) {
      TerminatorChars(good, Find(good, TERMINATOR, 0).value);
    }
    var bad := CRLF + "0\r\n" + CRLF;
    assert bad[0..7] == TERMINATOR;
    assert At(bad, TERMINATOR, 0);
  }

  // ---- trailers ----

  /** The last chunk line and a trailer section. */
  function TrailerTail(line: string, trailers: seq<string>): string {
    Join([line] + trailers) + BLANK
  }

  /** A blank line after a block of lines, none of which is "0", is no terminator. */
  lemma {:induction false} NoTerminatorInLines(ts: seq<string>, i: nat)
    requires ts != [] && AllLines(ts) && forall j :: 0 <= j < |ts| ==> ts[j] != "0"
    ensures !At(CRLF + (Join(ts) + BLANK), TERMINATOR, i)
  {
    hide At;
    var rest := if |ts| == 1 then CRLF else Join(ts[1..]) + BLANK;
    LinesParts(ts);
    if i < 2 + |ts[0]| {
      NoTerminatorAtSize(ts[0], rest, i);
    } else {
      AtRight(CRLF + ts[0], CRLF + rest, TERMINATOR, i - 2 - |ts[0]|);
      if |ts| == 1 {
        BlankIsShort(i - 2 - |ts[0]|);
      } else {
        NoTerminatorInLines(ts[1..], i - 2 - |ts[0]|);
      }
    }
  }

  lemma {:induction false} BlankIsShort(i: nat)
    ensures !At(CRLF + CRLF, TERMINATOR, i)
  {
  }

  lemma {:induction false} LinesParts(ts: seq<string>)
    requires ts != []
    ensures CRLF + (Join(ts) + BLANK) ==
            CRLF + ts[0] + (CRLF + if |ts| == 1 then CRLF else Join(ts[1..]) + BLANK)
  {
    if |ts| == 1 {
      SplitBlank(ts[0], "");
      assert ts[0] + BLANK == ts[0] + (CRLF + CRLF);
    } else {
      LineThen(ts[0], Join(ts[1..]));
    }
  }

  lemma {:induction false} LineThen(line: string, rest: string)
    ensures CRLF + (line + CRLF + rest + BLANK) == CRLF + line + (CRLF + (rest + BLANK))
  {
  }

  lemma {:induction false} NoTerminatorInTrailers(line: string, ts: seq<string>, i: nat)
    requires IsLine(line) && ts != [] && AllLines(ts) && forall j :: 0 <= j < |ts| ==> ts[j] != "0"
    ensures !At(CRLF + TrailerTail(line, ts), TERMINATOR, i)
  {
    hide Join, At;
    if line == "0" {
      var rest := CRLF + (Join(ts) + BLANK);
      ZeroThen(ts);
      if i >= 3 {
        AtRight("\r\n0", rest, TERMINATOR, i - 3);
        NoTerminatorInLines(ts, i - 3);
      } else {
        JoinHead(ts);
        NotAt("\r\n0" + rest, TERMINATOR, i, 5 - i);
      }
    } else {
      assert ([line] + ts)[1..] == ts;
      NoTerminatorInLines([line] + ts, i);
    }
  }

  lemma {:induction false} ZeroThen(ts: seq<string>)
    requires ts != []
    ensures CRLF + TrailerTail("0", ts) == "\r\n0" + (CRLF + (Join(ts) + BLANK))
  {
    assert ([["0"] + ts][0])[1..] == ts;
    LineThen("0", Join(ts));
  }

  /** A body whose last part shows no terminator never completes. */
  lemma {:induction false} NeverCompletes(ls: seq<string>, cs: seq<Chunk>, tail: string)
    requires ls != [] && AllLines(ls) && LooksChunked(LowerHead(ls))
    requires AllValid(cs) && AllClean(cs) && tail != "" && tail[0] != '\r'
    requires forall i: nat :: !At(CRLF + tail, TERMINATOR, i)
    ensures !MessageComplete(Message(ls, Encode(cs, tail))) && NeverEarly(Message(ls, Encode(cs, tail)))
  {
    hide MessageComplete, Message, LowerHead, LooksChunked, Encode, At, AllClean, AllValid;
    var body := Encode(cs, tail);
    EncodeSplit(cs, tail);
    TerminatorDecides(ls, body);
    var i := Find(CRLF + body, TERMINATOR, 0);
    if i.Some? {
      if i.value + |tail| < |body| {
        NoTerminatorInChunks(cs, tail, i.value);
      } else {
        TerminatorInTail(cs, tail, i.value);
      }
    }
    IncompleteIsNeverEarly(Message(ls, body));
  }

  /** Trailers are not recognised: such a message never completes, only the close of the connection ends it. */
  lemma {:induction false} TrailersNeverComplete(ls: seq<string>, cs: seq<Chunk>, size: string, ext: string, ts: seq<string>)
    requires ls != [] && AllLines(ls) && LooksChunked(LowerHead(ls))
    requires AllValid(cs) && AllClean(cs) && ZeroLine(size, ext)
    requires ts != [] && AllLines(ts) && forall j :: 0 <= j < |ts| ==> ts[j] != "0"
    ensures !MessageComplete(Message(ls, Encode(cs, TrailerTail(size + ext, ts))))
    ensures NeverEarly(Message(ls, Encode(cs, TrailerTail(size + ext, ts))))
  {
    hide *;
    ZeroLineText(size, ext);
    TailHead(size + ext, ts);
    forall i: nat
      ensures !At(CRLF + TrailerTail(size + ext, ts), TERMINATOR, i)
    {
      NoTerminatorInTrailers(size + ext, ts, i);
    }
    NeverCompletes(ls, cs, TrailerTail(size + ext, ts));
  }

  /** Neither is a last chunk written with more than one zero, or with an extension. */
  lemma {:induction false} OtherZeroNeverCompletes(ls: seq<string>, cs: seq<Chunk>, size: string, ext: string)
    requires ls != [] && AllLines(ls) && LooksChunked(LowerHead(ls))
    requires AllValid(cs) && AllClean(cs) && ZeroLine(size, ext) && size + ext != "0"
    ensures !MessageComplete(Message(ls, Encode(cs, size + ext + BLANK)))
    ensures NeverEarly(Message(ls, Encode(cs, size + ext + BLANK)))
  {
    hide *;
    var line := size + ext;
    ZeroLineText(size, ext);
    TailHead(line, []);
    forall i: nat
      ensures !At(CRLF + TrailerTail(line, []), TERMINATOR, i)
    {
      NoTerminatorOneLine(line, i);
    }
    NeverCompletes(ls, cs, TrailerTail(line, []));
  }

  lemma {:induction false} NoTerminatorOneLine(line: string, i: nat)
    requires IsLine(line) && line != "0"
    ensures !At(CRLF + TrailerTail(line, []), TERMINATOR, i)
  {
    hide At;
    assert [line] + [] == [line];
    NoTerminatorInLines([line], i);
  }

  lemma {:induction false} TailHead(line: string, ts: seq<string>)
    requires IsLine(line)
    ensures TrailerTail(line, ts) != "" && TrailerTail(line, ts)[0] != '\r'
    ensures TrailerTail(line, []) == line + BLANK
  {
    assert ([line] + ts)[0] == line;
  }

  lemma {:induction false} TerminatorInTail(cs: seq<Chunk>, tail: string, i: nat)
    requires i + |tail| >= |Encode(cs, tail)| && At(CRLF + Encode(cs, tail), TERMINATOR, i)
    ensures At(CRLF + tail, TERMINATOR, i + |tail| - |Encode(cs, tail)|)
  {
    hide At;
    if cs != [] {
      EncodeSplit(cs[1..], tail);
      var line, data, next := cs[0].SizeLine(), cs[0].data, Encode(cs[1..], tail);
      ChunkParts(line, data, next);
      var j := i - 2 - |line|;
      AtRight(CRLF + line, CRLF + data + (CRLF + next), TERMINATOR, j);
      AtRight(CRLF + data, CRLF + next, TERMINATOR, j - 2 - |data|);
      TerminatorInTail(cs[1..], tail, j - 2 - |data|);
    }
  }
}
