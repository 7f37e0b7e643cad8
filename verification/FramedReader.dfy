/** The read loop of readFramed as a function of what recv hands over, and its independence of
    how recv splits the bytes. */
module FramedReader {
  import opened Wrappers
  import opened Text
  import opened Framing

  /** One return of recvSome: bytes, the peer's close, or a transport error. */
  datatype RecvEvent = Data(bytes: string) | PeerClosed | RecvFailed

  datatype Reading =
    | Waiting(raw: string)
    | Complete(raw: string)
    | Closed(raw: string)
    | Failed

  function ReadFrom(raw: string, events: seq<RecvEvent>): Reading
    decreases events
  {
    if MessageComplete(raw) then Complete(raw)
    else if events == [] then Waiting(raw)
    else
      match events[0]
      case Data(bytes) => ReadFrom(raw + bytes, events[1..])
      case PeerClosed => if raw == "" then Failed else Closed(raw)
      case RecvFailed => Failed
  }

  /** The events are non-empty pieces of `text`, in order. */
  ghost predicate Splits(events: seq<RecvEvent>, text: string) {
    if events == [] then text == ""
    else events[0].Data? && events[0].bytes != "" && events[0].bytes <= text &&
         Splits(events[1..], text[|events[0].bytes|..])
  }

  /** Reading pieces of an incomplete text keeps waiting; more events go on from there. */
  lemma {:induction false} ReadsPieces(raw: string, events: seq<RecvEvent>, text: string, more: seq<RecvEvent>)
    requires Splits(events, text)
    requires forall m :: 0 <= m < |text| ==> !MessageComplete(raw + text[..m])
    ensures ReadFrom(raw, events + more) == ReadFrom(raw + text, more)
    decreases events
  {
    hide MessageComplete;
    if events == [] {
      assert raw + text == raw;
      assert events + more == more;
    } else {
      var b := events[0].bytes;
      var rest := text[|b|..];
      assert text == b + rest;
      assert raw + text[..0] == raw;
      assert !MessageComplete(raw);
      forall m | 0 <= m < |rest|
        ensures !MessageComplete(raw + b + rest[..m])
      {
        assert raw + text[..|b| + m] == raw + b + rest[..m];
      }
      ReadsPieces(raw + b, events[1..], rest, more);
      assert raw + b + rest == raw + text;
      assert (events + more)[1..] == events[1..] + more;
    }
  }

  /** The loop has turned these events into `raw` and goes on from there. */
  ghost predicate Reads(seen: seq<RecvEvent>, raw: string) {
    forall more :: ReadFrom("", seen + more) == ReadFrom(raw, more)
  }

  lemma {:induction false} ReadsNothing()
    ensures Reads([], "")
  {
    forall more
      ensures ReadFrom("", [] + more) == ReadFrom("", more)
    {
      assert [] + more == more;
    }
  }

  lemma {:induction false} ReadsMore(seen: seq<RecvEvent>, raw: string, bytes: string)
    requires Reads(seen, raw) && !MessageComplete(raw)
    ensures Reads(seen + [Data(bytes)], raw + bytes)
  {
    hide MessageComplete;
    forall more
      ensures ReadFrom("", seen + [Data(bytes)] + more) == ReadFrom(raw + bytes, more)
    {
      assert seen + [Data(bytes)] + more == seen + ([Data(bytes)] + more);
      assert ([Data(bytes)] + more)[1..] == more;
    }
  }

  lemma {:induction false} ReadsEnd(seen: seq<RecvEvent>, raw: string, event: RecvEvent)
    requires Reads(seen, raw) && !MessageComplete(raw) && !event.Data?
    ensures ReadFrom("", seen + [event]) == if event.PeerClosed? && raw != "" then Closed(raw) else Failed
  {
    hide MessageComplete;
  }

  lemma {:induction false} ReadsAll(seen: seq<RecvEvent>, raw: string)
    requires Reads(seen, raw) && MessageComplete(raw)
    ensures ReadFrom("", seen) == Complete(raw)
  {
    hide MessageComplete;
    assert seen + [] == seen;
  }

  /** However recv splits a self-delimiting message, the reader returns exactly it. */
  lemma {:induction false} SegmentationIndependence(events: seq<RecvEvent>, msg: string)
    requires SelfDelimiting(msg) && Splits(events, msg)
    ensures ReadFrom("", events) == Complete(msg)
  {
    hide MessageComplete, Splits;
    forall m | 0 <= m < |msg|
      ensures !MessageComplete("" + msg[..m])
    {
      assert "" + msg[..m] == msg[..m];
    }
    ReadsPieces("", events, msg, []);
    assert "" + msg == msg;
    assert events + [] == events;
  }

  /** A close in the middle of a message that is not complete before its end hands over what came. */
  lemma {:induction false} CloseInTheMiddle(events: seq<RecvEvent>, msg: string, k: nat)
    requires NeverEarly(msg) && 0 < k < |msg| && Splits(events, msg[..k])
    ensures ReadFrom("", events + [PeerClosed]) == Closed(msg[..k])
  {
    hide MessageComplete, Splits;
    forall m | 0 <= m < k
      ensures !MessageComplete("" + msg[..k][..m])
    {
      assert "" + msg[..k][..m] == msg[..m];
    }
    ReadsPieces("", events, msg[..k], [PeerClosed]);
    assert "" + msg[..k] == msg[..k];
    assert !MessageComplete(msg[..k]);
    ReadsClose(msg[..k]);
  }

  lemma {:induction false} ReadsClose(raw: string)
    requires raw != "" && !MessageComplete(raw)
    ensures ReadFrom(raw, [PeerClosed]) == Closed(raw)
  {
    hide MessageComplete;
  }

  /** Being self-delimiting is also necessary: every other message has a split that the reader gets wrong. */
  lemma {:induction false} SomeSplitFails(msg: string)
    requires msg != "" && !SelfDelimiting(msg)
    ensures exists events :: Splits(events, msg) && ReadFrom("", events) != Complete(msg)
  {
    hide MessageComplete;
    if MessageComplete(msg) {
      var k :| 0 <= k < |msg| && MessageComplete(msg[..k]);
      NothingIsIncomplete();
      assert k > 0 by {
        assert msg[..0] == "";
      }
      var events := [Data(msg[..k]), Data(msg[k..])];
      assert events[1..] == [Data(msg[k..])];
      assert events[1..][1..] == [];
      assert "" + msg[..k] == msg[..k];
      assert Splits(events[1..], msg[k..]) by {
        assert msg[k..][|msg[k..]|..] == "";
      }
      assert Splits(events, msg);
      assert ReadFrom("", events) == ReadFrom("" + msg[..k], events[1..]);
      assert ReadFrom(msg[..k], events[1..]) == Complete(msg[..k]);
    } else {
      var events := [Data(msg)];
      assert events[1..] == [];
      assert "" + msg == msg;
      assert msg[|msg|..] == "";
      assert Splits(events, msg);
      NothingIsIncomplete();
      assert ReadFrom(msg, []) == Waiting(msg);
      assert ReadFrom("", events) == ReadFrom("" + msg, events[1..]);
    }
  }

  lemma {:induction false} NothingIsIncomplete()
    ensures !MessageComplete("")
  {
  }

  // ---- the other direction: where a peer sees the requests end ----

  /** The first length from `m` on at which the bytes count as a complete message. */
  function FirstEnd(s: string, m: nat): (r: Option<nat>)
    ensures r.Some? ==> m <= r.value <= |s|
    decreases if m <= |s| then |s| - m + 1 else 0
  {
    if m > |s| then None
    else if MessageComplete(s[..m]) then Some(m)
    else FirstEnd(s, m + 1)
  }

  lemma {:induction false} EndsFirst(s: string, m: nat, end: nat)
    requires m <= end <= |s| && MessageComplete(s[..end])
    requires forall k :: m <= k < end ==> !MessageComplete(s[..k])
    ensures FirstEnd(s, m) == Some(end)
    decreases end - m
  {
    hide MessageComplete;
    if m < end {
      EndsFirst(s, m + 1, end);
    }
  }

  lemma {:induction false} EndsNowhere(s: string, m: nat)
    requires NeverEarly(s) && !MessageComplete(s)
    ensures FirstEnd(s, m) == None
    decreases if m <= |s| then |s| - m + 1 else 0
  {
    hide MessageComplete;
    assert s[..|s|] == s;
    if m <= |s| {
      EndsNowhere(s, m + 1);
    }
  }

  /** The messages a reader with this end test takes a byte stream apart into. */
  function SplitMessages(s: string): seq<string>
    decreases |s|
  {
    match FirstEnd(s, 1)
    case None => []
    case Some(m) => [s[..m]] + SplitMessages(s[m..])
  }

  /** The bytes of self-delimiting messages, and whatever part of another one follows, are taken apart
      into exactly these messages. */
  lemma {:induction false} StreamRecovered(messages: seq<string>, rest: string)
    requires forall i :: 0 <= i < |messages| ==> SelfDelimiting(messages[i])
    requires !MessageComplete(rest)
    ensures SplitMessages(Concat(messages) + rest) == messages
  {
    hide MessageComplete, FirstEnd;
    if messages == [] {
      assert Concat(messages) + rest == rest;
      IncompleteIsNeverEarly(rest);
      EndsNowhere(rest, 1);
    } else {
      var first, more := messages[0], Concat(messages[1..]) + rest;
      assert Concat(messages) + rest == first + more;
      StreamRecovered(messages[1..], rest);
      FirstIsFirst(first, more);
      assert (first + more)[..|first|] == first && (first + more)[|first|..] == more;
    }
  }

  lemma {:induction false} FirstIsFirst(first: string, more: string)
    requires SelfDelimiting(first)
    ensures FirstEnd(first + more, 1) == Some(|first|)
  {
    hide MessageComplete, FirstEnd;
    NothingIsIncomplete();
    var s := first + more;
    assert s[..|first|] == first;
    forall k | 0 <= k < |first|
      ensures !MessageComplete(s[..k])
    {
      assert s[..k] == first[..k];
    }
    assert first != "" by {
      assert MessageComplete(first);
    }
    EndsFirst(s, 1, |first|);
  }
}
