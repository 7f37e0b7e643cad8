/** What a run of keep-alive round trips may look like: a state machine over the attempts made,
    and what holds of every run of it. */
module Sessions {
  import opened Wrappers
  import opened Text
  import opened Framing
  import opened FramedReader
  import opened HeaderLines
  import opened Response

  datatype Target = Target(host: string, port: int, tls: bool)

  /** The peers: the reply to the k-th request on the connection with that id. */
  type Server = (nat, nat, string) -> string

  /** Exactly one reply per request, which the client's end test never takes for complete too early.
      A reply it never takes for complete at all is ended by the close of the connection. */
  ghost predicate WellFramed(server: Server) {
    forall id: nat, index: nat, request: string ::
      var reply := server(id, index, request);
      reply != "" && NeverEarly(reply)
  }

  datatype Outcome =
    | ConnectFailed(error: string)
    | SendFailed(error: string)
    | ReadFailed(error: string)
    | BadResponse(raw: string, peerClosed: bool, error: string)
    | Answered(raw: string, peerClosed: bool, response: HttpResponse)

  /** One attempt: on which connection it went out, as which of its requests, and how it ended. */
  datatype Attempt = Attempt(target: Target, request: string, id: nat, index: nat, outcome: Outcome) {
    predicate Connected() {
      !outcome.ConnectFailed?
    }

    /** The connection is kept for the next request. */
    predicate Keeps() {
      outcome.Answered? && !outcome.peerClosed && !WantsClose(outcome.raw)
    }
  }

  datatype Live = Live(id: nat, target: Target, served: nat)

  /** The open connection, if there is one, and how many have been opened so far. */
  datatype Client = Client(live: Option<Live>, nextId: nat) {
    predicate Reuses(target: Target) {
      live.Some? && live.value.target == target
    }
  }

  /** What was read against what was sent back: all of it, unless the peer closed first. */
  ghost predicate InStep(reply: string, raw: string, peerClosed: bool) {
    raw != "" && raw <= reply && (if peerClosed then !MessageComplete(raw) else raw == reply && MessageComplete(raw))
  }

  ghost predicate OutcomeFits(reply: string, o: Outcome) {
    match o
    case BadResponse(raw, peerClosed, error) => InStep(reply, raw, peerClosed) && ParseHttpResponse(raw) == Err(error)
    case Answered(raw, peerClosed, response) => InStep(reply, raw, peerClosed) && ParseHttpResponse(raw) == Ok(response)
    case _ => true
  }

  ghost predicate Legal(server: Server, c: Client, a: Attempt) {
    && (if c.Reuses(a.target) then a.Connected() && a.id == c.live.value.id && a.index == c.live.value.served
        else a.id == c.nextId && a.index == 0)
    && OutcomeFits(server(a.id, a.index, a.request), a.outcome)
  }

  function Next(c: Client, a: Attempt): Client {
    Client(
      if a.Keeps() then Some(Live(a.id, a.target, a.index + 1)) else None,
      if c.Reuses(a.target) || !a.Connected() then c.nextId else c.nextId + 1)
  }

  function After(log: seq<Attempt>): Client {
    if log == [] then Client(None, 0) else Next(After(log[..|log| - 1]), log[|log| - 1])
  }

  ghost predicate LegalRun(server: Server, log: seq<Attempt>) {
    forall i :: 0 <= i < |log| ==> Legal(server, After(log[..i]), log[i])
  }

  lemma {:induction false} ConnectFailureIsLegal(server: Server, c: Client, a: Attempt)
    requires a.outcome.ConnectFailed? && !c.Reuses(a.target) && a.id == c.nextId && a.index == 0
    ensures Legal(server, c, a)
  {
  }

  lemma {:induction false} AfterStep(log: seq<Attempt>, j: nat)
    requires j < |log|
    ensures After(log[..j + 1]) == Next(After(log[..j]), log[j])
  {
    assert log[..j + 1][..j] == log[..j];
  }

  lemma {:induction false} ExtendRun(server: Server, log: seq<Attempt>, a: Attempt)
    requires LegalRun(server, log) && Legal(server, After(log), a)
    ensures LegalRun(server, log + [a]) && After(log + [a]) == Next(After(log), a)
  {
    var more := log + [a];
    assert more[..|log|] == log;
    forall i | 0 <= i < |more|
      ensures Legal(server, After(more[..i]), more[i])
    {
      if i < |log| {
        assert more[..i] == log[..i];
      }
    }
  }

  /** Attempts i up to j went out one after the other on one connection, each fully answered. */
  ghost predicate Streak(log: seq<Attempt>, i: nat, j: nat)
    requires i <= j <= |log|
  {
    forall k :: i <= k < j ==>
      log[k].outcome.Answered? && !log[k].outcome.peerClosed && !WantsClose(log[k].outcome.raw) &&
      log[k].id == log[i].id && log[k].target == log[i].target && log[k].index == log[i].index + (k - i)
  }

  lemma {:induction false} LiveIsOpened(server: Server, log: seq<Attempt>, j: nat)
    requires LegalRun(server, log) && j <= |log|
    ensures After(log[..j]).live.Some? ==> After(log[..j]).live.value.id < After(log[..j]).nextId
  {
    if j > 0 {
      LiveIsOpened(server, log, j - 1);
      AfterStep(log, j - 1);
      assert Legal(server, After(log[..j - 1]), log[j - 1]);
    }
  }

  /** Where the client stands at j, seen from the connection that attempt i used. */
  lemma {:induction false} Track(server: Server, log: seq<Attempt>, i: nat, j: nat)
    requires LegalRun(server, log) && i < j <= |log| && log[i].Connected()
    ensures log[i].id < After(log[..j]).nextId
    ensures After(log[..j]).live.Some? ==> log[i].id <= After(log[..j]).live.value.id
    ensures After(log[..j]).live.Some? && After(log[..j]).live.value.id == log[i].id ==>
              Streak(log, i, j) && After(log[..j]).live.value == Live(log[i].id, log[i].target, log[i].index + (j - i))
    decreases j
  {
    hide After, OutcomeFits, LegalRun;
    AfterStep(log, j - 1);
    LiveIsOpened(server, log, j - 1);
    LegalAt(server, log, j - 1);
    if j > i + 1 {
      Track(server, log, i, j - 1);
    }
  }

  lemma {:induction false} LegalAt(server: Server, log: seq<Attempt>, i: nat)
    requires LegalRun(server, log) && i < |log|
    ensures Legal(server, After(log[..i]), log[i])
  {
  }

  /** No reply is read for two requests, none is read late, and no connection is used again once
      it failed, was closed by the peer or asked to be closed: attempts on one connection are
      consecutive, to one target, numbered as the server counts them, and all but the last were
      answered in full. */
  lemma {:induction false} WholeRun(server: Server, log: seq<Attempt>, i: nat, j: nat)
    requires LegalRun(server, log) && i < j < |log| && log[i].Connected() && log[j].Connected()
    ensures log[i].id <= log[j].id
    ensures log[i].id == log[j].id ==>
              Streak(log, i, j) && log[j].target == log[i].target && log[j].index == log[i].index + (j - i)
    ensures !log[i].outcome.Answered? || log[i].outcome.peerClosed || WantsClose(log[i].outcome.raw) ==>
              log[i].id < log[j].id
  {
    hide WantsClose;
    Track(server, log, i, j);
    assert Legal(server, After(log[..j]), log[j]);
  }

  /** The reply belonging to an attempt is the server's answer to that request on that connection,
      read in full unless the peer closed before its end. */
  lemma {:induction false} RawIsOwnReply(server: Server, log: seq<Attempt>, i: nat)
    requires LegalRun(server, log) && i < |log|
    requires log[i].outcome.Answered? || log[i].outcome.BadResponse?
    ensures var reply := server(log[i].id, log[i].index, log[i].request);
            log[i].outcome.raw <= reply && (log[i].outcome.raw == reply || log[i].outcome.peerClosed)
  {
    assert Legal(server, After(log[..i]), log[i]);
  }

  /** Which connection the next attempt goes out on: the same one, as its next request, exactly when the
      response was read in full, did not ask for the close and the target is the same; otherwise a
      connection that no earlier attempt used, as its first. */
  lemma {:induction false} NextConnection(server: Server, log: seq<Attempt>, i: nat)
    requires LegalRun(server, log) && i + 1 < |log|
    ensures if log[i].outcome.Answered? && !log[i].outcome.peerClosed && !WantsClose(log[i].outcome.raw) &&
               log[i + 1].target == log[i].target
            then log[i + 1].Connected() && log[i + 1].id == log[i].id && log[i + 1].index == log[i].index + 1
            else log[i + 1].index == 0 &&
                 forall k :: 0 <= k <= i && log[k].Connected() ==> log[k].id < log[i + 1].id
  {
    hide WantsClose, OutcomeFits, LegalRun, After;
    AfterStep(log, i);
    LegalAt(server, log, i + 1);
    if !log[i].Keeps() {
      FreshAfterFailure(server, log, i);
    } else {
      LiveIsOpened(server, log, i + 1);
      forall k | 0 <= k <= i && log[k].Connected()
        ensures log[k].id < After(log[..i + 1]).nextId
      {
        Track(server, log, k, i + 1);
      }
    }
  }

  /** Seen from the header lines: a reply read in full, its Connection field the only line to speak of the
      close, ends the connection exactly when that field stands with one space before options that begin
      with close. */
  lemma {:induction false} FieldDecidesConnection(server: Server, log: seq<Attempt>, i: nat, ls: seq<string>, k: nat,
                                                  f: ConnectionField, body: string)
    requires LegalRun(server, log) && i + 1 < |log| && log[i].outcome.Answered? && !log[i].outcome.peerClosed
    requires server(log[i].id, log[i].index, log[i].request) == Message(ls, body) && log[i + 1].target == log[i].target
    requires AllLines(ls) && k < |ls| && f.Valid() && ls[k] == f.Line()
    requires forall j :: 0 <= j < |ls| && j != k ==> !LineHas(ls[j], CLOSE)
    ensures if f.ws == " " && "close" <= ToLower(f.options) then log[i + 1].index == 0 && log[i].id < log[i + 1].id
            else log[i + 1].id == log[i].id && log[i + 1].index == log[i].index + 1
  {
    hide WantsClose, LegalRun, After, MessageComplete, LineHas, Message, ToLower, ConnectionField.Valid, ConnectionField.Line;
    LegalAt(server, log, i);
    NextConnection(server, log, i);
    FieldDecidesClose(ls, k, f, body);
  }

  /** An attempt that follows one that failed, was closed by the peer or was answered with a wish to close
      starts on a new connection. */
  lemma {:induction false} FreshAfterFailure(server: Server, log: seq<Attempt>, i: nat)
    requires LegalRun(server, log) && i + 1 < |log|
    requires !log[i].outcome.Answered? || log[i].outcome.peerClosed || WantsClose(log[i].outcome.raw)
    ensures log[i + 1].index == 0
    ensures forall k :: 0 <= k <= i && log[k].Connected() ==> log[k].id < log[i + 1].id
  {
    hide WantsClose;
    AfterStep(log, i);
    assert Legal(server, After(log[..i + 1]), log[i + 1]);
    forall k | 0 <= k <= i && log[k].Connected()
      ensures log[k].id < log[i + 1].id
    {
      Track(server, log, k, i + 1);
    }
  }

  // ---- what a peer was sent ----

  /** Some attempt put this request on the connection in full, as the k-th. */
  predicate Sent(log: seq<Attempt>, id: nat, k: nat, request: string) {
    exists j :: 0 <= j < |log| && Delivers(log[j], id, k, request)
  }

  predicate Delivers(a: Attempt, id: nat, k: nat, request: string) {
    a.Connected() && !a.outcome.SendFailed? && a.id == id && a.index == k && a.request == request
  }

  /** Some attempt failed on the connection with this much of its request sent. */
  predicate Unfinished(log: seq<Attempt>, id: nat, rest: string) {
    exists j :: 0 <= j < |log| && BreaksOff(log[j], id, rest)
  }

  predicate BreaksOff(a: Attempt, id: nat, rest: string) {
    a.outcome.SendFailed? && a.id == id && rest < a.request
  }

  /** Whole requests and the part of an unfinished one, each put there by an attempt. */
  ghost predicate Traced(log: seq<Attempt>, id: nat, requests: seq<string>, rest: string) {
    && (forall k :: 0 <= k < |requests| ==> Sent(log, id, k, requests[k]))
    && (rest != "" ==> Unfinished(log, id, rest))
  }

  lemma {:induction false} SentMore(log: seq<Attempt>, a: Attempt, id: nat, k: nat, request: string)
    ensures Sent(log, id, k, request) || Delivers(a, id, k, request) ==> Sent(log + [a], id, k, request)
  {
    hide Delivers;
    var more := log + [a];
    assert more[|log|] == a;
    if Sent(log, id, k, request) {
      var j :| 0 <= j < |log| && Delivers(log[j], id, k, request);
      assert Delivers(more[j], id, k, request);
    }
  }

  lemma {:induction false} UnfinishedMore(log: seq<Attempt>, a: Attempt, id: nat, rest: string)
    ensures Unfinished(log, id, rest) || BreaksOff(a, id, rest) ==> Unfinished(log + [a], id, rest)
  {
    hide BreaksOff;
    var more := log + [a];
    assert more[|log|] == a;
    if Unfinished(log, id, rest) {
      var j :| 0 <= j < |log| && BreaksOff(log[j], id, rest);
      assert BreaksOff(more[j], id, rest);
    }
  }

  lemma {:induction false} TracedMore(log: seq<Attempt>, a: Attempt, id: nat, requests: seq<string>, rest: string)
    requires Traced(log, id, requests, rest)
    ensures Traced(log + [a], id, requests, rest)
  {
    hide Sent, Unfinished, Delivers, BreaksOff;
    forall k | 0 <= k < |requests|
      ensures Sent(log + [a], id, k, requests[k])
    {
      SentMore(log, a, id, k, requests[k]);
    }
    UnfinishedMore(log, a, id, rest);
  }

  lemma {:induction false} TracedRequest(log: seq<Attempt>, a: Attempt, requests: seq<string>)
    requires Traced(log, a.id, requests, "") && a.Connected() && !a.outcome.SendFailed? && a.index == |requests|
    ensures Traced(log + [a], a.id, requests + [a.request], "")
  {
    hide Sent, Unfinished;
    TracedMore(log, a, a.id, requests, "");
    SentMore(log, a, a.id, |requests|, a.request);
  }

  lemma {:induction false} TracedPart(log: seq<Attempt>, a: Attempt, requests: seq<string>, rest: string)
    requires Traced(log, a.id, requests, "") && a.outcome.SendFailed? && rest < a.request
    ensures Traced(log + [a], a.id, requests, rest)
  {
    hide Sent, Unfinished;
    TracedMore(log, a, a.id, requests, "");
    UnfinishedMore(log, a, a.id, rest);
  }

  /** When every request of the run is self-delimiting, a connection's bytes are taken apart into exactly the
      requests that went out on it in full, and nothing else. */
  lemma {:induction false} StreamOfRun(log: seq<Attempt>, id: nat, requests: seq<string>, rest: string)
    requires Traced(log, id, requests, rest) && forall j :: 0 <= j < |log| ==> SelfDelimiting(log[j].request)
    ensures SplitMessages(Concat(requests) + rest) == requests
  {
    hide MessageComplete, SplitMessages, Concat;
    forall k | 0 <= k < |requests|
      ensures SelfDelimiting(requests[k])
    {
      assert Sent(log, id, k, requests[k]);
      var j :| 0 <= j < |log| && Delivers(log[j], id, k, requests[k]);
    }
    NothingIsIncomplete();
    if rest != "" {
      assert Unfinished(log, id, rest);
      var j :| 0 <= j < |log| && BreaksOff(log[j], id, rest);
      assert rest == log[j].request[..|rest|];
    }
    StreamRecovered(requests, rest);
  }
}
