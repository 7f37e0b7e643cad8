/** The keep-alive connection holder and its transport: sendAll, readFramed, ensureConnected and
    roundTrip, over a byte channel whose partial writes, read sizes, failures and closes are
    left open. */
module Transports {
  import opened Wrappers
  import opened Text
  import opened Framing
  import opened Response
  import opened Endpoints
  import opened FramedReader
  import opened Sessions

  const BUFFER_SIZE: nat := 4096

  /** An established connection. The peer answers each request that has arrived in full. */
  class Connection {
    const id: nat
    const target: Target
    const server: Server
    var unread: string             // issued by the peer, not yet received
    ghost var wire: string         // everything put on the wire
    var requests: seq<string>      // those that arrived at the peer in full
    ghost var rest: string         // put on the wire after them, by a send that failed
    ghost var events: seq<RecvEvent>
    ghost var open: bool

    constructor (id: nat, target: Target, server: Server)
      ensures this.id == id && this.target == target && this.server == server
      ensures unread == "" && wire == "" && requests == [] && rest == "" && events == [] && open
    {
      this.id, this.target, this.server := id, target, server;
      unread, wire, requests, rest, events, open := "", "", [], "", [], true;
    }

    /** ::send / SSL_write: some bytes from the front, or a failure. */
    method Send(data: string) returns (n: int)
      requires open && data != ""
      modifies `wire
      ensures n <= |data|
      ensures wire == old(wire) + data[..if n > 0 then n else 0]
    {
      if * {
        n := -1;
      } else {
        n :| 0 <= n <= |data|;
      }
      wire := wire + data[..if n > 0 then n else 0];
    }

    /** On normal return exactly the data is on the wire, in order, and the peer has the request. */
    method SendAll(data: string) returns (r: Result<()>)
      requires open && rest == ""
      modifies `wire, `requests, `rest, `unread
      ensures r.Ok? ==>
                wire == old(wire) + data && rest == "" && requests == old(requests) + [data] &&
                unread == old(unread) + server(id, |old(requests)|, data)
      ensures r.Err? ==>
                wire == old(wire) + rest && rest < data &&
                requests == old(requests) && unread == old(unread)
    {
      var sent := 0;
      while sent < |data|
        invariant 0 <= sent <= |data|
        invariant wire == old(wire) + data[..sent]
        invariant requests == old(requests) && unread == old(unread) && rest == ""
      {
        var n := Send(data[sent..]);
        if n <= 0 {
          assert data[..sent] + data[sent..][..0] == data[..sent];
          rest := data[..sent];
          return Err(if target.tls then "TLS send failed" else "HTTP send failed");
        }
        assert data[..sent] + data[sent..][..n] == data[..sent + n];
        sent := sent + n;
      }
      unread := unread + server(id, |requests|, data);
      requests := requests + [data];
      r := Ok(());
    }

    /** recvSome: at least one and at most `size` of the unread bytes, or the peer's close, or an
        error; a TLS transport reports an error as a close. */
    method RecvSome(size: nat) returns (event: RecvEvent)
      requires open && size > 0
      modifies `unread, `events
      ensures events == old(events) + [event]
      ensures event.Data? ==> event.bytes != "" && |event.bytes| <= size && old(unread) == event.bytes + unread
      ensures !event.Data? ==> unread == old(unread)
      ensures target.tls ==> !event.RecvFailed?
    {
      var arrives, closes: bool := *, *;
      if unread != "" && arrives {
        var n: nat :| 1 <= n <= |unread| && n <= size;
        event := Data(unread[..n]);
        unread := unread[n..];
      } else if closes {
        event := PeerClosed;
      } else {
        event := if target.tls then PeerClosed else RecvFailed;
      }
      events := events + [event];
    }

    /** Reads until the message is complete or the peer closes. */
    method ReadFramed() returns (r: Result<(string, bool)>)
      requires open
      modifies `unread, `events
      ensures |old(events)| <= |events|
      ensures match ReadFrom("", events[|old(events)|..])
              case Complete(raw) => r == Ok((raw, false))
              case Closed(raw) => r == Ok((raw, true))
              case Failed => r.Err?
              case Waiting(_) => false
      ensures r.Ok? ==> r.value.0 != "" && old(unread) == r.value.0 + unread
      ensures r.Ok? ==> (r.value.1 <==> !MessageComplete(r.value.0))
    {
      hide MessageComplete, Reads, ReadFrom;
      var raw, serverClosed := "", false;
      ghost var seen: seq<RecvEvent> := [];
      NothingIsIncomplete();
      ReadsNothing();
      while !MessageComplete(raw)
        invariant events == old(events) + seen
        invariant Reads(seen, raw)
        invariant old(unread) == raw + unread
        decreases |unread|
      {
        var event := RecvSome(BUFFER_SIZE);
        if event.RecvFailed? {
          ReadsEnd(seen, raw, event);
          assert events[|old(events)|..] == seen + [event];
          return Err("HTTP recv failed");
        }
        if event.PeerClosed? {
          ReadsEnd(seen, raw, event);
          seen := seen + [event];
          serverClosed := true;
          break;
        }
        ReadsMore(seen, raw, event.bytes);
        seen := seen + [event];
        raw := raw + event.bytes;
      }
      assert events[|old(events)|..] == seen;
      if !serverClosed {
        ReadsAll(seen, raw);
      }
      if raw == "" {
        return Err("HTTP read failed: empty response");
      }
      r := Ok((raw, serverClosed));
    }

    /** The destructor: the descriptor is closed. */
    ghost method Close()
      modifies `open
      ensures !open
    {
      open := false;
    }
  }

  /** The persistent connection holder. `history` lists every transport it ever opened, `log` every
      attempt it ever made. */
  class HttpConnection {
    const server: Server
    var transport: Connection?
    var host: string
    var port: int
    var tls: bool
    var history: seq<Connection>   // with its length the next id
    ghost var log: seq<Attempt>

    ghost function Stored(): Target
      reads `host, `port, `tls
    {
      Target(host, port, tls)
    }

    ghost function State(): Client
      reads this, transport
    {
      Client(if transport == null then None else Some(Live(transport.id, Stored(), |transport.requests|)), |history|)
    }

    /** At most one transport is open, namely the one held; it is the newest, and its real target is
        the stored one. */
    ghost predicate Owned()
      reads `history, `transport, `host, `port, `tls, history, transport
    {
      && (forall i :: 0 <= i < |history| ==> history[i].id == i && history[i].server == server)
      && (forall i :: 0 <= i < |history| && history[i].open ==> history[i] == transport)
      && (transport != null ==>
            history != [] && transport == history[|history| - 1] && transport.open &&
            transport.target == Stored())
    }

    /** A transport kept for reuse has nothing left to read, and carried nothing but whole requests. */
    ghost predicate Tidy()
      reads `history, `transport, `host, `port, `tls, history, transport
    {
      Owned() && (transport != null ==> transport.unread == "" && transport.rest == "")
    }

    /** On every transport ever opened stand the requests that went out in full, in order, and at most a
        proper part of one whose sending failed; each was put there by an attempt of the log. */
    ghost predicate Written()
      reads `history, `log, history
    {
      forall i :: 0 <= i < |history| ==> Accounted(log, i, history[i])
    }

    /** Every attempt that got a transport used one opened for its own target, and a request that
        was answered is the one the peer has at that place. */
    ghost predicate Recorded()
      reads this, history
    {
      forall i :: 0 <= i < |log| && log[i].Connected() ==>
        log[i].id < |history| && history[log[i].id].target == log[i].target &&
        (log[i].outcome.SendFailed? ||
         (log[i].index < |history[log[i].id].requests| &&
          history[log[i].id].requests[log[i].index] == log[i].request))
    }

    ghost predicate Valid()
      reads this, history, transport
    {
      Tidy() && Recorded() && Written() && LegalRun(server, log) && After(log) == State()
    }

    /** A peer that ends requests where the client's own test ends them sees, on every connection of the run,
        exactly the requests that went out on it. */
    lemma {:induction false} StreamsRecovered()
      requires Valid() && forall j :: 0 <= j < |log| ==> SelfDelimiting(log[j].request)
      ensures forall i :: 0 <= i < |history| ==> SplitMessages(history[i].wire) == history[i].requests
    {
      hide SplitMessages, SelfDelimiting, Concat, Traced;
      forall i | 0 <= i < |history|
        ensures SplitMessages(history[i].wire) == history[i].requests
      {
        assert Accounted(log, i, history[i]);
        StreamOfRun(log, i, history[i].requests, history[i].rest);
      }
    }

    constructor (server: Server)
      ensures Valid() && this.server == server && log == [] && history == [] && transport == null
    {
      this.server := server;
      transport, host, port, tls := null, "", 0, false;
      history, log := [], [];
    }

    ghost method Record(a: Attempt)
      requires LegalRun(server, log) && Legal(server, After(log), a)
      modifies `log
      ensures log == old(log) + [a]
      ensures LegalRun(server, log) && After(log) == Next(After(old(log)), a)
      ensures old(Recorded()) && !a.Connected() ==> Recorded()
      ensures old(Written()) ==> Written()
    {
      hide Traced, LegalRun, After, Legal, Concat;
      ExtendRun(server, log, a);
      if Written() {
        forall i | 0 <= i < |history|
          ensures Accounted(log + [a], i, history[i])
        {
          assert Accounted(log, i, history[i]);
          TracedMore(log, a, i, history[i].requests, history[i].rest);
        }
      }
      log := log + [a];
    }

    method Drop()
      requires Owned()
      modifies `transport, `host, `port, `tls, if transport == null then {} else {transport}
      ensures transport == null && Tidy()
      ensures old(Recorded()) ==> Recorded()
      ensures old(Written()) ==> Written()
    {
      hide Traced, Concat;
      ghost var before := history;
      assert Written() ==> forall i :: 0 <= i < |history| ==> Accounted(log, i, history[i]);
      if transport != null {
        transport.Close();
      }
      transport := null;
      host := "";
      port := 0;
      tls := false;
    }

    /** Name resolution, connect and, for TLS, the handshake: any of it may fail. */
    method Connect(target: Target) returns (r: Result<Connection>)
      ensures r.Ok? ==> fresh(r.value) && r.value.id == |history| && r.value.target == target && r.value.server == server
      ensures r.Ok? ==> r.value.open && r.value.unread == "" && r.value.wire == "" && r.value.requests == [] && r.value.rest == ""
    {
      var fails: bool := *;
      if fails {
        return Err("connect failed");
      }
      var connection := new Connection(|history|, target, server);
      r := Ok(connection);
    }

    /** The live transport for the endpoint, reused when it already targets it, otherwise a new one. */
    method EnsureConnected(ep: Endpoint) returns (r: Result<Connection>)
      requires Tidy() && Recorded() && Written()
      modifies `transport, `host, `port, `tls, `history, if transport == null then {} else {transport}
      ensures Tidy() && Recorded() && Written()
      ensures r.Ok? ==> transport == r.value && Stored() == TargetOf(ep)
      ensures r.Ok? ==> r.value.target.host == ep.host && r.value.target.port == ep.port && r.value.target.tls == ep.tls
      ensures r.Ok? && old(State()).Reuses(TargetOf(ep)) ==>
                transport == old(transport) && history == old(history) && r.value.requests == old(transport.requests)
      ensures r.Ok? && !old(State()).Reuses(TargetOf(ep)) ==>
                fresh(r.value) && history == old(history) + [r.value] && r.value.requests == [] && r.value.id == |old(history)|
      ensures r.Err? ==> !old(State()).Reuses(TargetOf(ep)) && transport == null && history == old(history)
    {
      if transport != null && host == ep.host && port == ep.port && tls == ep.tls {
        return Ok(transport);
      }
      Drop();
      r := Reconnect(ep);
    }

    /** Opens a transport for the endpoint and stores its target. */
    method Reconnect(ep: Endpoint) returns (r: Result<Connection>)
      requires transport == null && Tidy() && Recorded() && Written()
      modifies `transport, `host, `port, `tls, `history
      ensures Tidy() && Recorded() && Written()
      ensures r.Ok? ==> transport == r.value && Stored() == TargetOf(ep) && fresh(r.value) &&
                        history == old(history) + [r.value] && r.value.requests == [] && r.value.id == |old(history)|
      ensures r.Err? ==> transport == null && history == old(history)
    {
      var connected := Connect(TargetOf(ep));
      if connected.Err? {
        return Err(connected.error);
      }
      transport := connected.value;
      host := ep.host;
      port := ep.port;
      tls := ep.tls;
      history := history + [transport];
      r := Ok(transport);
    }

    /** Sends, reads and parses on an open transport: everything between connecting and deciding
        whether to keep the connection. */
    method Exchange(connection: Connection, request: string) returns (o: Outcome)
      requires connection.open && connection.unread == "" && connection.rest == ""
      requires WellFramed(connection.server)
      modifies connection`wire, connection`requests, connection`rest, connection`unread, connection`events
      ensures !o.ConnectFailed?
      ensures OutcomeFits(connection.server(connection.id, |old(connection.requests)|, request), o)
      ensures !o.SendFailed? ==> connection.requests == old(connection.requests) + [request]
      ensures !o.SendFailed? ==> connection.wire == old(connection.wire) + request && connection.rest == ""
      ensures o.SendFailed? ==> connection.wire == old(connection.wire) + connection.rest && connection.rest < request
      ensures o.SendFailed? ==> connection.requests == old(connection.requests)
      ensures o.Answered? && !o.peerClosed ==> connection.unread == ""
    {
      hide MessageComplete, ReadFrom, ParseHttpResponse;
      ghost var reply := connection.server(connection.id, |connection.requests|, request);
      assert reply != "" && NeverEarly(reply);
      var sent := connection.SendAll(request);
      if sent.Err? {
        return SendFailed(sent.error);
      }
      assert connection.unread == reply;
      var read := connection.ReadFramed();
      if read.Err? {
        return ReadFailed(read.error);
      }
      var (raw, peerClosed) := read.value;
      ReadInStep(reply, raw, connection.unread, peerClosed);
      var response := Response.Parse(raw);
      o := if response.Ok? then Answered(raw, peerClosed, response.value) else BadResponse(raw, peerClosed, response.error);
    }

    /** The exchange on the transport held, entered in the log. */
    method Serve(target: Target, connection: Connection, request: string) returns (o: Outcome)
      requires Tidy() && Recorded() && Written() && connection == transport && Stored() == target
      requires LegalRun(server, log) && WellFramed(server)
      requires var c := After(log);
               if c.Reuses(target) then connection.id == c.live.value.id && |connection.requests| == c.live.value.served
               else connection.id == c.nextId && connection.requests == []
      modifies `log, connection`wire, connection`requests, connection`rest, connection`unread, connection`events
      ensures Owned() && Recorded() && Written() && LegalRun(server, log)
      ensures !o.ConnectFailed?
      ensures log == old(log) + [Attempt(target, request, connection.id, |old(connection.requests)|, o)]
      ensures After(log) == Next(After(old(log)), log[|old(log)|])
      ensures o.Answered? && !o.peerClosed ==>
                connection.unread == "" && |connection.requests| == |old(connection.requests)| + 1 &&
                connection.rest == ""
    {
      hide LegalRun, After, OutcomeFits, Concat, Traced;
      ghost var before, requests := log, connection.requests;
      assert Accounted(log, |history| - 1, connection);
      o := Exchange(connection, request);
      ghost var a := Attempt(target, request, connection.id, |requests|, o);
      Record(a);
      AccountedAfter(before, a, requests, connection);
      forall i | 0 <= i < |history|
        ensures Accounted(log, i, history[i])
      {
        if history[i] != connection {
          assert old(Accounted(log, i, history[i]));
          TracedMore(before, a, i, history[i].requests, history[i].rest);
        }
      }
    }

    /** One keep-alive round trip. Whatever fails, the connection is dropped. */
    method RoundTrip(ep: Endpoint, request: string) returns (r: Result<HttpResponse>)
      requires Valid() && WellFramed(server)
      modifies this, if transport == null then {} else {transport}
      ensures Valid()
      ensures |log| == |old(log)| + 1 && log[..|old(log)|] == old(log)
      ensures log[|old(log)|].target == TargetOf(ep) && log[|old(log)|].request == request
      ensures var t := log[|old(log)|].target; t.host == ep.host && t.port == ep.port && t.tls == ep.tls
      ensures r == OutcomeResult(log[|old(log)|].outcome)
      ensures var o := log[|old(log)|].outcome;
              transport != null <==> o.Answered? && !o.peerClosed && !WantsClose(o.raw)
      ensures old(history) <= history
      ensures transport != null ==> transport == old(transport) || fresh(transport)
    {
      hide LegalRun, After, OutcomeFits, WellFramed, WantsClose, Concat, Recorded, Owned, Written;
      var connected := EnsureConnected(ep);
      if connected.Err? {
        Drop();
        ghost var a := Attempt(TargetOf(ep), request, |history|, 0, ConnectFailed(connected.error));
        ConnectFailureIsLegal(server, After(log), a);
        Record(a);
        return Err(connected.error);
      }
      var o := Serve(TargetOf(ep), connected.value, request);
      if !o.Answered? || o.peerClosed || WantsClose(o.raw) {
        Drop();
      }
      r := OutcomeResult(o);
    }
  }

  /** The bytes on a connection are its requests and the part of an unfinished one, all of them traced. */
  ghost predicate Accounted(log: seq<Attempt>, id: nat, c: Connection)
    reads c
  {
    c.wire == Concat(c.requests) + c.rest && Traced(log, id, c.requests, c.rest)
  }

  lemma {:induction false} AccountedAfter(log: seq<Attempt>, a: Attempt, requests: seq<string>, c: Connection)
    requires Traced(log, a.id, requests, "") && a.Connected() && a.index == |requests|
    requires if a.outcome.SendFailed? then c.requests == requests && c.rest < a.request
             else c.requests == requests + [a.request] && c.rest == ""
    requires c.wire == Concat(requests) + if a.outcome.SendFailed? then c.rest else a.request
    ensures Accounted(log + [a], a.id, c)
  {
    hide Traced, Concat;
    if a.outcome.SendFailed? {
      TracedPart(log, a, requests, c.rest);
    } else {
      TracedRequest(log, a, requests);
      ConcatMore(requests, a.request);
      assert Concat(c.requests) + "" == Concat(c.requests);
    }
  }

  /** What the caller of a round trip sees of it. */
  function OutcomeResult(o: Outcome): Result<HttpResponse> {
    if o.Answered? then Ok(o.response) else Err(o.error)
  }

  lemma {:induction false} ReadInStep(reply: string, raw: string, rest: string, peerClosed: bool)
    requires NeverEarly(reply) && reply == raw + rest && raw != ""
    requires peerClosed <==> !MessageComplete(raw)
    ensures InStep(reply, raw, peerClosed)
    ensures !peerClosed ==> rest == ""
  {
    hide MessageComplete;
    assert raw == reply[..|raw|];
  }

  function TargetOf(ep: Endpoint): Target {
    Target(ep.host, ep.port, ep.tls)
  }
}
