/**
 `WebsocketServer`: its handler slots, its registry of connections, and one
 iteration of the `listen` loop as a pure transition.

 Everything the loop gets from the operating system is an input of the
 iteration (`Env`): what `socket_select` reports ready, what `socket_accept`
 and the handshake read and write return, and what `socket_recv` returns for
 each socket. Everything it does to the outside is an output (`Effect`): the
 handshake response it writes and the handler invocations, in order. Handlers
 are identified, never run.
 */
module WebsocketServer {
  import opened Php
  import opened Websocket
  import opened Registry
  import Frames
  import Handshake

  /** Bytes one `socket_recv` call asks for. */
  const RecvLimit: nat := 2048

  /** Bytes the `socket_read` of the handshake request asks for. */
  const ReadLimit: nat := 5000

  datatype Server = Server(
    address: string,
    port: int,
    listener: Socket,
    clients: seq<Entry>,
    nextKey: nat,
    onConnect: Option<Handler>,
    onDisconnect: Option<Handler>,
    onError: Option<Handler>)

  /** The registry invariant that the PHP array and the loop maintain. */
  ghost predicate Valid(s: Server)
  {
    && KeysAscending(s.clients)
    && (forall e :: e in s.clients ==> e.key < s.nextKey)
    && SocketsDistinct(s.clients)
  }

  // ---------------------------------------------------------------------------
  // Construction and handler registration

  /** The constructor, given the socket `socket_create` returned: no clients, no handlers. */
  function Create(address: string, port: int, listener: Socket): (s: Server)
    ensures s.address == address && s.port == port && s.listener == listener
    ensures s.clients == [] && s.nextKey == 0
    ensures s.onConnect.None? && s.onDisconnect.None? && s.onError.None?
  {
    Server(address, port, listener, [], 0, None, None, None)
  }

  /** Start of `listen`: the listening socket joins `$clients` so it is polled like a client. */
  function StartListening(s: Server): (r: Server)
    ensures r == s.(clients := r.clients, nextKey := s.nextKey + 1)
    ensures r.clients == s.clients + [Entry(s.nextKey, New(s.listener))]
    ensures Valid(s) && (forall e :: e in s.clients ==> e.conn.socket != s.listener) ==> Valid(r)
  {
    AppendKeepsValid(s, New(s.listener));
    s.(clients := s.clients + [Entry(s.nextKey, New(s.listener))], nextKey := s.nextKey + 1)
  }

  /** A freshly started server holds exactly the sentinel for its listening socket, at key 0. */
  lemma StartedServer(address: string, port: int, listener: Socket)
    ensures var s := StartListening(Create(address, port, listener));
            Valid(s) && s.clients == [Entry(0, New(listener))] && s.nextKey == 1
  {
  }

  /**
   `on($event, $callable)`: "connection", "disconnect" and "error" each fill
   their own slot, replacing what was there; any other name changes nothing.
   */
  function On(s: Server, event: string, f: Handler): (r: Server)
    ensures event == "connection" ==> r == s.(onConnect := Some(f))
    ensures event == "disconnect" ==> r == s.(onDisconnect := Some(f))
    ensures event == "error" ==> r == s.(onError := Some(f))
    ensures event != "connection" && event != "disconnect" && event != "error" ==> r == s
  {
    match event
    case "connection" => s.(onConnect := Some(f))
    case "disconnect" => s.(onDisconnect := Some(f))
    case "error" => s.(onError := Some(f))
    case _ => s
  }

  /** The last registration for an event wins. */
  lemma OnLastWins(s: Server, event: string, f: Handler, g: Handler)
    ensures On(On(s, event, f), event, g) == On(s, event, g)
  {
  }

  /** Registrations for different events do not interfere. */
  lemma OnCommutes(s: Server, e1: string, e2: string, f: Handler, g: Handler)
    requires e1 != e2
    ensures On(On(s, e1, f), e2, g) == On(On(s, e2, g), e1, f)
  {
  }

  // ---------------------------------------------------------------------------
  // Inputs and outputs of one iteration

  datatype Poll = PollFailed(code: nat, reason: string) | Polled(ready: set<Socket>)
  datatype WriteResult = Written | WriteFailed(code: nat, reason: string)
  /**
   `socket_accept` failing, or the accepted socket with: the request text
   waiting on it, the fate of the reply written to it, and the `message`
   handler, if any, that the connect handler installs with `$ws->on(...)` on
   the connection it is handed.
   */
  datatype Accept =
    | AcceptFailed
    | Accepted(socket: Socket, pending: string, write: WriteResult, installs: Option<Handler>)
  /**
   `socket_recv` returning `false`, or the bytes waiting on the socket. A peer
   that closed its end normally makes `socket_recv` return 0, not `false`: that
   is `Received([])`, which the loop treats as an empty message.
   */
  datatype Recv = RecvFailed | Received(pending: Frames.Bytes)

  datatype Env = Env(poll: Poll, accept: Accept, recv: Socket -> Recv, crypto: Handshake.Crypto)

  datatype Effect =
    | HandshakeWrite(socket: Socket, response: string)
    | Connected(handler: Handler, key: nat, conn: Connection)
    | Disconnected(handler: Handler)
    | Errored(handler: Handler, message: string)
    | Messaged(handler: Handler, key: nat, conn: Connection, payload: Frames.Bytes)

  datatype Iteration = Iteration(server: Server, effects: seq<Effect>, returned: bool)

  /** `"[" . socket_last_error() . "]" . " " . socket_strerror(...)`. */
  function ErrorMessage(code: nat, reason: string): (m: string)
    ensures var d := |Decimal(code)|;
            && |m| == d + 3 + |reason|
            && m[0] == '[' && m[d + 1 .. d + 3] == "] " && m[d + 3 ..] == reason
            && (forall i :: 1 <= i <= d ==> IsDigit(m[i]))
            && ParseDecimal(m[1 .. d + 1]) == code
  {
    DecimalRoundTrip(code);
    var m := "[" + Decimal(code) + "]" + " " + reason;
    assert m[1 .. |Decimal(code)| + 1] == Decimal(code);
    m
  }

  function ErrorCall(slot: Option<Handler>, code: nat, reason: string): seq<Effect>
  {
    match slot
    case None => []
    case Some(h) => [Errored(h, ErrorMessage(code, reason))]
  }

  function ConnectCall(slot: Option<Handler>, key: nat, ws: Connection): seq<Effect>
  {
    match slot
    case None => []
    case Some(h) => [Connected(h, key, ws)]
  }

  function DisconnectCall(slot: Option<Handler>): seq<Effect>
  {
    match slot
    case None => []
    case Some(h) => [Disconnected(h)]
  }

  /** What one `socket_recv($client, $buffer, 2048, 0)` puts into `$buffer`. */
  function Buffer(pending: Frames.Bytes): (b: Frames.Bytes)
    ensures |b| <= RecvLimit && b <= pending
    ensures |pending| <= RecvLimit ==> b == pending
  {
    pending[..Min(|pending|, RecvLimit)]
  }

  /** What one `socket_read($socket, 5000)` returns of the request waiting on the socket. */
  function Request(pending: string): (r: string)
    ensures |r| <= ReadLimit && r <= pending
    ensures |pending| <= ReadLimit ==> r == pending
  {
    pending[..Min(|pending|, ReadLimit)]
  }

  /**
   The connection as `$clients` holds it once the connect handler has run.
   `$ws` is one object shared by `$clients` and the handler, so a `message`
   handler the connect handler installs is the registered connection's.
   */
  function Registered(onConnect: Option<Handler>, accept: Accept): (c: Connection)
    requires accept.Accepted?
    ensures c.socket == accept.socket
    ensures c.onMessage == if onConnect.Some? then accept.installs else None
  {
    var ws := New(accept.socket);
    if onConnect.Some? && accept.installs.Some? then Websocket.On(ws, "message", accept.installs.value) else ws
  }

  // ---------------------------------------------------------------------------
  // The accept stage (lines 57-79)

  datatype AcceptStage = AcceptStage(server: Server, read: seq<Ready>, effects: seq<Effect>, abandoned: bool)

  /**
   If the listening socket is among the ready ones: accept, answer the
   handshake, and on success register the connection, call the connect
   handler and take the listening socket out of `$read`. A failed reply
   abandons the whole iteration (`continue`); a failed accept leaves `$read`
   as it is.
   */
  function AcceptPhase(s: Server, read: seq<Ready>, accept: Accept, crypto: Handshake.Crypto): (a: AcceptStage)
    ensures a.server == s.(clients := a.server.clients, nextKey := a.server.nextKey)
    ensures || a.server.clients == s.clients
            || (accept.Accepted? && a.server.clients == s.clients + [Entry(s.nextKey, Registered(s.onConnect, accept))])
    ensures a.server.nextKey == s.nextKey + (if a.server.clients == s.clients then 0 else 1)
    ensures a.abandoned ==> a.server == s && a.read == read
    ensures forall x :: x in a.read ==> x in read
  {
    match IndexOfSocket(read, s.listener)
    case None => AcceptStage(s, read, [], false)
    case Some(i) =>
      match accept
      case AcceptFailed => AcceptStage(s, read, [], false)
      case Accepted(socket, pending, write, _) =>
        var wrote := HandshakeWrite(socket, Handshake.HandshakeResponse(crypto, Request(pending)));
        match write
        case WriteFailed(code, reason) =>
          AcceptStage(s, read, [wrote] + ErrorCall(s.onError, code, reason), true)
        case Written =>
          var conn := Registered(s.onConnect, accept);
          var s' := s.(clients := s.clients + [Entry(s.nextKey, conn)], nextKey := s.nextKey + 1);
          AcceptStage(s', read[..i] + read[i + 1 ..], [wrote] + ConnectCall(s.onConnect, s.nextKey, New(socket)), false)
  }

  // ---------------------------------------------------------------------------
  // The dispatch loop (lines 81-104)

  /** One pass of the `foreach`: drop the client on a failed receive, else deliver the decoded buffer. */
  function DispatchOne(s: Server, x: Ready, outcome: Recv): (Server, seq<Effect>)
  {
    match outcome
    case RecvFailed =>
      (s.(clients := Remove(s.clients, x.key)), DisconnectCall(s.onDisconnect))
    case Received(pending) =>
      match Lookup(s.clients, x.key)
      case None => (s, [])
      case Some(ws) =>
        match ws.onMessage
        case None => (s, [])
        case Some(h) => (s, [Messaged(h, x.key, ws, Frames.Unmask(Buffer(pending)))])
  }

  /** The `foreach ($read as $key => $client)` loop: only ever unsets entries. */
  function Dispatch(s: Server, read: seq<Ready>, recv: Socket -> Recv): (r: (Server, seq<Effect>))
    ensures r.0 == s.(clients := r.0.clients)
    ensures forall e :: e in r.0.clients ==> e in s.clients
    decreases |read|
  {
    if |read| == 0 then (s, [])
    else
      var (s1, out1) := DispatchOne(s, read[0], recv(read[0].socket));
      var (s2, out2) := Dispatch(s1, read[1..], recv);
      (s2, out1 + out2)
  }

  // ---------------------------------------------------------------------------
  // One iteration of `do { ... } while (true)`

  /**
   One pass of the loop body. `socket_select` needs at least one socket: on
   an empty registry PHP 8 throws a `ValueError` out of `listen`, which ends
   the loop with no handler called.
   */
  function Step(s: Server, env: Env): (r: Iteration)
    ensures r.returned <==> s.clients == [] || env.poll.PollFailed?
    ensures r.returned ==> r.server == s
    ensures s.clients == [] ==> r.effects == []
    ensures r.server == s.(clients := r.server.clients, nextKey := r.server.nextKey)
    ensures s.nextKey <= r.server.nextKey
  {
    if s.clients == [] then Iteration(s, [], true)
    else match env.poll
    case PollFailed(code, reason) =>
      Iteration(s, ErrorCall(s.onError, code, reason), true)
    case Polled(ready) =>
      var read := ReadSet(s.clients, ready);
      if |read| == 0 then Iteration(s, [], false)
      else
        var a := AcceptPhase(s, read, env.accept, env.crypto);
        if a.abandoned then Iteration(a.server, a.effects, false)
        else
          var (next, out) := Dispatch(a.server, a.read, env.recv);
          Iteration(next, a.effects + out, false)
  }

  // ---------------------------------------------------------------------------
  // The dispatch loop: what it removes and what it delivers

  /** Some element of `read` under `key` saw its receive fail. */
  ghost predicate Failed(read: seq<Ready>, recv: Socket -> Recv, key: nat)
  {
    exists i :: 0 <= i < |read| && read[i].key == key && recv(read[i].socket).RecvFailed?
  }

  /** How many elements of `read` see their receive fail. */
  function CountFailed(read: seq<Ready>, recv: Socket -> Recv): nat
  {
    if |read| == 0 then 0
    else (if recv(read[0].socket).RecvFailed? then 1 else 0) + CountFailed(read[1..], recv)
  }

  lemma FailedSplit(read: seq<Ready>, recv: Socket -> Recv, key: nat)
    requires 0 < |read|
    ensures Failed(read, recv, key)
            <==> (read[0].key == key && recv(read[0].socket).RecvFailed?) || Failed(read[1..], recv, key)
  {
    if Failed(read, recv, key) {
      var i :| 0 <= i < |read| && read[i].key == key && recv(read[i].socket).RecvFailed?;
      if i > 0 {
        assert read[1..][i - 1] == read[i];
      }
    }
    if Failed(read[1..], recv, key) {
      var i :| 0 <= i < |read[1..]| && read[1..][i].key == key && recv(read[1..][i].socket).RecvFailed?;
      assert read[i + 1] == read[1..][i];
    }
  }

  /**
   The dispatch loop removes exactly the elements whose receive failed and
   touches nothing else of the server.
   */
  lemma {:induction false} DispatchRegistry(s: Server, read: seq<Ready>, recv: Socket -> Recv)
    ensures var t := Dispatch(s, read, recv).0;
            && t == s.(clients := t.clients)
            && (forall e :: e in t.clients <==> e in s.clients && !Failed(read, recv, e.key))
            && (KeysAscending(s.clients) ==> KeysAscending(t.clients))
    decreases |read|
  {
    if |read| > 0 {
      var s1 := DispatchOne(s, read[0], recv(read[0].socket)).0;
      DispatchRegistry(s1, read[1..], recv);
      if recv(read[0].socket).RecvFailed? && KeysAscending(s.clients) {
        RemoveAscending(s.clients, read[0].key);
      }
      forall k: nat
        ensures Failed(read, recv, k)
                <==> (read[0].key == k && recv(read[0].socket).RecvFailed?) || Failed(read[1..], recv, k)
      {
        FailedSplit(read, recv, k);
      }
    }
  }

  /** With unique keys, every failed receive shrinks the registry by exactly one. */
  lemma {:induction false} DispatchCount(s: Server, read: seq<Ready>, recv: Socket -> Recv)
    requires KeysAscending(s.clients) && ReadyAscending(read)
    requires forall x :: x in read ==> HasKey(s.clients, x.key)
    ensures |Dispatch(s, read, recv).0.clients| == |s.clients| - CountFailed(read, recv)
    decreases |read|
  {
    if |read| > 0 {
      var k0 := read[0].key;
      var s1 := DispatchOne(s, read[0], recv(read[0].socket)).0;
      assert ReadyAscending(read[1..]) by {
        forall i, j | 0 <= i < j < |read[1..]|
          ensures read[1..][i].key < read[1..][j].key
        {
          assert read[1..][i] == read[i + 1] && read[1..][j] == read[j + 1];
        }
      }
      forall x | x in read[1..]
        ensures HasKey(s1.clients, x.key)
      {
        var j :| 0 <= j < |read[1..]| && read[1..][j] == x;
        assert read[j + 1] == x;
        assert x in read;
        if recv(read[0].socket).RecvFailed? {
          assert k0 < x.key;
          var e :| e in s.clients && e.key == x.key;
          assert e in s1.clients;
        }
      }
      if recv(read[0].socket).RecvFailed? {
        assert read[0] in read;
        RemoveCount(s.clients, k0);
        RemoveAscending(s.clients, k0);
      }
      DispatchCount(s1, read[1..], recv);
    }
  }

  /** Element `x`, whose receive had `outcome`, is owed a call of handler `h` with `ws` and `payload`. */
  ghost predicate Delivers(clients: seq<Entry>, x: Ready, outcome: Recv, h: Handler, ws: Connection, payload: Frames.Bytes)
  {
    && outcome.Received?
    && Lookup(clients, x.key) == Some(ws)
    && ws.onMessage == Some(h)
    && payload == Frames.Unmask(Buffer(outcome.pending))
  }

  /** Some element of `read` under key `k` is owed that call. */
  ghost predicate Owed(clients: seq<Entry>, read: seq<Ready>, recv: Socket -> Recv, h: Handler, k: nat, ws: Connection, p: Frames.Bytes)
  {
    exists i :: 0 <= i < |read| && read[i].key == k && Delivers(clients, read[i], recv(read[i].socket), h, ws, p)
  }

  /** One element's dispatch makes a message call exactly when that element is owed it. */
  lemma DispatchOneMessages(s: Server, x: Ready, outcome: Recv)
    ensures forall h, k, ws, p ::
              Messaged(h, k, ws, p) in DispatchOne(s, x, outcome).1
              <==> k == x.key && Delivers(s.clients, x, outcome, h, ws, p)
  {
  }

  /** What `read` is owed splits into its first element and the rest, judged by a registry agreeing on the rest's keys. */
  lemma OwedSplit(c: seq<Entry>, c1: seq<Entry>, read: seq<Ready>, recv: Socket -> Recv)
    requires 0 < |read|
    requires forall j :: 1 <= j < |read| ==> Lookup(c1, read[j].key) == Lookup(c, read[j].key)
    ensures forall h, k, ws, p ::
              Owed(c, read, recv, h, k, ws, p)
              <==> (k == read[0].key && Delivers(c, read[0], recv(read[0].socket), h, ws, p))
                   || Owed(c1, read[1..], recv, h, k, ws, p)
  {
    forall h, k, ws, p
      ensures Owed(c, read, recv, h, k, ws, p)
              <==> (k == read[0].key && Delivers(c, read[0], recv(read[0].socket), h, ws, p))
                   || Owed(c1, read[1..], recv, h, k, ws, p)
    {
      if Owed(c1, read[1..], recv, h, k, ws, p) {
        var i :| 0 <= i < |read[1..]| && read[1..][i].key == k
                 && Delivers(c1, read[1..][i], recv(read[1..][i].socket), h, ws, p);
        assert read[i + 1] == read[1..][i];
        assert Delivers(c, read[i + 1], recv(read[i + 1].socket), h, ws, p);
      }
      if Owed(c, read, recv, h, k, ws, p) {
        var i :| 0 <= i < |read| && read[i].key == k && Delivers(c, read[i], recv(read[i].socket), h, ws, p);
        if i > 0 {
          assert read[1..][i - 1] == read[i];
          assert Delivers(c1, read[1..][i - 1], recv(read[1..][i - 1].socket), h, ws, p);
        }
      }
    }
  }

  /**
   A message call happens exactly for the elements whose receive succeeded
   and whose connection has a message handler, with the decoded buffer.
   */
  lemma {:induction false} DispatchMessages(s: Server, read: seq<Ready>, recv: Socket -> Recv)
    requires KeysAscending(s.clients) && ReadyAscending(read)
    ensures forall h, k, ws, p ::
              Messaged(h, k, ws, p) in Dispatch(s, read, recv).1
              <==> Owed(s.clients, read, recv, h, k, ws, p)
    decreases |read|
  {
    if |read| > 0 {
      var x0 := read[0];
      var (s1, out1) := DispatchOne(s, x0, recv(x0.socket));
      var out2 := Dispatch(s1, read[1..], recv).1;
      assert Dispatch(s, read, recv).1 == out1 + out2;
      assert ReadyAscending(read[1..]) by {
        forall i, j | 0 <= i < j < |read[1..]|
          ensures read[1..][i].key < read[1..][j].key
        {
          assert read[1..][i] == read[i + 1] && read[1..][j] == read[j + 1];
        }
      }
      if recv(x0.socket).RecvFailed? {
        RemoveAscending(s.clients, x0.key);
      }
      DispatchMessages(s1, read[1..], recv);
      forall j | 1 <= j < |read|
        ensures Lookup(s1.clients, read[j].key) == Lookup(s.clients, read[j].key)
      {
        if recv(x0.socket).RecvFailed? {
          LookupAfterRemove(s.clients, x0.key, read[j].key);
        }
      }
      DispatchOneMessages(s, x0, recv(x0.socket));
      OwedSplit(s.clients, s1.clients, read, recv);
      forall h, k, ws, p
        ensures Messaged(h, k, ws, p) in out1 + out2
                <==> Messaged(h, k, ws, p) in out1 || Messaged(h, k, ws, p) in out2
      {
      }
    }
  }

  function CountDisconnects(effects: seq<Effect>): nat
  {
    if |effects| == 0 then 0
    else (if effects[0].Disconnected? then 1 else 0) + CountDisconnects(effects[1..])
  }

  lemma {:induction false} CountDisconnectsAppend(a: seq<Effect>, b: seq<Effect>)
    ensures CountDisconnects(a + b) == CountDisconnects(a) + CountDisconnects(b)
  {
    if |a| == 0 {
      assert a + b == b;
    } else {
      assert (a + b)[1..] == a[1..] + b;
      CountDisconnectsAppend(a[1..], b);
    }
  }

  /**
   The dispatch loop calls only the disconnect and message handlers, and the
   disconnect handler (with no arguments) once per failed receive.
   */
  lemma {:induction false} DispatchDisconnects(s: Server, read: seq<Ready>, recv: Socket -> Recv)
    ensures var out := Dispatch(s, read, recv).1;
            && (forall eff :: eff in out ==> eff.Disconnected? || eff.Messaged?)
            && (forall eff :: eff in out && eff.Disconnected? ==> s.onDisconnect == Some(eff.handler))
            && CountDisconnects(out) == if s.onDisconnect.Some? then CountFailed(read, recv) else 0
    decreases |read|
  {
    if |read| > 0 {
      var (s1, out1) := DispatchOne(s, read[0], recv(read[0].socket));
      var out2 := Dispatch(s1, read[1..], recv).1;
      DispatchDisconnects(s1, read[1..], recv);
      CountDisconnectsAppend(out1, out2);
      assert CountDisconnects(out1) == if s.onDisconnect.Some? && recv(read[0].socket).RecvFailed? then 1 else 0;
    }
  }

  // ---------------------------------------------------------------------------
  // One iteration

  /** A failed poll reports "[code] reason" to the error handler, if any, and leaves `listen`. */
  lemma StepPollFailure(s: Server, env: Env)
    requires s.clients != [] && env.poll.PollFailed?
    ensures var r := Step(s, env);
            && r.returned && r.server == s
            && r.effects == (if s.onError.Some?
                             then [Errored(s.onError.value, ErrorMessage(env.poll.code, env.poll.reason))]
                             else [])
  {
  }

  /** When no registered socket is ready nothing happens and the loop goes round again. */
  lemma StepIdle(s: Server, env: Env)
    requires s.clients != [] && env.poll.Polled?
    requires forall e :: e in s.clients ==> e.conn.socket !in env.poll.ready
    ensures Step(s, env) == Iteration(s, [], false)
  {
  }

  /**
   The listening socket is ready in `$read`: an element wrapping it is
   registered and its socket was reported ready.
   */
  ghost predicate ListenerReady(s: Server, env: Env)
  {
    && env.poll.Polled?
    && exists e :: e in s.clients && e.conn.socket == s.listener && s.listener in env.poll.ready
  }

  lemma ListenerInReadSet(s: Server, env: Env)
    requires ListenerReady(s, env)
    ensures IndexOfSocket(ReadSet(s.clients, env.poll.ready), s.listener).Some?
  {
    var e :| e in s.clients && e.conn.socket == s.listener && s.listener in env.poll.ready;
    var read := ReadSet(s.clients, env.poll.ready);
    assert Ready(e.key, e.conn.socket) in read;
  }

  /**
   A failed handshake reply registers nothing, reports the error, and skips
   the dispatch to every other ready client.
   */
  lemma StepHandshakeFailure(s: Server, env: Env)
    requires ListenerReady(s, env)
    requires env.accept.Accepted? && env.accept.write.WriteFailed?
    ensures var r := Step(s, env);
            && !r.returned && r.server == s
            && r.effects == [HandshakeWrite(env.accept.socket, Handshake.HandshakeResponse(env.crypto, Request(env.accept.pending)))]
                            + ErrorCall(s.onError, env.accept.write.code, env.accept.write.reason)
  {
    ListenerInReadSet(s, env);
    HandshakeFailureStage(s, ReadSet(s.clients, env.poll.ready), env.accept, env.crypto);
    StepAbandons(s, env);
  }

  /** A failed reply abandons the stage with the handshake write and the error call. */
  lemma HandshakeFailureStage(s: Server, read: seq<Ready>, accept: Accept, crypto: Handshake.Crypto)
    requires IndexOfSocket(read, s.listener).Some?
    requires accept.Accepted? && accept.write.WriteFailed?
    ensures AcceptPhase(s, read, accept, crypto)
            == AcceptStage(s, read, [HandshakeWrite(accept.socket, Handshake.HandshakeResponse(crypto, Request(accept.pending)))]
                                    + ErrorCall(s.onError, accept.write.code, accept.write.reason), true)
  {
  }

  /** An iteration whose accept stage is abandoned ends with that stage. */
  lemma StepAbandons(s: Server, env: Env)
    requires env.poll.Polled?
    requires var read := ReadSet(s.clients, env.poll.ready);
             |read| > 0 && AcceptPhase(s, read, env.accept, env.crypto).abandoned
    ensures var a := AcceptPhase(s, ReadSet(s.clients, env.poll.ready), env.accept, env.crypto);
            Step(s, env) == Iteration(a.server, a.effects, false)
  {
  }

  /** The facts about `$read` that hold when the registry is valid. */
  ghost predicate ReadFrom(s: Server, read: seq<Ready>)
  {
    && ReadyAscending(read)
    && forall x :: x in read ==> exists e :: e in s.clients && e.key == x.key && e.conn.socket == x.socket
  }

  lemma ReadSetFrom(s: Server, ready: set<Socket>)
    requires Valid(s)
    ensures ReadFrom(s, ReadSet(s.clients, ready))
  {
    ReadSetAscending(s.clients, ready);
  }

  /** Appending a connection on a fresh socket at the next key keeps the registry valid. */
  lemma AppendValid(s: Server, conn: Connection)
    requires Valid(s)
    requires forall e :: e in s.clients ==> e.conn.socket != conn.socket
    ensures Valid(s.(clients := s.clients + [Entry(s.nextKey, conn)], nextKey := s.nextKey + 1))
  {
    var c := s.clients + [Entry(s.nextKey, conn)];
    assert forall e :: e in c <==> e in s.clients || e == Entry(s.nextKey, conn);
    forall p, q | 0 <= p < q < |c|
      ensures c[p].key < c[q].key
    {
      if q == |s.clients| {
        assert c[p] in s.clients;
      }
    }
  }

  lemma AppendKeepsValid(s: Server, conn: Connection)
    ensures Valid(s) && (forall e :: e in s.clients ==> e.conn.socket != conn.socket)
            ==> Valid(s.(clients := s.clients + [Entry(s.nextKey, conn)], nextKey := s.nextKey + 1))
  {
    if Valid(s) && (forall e :: e in s.clients ==> e.conn.socket != conn.socket) {
      AppendValid(s, conn);
    }
  }

  /** `$read` with the element at `i` spliced out keeps its order and loses only that element. */
  lemma SpliceOut(read: seq<Ready>, i: nat)
    requires i < |read| && ReadyAscending(read)
    ensures var r := read[..i] + read[i + 1 ..];
            && ReadyAscending(r)
            && (forall x :: x in r <==> exists j :: 0 <= j < |read| && j != i && read[j] == x)
  {
    var r := read[..i] + read[i + 1 ..];
    assert forall j :: 0 <= j < |r| ==> r[j] == read[if j < i then j else j + 1];
    forall x | x in r
      ensures exists j :: 0 <= j < |read| && j != i && read[j] == x
    {
      var j :| 0 <= j < |r| && r[j] == x;
      var m := if j < i then j else j + 1;
      assert read[m] == x;
    }
    forall j | 0 <= j < |read| && j != i
      ensures read[j] in r
    {
      if j < i {
        assert r[j] == read[j];
      } else {
        assert r[j - 1] == read[j];
      }
    }
  }

  /** The elements of `$read` after the listening socket's one is spliced out. */
  lemma SpliceOutListener(s: Server, read: seq<Ready>, i: nat)
    requires Valid(s) && ReadFrom(s, read)
    requires i < |read| && read[i].socket == s.listener
    ensures var r := read[..i] + read[i + 1 ..];
            && ReadFrom(s, r)
            && (forall x :: x in r ==> x in read && x.socket != s.listener && x.key < s.nextKey)
            && (forall x :: x in read && x.socket != s.listener ==> x in r)
  {
    var r := read[..i] + read[i + 1 ..];
    SpliceOut(read, i);
    forall x | x in r
      ensures x in read && x.socket != s.listener && x.key < s.nextKey
    {
      var j :| 0 <= j < |read| && j != i && read[j] == x;
      ReadSocketsDistinct(s.clients, read, j, i);
      assert x in read;
      var e :| e in s.clients && e.key == x.key && e.conn.socket == x.socket;
    }
    forall x | x in read && x.socket != s.listener
      ensures x in r
    {
      var j :| 0 <= j < |read| && read[j] == x;
    }
  }

  /**
   A completed handshake appends one entry, at the next key, holding the
   accepted socket with the handler the connect handler installed; it keeps
   every earlier entry, and `$read` loses its listening-socket element and
   nothing else.
   */
  lemma AcceptPhaseConnects(s: Server, read: seq<Ready>, accept: Accept, crypto: Handshake.Crypto)
    requires Valid(s) && ReadFrom(s, read)
    requires IndexOfSocket(read, s.listener).Some?
    requires accept.Accepted? && accept.write.Written?
    requires forall e :: e in s.clients ==> e.conn.socket != accept.socket
    ensures var a := AcceptPhase(s, read, accept, crypto);
            var conn := Registered(s.onConnect, accept);
            && !a.abandoned
            && a.server == s.(clients := s.clients + [Entry(s.nextKey, conn)], nextKey := s.nextKey + 1)
            && a.effects == [HandshakeWrite(accept.socket, Handshake.HandshakeResponse(crypto, Request(accept.pending)))]
                            + ConnectCall(s.onConnect, s.nextKey, New(accept.socket))
            && Valid(a.server) && ReadFrom(a.server, a.read)
            && a.read == read[..IndexOfSocket(read, s.listener).value] + read[IndexOfSocket(read, s.listener).value + 1 ..]
            && (forall x :: x in a.read ==> x in read && x.socket != s.listener && x.key < s.nextKey)
            && (forall x :: x in read && x.socket != s.listener ==> x in a.read)
  {
    var i := IndexOfSocket(read, s.listener).value;
    var a := AcceptPhase(s, read, accept, crypto);
    AppendValid(s, Registered(s.onConnect, accept));
    SpliceOutListener(s, read, i);
    assert a.read == read[..i] + read[i + 1 ..];
    assert forall e :: e in s.clients ==> e in a.server.clients;
  }

  /**
   A completed handshake registers the accepted socket at a fresh key, calls
   the connect handler (if set) once with it, keeps the listening socket out
   of the dispatch, and otherwise dispatches as usual. The registered
   connection carries the `message` handler the connect handler installed.
   */
  lemma StepConnect(s: Server, env: Env)
    requires Valid(s) && ListenerReady(s, env)
    requires env.accept.Accepted? && env.accept.write.Written?
    requires forall e :: e in s.clients ==> e.conn.socket != env.accept.socket
    ensures var r := Step(s, env);
            var ws := New(env.accept.socket);
            var conn := Registered(s.onConnect, env.accept);
            var head := [HandshakeWrite(env.accept.socket, Handshake.HandshakeResponse(env.crypto, Request(env.accept.pending)))]
                        + ConnectCall(s.onConnect, s.nextKey, ws);
            && !r.returned
            && r.server.nextKey == s.nextKey + 1
            && Entry(s.nextKey, conn) in r.server.clients
            && (forall e :: e in r.server.clients ==> e in s.clients || e == Entry(s.nextKey, conn))
            && |head| <= |r.effects|
            && r.effects[..|head|] == head
            && (forall eff :: eff in r.effects[|head|..] ==> eff.Disconnected? || eff.Messaged?)
  {
    var read := ReadSet(s.clients, env.poll.ready);
    ConnectStage(s, env);
    var a := AcceptPhase(s, read, env.accept, env.crypto);
    StepUnfold(s, env);
    var e := Entry(s.nextKey, Registered(s.onConnect, env.accept));
    DispatchAfterHead(a.server, a.read, env.recv, a.effects, e);
    var d := Dispatch(a.server, a.read, env.recv);
    ConnectShape(s, Step(s, env), d.0, d.1, a.effects, e);
  }

  /** The accept stage of a step whose listener accepts: the facts the dispatch after it needs. */
  lemma ConnectStage(s: Server, env: Env)
    requires Valid(s) && ListenerReady(s, env)
    requires env.accept.Accepted? && env.accept.write.Written?
    requires forall e :: e in s.clients ==> e.conn.socket != env.accept.socket
    ensures var read := ReadSet(s.clients, env.poll.ready);
            var a := AcceptPhase(s, read, env.accept, env.crypto);
            && |read| > 0
            && !a.abandoned
            && a.server == s.(clients := s.clients + [Entry(s.nextKey, Registered(s.onConnect, env.accept))], nextKey := s.nextKey + 1)
            && a.effects == [HandshakeWrite(env.accept.socket, Handshake.HandshakeResponse(env.crypto, Request(env.accept.pending)))]
                            + ConnectCall(s.onConnect, s.nextKey, New(env.accept.socket))
            && (forall x :: x in a.read ==> x.key != s.nextKey)
  {
    var read := ReadSet(s.clients, env.poll.ready);
    ListenerInReadSet(s, env);
    ReadSetFrom(s, env.poll.ready);
    AcceptPhaseConnects(s, read, env.accept, env.crypto);
  }

  /** How a step that registered `e` and then dispatched looks from outside. */
  lemma ConnectShape(s: Server, r: Iteration, next: Server, out: seq<Effect>, head: seq<Effect>, e: Entry)
    requires r == Iteration(next, head + out, false)
    requires next.nextKey == s.nextKey + 1 && e in next.clients
    requires forall e' :: e' in next.clients ==> e' in s.clients || e' == e
    requires forall eff :: eff in (head + out)[|head|..] ==> eff.Disconnected? || eff.Messaged?
    ensures && !r.returned
            && r.server.nextKey == s.nextKey + 1
            && e in r.server.clients
            && (forall e' :: e' in r.server.clients ==> e' in s.clients || e' == e)
            && |head| <= |r.effects|
            && r.effects[..|head|] == head
            && (forall eff :: eff in r.effects[|head|..] ==> eff.Disconnected? || eff.Messaged?)
  {
    assert (head + out)[..|head|] == head;
  }

  /**
   A dispatch over elements none of which has `e`'s key keeps `e`, adds no
   entry, and emits only disconnect and message calls after `head`.
   */
  lemma DispatchAfterHead(t: Server, read: seq<Ready>, recv: Socket -> Recv, head: seq<Effect>, e: Entry)
    requires e in t.clients && forall x :: x in read ==> x.key != e.key
    ensures var d := Dispatch(t, read, recv);
            && e in d.0.clients
            && (forall e' :: e' in d.0.clients ==> e' in t.clients)
            && (head + d.1)[..|head|] == head
            && (forall eff :: eff in (head + d.1)[|head|..] ==> eff.Disconnected? || eff.Messaged?)
  {
    var d := Dispatch(t, read, recv);
    DispatchRegistry(t, read, recv);
    DispatchDisconnects(t, read, recv);
    assert forall i :: 0 <= i < |read| ==> read[i].key != e.key by {
      forall i | 0 <= i < |read|
        ensures read[i].key != e.key
      {
        assert read[i] in read;
      }
    }
    assert (head + d.1)[|head|..] == d.1;
  }

  /** An iteration that gets past the accept stage ends with the dispatch over the remaining `$read`. */
  lemma StepUnfold(s: Server, env: Env)
    requires env.poll.Polled?
    requires var read := ReadSet(s.clients, env.poll.ready);
             |read| > 0 && !AcceptPhase(s, read, env.accept, env.crypto).abandoned
    ensures var a := AcceptPhase(s, ReadSet(s.clients, env.poll.ready), env.accept, env.crypto);
            var d := Dispatch(a.server, a.read, env.recv);
            Step(s, env) == Iteration(d.0, a.effects + d.1, false)
  {
  }

  /**
   A quirk kept from the source: when the accept fails, the listening socket
   stays in `$read` and goes through `socket_recv` like a client; if that
   receive fails, the listening socket's own entry is removed from the
   registry, so it is never polled again.
   */
  lemma StepAcceptFailureDropsListener(s: Server, env: Env, k: nat)
    requires Valid(s) && env.poll.Polled? && s.listener in env.poll.ready
    requires Entry(k, New(s.listener)) in s.clients
    requires env.accept.AcceptFailed? && env.recv(s.listener).RecvFailed?
    ensures var r := Step(s, env);
            && !r.returned
            && !HasKey(r.server.clients, k)
            && (s.onDisconnect.Some? ==> Disconnected(s.onDisconnect.value) in r.effects)
  {
    var read := ReadSet(s.clients, env.poll.ready);
    var x := Ready(k, s.listener);
    assert x in read;
    var i :| 0 <= i < |read| && read[i] == x;
    assert Failed(read, env.recv, k);
    DispatchRegistry(s, read, env.recv);
    DispatchDisconnects(s, read, env.recv);
    var out := Dispatch(s, read, env.recv).1;
    assert CountFailed(read, env.recv) > 0 by {
      CountFailedPositive(read, env.recv, i);
    }
    if s.onDisconnect.Some? {
      DisconnectsPresent(out);
    }
  }

  lemma {:induction false} CountFailedPositive(read: seq<Ready>, recv: Socket -> Recv, i: int)
    requires 0 <= i < |read| && recv(read[i].socket).RecvFailed?
    ensures CountFailed(read, recv) > 0
  {
    if i > 0 {
      assert read[1..][i - 1] == read[i];
      CountFailedPositive(read[1..], recv, i - 1);
    }
  }

  lemma {:induction false} DisconnectsPresent(effects: seq<Effect>)
    requires CountDisconnects(effects) > 0
    ensures exists eff :: eff in effects && eff.Disconnected?
  {
    if !effects[0].Disconnected? {
      DisconnectsPresent(effects[1..]);
      var eff :| eff in effects[1..] && eff.Disconnected?;
      assert eff in effects;
    }
  }

  // ---------------------------------------------------------------------------
  // The registry invariant across iterations

  /** The accepted socket, if any, is new: neither the listening socket nor one the registry holds. */
  ghost predicate FreshAccept(s: Server, accept: Accept)
  {
    accept.Accepted? ==> accept.socket != s.listener && forall e :: e in s.clients ==> e.conn.socket != accept.socket
  }

  /** The iteration completes a handshake and registers a new connection. */
  predicate Connects(s: Server, env: Env)
  {
    && env.poll.Polled?
    && IndexOfSocket(ReadSet(s.clients, env.poll.ready), s.listener).Some?
    && env.accept.Accepted? && env.accept.write.Written?
  }

  /** The `$read` the dispatch loop walks, or `None` when the iteration does not reach the loop. */
  function Dispatched(s: Server, env: Env): Option<seq<Ready>>
  {
    if s.clients == [] then None
    else match env.poll
    case PollFailed(_, _) => None
    case Polled(ready) =>
      var read := ReadSet(s.clients, ready);
      if |read| == 0 then None
      else
        var a := AcceptPhase(s, read, env.accept, env.crypto);
        if a.abandoned then None else Some(a.read)
  }

  /** Receive failures handled by the iteration: each one unsets a client. */
  function Drops(s: Server, env: Env): nat
  {
    match Dispatched(s, env)
    case None => 0
    case Some(read) => CountFailed(read, env.recv)
  }

  /** The accept stage writes the handshake and calls only the connect or the error handler. */
  lemma AcceptEffects(s: Server, read: seq<Ready>, accept: Accept, crypto: Handshake.Crypto)
    ensures var a := AcceptPhase(s, read, accept, crypto);
            forall eff :: eff in a.effects ==> eff.HandshakeWrite? || eff.Connected? || eff.Errored?
  {
  }

  /** The accept stage keeps the registry valid and appends at most the new connection. */
  lemma AcceptPhaseValid(s: Server, read: seq<Ready>, accept: Accept, crypto: Handshake.Crypto)
    requires Valid(s) && ReadFrom(s, read) && FreshAccept(s, accept)
    ensures var a := AcceptPhase(s, read, accept, crypto);
            && Valid(a.server) && ReadFrom(a.server, a.read)
            && a.server == s.(clients := a.server.clients, nextKey := a.server.nextKey)
            && a.server.clients
               == if IndexOfSocket(read, s.listener).Some? && accept.Accepted? && accept.write.Written?
                  then s.clients + [Entry(s.nextKey, Registered(s.onConnect, accept))]
                  else s.clients
  {
    if IndexOfSocket(read, s.listener).Some? && accept.Accepted? && accept.write.Written? {
      AcceptPhaseConnects(s, read, accept, crypto);
    }
  }

  /** The dispatch loop keeps the registry valid and changes nothing but the registry. */
  lemma DispatchValid(s: Server, read: seq<Ready>, recv: Socket -> Recv)
    requires Valid(s)
    ensures var t := Dispatch(s, read, recv).0;
            Valid(t) && t == s.(clients := t.clients)
  {
    DispatchRegistry(s, read, recv);
  }

  /**
   Every iteration keeps the registry valid (keys ascending and below the
   counter, sockets distinct) and never touches the address, the listening
   socket or the handler slots.
   */
  lemma StepPreservesValid(s: Server, env: Env)
    requires Valid(s) && FreshAccept(s, env.accept)
    ensures var t := Step(s, env).server;
            && Valid(t)
            && t == s.(clients := t.clients, nextKey := t.nextKey)
            && s.nextKey <= t.nextKey
  {
    if Dispatched(s, env).Some? {
      var read := ReadSet(s.clients, env.poll.ready);
      ReadSetFrom(s, env.poll.ready);
      AcceptPhaseValid(s, read, env.accept, env.crypto);
      var a := AcceptPhase(s, read, env.accept, env.crypto);
      StepUnfold(s, env);
      DispatchValid(a.server, a.read, env.recv);
    }
  }

  /** The registry grows by one per completed handshake and shrinks by one per receive failure. */
  lemma StepCount(s: Server, env: Env)
    requires Valid(s) && FreshAccept(s, env.accept)
    ensures |Step(s, env).server.clients| + Drops(s, env)
            == |s.clients| + (if Connects(s, env) then 1 else 0)
  {
    DispatchedStage(s, env);
    if env.poll.Polled? && |ReadSet(s.clients, env.poll.ready)| > 0 {
      var read := ReadSet(s.clients, env.poll.ready);
      ReadSetFrom(s, env.poll.ready);
      AcceptPhaseValid(s, read, env.accept, env.crypto);
      var a := AcceptPhase(s, read, env.accept, env.crypto);
      if !a.abandoned {
        StepUnfold(s, env);
        DispatchCountFrom(a.server, a.read, env.recv);
      } else {
        StepAbandons(s, env);
      }
    } else {
      StepQuiet(s, env);
    }
  }

  /** `Dispatched` and `Connects` in terms of the accept stage. */
  lemma DispatchedStage(s: Server, env: Env)
    ensures var read := if env.poll.Polled? then ReadSet(s.clients, env.poll.ready) else [];
            var a := AcceptPhase(s, read, env.accept, env.crypto);
            && Dispatched(s, env) == (if env.poll.Polled? && |read| > 0 && !a.abandoned then Some(a.read) else None)
            && (Connects(s, env) <==> env.poll.Polled? && |read| > 0 && IndexOfSocket(read, s.listener).Some?
                                      && env.accept.Accepted? && env.accept.write.Written?)
  {
  }

  /** An iteration that polls nothing ready, or fails to poll, leaves the server as it was. */
  lemma StepQuiet(s: Server, env: Env)
    requires !env.poll.Polled? || |ReadSet(s.clients, env.poll.ready)| == 0
    ensures Step(s, env).server == s
  {
  }

  /** The dispatch over a `$read` built from a valid registry unsets one entry per failed receive. */
  lemma DispatchCountFrom(t: Server, read: seq<Ready>, recv: Socket -> Recv)
    requires Valid(t) && ReadFrom(t, read)
    ensures |Dispatch(t, read, recv).0.clients| == |t.clients| - CountFailed(read, recv)
  {
    forall x | x in read
      ensures HasKey(t.clients, x.key)
    {
      var e :| e in t.clients && e.key == x.key && e.conn.socket == x.socket;
    }
    DispatchCount(t, read, recv);
  }

  /** `listen`: iterations on successive environments until one returns. */
  function Run(s: Server, envs: seq<Env>): (r: (Server, seq<Effect>))
    ensures r.0 == s.(clients := r.0.clients, nextKey := r.0.nextKey)
    ensures s.nextKey <= r.0.nextKey
    decreases |envs|
  {
    if |envs| == 0 then (s, [])
    else
      var it := Step(s, envs[0]);
      if it.returned then (it.server, it.effects)
      else
        var (t, out) := Run(it.server, envs[1..]);
        (t, it.effects + out)
  }

  /** Every socket accepted during the run is new to the registry at that moment. */
  ghost predicate FreshAccepts(s: Server, envs: seq<Env>)
    decreases |envs|
  {
    |envs| > 0 ==>
      && FreshAccept(s, envs[0].accept)
      && (!Step(s, envs[0]).returned ==> FreshAccepts(Step(s, envs[0]).server, envs[1..]))
  }

  function Connections(s: Server, envs: seq<Env>): nat
    decreases |envs|
  {
    if |envs| == 0 then 0
    else
      var it := Step(s, envs[0]);
      (if Connects(s, envs[0]) then 1 else 0) + (if it.returned then 0 else Connections(it.server, envs[1..]))
  }

  function Disconnections(s: Server, envs: seq<Env>): nat
    decreases |envs|
  {
    if |envs| == 0 then 0
    else
      var it := Step(s, envs[0]);
      Drops(s, envs[0]) + (if it.returned then 0 else Disconnections(it.server, envs[1..]))
  }

  /**
   Over a whole run the registry stays valid, and its size is where it started
   plus the completed handshakes minus the receive failures.
   */
  lemma {:induction false} RunInvariant(s: Server, envs: seq<Env>)
    requires Valid(s) && FreshAccepts(s, envs)
    ensures var t := Run(s, envs).0;
            && Valid(t)
            && t == s.(clients := t.clients, nextKey := t.nextKey)
            && |t.clients| + Disconnections(s, envs) == |s.clients| + Connections(s, envs)
    decreases |envs|
  {
    if |envs| > 0 {
      StepPreservesValid(s, envs[0]);
      StepCount(s, envs[0]);
      var it := Step(s, envs[0]);
      if !it.returned {
        RunInvariant(it.server, envs[1..]);
      }
    }
  }

  /**
   From `listen` on: the listening socket's sentinel plus one element per
   completed handshake, minus one per receive failure.
   */
  lemma ListenCount(address: string, port: int, listener: Socket, envs: seq<Env>)
    requires FreshAccepts(StartListening(Create(address, port, listener)), envs)
    ensures var s := StartListening(Create(address, port, listener));
            |Run(s, envs).0.clients| + Disconnections(s, envs) == 1 + Connections(s, envs)
  {
    StartedServer(address, port, listener);
    RunInvariant(StartListening(Create(address, port, listener)), envs);
  }

  /**
   In an iteration that reaches the dispatch loop, the message handler calls
   are exactly those owed to the elements the loop walks, looked up in the
   registry as it was before the iteration.
   */
  lemma StepMessages(s: Server, env: Env)
    requires Valid(s) && FreshAccept(s, env.accept) && Dispatched(s, env).Some?
    ensures var read := Dispatched(s, env).value;
            forall h, k, ws, p ::
              Messaged(h, k, ws, p) in Step(s, env).effects
              <==> Owed(s.clients, read, env.recv, h, k, ws, p)
  {
    var read := ReadSet(s.clients, env.poll.ready);
    var a := AcceptPhase(s, read, env.accept, env.crypto);
    assert Dispatched(s, env) == Some(a.read);
    StepUnfold(s, env);
    ReadSetFrom(s, env.poll.ready);
    StageMessages(s, read, env.accept, env.crypto, env.recv);
  }

  /** The message calls of the accept stage followed by the dispatch loop. */
  lemma StageMessages(s: Server, read: seq<Ready>, accept: Accept, crypto: Handshake.Crypto, recv: Socket -> Recv)
    requires Valid(s) && ReadFrom(s, read) && FreshAccept(s, accept)
    ensures var a := AcceptPhase(s, read, accept, crypto);
            forall h, k, ws, p ::
              Messaged(h, k, ws, p) in a.effects + Dispatch(a.server, a.read, recv).1
              <==> Owed(s.clients, a.read, recv, h, k, ws, p)
  {
    var a := AcceptPhase(s, read, accept, crypto);
    AcceptPhaseValid(s, read, accept, crypto);
    AcceptLookups(s, read, accept, crypto);
    AcceptEffects(s, read, accept, crypto);
    ChainMessages(s.clients, a, recv);
  }

  /**
   Message calls of a stage without any, followed by the dispatch loop, are
   those owed under any registry that agrees with the stage's on `$read`.
   */
  lemma ChainMessages(c: seq<Entry>, a: AcceptStage, recv: Socket -> Recv)
    requires KeysAscending(a.server.clients) && ReadyAscending(a.read)
    requires forall eff :: eff in a.effects ==> eff.HandshakeWrite? || eff.Connected? || eff.Errored?
    requires forall j :: 0 <= j < |a.read| ==> Lookup(a.server.clients, a.read[j].key) == Lookup(c, a.read[j].key)
    ensures forall h, k, ws, p ::
              Messaged(h, k, ws, p) in a.effects + Dispatch(a.server, a.read, recv).1
              <==> Owed(c, a.read, recv, h, k, ws, p)
  {
    var out := Dispatch(a.server, a.read, recv).1;
    DispatchMessages(a.server, a.read, recv);
    DeliversAgree(a.server.clients, c, a.read, recv);
    NoMessagesBeforeDispatch(a.effects, out);
  }

  /** The accept stage does not change what any key of the remaining `$read` finds. */
  lemma AcceptLookups(s: Server, read: seq<Ready>, accept: Accept, crypto: Handshake.Crypto)
    requires Valid(s) && ReadFrom(s, read) && FreshAccept(s, accept)
    ensures var a := AcceptPhase(s, read, accept, crypto);
            forall j :: 0 <= j < |a.read| ==> Lookup(a.server.clients, a.read[j].key) == Lookup(s.clients, a.read[j].key)
  {
    var a := AcceptPhase(s, read, accept, crypto);
    if IndexOfSocket(read, s.listener).Some? && accept.Accepted? && accept.write.Written? {
      AcceptPhaseConnects(s, read, accept, crypto);
      forall j | 0 <= j < |a.read|
        ensures Lookup(a.server.clients, a.read[j].key) == Lookup(s.clients, a.read[j].key)
      {
        assert a.read[j] in a.read;
        LookupAppend(s.clients, Entry(s.nextKey, Registered(s.onConnect, accept)), a.read[j].key);
      }
    }
  }

  /** Registries that agree on the keys of `read` owe the same message calls. */
  lemma DeliversAgree(c1: seq<Entry>, c2: seq<Entry>, read: seq<Ready>, recv: Socket -> Recv)
    requires forall j :: 0 <= j < |read| ==> Lookup(c1, read[j].key) == Lookup(c2, read[j].key)
    ensures forall h, k, ws, p :: Owed(c1, read, recv, h, k, ws, p) <==> Owed(c2, read, recv, h, k, ws, p)
  {
    forall h, k, ws, p
      ensures Owed(c1, read, recv, h, k, ws, p) <==> Owed(c2, read, recv, h, k, ws, p)
    {
      if Owed(c1, read, recv, h, k, ws, p) {
        var i :| 0 <= i < |read| && read[i].key == k && Delivers(c1, read[i], recv(read[i].socket), h, ws, p);
        assert Delivers(c2, read[i], recv(read[i].socket), h, ws, p);
      }
      if Owed(c2, read, recv, h, k, ws, p) {
        var i :| 0 <= i < |read| && read[i].key == k && Delivers(c2, read[i], recv(read[i].socket), h, ws, p);
        assert Delivers(c1, read[i], recv(read[i].socket), h, ws, p);
      }
    }
  }

  /** The accept stage emits no message call, so the iteration's message calls are the loop's. */
  lemma NoMessagesBeforeDispatch(head: seq<Effect>, out: seq<Effect>)
    requires forall eff :: eff in head ==> !eff.Messaged?
    ensures forall h, k, ws, p :: Messaged(h, k, ws, p) in head + out <==> Messaged(h, k, ws, p) in out
  {
  }

  /**
   A client whose receive failed is gone from the registry after the
   iteration, so the next `$read` does not hold it (`DroppedForever` extends
   this to every later iteration).
   */
  lemma StepDropsFailed(s: Server, env: Env, k: nat, ready: set<Socket>)
    requires Dispatched(s, env).Some? && Failed(Dispatched(s, env).value, env.recv, k)
    ensures !HasKey(Step(s, env).server.clients, k)
    ensures forall x :: x in ReadSet(Step(s, env).server.clients, ready) ==> x.key != k
  {
    var read := ReadSet(s.clients, env.poll.ready);
    var a := AcceptPhase(s, read, env.accept, env.crypto);
    assert Dispatched(s, env) == Some(a.read);
    StepUnfold(s, env);
    DispatchRegistry(a.server, a.read, env.recv);
  }

  /** Each iteration calls the disconnect handler, if set, once per receive failure it handles. */
  lemma StepDisconnects(s: Server, env: Env)
    ensures CountDisconnects(Step(s, env).effects) == if s.onDisconnect.Some? then Drops(s, env) else 0
  {
    match env.poll {
      case PollFailed(code, reason) =>
        assert CountDisconnects(ErrorCall(s.onError, code, reason)) == 0;
      case Polled(ready) =>
        var read := ReadSet(s.clients, ready);
        if |read| > 0 {
          var a := AcceptPhase(s, read, env.accept, env.crypto);
          AcceptEffects(s, read, env.accept, env.crypto);
          NoDisconnects(a.effects);
          if !a.abandoned {
            StepUnfold(s, env);
            var out := Dispatch(a.server, a.read, env.recv).1;
            DispatchDisconnects(a.server, a.read, env.recv);
            CountDisconnectsAppend(a.effects, out);
          }
        }
    }
  }

  lemma {:induction false} NoDisconnects(effects: seq<Effect>)
    requires forall eff :: eff in effects ==> !eff.Disconnected?
    ensures CountDisconnects(effects) == 0
  {
    if |effects| > 0 {
      assert effects[0] in effects;
      NoDisconnects(effects[1..]);
    }
  }

  // ---------------------------------------------------------------------------
  // Message handlers installed by the connect handler

  /**
   A registered client whose socket is ready and whose receive succeeds gets
   its message handler called with its key, its connection and the decoded
   buffer, in any iteration that reaches the dispatch loop.
   */
  lemma StepDelivers(s: Server, env: Env, k: nat, conn: Connection)
    requires Valid(s) && FreshAccept(s, env.accept) && Dispatched(s, env).Some?
    requires Entry(k, conn) in s.clients && conn.socket != s.listener && conn.socket in env.poll.ready
    requires env.recv(conn.socket).Received? && conn.onMessage.Some?
    ensures Messaged(conn.onMessage.value, k, conn, Frames.Unmask(Buffer(env.recv(conn.socket).pending)))
            in Step(s, env).effects
  {
    var read := Dispatched(s, env).value;
    ReadyDispatched(s, env, k, conn);
    var i :| 0 <= i < |read| && read[i] == Ready(k, conn.socket);
    LookupUnique(s.clients, k, conn);
    assert Delivers(s.clients, read[i], env.recv(read[i].socket), conn.onMessage.value, conn,
                    Frames.Unmask(Buffer(env.recv(conn.socket).pending)));
    StepMessages(s, env);
  }

  /** A ready client other than the listener reaches the dispatch loop. */
  lemma ReadyDispatched(s: Server, env: Env, k: nat, conn: Connection)
    requires Valid(s) && FreshAccept(s, env.accept) && Dispatched(s, env).Some?
    requires Entry(k, conn) in s.clients && conn.socket != s.listener && conn.socket in env.poll.ready
    ensures Ready(k, conn.socket) in Dispatched(s, env).value
  {
    DispatchedStage(s, env);
    var read := ReadSet(s.clients, env.poll.ready);
    var x := Ready(k, conn.socket);
    assert x in read;
    ReadSetFrom(s, env.poll.ready);
    if IndexOfSocket(read, s.listener).Some? && env.accept.Accepted? && env.accept.write.Written? {
      AcceptPhaseConnects(s, read, env.accept, env.crypto);
    }
  }

  /** An entry whose receive does not fail in this iteration is still registered after it. */
  lemma StepKeepsEntry(s: Server, env: Env, e: Entry)
    requires Valid(s) && FreshAccept(s, env.accept) && e in s.clients
    requires Dispatched(s, env).Some? ==> !Failed(Dispatched(s, env).value, env.recv, e.key)
    ensures e in Step(s, env).server.clients
  {
    if Dispatched(s, env).Some? {
      var read := ReadSet(s.clients, env.poll.ready);
      ReadSetFrom(s, env.poll.ready);
      AcceptPhaseValid(s, read, env.accept, env.crypto);
      var a := AcceptPhase(s, read, env.accept, env.crypto);
      assert Dispatched(s, env) == Some(a.read);
      assert e in a.server.clients;
      StepUnfold(s, env);
      DispatchRegistry(a.server, a.read, env.recv);
    }
  }

  /** No iteration of the run sees a receive under `key` fail. */
  ghost predicate NeverFails(s: Server, envs: seq<Env>, key: nat)
    decreases |envs|
  {
    |envs| > 0 ==>
      && (Dispatched(s, envs[0]).Some? ==> !Failed(Dispatched(s, envs[0]).value, envs[0].recv, key))
      && (!Step(s, envs[0]).returned ==> NeverFails(Step(s, envs[0]).server, envs[1..], key))
  }

  /** An entry stays registered through every iteration in which its receive does not fail. */
  lemma {:induction false} RunKeepsEntry(s: Server, envs: seq<Env>, e: Entry)
    requires Valid(s) && FreshAccepts(s, envs) && e in s.clients && NeverFails(s, envs, e.key)
    ensures e in Run(s, envs).0.clients
    decreases |envs|
  {
    if |envs| > 0 {
      StepKeepsEntry(s, envs[0], e);
      StepPreservesValid(s, envs[0]);
      if !Step(s, envs[0]).returned {
        RunKeepsEntry(Step(s, envs[0]).server, envs[1..], e);
      }
    }
  }

  /**
   A `message` handler that the connect handler installs on a new connection
   is called in any later iteration in which that connection's socket is
   ready, its receive succeeds, and the dispatch loop is reached, provided no
   receive on it failed in the iterations in between (`envs`).
   */
  lemma ConnectThenMessage(s: Server, env1: Env, envs: seq<Env>, env2: Env, f: Handler)
    requires Valid(s) && ListenerReady(s, env1) && FreshAccept(s, env1.accept)
    requires env1.accept.Accepted? && env1.accept.write.Written?
    requires s.onConnect.Some? && env1.accept.installs == Some(f)
    requires var t1 := Step(s, env1).server;
             FreshAccepts(t1, envs) && NeverFails(t1, envs, s.nextKey)
    requires var t := Run(Step(s, env1).server, envs).0;
             && FreshAccept(t, env2.accept) && Dispatched(t, env2).Some?
             && env1.accept.socket in env2.poll.ready && env2.recv(env1.accept.socket).Received?
    ensures var conn := Registered(s.onConnect, env1.accept);
            var pending := env2.recv(env1.accept.socket).pending;
            Messaged(f, s.nextKey, conn, Frames.Unmask(Buffer(pending)))
            in Step(Run(Step(s, env1).server, envs).0, env2).effects
  {
    var t1 := Step(s, env1).server;
    var conn := Registered(s.onConnect, env1.accept);
    StepConnect(s, env1);
    StepPreservesValid(s, env1);
    RunKeepsEntry(t1, envs, Entry(s.nextKey, conn));
    RunInvariant(t1, envs);
    var t := Run(t1, envs).0;
    assert conn.onMessage == Some(f);
    StepDelivers(t, env2, s.nextKey, conn);
  }

  /**
   A peer that closed its end makes `socket_recv` return 0 rather than
   `false`: the client is not unset, and its message handler is called with
   an empty text.
   */
  lemma StepClosedPeer(s: Server, env: Env, k: nat, conn: Connection)
    requires Valid(s) && FreshAccept(s, env.accept) && Dispatched(s, env).Some?
    requires Entry(k, conn) in s.clients && conn.socket != s.listener && conn.socket in env.poll.ready
    requires env.recv(conn.socket) == Received([]) && conn.onMessage.Some?
    ensures Messaged(conn.onMessage.value, k, conn, []) in Step(s, env).effects
    ensures Entry(k, conn) in Step(s, env).server.clients
  {
    StepDelivers(s, env, k, conn);
    assert Frames.Unmask(Buffer([])) == [];
    if Failed(Dispatched(s, env).value, env.recv, k) {
      var read := Dispatched(s, env).value;
      var i :| 0 <= i < |read| && read[i].key == k && env.recv(read[i].socket).RecvFailed?;
      ReadSetFrom(s, env.poll.ready);
      AcceptPhaseValid(s, ReadSet(s.clients, env.poll.ready), env.accept, env.crypto);
      assert read[i] in read;
      var e :| e in s.clients && e.key == k && e.conn.socket == read[i].socket;
      LookupUnique(s.clients, k, conn);
      LookupUnique(s.clients, k, e.conn);
      assert false;
    }
    StepKeepsEntry(s, env, Entry(k, conn));
  }

  // ---------------------------------------------------------------------------
  // A dropped client never comes back

  /** The accept stage adds at most one entry, at the next key, and only narrows `$read`. */
  lemma AcceptPhaseGrows(s: Server, read: seq<Ready>, accept: Accept, crypto: Handshake.Crypto)
    ensures var a := AcceptPhase(s, read, accept, crypto);
            && s.nextKey <= a.server.nextKey
            && (forall e :: e in a.server.clients ==> e in s.clients || e.key == s.nextKey)
            && (forall x :: x in a.read ==> x in read)
  {
    var a := AcceptPhase(s, read, accept, crypto);
    if a.read != read {
      var i := IndexOfSocket(read, s.listener).value;
      assert a.read == read[..i] + read[i + 1 ..];
    }
  }

  /** A key below the counter and absent from the registry stays absent and below the counter. */
  lemma StepKeepsAbsent(s: Server, env: Env, k: nat)
    requires k < s.nextKey && !HasKey(s.clients, k)
    ensures var t := Step(s, env).server;
            k < t.nextKey && !HasKey(t.clients, k)
  {
    if Dispatched(s, env).Some? {
      var read := ReadSet(s.clients, env.poll.ready);
      var a := AcceptPhase(s, read, env.accept, env.crypto);
      AcceptPhaseGrows(s, read, env.accept, env.crypto);
      StepUnfold(s, env);
      DispatchRegistry(a.server, a.read, env.recv);
    } else if env.poll.Polled? && s.clients != [] && |ReadSet(s.clients, env.poll.ready)| > 0 {
      AcceptPhaseGrows(s, ReadSet(s.clients, env.poll.ready), env.accept, env.crypto);
    }
  }

  /** Over any run, a key freed by `unset` is never handed out again. */
  lemma {:induction false} RunKeepsAbsent(s: Server, envs: seq<Env>, k: nat)
    requires k < s.nextKey && !HasKey(s.clients, k)
    ensures var t := Run(s, envs).0;
            k < t.nextKey && !HasKey(t.clients, k)
    decreases |envs|
  {
    if |envs| > 0 {
      StepKeepsAbsent(s, envs[0], k);
      if !Step(s, envs[0]).returned {
        RunKeepsAbsent(Step(s, envs[0]).server, envs[1..], k);
      }
    }
  }

  /**
   A client whose receive failed is unset for good: after any number of
   further iterations its key is in no registry and in no `$read`.
   */
  lemma DroppedForever(s: Server, env: Env, k: nat, envs: seq<Env>)
    requires Dispatched(s, env).Some? && Failed(Dispatched(s, env).value, env.recv, k)
    requires forall e :: e in s.clients ==> e.key < s.nextKey
    ensures var t := Run(Step(s, env).server, envs).0;
            && !HasKey(t.clients, k)
            && forall ready, x :: x in ReadSet(t.clients, ready) ==> x.key != k
  {
    var read := ReadSet(s.clients, env.poll.ready);
    var a := AcceptPhase(s, read, env.accept, env.crypto);
    assert Dispatched(s, env) == Some(a.read);
    var i :| 0 <= i < |a.read| && a.read[i].key == k && env.recv(a.read[i].socket).RecvFailed?;
    AcceptPhaseGrows(s, read, env.accept, env.crypto);
    assert a.read[i] in read;
    StepUnfold(s, env);
    DispatchRegistry(a.server, a.read, env.recv);
    StepDropsFailed(s, env, k, {});
    RunKeepsAbsent(Step(s, env).server, envs, k);
  }
}
