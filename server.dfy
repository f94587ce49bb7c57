/**
 * One iteration of the server's readiness loop, event by event: a new
 * connection (read its request, answer the handshake, register it), a
 * failed read on a connection (unregister it), and data read from a
 * connection (decode it and deliver the message).
 *
 * Socket I/O is not modelled: what `socket_read` returned and whether
 * `socket_send` succeeded are inputs of the step methods. The four
 * listener callbacks are recorded, in order, in the event log.
 */
module Server {
  import opened Wrappers
  import opened Bytes
  import opened Text
  import opened Frame
  import opened Request
  import opened Handshake

  /** A socket resource, compared by identity. */
  type Conn = nat

  /** A callback invocation: `onOpen`, `onMessage`, `onError` or `onClose`. */
  datatype Event =
    | OnOpen(conn: Conn, headers: map<string, string>)
    | OnMessage(conn: Conn, message: seq<byte>)
    | OnError(conn: Conn, headers: map<string, string>)
    | OnClose(conn: Conn)

  /** No connection appears twice. */
  ghost predicate NoDup(s: seq<Conn>)
  {
    forall i, j :: 0 <= i < j < |s| ==> s[i] != s[j]
  }

  /**
   * `array_search` followed by `unset`: drops the first occurrence of `x`,
   * keeping the others in order; nothing happens when `x` is absent.
   */
  function Remove(s: seq<Conn>, x: Conn): (r: seq<Conn>)
    ensures x !in s ==> r == s
    ensures x in s ==> |r| == |s| - 1
    ensures forall y :: y in r ==> y in s
  {
    if s == [] then []
    else if s[0] == x then s[1..]
    else [s[0]] + Remove(s[1..], x)
  }

  /** The position of the first occurrence, as `array_search` finds it. */
  function IndexOf(s: seq<Conn>, x: Conn): (i: nat)
    requires x in s
    ensures i < |s| && s[i] == x && x !in s[..i]
  {
    if s[0] == x then 0 else 1 + IndexOf(s[1..], x)
  }

  /** Removing cuts exactly the first occurrence out; the other entries keep their order. */
  lemma {:induction false} RemoveCutsFirst(s: seq<Conn>, x: Conn)
    requires x in s
    ensures Remove(s, x) == s[..IndexOf(s, x)] + s[IndexOf(s, x) + 1..]
  {
    if s[0] != x {
      RemoveCutsFirst(s[1..], x);
      var i := IndexOf(s[1..], x);
      assert s[..i + 1] == [s[0]] + s[1..][..i];
      assert s[i + 2..] == s[1..][i + 1..];
    }
  }

  /** On a registry without duplicates, removal takes out exactly that connection. */
  lemma {:induction false} RemoveFromDistinct(s: seq<Conn>, x: Conn)
    requires NoDup(s)
    ensures NoDup(Remove(s, x))
    ensures forall y :: y in Remove(s, x) <==> y in s && y != x
  {
    if s != [] {
      assert NoDup(s[1..]);
      RemoveFromDistinct(s[1..], x);
      if s[0] != x {
        var r := [s[0]] + Remove(s[1..], x);
        forall i, j | 0 <= i < j < |r| ensures r[i] != r[j] {
          if i == 0 {
            assert r[j] in s[1..];
          }
        }
      }
    }
  }

  /** How many `onOpen` calls for `c` the log holds. */
  function Opens(log: seq<Event>, c: Conn): nat
  {
    if log == [] then 0
    else Opens(log[..|log| - 1], c) + if log[|log| - 1].OnOpen? && log[|log| - 1].conn == c then 1 else 0
  }

  /** How many `onClose` calls for `c` the log holds. */
  function Closes(log: seq<Event>, c: Conn): nat
  {
    if log == [] then 0
    else Closes(log[..|log| - 1], c) + if log[|log| - 1].OnClose? && log[|log| - 1].conn == c then 1 else 0
  }

  /** PHP's `!$buffer = trim($buffer)`: the trimmed buffer is "" or "0". */
  predicate Skipped(buffer: seq<byte>): (skip: bool)
    ensures (forall k :: 0 <= k < |buffer| ==> buffer[k] in WhitespaceBytes) ==> skip
    ensures skip ==> |Trim(buffer, WhitespaceBytes)| <= 1
  {
    TrimEmptyIffBlank(buffer, WhitespaceBytes);
    var trimmed := Trim(buffer, WhitespaceBytes);
    trimmed == [] || trimmed == [0x30]
  }

  /**
   * The message delivered for a buffer read from a client: none when the
   * buffer is blank, otherwise the unmasked frame. The frame is decoded as
   * read, not trimmed.
   */
  function Message(buffer: seq<byte>): (m: Option<seq<byte>>)
    ensures m.None? <==>
              (forall k :: 0 <= k < |buffer| ==> buffer[k] in WhitespaceBytes)
              || Trim(buffer, WhitespaceBytes) == [0x30]
    ensures m.Some? ==> m.value == Unmasked(buffer)
  {
    TrimEmptyIffBlank(buffer, WhitespaceBytes);
    if Skipped(buffer) then None else Some(Unmasked(buffer))
  }

  /**
   * The loop as written: the trimmed buffer is what gets unmasked. It skips
   * the same buffers as `Message`, and delivers the same message whenever
   * trimming leaves the buffer as it is.
   */
  function MessageAsWritten(buffer: seq<byte>): (m: Option<seq<byte>>)
    ensures m.None? <==> Message(buffer).None?
    ensures Trim(buffer, WhitespaceBytes) == buffer ==> m == Message(buffer)
  {
    if Skipped(buffer) then None else Some(Unmasked(Trim(buffer, WhitespaceBytes)))
  }

  /** Empty and whitespace-only buffers never reach `onMessage`. */
  lemma BlankNeverDelivered(buffer: seq<byte>)
    requires forall k :: 0 <= k < |buffer| ==> buffer[k] in WhitespaceBytes
    ensures Message(buffer) == None && MessageAsWritten(buffer) == None
  {
    TrimEmptyIffBlank(buffer, WhitespaceBytes);
  }

  /**
   * A buffer holding exactly one whole client frame for `text` is delivered
   * as exactly `text`. A frame longer than one read arrives split over
   * several buffers, which this does not cover.
   */
  lemma MessageOfClientFrame(key: seq<byte>, text: seq<byte>)
    requires |key| == 4 && |text| < MaxPayload
    ensures Message(ClientFrame(key, text)) == Some(text)
  {
    var frame := ClientFrame(key, text);
    assert frame[0] !in WhitespaceBytes;
    assert TrimLeft(frame, WhitespaceBytes) == frame;
    var trimmed := Trim(frame, WhitespaceBytes);
    assert trimmed != [] && trimmed[0] == frame[0] != 0x30;
    UnmaskClientFrame(key, text);
  }

  /** Under the all-zero key, masking leaves "Hi " unchanged. */
  lemma ZeroKeyMask()
    ensures XorMask([0x48, 0x69, 0x20], [0, 0, 0, 0]) == [0x48, 0x69, 0x20]
  {
    XorZero(0x48);
    XorZero(0x69);
    XorZero(0x20);
  }

  /** The zero-key client frame of "Hi ": its masked payload equals the text. */
  lemma ZeroKeyFrame()
    ensures ClientFrame([0, 0, 0, 0], [0x48, 0x69, 0x20]) == [0x81, 0x83, 0, 0, 0, 0, 0x48, 0x69, 0x20]
  {
    var text: seq<byte> := [0x48, 0x69, 0x20];
    assert Mask(text) == [0x81, 3] + text;
    ZeroKeyMask();
  }

  /** `trim` strips the frame's last byte, a masked space. */
  lemma TrimZeroKeyFrame()
    ensures var frame: seq<byte> := [0x81, 0x83, 0, 0, 0, 0, 0x48, 0x69, 0x20];
            Trim(frame, WhitespaceBytes) == [0x81, 0x83, 0, 0, 0, 0, 0x48, 0x69]
  {
    var frame: seq<byte> := [0x81, 0x83, 0, 0, 0, 0, 0x48, 0x69, 0x20];
    var head := frame[..8];
    assert 0x81 !in WhitespaceBytes && 0x69 !in WhitespaceBytes && 0x20 in WhitespaceBytes;
    assert frame[0] == 0x81 && frame[8] == 0x20 && head[7] == 0x69;
    assert TrimLeft(frame, WhitespaceBytes) == frame;
    assert frame[..|frame| - 1] == head;
    assert TrimRight(frame, WhitespaceBytes) == TrimRight(head, WhitespaceBytes);
    assert TrimRight(head, WhitespaceBytes) == head;
    assert head == [0x81, 0x83, 0, 0, 0, 0, 0x48, 0x69];
  }

  /** The trimmed frame announces three bytes but holds two, which are all that is decoded. */
  lemma UnmaskTruncatedFrame()
    ensures Unmasked([0x81, 0x83, 0, 0, 0, 0, 0x48, 0x69]) == [0x48, 0x69]
  {
    var p: seq<byte> := [0x81, 0x83, 0, 0, 0, 0, 0x48, 0x69];
    assert ReadHeader(p) == Layout(3, 2);
    assert p[6..8] == [0x48, 0x69];
    assert p[2..6] == [0, 0, 0, 0];
    XorZero(0x48);
    XorZero(0x69);
    assert XorMask([0x48, 0x69], [0, 0, 0, 0]) == [0x48, 0x69];
  }

  /**
   * Trimming before unmasking cuts payload bytes: "Hi " sent under the
   * all-zero mask key ends in a masked space, which `trim` strips, so the
   * as-written loop delivers "Hi".
   */
  lemma TrimmedFrameLosesSpace()
    ensures MessageAsWritten(ClientFrame([0, 0, 0, 0], [0x48, 0x69, 0x20])) == Some([0x48, 0x69])
    ensures Message(ClientFrame([0, 0, 0, 0], [0x48, 0x69, 0x20])) == Some([0x48, 0x69, 0x20])
  {
    MessageOfClientFrame([0, 0, 0, 0], [0x48, 0x69, 0x20]);
    ZeroKeyFrame();
    TrimZeroKeyFrame();
    UnmaskTruncatedFrame();
    var frame := ClientFrame([0, 0, 0, 0], [0x48, 0x69, 0x20]);
    var trimmed: seq<byte> := [0x81, 0x83, 0, 0, 0, 0, 0x48, 0x69];
    assert Trim(frame, WhitespaceBytes) == trimmed;
    assert trimmed != [] && trimmed != [0x30];
    assert MessageAsWritten(frame) == Some(Unmasked(trimmed));
  }

  /**
   * The registry invariant over the clients, the callbacks so far and the
   * sockets created so far: no client twice; the registered clients are
   * exactly those opened and not closed; each connection is opened at most
   * once and closed at most once, after it was opened; nothing is opened
   * before its socket exists.
   */
  ghost predicate Tracks(clients: seq<Conn>, log: seq<Event>, handles: set<Conn>)
  {
    && NoDup(clients)
    && (forall c :: Closes(log, c) <= Opens(log, c) <= 1)
    && (forall c :: c in clients <==> Opens(log, c) == 1 && Closes(log, c) == 0)
    && (forall c :: c !in handles ==> Opens(log, c) == 0)
  }

  /** Appending one event moves exactly one count of one connection. */
  lemma CountsAppend(log: seq<Event>, e: Event)
    ensures forall c :: Opens(log + [e], c) == Opens(log, c) + if e.OnOpen? && e.conn == c then 1 else 0
    ensures forall c :: Closes(log + [e], c) == Closes(log, c) + if e.OnClose? && e.conn == c then 1 else 0
  {
    assert (log + [e])[..|log|] == log;
  }

  /** A new socket keeps the invariant. */
  lemma TracksNewHandle(clients: seq<Conn>, log: seq<Event>, handles: set<Conn>, c: Conn)
    requires Tracks(clients, log, handles)
    ensures Tracks(clients, log, handles + {c})
  {
  }

  /** Registering a fresh socket together with its `onOpen` keeps the invariant. */
  lemma TracksOpen(clients: seq<Conn>, log: seq<Event>, handles: set<Conn>, c: Conn, headers: map<string, string>)
    requires Tracks(clients, log, handles) && c !in handles
    ensures Tracks(clients + [c], log + [OnOpen(c, headers)], handles + {c})
  {
    CountsAppend(log, OnOpen(c, headers));
    assert c !in clients;
  }

  /** `onError` changes no count. */
  lemma TracksError(clients: seq<Conn>, log: seq<Event>, handles: set<Conn>, c: Conn, headers: map<string, string>)
    requires Tracks(clients, log, handles)
    ensures Tracks(clients, log + [OnError(c, headers)], handles)
  {
    CountsAppend(log, OnError(c, headers));
  }

  /** `onMessage` changes no count. */
  lemma TracksMessage(clients: seq<Conn>, log: seq<Event>, handles: set<Conn>, c: Conn, message: seq<byte>)
    requires Tracks(clients, log, handles)
    ensures Tracks(clients, log + [OnMessage(c, message)], handles)
  {
    CountsAppend(log, OnMessage(c, message));
  }

  /** Unregistering a client together with its `onClose` keeps the invariant. */
  lemma TracksClose(clients: seq<Conn>, log: seq<Event>, handles: set<Conn>, c: Conn)
    requires Tracks(clients, log, handles) && c in clients
    ensures Tracks(Remove(clients, c), log + [OnClose(c)], handles)
  {
    CountsAppend(log, OnClose(c));
    RemoveFromDistinct(clients, c);
  }

  /** What `socket_send` returned: the number of bytes sent, or `false`. */
  datatype SendResult = Sent(count: nat) | SendFailed

  /** The handshake succeeded when the response could be handed to the socket. */
  predicate HandshakeSent(result: SendResult): (ok: bool)
    ensures ok ==> HandshakeSentAsWritten(result)
    ensures ok <==> result != SendFailed
  {
    result.Sent?
  }

  /**
   * The handshake's test as written, `socket_send(...) >= 0`: PHP 8 compares
   * `false` with an integer as booleans, and `false >= false` holds.
   */
  predicate HandshakeSentAsWritten(result: SendResult): (ok: bool)
    ensures ok
  {
    match result
    case Sent(count) => count >= 0
    case SendFailed => true
  }

  /** As written, a failed send still counts as a completed handshake, so `onError` can never fire. */
  lemma SendFailureUnnoticed()
    ensures forall r :: HandshakeSentAsWritten(r)
    ensures HandshakeSentAsWritten(SendFailed) && !HandshakeSent(SendFailed)
  {
  }

  /** No read of `c` among the first `n` readable sockets failed. */
  ghost predicate ReadsSucceeded(c: Conn, read: seq<Conn>, buffers: seq<Option<seq<byte>>>, n: nat)
    requires n <= |read| == |buffers|
  {
    forall j :: 0 <= j < n && read[j] == c ==> buffers[j].Some?
  }

  /** One more read extends `ReadsSucceeded` by that read's outcome. */
  lemma ReadsSucceededStep(read: seq<Conn>, buffers: seq<Option<seq<byte>>>, n: nat)
    requires n < |read| == |buffers|
    ensures forall c :: ReadsSucceeded(c, read, buffers, n + 1) <==>
              ReadsSucceeded(c, read, buffers, n) && (read[n] == c ==> buffers[n].Some?)
  {
  }

  /**
   * The registry: `$this->clients` and the loop's `$sockets`, with the
   * callbacks invoked so far.
   */
  class Server {
    /** The listening socket. */
    const listener: Conn
    /** `$this->clients`: the open connections, in order of registration. */
    var clients: seq<Conn>
    /** `$sockets`: the listening socket and every socket ever registered; never pruned. */
    var sockets: seq<Conn>
    /** The callbacks invoked so far, in order. */
    var log: seq<Event>
    /** The handshake responses handed to `socket_send`, with their sockets. */
    var responses: seq<(Conn, string)>
    /** `$client`: the socket accepted most recently. */
    var lastAccepted: Option<Conn>
    /** Every socket created so far: the listener and each accepted one. */
    ghost var handles: set<Conn>

    /**
     * The registry holds each connection at most once, and holds exactly
     * the connections that received `onOpen` and not yet `onClose`; each
     * connection is registered at most once and closed at most once, after it
     * was registered.
     */
    ghost predicate Valid()
      reads this
    {
      && Tracks(clients, log, handles)
      && listener in handles && listener in sockets && listener !in clients
      && (forall c :: c in clients ==> c in sockets)
      && (forall c :: c in sockets ==> c in handles)
      && (lastAccepted.Some? ==> lastAccepted.value in handles)
    }

    /** The state when the loop starts: only the listening socket is watched. */
    constructor (listener: Conn)
      ensures Valid()
      ensures this.listener == listener && handles == {listener}
      ensures clients == [] && sockets == [listener] && log == [] && responses == [] && lastAccepted == None
    {
      this.listener := listener;
      clients := [];
      sockets := [listener];
      log := [];
      responses := [];
      lastAccepted := None;
      handles := {listener};
    }

    /**
     * The listening socket is readable: `client` has been accepted and
     * `request` is what the first read returned. Without
     * `Sec-WebSocket-Key` the attempt is abandoned: no response, no
     * callback. Otherwise the handshake goes on as `Register` states.
     */
    method Accept(client: Conn, request: string, result: SendResult, accept: string -> string) returns (registered: bool)
      requires Valid() && client !in handles
      modifies this
      ensures Valid()
      ensures handles == old(handles) + {client} && lastAccepted == Some(client)
      ensures var headers := HeadersOf(Lines(request));
              if !HasKey(headers) then
                && !registered
                && clients == old(clients) && sockets == old(sockets)
                && log == old(log) && responses == old(responses)
              else
                && responses == old(responses) + [(client, Response(headers, accept))]
                && registered == HandshakeSent(result)
                && (registered ==> clients == old(clients) + [client] && sockets == old(sockets) + [client]
                                   && log == old(log) + [OnOpen(client, headers)])
                && (!registered ==> clients == old(clients) && sockets == old(sockets)
                                    && log == old(log) + [OnError(client, headers)])
    {
      var headers := ParseHeaders(request);
      if !HasKey(headers) {
        TracksNewHandle(clients, log, handles, client);
        handles := handles + {client};
        lastAccepted := Some(client);
        return false;
      }
      registered := Register(client, headers, result, accept);
    }

    /**
     * The handshake with an accepted `client` whose request carried
     * `headers`: the response is sent, and `result` is what sending it
     * returned. On success the client is registered, once, and `onOpen`
     * fires; on failure `onError` fires and the client is not registered.
     */
    method Register(client: Conn, headers: map<string, string>, result: SendResult, accept: string -> string)
      returns (registered: bool)
      requires Valid() && client !in handles
      modifies this
      ensures Valid()
      ensures handles == old(handles) + {client} && lastAccepted == Some(client)
      ensures responses == old(responses) + [(client, Response(headers, accept))]
      ensures registered == HandshakeSent(result)
      ensures registered ==> clients == old(clients) + [client] && sockets == old(sockets) + [client]
                             && log == old(log) + [OnOpen(client, headers)]
      ensures !registered ==> clients == old(clients) && sockets == old(sockets)
                              && log == old(log) + [OnError(client, headers)]
    {
      lastAccepted := Some(client);
      responses := responses + [(client, Response(headers, accept))];
      if HandshakeSent(result) {
        TracksOpen(clients, log, handles, client, headers);
        handles := handles + {client};
        clients := clients + [client];
        sockets := sockets + [client];
        log := log + [OnOpen(client, headers)];
        registered := true;
      } else {
        TracksNewHandle(clients, log, handles, client);
        TracksError(clients, log, handles + {client}, client, headers);
        handles := handles + {client};
        log := log + [OnError(client, headers)];
        registered := false;
      }
    }

    /**
     * Reading `socket` failed: it leaves the registry and, if it was a
     * registered client, `onClose` fires for it, once.
     */
    method ReadFailed(socket: Conn)
      requires Valid()
      modifies this`clients, this`log
      ensures Valid()
      ensures clients == Remove(old(clients), socket)
      ensures log == old(log) + if socket in old(clients) then [OnClose(socket)] else []
    {
      if socket in clients {
        TracksClose(clients, log, handles, socket);
        clients := Remove(clients, socket);
        log := log + [OnClose(socket)];
      }
    }

    /**
     * The loop as written: the socket is removed if present, and `onClose`
     * is called with `$client`, the socket accepted last, whichever socket
     * failed.
     */
    method ReadFailedAsWritten(socket: Conn)
      requires Valid() && lastAccepted.Some?
      modifies this`clients, this`log
      ensures clients == Remove(old(clients), socket)
      ensures log == old(log) + [OnClose(lastAccepted.value)]
    {
      clients := Remove(clients, socket);
      log := log + [OnClose(lastAccepted.value)];
    }

    /**
     * `buffer` was read from `socket`: unless it trims to nothing or to "0",
     * it is unmasked and `onMessage` fires with the text.
     */
    method ReadData(socket: Conn, buffer: seq<byte>)
      requires Valid()
      modifies this`log
      ensures Valid()
      ensures log == old(log) + match Message(buffer) case None => [] case Some(m) => [OnMessage(socket, m)]
    {
      // A read of "" (a client that closed cleanly) is skipped like a blank buffer: `socket_read`
      // reports only errors as `false`, so such a client stays registered.
      if Skipped(buffer) {
        return;
      }
      var text := Unmask(buffer);
      TracksMessage(clients, log, handles, socket, text);
      log := log + [OnMessage(socket, text)];
    }

    /**
     * The `foreach` over the readable sockets: `buffers[i]` is what reading
     * `read[i]` returned, `None` for a failed read. Afterwards the registry
     * holds exactly the clients it held before whose reads did not fail.
     */
    method DrainReadable(read: seq<Conn>, buffers: seq<Option<seq<byte>>>)
      requires Valid() && |buffers| == |read|
      modifies this`clients, this`log
      ensures Valid()
      ensures forall c :: c in clients <==> c in old(clients) && ReadsSucceeded(c, read, buffers, |read|)
      ensures old(log) <= log
    {
      var i := 0;
      while i < |read|
        invariant 0 <= i <= |read|
        invariant Valid()
        invariant old(log) <= log
        invariant forall c :: c in clients <==> c in old(clients) && ReadsSucceeded(c, read, buffers, i)
      {
        ReadsSucceededStep(read, buffers, i);
        match buffers[i] {
          case None =>
            RemoveFromDistinct(clients, read[i]);
            ReadFailed(read[i]);
          case Some(buffer) =>
            ReadData(read[i], buffer);
        }
        i := i + 1;
      }
    }

    /**
     * One pass of the loop body once `socket_select` has reported `read`:
     * when the listening socket is ready, `client` is accepted first, and a
     * request without `Sec-WebSocket-Key` or a failed handshake ends the
     * pass (`continue`). Otherwise every socket of `read` is read, with
     * `buffers` holding the outcomes. The result says whether they were.
     */
    method Iteration(listenerReady: bool, client: Conn, request: string, result: SendResult,
                     accept: string -> string, read: seq<Conn>, buffers: seq<Option<seq<byte>>>)
      returns (drained: bool)
      requires Valid() && |buffers| == |read|
      requires listenerReady ==> client !in handles
      modifies this
      ensures Valid()
      ensures drained <==> !listenerReady || (HasKey(HeadersOf(Lines(request))) && HandshakeSent(result))
      ensures forall c :: c in clients <==>
                (c in old(clients) || (listenerReady && drained && c == client))
                && (drained ==> ReadsSucceeded(c, read, buffers, |read|))
      ensures handles == old(handles) + (if listenerReady then {client} else {})
      ensures lastAccepted == if listenerReady then Some(client) else old(lastAccepted)
      ensures sockets == old(sockets) + (if listenerReady && drained then [client] else [])
      ensures var headers := HeadersOf(Lines(request));
              responses == old(responses) + (if listenerReady && HasKey(headers) then [(client, Response(headers, accept))] else [])
      ensures var headers := HeadersOf(Lines(request));
              !drained ==> clients == old(clients)
                           && log == old(log) + (if HasKey(headers) then [OnError(client, headers)] else [])
      ensures drained ==> old(log) + (if listenerReady then [OnOpen(client, HeadersOf(Lines(request)))] else []) <= log
    {
      drained := true;
      if listenerReady {
        drained := Accept(client, request, result, accept);
      }
      if drained {
        DrainReadable(read, buffers);
      }
    }
  }

  /**
   * The stale `$client`: when any socket `failed` other than `last`, the
   * socket accepted last and still registered, fails to read, the
   * as-written loop removes `failed` but reports `onClose` for `last`.
   * Afterwards `last` is registered although closed, so the registry
   * invariant no longer holds, and a registered `failed` was never closed.
   */
  lemma StaleCloseBreaksRegistry(clients: seq<Conn>, log: seq<Event>, handles: set<Conn>, failed: Conn, last: Conn)
    requires Tracks(clients, log, handles) && last in clients && failed != last
    ensures var after := log + [OnClose(last)];
            var remaining := Remove(clients, failed);
            && last in remaining && Closes(after, last) == 1
            && !Tracks(remaining, after, handles)
            && (failed in clients ==> failed !in remaining && Closes(after, failed) == 0)
  {
    RemoveFromDistinct(clients, failed);
    CountsAppend(log, OnClose(last));
  }

  /**
   * The common case of the stale `$client`: in the iteration that accepts
   * a client, the readable set still holds the listening socket, whose read
   * fails; as written, the client just opened is closed at once and stays
   * registered.
   */
  lemma ListenerReadClosesNewClient(clients: seq<Conn>, log: seq<Event>, handles: set<Conn>,
                                    listener: Conn, client: Conn, headers: map<string, string>)
    requires Tracks(clients, log, handles) && listener !in clients && client !in handles && client != listener
    ensures var after := log + [OnOpen(client, headers)] + [OnClose(client)];
            var remaining := Remove(clients + [client], listener);
            && remaining == clients + [client]
            && Opens(after, client) == 1 && Closes(after, client) == 1
            && !Tracks(remaining, after, handles + {client})
  {
    TracksOpen(clients, log, handles, client, headers);
    StaleCloseBreaksRegistry(clients + [client], log + [OnOpen(client, headers)], handles + {client}, listener, client);
  }
}
