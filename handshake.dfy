/**
 * The server's answer to an opening handshake (RFC 6455 section 4.2.2):
 * a `101 Switching Protocols` status line and five header lines, joined by
 * CR LF and ended by an empty line.
 *
 * The accept value is base64(SHA-1(key + GUID)). SHA-1 and base64 are
 * library calls outside this model, so the composition is the parameter
 * `accept`; the response is stated for every such function.
 */
module Handshake {
  import opened Text
  import opened Request
  import opened Wrappers

  /** The GUID of RFC 6455 section 1.3 that is appended to the client's key before hashing. */
  const Guid: string := "258EAFA5-E914-47DA-95CA-C5AB0DC85B11"

  const StatusLine: string := "HTTP/1.1 101 Switching Protocols"
  const UpgradeLine: string := "Upgrade: websocket"
  const ConnectionLine: string := "Connection: Upgrade"
  const AcceptPrefix: string := "Sec-WebSocket-Accept: "
  const ProtocolPrefix: string := "Sec-WebSocket-Protocol: "
  const ExtensionsLine: string := "Sec-WebSocket-Extensions: "

  const ProtocolHeader: string := "Sec-WebSocket-Protocol"
  const VersionHeader: string := "Sec-WebSocket-Version"

  /** The client's key, or "" when the request has none. */
  function ClientKey(headers: map<string, string>): (key: string)
    ensures KeyHeader in headers ==> key == headers[KeyHeader]
    ensures KeyHeader !in headers ==> key == ""
  {
    if KeyHeader in headers then headers[KeyHeader] else ""
  }

  /**
   * The value echoed in `Sec-WebSocket-Protocol`: the request's own
   * `Sec-WebSocket-Protocol`, else its `Sec-WebSocket-Version`, else "13".
   */
  function Protocol(headers: map<string, string>): (p: string)
    ensures ProtocolHeader in headers ==> p == headers[ProtocolHeader]
    ensures ProtocolHeader !in headers && VersionHeader in headers ==> p == headers[VersionHeader]
    ensures ProtocolHeader !in headers && VersionHeader !in headers ==> p == "13"
  {
    if ProtocolHeader in headers then headers[ProtocolHeader]
    else if VersionHeader in headers then headers[VersionHeader]
    else "13"
  }

  /** The six lines of the response, in order. */
  function ResponseLines(headers: map<string, string>, accept: string -> string): (lines: seq<string>)
    ensures |lines| == 6
  {
    [ StatusLine,
      UpgradeLine,
      ConnectionLine,
      AcceptPrefix + accept(ClientKey(headers) + Guid),
      ProtocolPrefix + Protocol(headers),
      ExtensionsLine ]
  }

  /** `implode("\r\n", $header) . "\r\n\r\n"`. */
  function Response(headers: map<string, string>, accept: string -> string): (r: string)
    ensures |r| >= 4 && r[|r| - 4..] == "\r\n\r\n"
  {
    Join(ResponseLines(headers, accept), "\r\n") + "\r\n\r\n"
  }

  predicate NoLineBreak(s: string)
  {
    '\r' !in s && '\n' !in s
  }

  /**
   * Read back line by line, the response is exactly the six lines followed
   * by the empty line that ends an HTTP header (and the empty remainder
   * after it), provided the echoed protocol and the digest hold no line break.
   * A lone CR inside a value would also read back unchanged, since only CR LF
   * pairs are folded; the requirement is kept simple and excludes CR outright.
   */
  lemma ResponseReadsBack(headers: map<string, string>, accept: string -> string)
    requires NoLineBreak(Protocol(headers)) && NoLineBreak(accept(ClientKey(headers) + Guid))
    ensures Lines(Response(headers, accept)) == ResponseLines(headers, accept) + ["", ""]
  {
    var six := ResponseLines(headers, accept);
    var eight := six + ["", ""];
    ResponseLinesUnbroken(headers, accept);
    assert forall k :: 0 <= k < 6 ==> eight[k] == six[k];
    JoinAppendEmpty(six, "\r\n");
    var body := Join(six, "\r\n");
    assert Join(eight, "\r\n") == body + "\r\n" + "\r\n";
    assert body + "\r\n" + "\r\n" == body + "\r\n\r\n";
    LinesOfCrlfJoin(eight);
  }

  lemma FixedLinesUnbroken()
    ensures NoLineBreak(StatusLine) && NoLineBreak(UpgradeLine) && NoLineBreak(ConnectionLine)
    ensures NoLineBreak(AcceptPrefix) && NoLineBreak(ProtocolPrefix) && NoLineBreak(ExtensionsLine)
  {
    StatusLinePrintable();
    UpgradeLinePrintable();
    ConnectionLinePrintable();
    AcceptPrefixPrintable();
    ProtocolPrefixPrintable();
    ExtensionsLinePrintable();
    PrintableUnbroken(StatusLine);
    PrintableUnbroken(UpgradeLine);
    PrintableUnbroken(ConnectionLine);
    PrintableUnbroken(AcceptPrefix);
    PrintableUnbroken(ProtocolPrefix);
    PrintableUnbroken(ExtensionsLine);
  }

  // One lemma per fixed line keeps each check of a literal small.
  lemma StatusLinePrintable() ensures Printable(StatusLine) { }
  lemma UpgradeLinePrintable() ensures Printable(UpgradeLine) { }
  lemma ConnectionLinePrintable() ensures Printable(ConnectionLine) { }
  lemma AcceptPrefixPrintable() ensures Printable(AcceptPrefix) { }
  lemma ProtocolPrefixPrintable() ensures Printable(ProtocolPrefix) { }
  lemma ExtensionsLinePrintable() ensures Printable(ExtensionsLine) { }

  /** No control character below the space: in particular neither CR nor LF. */
  predicate Printable(s: string)
  {
    forall k :: 0 <= k < |s| ==> ' ' <= s[k]
  }

  lemma PrintableUnbroken(s: string)
    requires Printable(s)
    ensures NoLineBreak(s)
  {
  }

  lemma NoLineBreakConcat(a: string, b: string)
    requires NoLineBreak(a) && NoLineBreak(b)
    ensures NoLineBreak(a + b)
  {
  }

  lemma ResponseLinesUnbroken(headers: map<string, string>, accept: string -> string)
    requires NoLineBreak(Protocol(headers)) && NoLineBreak(accept(ClientKey(headers) + Guid))
    ensures forall k :: 0 <= k < 6 ==> NoLineBreak(ResponseLines(headers, accept)[k])
  {
    FixedLinesUnbroken();
    NoLineBreakConcat(AcceptPrefix, accept(ClientKey(headers) + Guid));
    NoLineBreakConcat(ProtocolPrefix, Protocol(headers));
  }

  /** Appending two empty parts appends the separator twice. */
  lemma {:induction false} JoinAppendEmpty<T>(parts: seq<seq<T>>, sep: seq<T>)
    requires |parts| >= 1
    ensures Join(parts + [[], []], sep) == Join(parts, sep) + sep + sep
  {
    var ps := parts + [[], []];
    if |parts| == 1 {
      assert ps[1..] == [[], []] && ps[1..][1..] == [[]];
      assert Join(ps[1..], sep) == [] + sep + [];
    } else {
      assert ps[1..] == parts[1..] + [[], []];
      JoinAppendEmpty(parts[1..], sep);
    }
    assert Join(ps, sep) == parts[0] + sep + Join(ps[1..], sep);
  }

  /**
   * End to end: the accept line answers the key of the request line that
   * last set `Sec-WebSocket-Key`.
   */
  lemma AcceptAnswersKey(lines: seq<string>, i: nat, key: string, accept: string -> string)
    requires i < |lines| && Binding(lines[i]) == Some((KeyHeader, key))
    requires forall j :: i < j < |lines| ==> !Binds(lines[j], KeyHeader)
    ensures ResponseLines(HeadersOf(lines), accept)[3] == AcceptPrefix + accept(key + Guid)
  {
    LastBindingWins(lines, i, KeyHeader, key);
  }

  /**
   * A request in which no line sets `Sec-WebSocket-Key` would be answered
   * with the digest of the GUID alone: the key reads as the empty string.
   */
  lemma AcceptWithoutKey(lines: seq<string>, accept: string -> string)
    requires forall j :: 0 <= j < |lines| ==> !Binds(lines[j], KeyHeader)
    ensures ResponseLines(HeadersOf(lines), accept)[3] == AcceptPrefix + accept(Guid)
  {
    HeaderPresent(lines, KeyHeader);
    assert KeyHeader !in HeadersOf(lines);
    assert ClientKey(HeadersOf(lines)) + Guid == Guid;
  }

  /**
   * End to end: the protocol line echoes the value of the request line that
   * last set `Sec-WebSocket-Protocol`.
   */
  lemma ProtocolEchoesRequest(lines: seq<string>, i: nat, protocol: string, accept: string -> string)
    requires i < |lines| && Binding(lines[i]) == Some((ProtocolHeader, protocol))
    requires forall j :: i < j < |lines| ==> !Binds(lines[j], ProtocolHeader)
    ensures ResponseLines(HeadersOf(lines), accept)[4] == ProtocolPrefix + protocol
  {
    LastBindingWins(lines, i, ProtocolHeader, protocol);
    assert Protocol(HeadersOf(lines)) == protocol;
  }

  /**
   * End to end: without a `Sec-WebSocket-Protocol` line, the protocol line
   * echoes the value of the line that last set `Sec-WebSocket-Version`.
   */
  lemma ProtocolFallsBackToVersion(lines: seq<string>, i: nat, version: string, accept: string -> string)
    requires forall j :: 0 <= j < |lines| ==> !Binds(lines[j], ProtocolHeader)
    requires i < |lines| && Binding(lines[i]) == Some((VersionHeader, version))
    requires forall j :: i < j < |lines| ==> !Binds(lines[j], VersionHeader)
    ensures ResponseLines(HeadersOf(lines), accept)[4] == ProtocolPrefix + version
  {
    HeaderPresent(lines, ProtocolHeader);
    LastBindingWins(lines, i, VersionHeader, version);
  }

  /**
   * End to end: a request with neither `Sec-WebSocket-Protocol` nor
   * `Sec-WebSocket-Version` is answered with protocol "13".
   */
  lemma ProtocolDefault(lines: seq<string>, accept: string -> string)
    requires forall j :: 0 <= j < |lines| ==> !Binds(lines[j], ProtocolHeader) && !Binds(lines[j], VersionHeader)
    ensures ResponseLines(HeadersOf(lines), accept)[4] == ProtocolPrefix + "13"
  {
    HeaderPresent(lines, ProtocolHeader);
    HeaderPresent(lines, VersionHeader);
  }
}
