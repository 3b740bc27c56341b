/** From the client's socket through the relay and the PROXY header to SSH on the backend. */
module EndToEnd {
  import opened Bytes
  import opened ProxyProtocol
  import opened Preamble
  import opened Sockets
  import opened Pipes
  import opened Relay

  /** The client address SSH must see: the one the header names, else the backend's own peer. */
  function ClientAddress(src: SockAddr, dst: SockAddr, fallback: seq<Byte>): seq<Byte> {
    if Named(src, dst) then PeerIp(src) else fallback
  }

  /** A printed header in front of any bytes is a header within the limit, and it ends where it was printed. */
  lemma HeaderFoundFirst(src: SockAddr, dst: SockAddr, rest: seq<Byte>)
    requires WellFormed(src) && WellFormed(dst)
    ensures var stream := FormatProxyV1(src, dst) + rest;
            && FindCrlf(stream) == |HeaderLine(src, dst)| && HasShortHeader(stream)
            && stream[..FindCrlf(stream)] == HeaderLine(src, dst) && stream[FindCrlf(stream) + 2..] == rest
  {
    HeaderIsFramed(src, dst);
    var header, line := FormatProxyV1(src, dst), HeaderLine(src, dst);
    var stream := header + rest;
    assert stream == line + CRLF + rest;
    assert CrlfAt(stream, |line|);
    forall j | 0 <= j < |line|
      ensures !CrlfAt(stream, j)
    {
      assert stream[j] == line[j] && line[j] in line;
    }
  }

  /** The relayed stream means: this client address, and exactly the client's bytes. */
  lemma RelayedStreamMeaning(src: SockAddr, dst: SockAddr, clientBytes: seq<Byte>, fallback: seq<Byte>)
    requires WellFormed(src) && WellFormed(dst)
    ensures Meaning(fallback, FormatProxyV1(src, dst) + clientBytes) == Handed(ClientAddress(src, dst, fallback), clientBytes)
    ensures !HasLongHeader(FormatProxyV1(src, dst) + clientBytes)
  {
    HeaderFoundFirst(src, dst, clientBytes);
    HeaderReadsBack(src, dst);
  }

  /**
   * Transparency of a completed session: for any two addresses, any client bytes and any way the
   * network cuts the backend's stream, SSH gets the client's address and exactly the client's bytes.
   */
  lemma CompletedSessionIsTransparent(s: ProxySession, src: SockAddr, dst: SockAddr, fallback: seq<Byte>, chunks: seq<seq<Byte>>)
    requires s.Over() && s.ending.Completed?
    requires WellFormed(src) && WellFormed(dst) && s.header == FormatProxyV1(src, dst)
    requires Concat(chunks) == s.backend.accepted
    ensures Outcome(fallback, chunks) == Handed(ClientAddress(src, dst, fallback), s.client.received)
    // And the client was sent exactly what the backend said.
    ensures s.client.accepted == s.backend.received
  {
    RelayedStreamMeaning(src, dst, s.client.received, fallback);
    OutcomeIsMeaning(fallback, chunks);
  }

  /**
   * Transparency at any moment: whatever part of the sent bytes has arrived, SSH has got nothing yet,
   * or the client's address and a prefix of the client's bytes.
   */
  lemma LiveSessionIsTransparent(s: ProxySession, src: SockAddr, dst: SockAddr, fallback: seq<Byte>, chunks: seq<seq<Byte>>)
    requires s.Inv() && !s.state.Connecting?
    requires WellFormed(src) && WellFormed(dst) && s.header == FormatProxyV1(src, dst)
    requires Concat(chunks) <= s.backend.accepted
    ensures var r := FeedAll(fallback, Waiting([]), chunks);
            r.Handed? ==> r.ip == ClientAddress(src, dst, fallback) && r.delivered <= s.client.received
    ensures |Concat(chunks)| >= |s.header| ==> FeedAll(fallback, Waiting([]), chunks).Handed?
  {
    var header, arrived := s.header, Concat(chunks);
    var owed := header + s.client.received;
    assert s.backend.accepted + s.toBackend.Pending() == owed;
    assert arrived <= owed;
    HeaderFoundFirst(src, dst, []);
    assert header + [] == header;
    if |arrived| >= |header| {
      var rest := arrived[|header|..];
      BeyondHeader(header, s.client.received, arrived);
      RelayedStreamMeaning(src, dst, rest, fallback);
    } else {
      assert arrived == header[..|arrived|];
      PartOfHeaderIsUndecided(src, dst, arrived);
    }
    ProgressIsMeaning(fallback, chunks);
  }

  lemma BeyondHeader(header: seq<Byte>, more: seq<Byte>, arrived: seq<Byte>)
    requires arrived <= header + more && |arrived| >= |header|
    ensures arrived == header + arrived[|header|..] && arrived[|header|..] <= more
  {
    assert arrived == (header + more)[..|arrived|];
    assert arrived[..|header|] == header;
    assert arrived[|header|..] == more[..|arrived| - |header|];
  }

  lemma PartOfHeaderIsUndecided(src: SockAddr, dst: SockAddr, part: seq<Byte>)
    requires WellFormed(src) && WellFormed(dst)
    requires part <= FormatProxyV1(src, dst) && |part| < |FormatProxyV1(src, dst)|
    ensures Undecided(part) && !HasLongHeader(part)
  {
    HeaderIsFramed(src, dst);
    var header, line := FormatProxyV1(src, dst), HeaderLine(src, dst);
    forall j | 0 <= j && j + 2 <= |part|
      ensures !CrlfAt(part, j)
    {
      assert part[j] == line[j] && line[j] in line;
    }
  }
}
