/** The backend's reader of an optional PROXY header in front of an SSH stream that arrives in pieces. */
module Preamble {
  import opened Bytes
  import opened ProxyProtocol

  // ------------------------------------------------------------------ the reader on values

  /** Still collecting, or handed to SSH with a client address and what SSH has been given. */
  datatype Reader = Waiting(buf: seq<Byte>) | Handed(ip: seq<Byte>, delivered: seq<Byte>)

  predicate CrlfAt(s: seq<Byte>, i: int) {
    0 <= i && i + 2 <= |s| && s[i] == CR && s[i + 1] == LF
  }

  /** bytes.find(b"\r\n"): the first position, or -1. */
  function FindCrlf(s: seq<Byte>): (i: int)
    ensures i == -1 ==> forall j :: !CrlfAt(s, j)
    ensures i != -1 ==> CrlfAt(s, i) && forall j :: 0 <= j < i ==> !CrlfAt(s, j)
  {
    if |s| < 2 then -1
    else if s[0] == CR && s[1] == LF then 0
    else
      var rest := FindCrlf(s[1..]);
      assert forall j :: 0 < j ==> (CrlfAt(s, j) <==> CrlfAt(s[1..], j - 1));
      if rest == -1 then -1 else rest + 1
  }

  /** The handoff decision on a non-empty buffer. */
  function Decide(fallback: seq<Byte>, buf: seq<Byte>, force: bool): Reader {
    if buf == [] then Waiting(buf)
    else if buf[0] != PREFIX[0] then Handed(fallback, buf)
    else if |buf| < |PREFIX| then if force then Handed(fallback, buf) else Waiting(buf)
    else if !(PREFIX <= buf) then Handed(fallback, buf)
    else
      var idx := FindCrlf(buf);
      if idx == -1 then
        if force || |buf| >= MAX_LINE then Handed(fallback, buf) else Waiting(buf)
      else Handed(AddressIn(fallback, buf[..idx]), buf[idx + 2..])
  }

  function AddressIn(fallback: seq<Byte>, line: seq<Byte>): seq<Byte> {
    match ParseProxyV1Line(line)
    case None => fallback
    case Some(parsed) => parsed.ip
  }

  function Feed(fallback: seq<Byte>, r: Reader, chunk: seq<Byte>): Reader {
    match r
    case Handed(ip, delivered) => Handed(ip, delivered + chunk)
    case Waiting(buf) => Decide(fallback, buf + chunk, false)
  }

  function AtEof(fallback: seq<Byte>, r: Reader): Reader {
    match r
    case Handed(_, _) => r
    case Waiting(buf) => if buf == [] then Handed(fallback, []) else Decide(fallback, buf, true)
  }

  function FeedAll(fallback: seq<Byte>, r: Reader, chunks: seq<seq<Byte>>): Reader
    decreases chunks
  {
    if chunks == [] then r else FeedAll(fallback, Feed(fallback, r, chunks[0]), chunks[1..])
  }

  function Concat(chunks: seq<seq<Byte>>): seq<Byte> {
    if chunks == [] then [] else chunks[0] + Concat(chunks[1..])
  }

  /** What SSH has been given once all chunks and the end of the stream have arrived. */
  function Outcome(fallback: seq<Byte>, chunks: seq<seq<Byte>>): Reader {
    AtEof(fallback, FeedAll(fallback, Waiting([]), chunks))
  }

  // ------------------------------------------------------------------ the reader as it is

  /** The SSH connection the transport is handed to. */
  class SshConnection {
    const clientIp: seq<Byte>
    var delivered: seq<Byte>
    var eofs: nat

    constructor (clientIp: seq<Byte>)
      ensures this.clientIp == clientIp && delivered == [] && eofs == 0
    {
      this.clientIp, delivered, eofs := clientIp, [], 0;
    }

    method DataReceived(data: seq<Byte>)
      modifies this`delivered
      ensures delivered == old(delivered) + data
    {
      delivered := delivered + data;
    }

    method EofReceived()
      modifies this`eofs
      ensures eofs == old(eofs) + 1
    {
      eofs := eofs + 1;
    }
  }

  class PreambleProtocol {
    var connected: bool             // a transport has been attached
    var buf: seq<Byte>
    var fallbackIp: seq<Byte>
    var handedOff: bool
    var inner: SshConnection?
    ghost var handoffs: nat         // SSH connections created so far

    ghost predicate Valid()
      reads this
    {
      && (handedOff <==> inner != null)
      && handoffs == (if handedOff then 1 else 0)
      && (handedOff ==> connected && buf == [])
    }

    ghost function View(): Reader
      requires Valid()
      reads this, inner
    {
      if inner != null then Handed(inner.clientIp, inner.delivered) else Waiting(buf)
    }

    constructor ()
      ensures Valid() && !connected && View() == Waiting([]) && fallbackIp == UNKNOWN_IP
    {
      connected, buf, fallbackIp, handedOff, inner, handoffs := false, [], UNKNOWN_IP, false, null, 0;
    }

    method ConnectionMade(peer: Option<seq<Byte>>)
      requires Valid()
      modifies this`connected, this`fallbackIp
      ensures Valid() && connected && View() == old(View())
      ensures fallbackIp == if peer.Some? then peer.value else old(fallbackIp)
    {
      connected := true;
      if peer.Some? {
        fallbackIp := peer.value;
      }
    }

    method DataReceived(data: seq<Byte>)
      requires Valid() && connected
      modifies this`buf, this`handedOff, this`inner, this`handoffs, inner
      ensures Valid() && (old(inner) != null ==> inner == old(inner))
      ensures View() == Feed(fallbackIp, old(View()), data)
    {
      if handedOff {
        if inner != null {
          inner.DataReceived(data);
        }
        return;
      }
      buf := buf + data;
      TryHandoff(false);
    }

    method EofReceived()
      requires Valid() && connected
      modifies this`buf, this`handedOff, this`inner, this`handoffs, inner
      ensures Valid() && (old(inner) != null ==> inner == old(inner))
      ensures View() == AtEof(fallbackIp, old(View()))
      // After the end of the stream SSH always runs, and has been told.
      ensures handoffs == 1 && inner != null && inner.eofs == 1 + if old(inner) != null then old(inner.eofs) else 0
    {
      if !handedOff {
        if buf != [] {
          TryHandoff(true);
        } else if connected {
          Complete(fallbackIp, []);
        }
      }
      if inner != null {
        inner.EofReceived();
      }
    }

    method TryHandoff(force: bool)
      requires Valid() && connected && !handedOff
      modifies this`buf, this`handedOff, this`inner, this`handoffs
      ensures Valid() && View() == Decide(fallbackIp, old(buf), force)
      ensures inner != null ==> fresh(inner) && inner.eofs == 0
      ensures force && old(buf) != [] ==> handedOff
    {
      if handedOff {
        return;
      }
      var data := buf;
      if data == [] {
        return;
      }
      if data[0] != PREFIX[0] {
        Complete(fallbackIp, data);
        return;
      }
      if |data| < |PREFIX| {
        if force {
          Complete(fallbackIp, data);
        }
        return;
      }
      if !(PREFIX <= data) {
        Complete(fallbackIp, data);
        return;
      }
      var idx := FindCrlf(data);
      if idx == -1 {
        if force || |data| >= MAX_LINE {
          Complete(fallbackIp, data);
        }
        return;
      }
      var parsed := ParseProxyV1Line(data[..idx]);
      var leftover := data[idx + 2..];
      Complete(if parsed.Some? then parsed.value.ip else fallbackIp, leftover);
    }

    /** Create the SSH connection, at most once, and give it what is left over. */
    method Complete(clientIp: seq<Byte>, leftover: seq<Byte>)
      requires Valid()
      modifies this`buf, this`handedOff, this`inner, this`handoffs
      ensures Valid()
      ensures old(handedOff) || !connected ==> unchanged(this)
      ensures !old(handedOff) && connected ==>
                handedOff && fresh(inner) && inner.eofs == 0 && inner.clientIp == clientIp && inner.delivered == leftover
    {
      if handedOff || !connected {
        return;
      }
      handedOff := true;
      buf := [];
      var ssh := new SshConnection(clientIp);
      handoffs := handoffs + 1;
      inner := ssh;
      if leftover != [] {
        ssh.DataReceived(leftover);
      }
    }
  }

  // ------------------------------------------------------------------ fragmentation independence

  /** The stream opens with a PROXY line, terminated within the protocol's length limit. */
  predicate HasShortHeader(stream: seq<Byte>) {
    PREFIX <= stream && FindCrlf(stream) != -1 && FindCrlf(stream) + 2 <= MAX_LINE
  }

  /** The stream opens with a PROXY line that is terminated, but too late. */
  predicate HasLongHeader(stream: seq<Byte>) {
    PREFIX <= stream && FindCrlf(stream) != -1 && FindCrlf(stream) + 2 > MAX_LINE
  }

  /** What SSH should get of a whole stream. */
  function Meaning(fallback: seq<Byte>, stream: seq<Byte>): Reader {
    if HasShortHeader(stream) then
      var idx := FindCrlf(stream);
      Handed(AddressIn(fallback, stream[..idx]), stream[idx + 2..])
    else Handed(fallback, stream)
  }

  /** Not enough has arrived to decide. */
  predicate Undecided(seen: seq<Byte>) {
    if |seen| < |PREFIX| then seen == [] || seen[0] == PREFIX[0]
    else PREFIX <= seen && FindCrlf(seen) == -1 && |seen| < MAX_LINE
  }

  lemma FindCrlfPrefix(a: seq<Byte>, b: seq<Byte>)
    ensures FindCrlf(a) != -1 ==> FindCrlf(a + b) == FindCrlf(a)
    ensures FindCrlf(a) == -1 && FindCrlf(a + b) != -1 ==> FindCrlf(a + b) + 2 > |a|
  {
    var s := a + b;
    assert forall j :: CrlfAt(a, j) ==> CrlfAt(s, j);
    assert forall j :: j + 2 <= |a| && CrlfAt(s, j) ==> CrlfAt(a, j);
  }

  /** What the reader may be after `seen` has arrived in any pieces, when more may follow. */
  predicate Faithful(fallback: seq<Byte>, r: Reader, seen: seq<Byte>) {
    match r
    case Waiting(buf) => buf == seen && Undecided(seen)
    case Handed(_, _) => r == Meaning(fallback, seen) && !Undecided(seen)
  }

  lemma DecidesFaithfully(fallback: seq<Byte>, seen: seq<Byte>, chunk: seq<Byte>)
    requires Undecided(seen) && !HasLongHeader(seen + chunk)
    ensures Faithful(fallback, Decide(fallback, seen + chunk, false), seen + chunk)
  {
    var s := seen + chunk;
    FindCrlfPrefix(seen, chunk);
  }

  lemma StaysHanded(fallback: seq<Byte>, ip: seq<Byte>, delivered: seq<Byte>, seen: seq<Byte>, chunk: seq<Byte>)
    requires Faithful(fallback, Handed(ip, delivered), seen) && !HasLongHeader(seen + chunk)
    ensures Faithful(fallback, Handed(ip, delivered + chunk), seen + chunk)
  {
    var s := seen + chunk;
    FindCrlfPrefix(seen, chunk);
    if HasShortHeader(seen) {
      var idx := FindCrlf(seen);
      assert s[..idx] == seen[..idx] && s[idx + 2..] == seen[idx + 2..] + chunk;
    } else {
      assert s[..|seen|] == seen;
      assert |seen| >= |PREFIX| && !(PREFIX <= seen) ==> !(PREFIX <= s);
      assert !HasShortHeader(s);
    }
  }

  lemma LongHeaderStays(a: seq<Byte>, b: seq<Byte>)
    requires HasLongHeader(a)
    ensures HasLongHeader(a + b)
  {
    FindCrlfPrefix(a, b);
  }

  lemma {:induction false} FeedAllFaithfully(fallback: seq<Byte>, r: Reader, seen: seq<Byte>, chunks: seq<seq<Byte>>)
    requires Faithful(fallback, r, seen) && !HasLongHeader(seen + Concat(chunks))
    ensures Faithful(fallback, FeedAll(fallback, r, chunks), seen + Concat(chunks))
    decreases chunks
  {
    if chunks == [] {
      assert seen + Concat(chunks) == seen;
    } else {
      var more := seen + chunks[0];
      assert more + Concat(chunks[1..]) == seen + Concat(chunks);
      if HasLongHeader(more) {
        LongHeaderStays(more, Concat(chunks[1..]));
        assert false;
      } else {
        match r {
          case Waiting(_) => DecidesFaithfully(fallback, seen, chunks[0]);
          case Handed(ip, delivered) => StaysHanded(fallback, ip, delivered, seen, chunks[0]);
        }
        FeedAllFaithfully(fallback, Feed(fallback, r, chunks[0]), more, chunks[1..]);
      }
    }
  }

  /** However the stream is cut, SSH gets its meaning, unless its PROXY line is terminated too late. */
  lemma OutcomeIsMeaning(fallback: seq<Byte>, chunks: seq<seq<Byte>>)
    requires !HasLongHeader(Concat(chunks))
    ensures Outcome(fallback, chunks) == Meaning(fallback, Concat(chunks))
  {
    assert [] + Concat(chunks) == Concat(chunks);
    FeedAllFaithfully(fallback, Waiting([]), [], chunks);
  }

  /** Before the end of the stream, SSH has either got nothing yet or the meaning of what has arrived. */
  lemma ProgressIsMeaning(fallback: seq<Byte>, chunks: seq<seq<Byte>>)
    requires !HasLongHeader(Concat(chunks))
    ensures var r := FeedAll(fallback, Waiting([]), chunks);
            r.Handed? ==> r == Meaning(fallback, Concat(chunks))
    ensures FeedAll(fallback, Waiting([]), chunks).Handed? <==> !Undecided(Concat(chunks))
  {
    assert [] + Concat(chunks) == Concat(chunks);
    FeedAllFaithfully(fallback, Waiting([]), [], chunks);
  }

  lemma CutInTwo(first: seq<Byte>, second: seq<Byte>)
    ensures Concat([first]) == first && Concat([first, second]) == first + second
    ensures forall f :: FeedAll(f, Waiting([]), [first]) == Decide(f, first, false)
    ensures forall f :: FeedAll(f, Waiting([]), [first, second]) == Feed(f, Decide(f, first, false), second)
  {
    assert [first, second][1..] == [second] && [first][1..] == [] && [second][1..] == [];
    assert [] + first == first;
    assert Concat([second]) == second;
    forall f
      ensures FeedAll(f, Waiting([]), [first, second]) == Feed(f, Decide(f, first, false), second)
    {
      var r := Decide(f, first, false);
      assert FeedAll(f, Waiting([]), [first, second]) == FeedAll(f, r, [second]);
      assert FeedAll(f, r, [second]) == FeedAll(f, Feed(f, r, second), []);
    }
  }

  /** Two ways to cut a stream whose PROXY line is terminated too late, with different outcomes. */
  lemma LongHeaderDependsOnChunks(fallback: seq<Byte>, stream: seq<Byte>)
    requires HasLongHeader(stream)
    ensures var cut := [stream[..MAX_LINE], stream[MAX_LINE..]];
            Concat([stream]) == stream == Concat(cut) && Outcome(fallback, [stream]) != Outcome(fallback, cut)
  {
    var first, second := stream[..MAX_LINE], stream[MAX_LINE..];
    assert first + second == stream && PREFIX <= first;
    FindCrlfPrefix(first, second);
    CutInTwo(stream, []);
    CutInTwo(first, second);
    hide FeedAll, Concat, AddressIn;
    var idx := FindCrlf(stream);
    assert Decide(fallback, first, false) == Handed(fallback, first);
    assert Outcome(fallback, [first, second]) == Handed(fallback, stream);
    assert Outcome(fallback, [stream]).delivered == stream[idx + 2..];
  }

  /** The outcome does not depend on how the stream is cut. */
  ghost predicate ChunkingIsInvisible(stream: seq<Byte>) {
    forall fallback, a, b :: Concat(a) == stream && Concat(b) == stream ==> Outcome(fallback, a) == Outcome(fallback, b)
  }

  /** Fragmentation is invisible exactly for the streams without a PROXY line terminated beyond 107 bytes. */
  lemma ChunkingInvisibleExactly(stream: seq<Byte>)
    ensures ChunkingIsInvisible(stream) <==> !HasLongHeader(stream)
  {
    if HasLongHeader(stream) {
      LongHeaderDependsOnChunks([], stream);
    } else {
      forall fallback, a, b | Concat(a) == stream && Concat(b) == stream
        ensures Outcome(fallback, a) == Outcome(fallback, b)
      {
        OutcomeIsMeaning(fallback, a);
        OutcomeIsMeaning(fallback, b);
      }
    }
  }

  /** All of it, or all but its first CRLF-terminated line, and that only if it opens with "PROXY ". */
  predicate AllOrAllButFirstLine(delivered: seq<Byte>, stream: seq<Byte>) {
    || delivered == stream
    || (PREFIX <= stream && FindCrlf(stream) != -1 && delivered == stream[FindCrlf(stream) + 2..])
  }

  predicate Lossless(r: Reader, seen: seq<Byte>) {
    match r
    case Waiting(buf) => buf == seen
    case Handed(_, delivered) => AllOrAllButFirstLine(delivered, seen)
  }

  lemma {:induction false} FeedAllLossless(fallback: seq<Byte>, r: Reader, seen: seq<Byte>, chunks: seq<seq<Byte>>)
    requires Lossless(r, seen)
    ensures Lossless(FeedAll(fallback, r, chunks), seen + Concat(chunks))
    decreases chunks
  {
    if chunks == [] {
      assert seen + Concat(chunks) == seen;
    } else {
      var more := seen + chunks[0];
      assert more + Concat(chunks[1..]) == seen + Concat(chunks);
      FindCrlfPrefix(seen, chunks[0]);
      if r.Handed? && r.delivered != seen {
        var idx := FindCrlf(seen);
        assert more[idx + 2..] == seen[idx + 2..] + chunks[0];
      }
      FeedAllLossless(fallback, Feed(fallback, r, chunks[0]), more, chunks[1..]);
    }
  }

  /** For every stream, cut in every way, the end of the stream finds SSH running, with nothing but a header line missing. */
  lemma NothingElseIsLost(fallback: seq<Byte>, chunks: seq<seq<Byte>>)
    ensures Outcome(fallback, chunks).Handed?
    ensures AllOrAllButFirstLine(Outcome(fallback, chunks).delivered, Concat(chunks))
  {
    assert [] + Concat(chunks) == Concat(chunks);
    FeedAllLossless(fallback, Waiting([]), [], chunks);
  }
}
