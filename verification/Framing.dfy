/** Length-prefixed frames over a byte stream that arrives in arbitrary pieces. */
module Framing {
  import opened Basics

  type Byte = b: int | 0 <= b < 256
  type Bytes = seq<Byte>

  const LIMIT := 0x1_0000_0000

  /** `n.to_bytes(4, "big")`. */
  function BigEndian(n: nat): (b: Bytes)
    requires n < LIMIT
    ensures |b| == 4
  {
    [n / 0x100_0000, n / 0x1_0000 % 256, n / 256 % 256, n % 256]
  }

  function FromBigEndian(b: Bytes): nat
    requires |b| == 4
  {
    var b0: int, b1: int, b2: int := b[0], b[1], b[2];
    b0 * 0x100_0000 + b1 * 0x1_0000 + b2 * 256 + b[3]
  }

  /** `frame`: no frame for a payload whose length needs more than four bytes. */
  function Frame(payload: Bytes): Option<Bytes> {
    if |payload| < LIMIT then Some(BigEndian(|payload|) + payload) else None
  }

  /** The four bytes are the digits of the number to base 256, the most significant first, and read back as it. */
  lemma BigEndianRoundTrip(n: nat)
    requires n < LIMIT
    ensures FromBigEndian(BigEndian(n)) == n
    ensures var b := BigEndian(n);
            n == b[0] as int * 16_777_216 + b[1] as int * 65_536 + b[2] as int * 256 + b[3] as int
  {
    var q := n / 256;
    var r := n / 0x1_0000;
    assert r == q / 256 && n / 0x100_0000 == r / 256;
  }

  /** A frame is four bytes of length and the payload; there is none from 4 GiB on. */
  lemma FrameExactly(payload: Bytes)
    ensures Frame(payload).Some? <==> |payload| < 4_294_967_296
    ensures Frame(payload).Some? ==> var f := Frame(payload).value;
                                     |f| == 4 + |payload| && f[4..] == payload && FromBigEndian(f[..4]) == |payload|
  {
    if |payload| < LIMIT {
      BigEndianRoundTrip(|payload|);
      var f := Frame(payload).value;
      assert f[..4] == BigEndian(|payload|);
    }
  }

  // ---------------------------------------------------------------------------------------------
  // What a stream holds
  // ---------------------------------------------------------------------------------------------

  /** The payloads of the complete frames at the start of a stream. */
  function Payloads(stream: Bytes): seq<Bytes>
    decreases |stream|
  {
    if |stream| < 4 then []
    else
      var n := FromBigEndian(stream[..4]);
      if |stream| < 4 + n then [] else [stream[4..4 + n]] + Payloads(stream[4 + n..])
  }

  /** What is left after the complete frames. */
  function Leftover(stream: Bytes): Bytes
    decreases |stream|
  {
    if |stream| < 4 then stream
    else
      var n := FromBigEndian(stream[..4]);
      if |stream| < 4 + n then stream else Leftover(stream[4 + n..])
  }

  predicate Framable(payloads: seq<Bytes>) {
    forall i :: 0 <= i < |payloads| ==> |payloads[i]| < LIMIT
  }

  /** The frames of some payloads, one after the other. */
  function Encode(payloads: seq<Bytes>): Bytes
    requires Framable(payloads)
  {
    if payloads == [] then [] else Frame(payloads[0]).value + Encode(payloads[1..])
  }

  /** A header and as many bytes as it says. */
  lemma TakeFrame(header: Bytes, body: Bytes, tail: Bytes)
    requires |header| == 4 && |body| == FromBigEndian(header)
    ensures Payloads(header + (body + tail)) == [body] + Payloads(tail)
    ensures Leftover(header + (body + tail)) == Leftover(tail)
  {
    var stream, n := header + (body + tail), |body|;
    assert stream[..4] == header && stream[4..4 + n] == body && stream[4 + n..] == tail;
  }

  /** After complete frames the rest of a stream is read as if it stood alone. */
  lemma {:induction false} PayloadsAppend(a: Bytes, b: Bytes)
    requires Leftover(a) == []
    ensures Payloads(a + b) == Payloads(a) + Payloads(b) && Leftover(a + b) == Leftover(b)
    decreases |a|
  {
    if a == [] {
      assert a + b == b;
    } else {
      var n := FromBigEndian(a[..4]);
      var rest := a[4 + n..];
      PayloadsAppend(rest, b);
      assert a == a[..4] + (a[4..4 + n] + rest) && a + b == a[..4] + (a[4..4 + n] + (rest + b));
      TakeFrame(a[..4], a[4..4 + n], rest);
      TakeFrame(a[..4], a[4..4 + n], rest + b);
      Regroup([a[4..4 + n]], Payloads(rest), Payloads(b));
    }
  }

  lemma FirstFrame(p: Bytes, tail: Bytes)
    requires |p| < LIMIT
    ensures Payloads(Frame(p).value + tail) == [p] + Payloads(tail)
    ensures Leftover(Frame(p).value + tail) == Leftover(tail)
  {
    BigEndianRoundTrip(|p|);
    TakeFrame(BigEndian(|p|), p, tail);
    assert Frame(p).value + tail == BigEndian(|p|) + (p + tail);
  }

  /** Encoded payloads come back in order, followed by whatever the rest of the stream holds. */
  lemma {:induction false} DecodeEncode(payloads: seq<Bytes>, tail: Bytes)
    requires Framable(payloads)
    ensures Payloads(Encode(payloads) + tail) == payloads + Payloads(tail)
    ensures Leftover(Encode(payloads) + tail) == Leftover(tail)
    decreases |payloads|
  {
    if payloads == [] {
      assert Encode(payloads) + tail == tail;
    } else {
      var p, more := payloads[0], payloads[1..];
      DecodeEncode(more, tail);
      FirstFrame(p, Encode(more) + tail);
      Regroup(Frame(p).value, Encode(more), tail);
      Regroup([p], more, Payloads(tail));
      assert [p] + more == payloads;
    }
  }

  /** After `k` bytes of the encoding, exactly the first `j` frames are complete. */
  ghost predicate FitsExactly(payloads: seq<Bytes>, k: nat, j: nat)
    requires Framable(payloads)
  {
    j <= |payloads| && |Encode(payloads[..j])| <= k && (j < |payloads| ==> k < |Encode(payloads[..j + 1])|)
  }

  lemma FitsStep(p: Bytes, more: seq<Bytes>, k: nat, j: nat)
    requires |p| < LIMIT && Framable(more) && FitsExactly(more, k, j)
    ensures Framable([p] + more) && FitsExactly([p] + more, k + |Frame(p).value|, j + 1)
  {
    var payloads := [p] + more;
    assert payloads[..j + 1] == [p] + more[..j];
    EncodeStep(p, more[..j]);
    if j < |more| {
      assert payloads[..j + 2] == [p] + more[..j + 1];
      EncodeStep(p, more[..j + 1]);
    }
  }

  lemma TruncatedFirst(p: Bytes, more: seq<Bytes>, k: nat)
    requires |p| < LIMIT && Framable(more) && k < |Frame(p).value|
    ensures Framable([p] + more) && FitsExactly([p] + more, k, 0)
    ensures k <= |Encode([p] + more)| && Payloads(Encode([p] + more)[..k]) == []
  {
    EncodeStep(p, more);
    CutFrame(p, Encode([p] + more)[..k]);
    EncodeStep(p, []);
    assert ([p] + more)[..1] == [p] + [];
  }

  lemma TruncatedLater(p: Bytes, more: seq<Bytes>, k: nat, found: seq<Bytes>)
    requires |p| < LIMIT && Framable(more) && k <= |Encode(more)|
    requires Payloads(Encode(more)[..k]) == found
    ensures Framable([p] + more) && k + |Frame(p).value| <= |Encode([p] + more)|
    ensures Payloads(Encode([p] + more)[..k + |Frame(p).value|]) == [p] + found
  {
    var first, rest := Frame(p).value, Encode(more);
    EncodeStep(p, more);
    FirstFrame(p, rest[..k]);
    assert (first + rest)[..k + |first|] == first + rest[..k];
  }

  lemma TruncatedStep(p: Bytes, more: seq<Bytes>, k: nat, j: nat)
    requires |p| < LIMIT && Framable(more) && k <= |Encode(more)|
    requires FitsExactly(more, k, j) && Payloads(Encode(more)[..k]) == more[..j]
    ensures Framable([p] + more) && FitsExactly([p] + more, k + |Frame(p).value|, j + 1)
    ensures k + |Frame(p).value| <= |Encode([p] + more)|
    ensures Payloads(Encode([p] + more)[..k + |Frame(p).value|]) == ([p] + more)[..j + 1]
  {
    FitsStep(p, more, k, j);
    TruncatedLater(p, more, k, more[..j]);
    assert ([p] + more)[..j + 1] == [p] + more[..j];
  }

  /** A stream cut after `k` bytes holds exactly the payloads whose frames fit whole. */
  lemma {:induction false} DecodeTruncated(payloads: seq<Bytes>, k: nat) returns (j: nat)
    requires Framable(payloads) && k <= |Encode(payloads)|
    ensures FitsExactly(payloads, k, j) && Payloads(Encode(payloads)[..k]) == payloads[..j]
    decreases |payloads|
  {
    if payloads == [] {
      return 0;
    }
    var p, more := payloads[0], payloads[1..];
    assert payloads == [p] + more;
    EncodeStep(p, more);
    var size := |Frame(p).value|;
    if k < size {
      TruncatedFirst(p, more, k);
      j := 0;
    } else {
      var i := DecodeTruncated(more, k - size);
      TruncatedStep(p, more, k - size, i);
      j := i + 1;
    }
  }

  lemma EncodeStep(p: Bytes, more: seq<Bytes>)
    requires |p| < LIMIT && Framable(more)
    ensures Framable([p] + more) && Encode([p] + more) == Frame(p).value + Encode(more)
  {
    assert ([p] + more)[1..] == more;
  }

  lemma CutFrame(p: Bytes, stream: Bytes)
    requires |p| < LIMIT && stream < Frame(p).value
    ensures Payloads(stream) == []
  {
    BigEndianRoundTrip(|p|);
    assert |stream| >= 4 ==> stream[..4] == BigEndian(|p|);
  }

  // ---------------------------------------------------------------------------------------------
  // The reader
  // ---------------------------------------------------------------------------------------------

  datatype Received = Chunk(bytes: Bytes) | Timeout

  /** The peer's stream; every call may deliver any non-empty piece that fits, or time out. */
  /** A connected socket: the bytes that are still to come, whether they always come in time, and whether
      one has not. */
  class Socket {
    var rest: Bytes
    const prompt: bool
    ghost var timedOut: bool

    constructor (stream: Bytes, prompt: bool)
      ensures rest == stream && this.prompt == prompt && !timedOut
    {
      rest := stream;
      this.prompt := prompt;
      timedOut := false;
    }

    method Recv(max: nat) returns (r: Received)
      requires max > 0
      modifies this
      ensures r.Timeout? ==> !prompt && timedOut && rest == old(rest)
      ensures r.Chunk? ==> timedOut == old(timedOut)
      ensures r.Chunk? ==> r.bytes + rest == old(rest) && |r.bytes| <= max && (r.bytes == [] <==> old(rest) == [])
    {
      if !prompt {
        if * {
          timedOut := true;
          return Timeout;
        }
      }
      if rest == [] {
        return Chunk([]);
      }
      var k: nat :| 1 <= k <= max && k <= |rest|;
      r := Chunk(rest[..k]);
      rest := rest[k..];
    }
  }

  datatype Exact = Full(bytes: Bytes) | Closed | TimedOut

  /** `s` is what is left of `stream`. */
  ghost predicate IsRest(stream: Bytes, s: Bytes) {
    |s| <= |stream| && stream[|stream| - |s|..] == s
  }

  /** `read_exact`: all of the next `n` bytes, however they were split. It times out exactly when the socket
      did. */
  method ReadExact(sock: Socket, n: nat) returns (r: Exact)
    requires !sock.timedOut
    modifies sock
    ensures r.TimedOut? <==> sock.timedOut
    ensures sock.timedOut ==> !sock.prompt
    ensures r.Full? ==> |r.bytes| == n && r.bytes + sock.rest == old(sock.rest)
    ensures r.Closed? ==> |old(sock.rest)| < n && sock.rest == []
    ensures r.TimedOut? ==> IsRest(old(sock.rest), sock.rest) && |old(sock.rest)| < |sock.rest| + n
  {
    var buf: Bytes := [];
    while |buf| < n
      invariant |buf| <= n && buf + sock.rest == old(sock.rest) && !sock.timedOut
      decreases n - |buf|
    {
      var r := sock.Recv(n - |buf|);
      if r.Timeout? {
        return TimedOut;
      }
      if r.bytes == [] {
        return Closed;
      }
      buf := buf + r.bytes;
    }
    return Full(buf);
  }

  datatype Ending = PeerClosed | MidFrame | ReadTimeout

  /** The bytes read so far are complete frames with these payloads. */
  ghost predicate ReadSoFar(stream: Bytes, consumed: Bytes, rest: Bytes, received: seq<Bytes>) {
    stream == consumed + rest && Payloads(consumed) == received && Leftover(consumed) == []
  }

  lemma ReadNext(stream: Bytes, consumed: Bytes, rest: Bytes, received: seq<Bytes>, header: Bytes, body: Bytes, left: Bytes)
    requires ReadSoFar(stream, consumed, rest, received) && |header| == 4 && |body| == FromBigEndian(header)
    requires rest == header + (body + left)
    ensures ReadSoFar(stream, consumed + (header + body), left, received + [body])
  {
    TakeFrame(header, body, []);
    assert header + (body + []) == header + body;
    PayloadsAppend(consumed, header + body);
    assert consumed + (header + (body + left)) == consumed + (header + body) + left;
  }

  /** Fewer bytes than a frame, read after complete ones, add no payload. */
  lemma ReadPart(stream: Bytes, consumed: Bytes, rest: Bytes, received: seq<Bytes>, left: Bytes)
    requires ReadSoFar(stream, consumed, rest, received) && IsRest(rest, left) && Partial(rest[..|rest| - |left|])
    ensures IsRest(stream, left) && Payloads(stream[..|stream| - |left|]) == received
  {
    var part := rest[..|rest| - |left|];
    PayloadsAppend(consumed, part);
    PartialHoldsNothing(part);
    assert stream[..|stream| - |left|] == consumed + part;
    assert received + [] == received;
  }

  datatype FrameRead = Got(body: Bytes) | NoHeader | NoBody | Late

  /** Less than a frame. */
  predicate Partial(part: Bytes) {
    |part| < 4 || |part| < 4 + FromBigEndian(part[..4])
  }

  /** One turn of the receive loop: a header and the body it announces. */
  method ReadFrame(sock: Socket) returns (r: FrameRead, ghost header: Bytes)
    requires !sock.timedOut
    modifies sock
    ensures r.Late? <==> sock.timedOut
    ensures sock.timedOut ==> !sock.prompt
    ensures r.Got? ==> |header| == 4 && |r.body| == FromBigEndian(header) && old(sock.rest) == header + (r.body + sock.rest)
    ensures r.NoHeader? ==> |old(sock.rest)| < 4
    ensures r.NoBody? ==> |old(sock.rest)| >= 4 && Partial(old(sock.rest))
    ensures r.Late? ==> IsRest(old(sock.rest), sock.rest) && Partial(old(sock.rest)[..|old(sock.rest)| - |sock.rest|])
  {
    header := [];
    var h := ReadExact(sock, 4);
    if h.TimedOut? {
      return Late, header;
    }
    if h.Closed? {
      return NoHeader, header;
    }
    header := h.bytes;
    ghost var after := sock.rest;
    assert (header + after)[..4] == header;
    var body := ReadExact(sock, FromBigEndian(h.bytes));
    if body.TimedOut? {
      PartOfBody(header, after, sock.rest);
      return Late, header;
    }
    if body.Closed? {
      return NoBody, header;
    }
    return Got(body.bytes), header;
  }

  lemma PartialHoldsNothing(part: Bytes)
    requires Partial(part)
    ensures Payloads(part) == [] && Leftover(part) == part
  {
  }

  /** What a stream holds when after complete frames only part of one is left. */
  lemma ReadEnds(stream: Bytes, consumed: Bytes, rest: Bytes, received: seq<Bytes>)
    requires ReadSoFar(stream, consumed, rest, received) && Partial(rest)
    ensures Payloads(stream) == received && Leftover(stream) == rest
  {
    PayloadsAppend(consumed, rest);
    PartialHoldsNothing(rest);
    assert received + [] == received;
  }

  /** The receive loop. It ends with a timeout exactly when the socket timed out; it has then received the
      complete frames of what was read. When the peer closes, it has received the complete frames of the
      stream. The loop reports a close inside a frame only when the header was complete. */
  method Receive(sock: Socket) returns (received: seq<Bytes>, got: nat, end: Ending)
    requires !sock.timedOut
    modifies sock
    ensures got == |received|
    ensures end.ReadTimeout? <==> sock.timedOut
    ensures sock.timedOut ==> !sock.prompt
    ensures end.ReadTimeout? ==> IsRest(old(sock.rest), sock.rest)
    ensures end.ReadTimeout? ==> received == Payloads(old(sock.rest)[..|old(sock.rest)| - |sock.rest|])
    ensures !end.ReadTimeout? ==> received == Payloads(old(sock.rest))
    ensures end.PeerClosed? ==> |Leftover(old(sock.rest))| < 4
    ensures end.MidFrame? ==> |Leftover(old(sock.rest))| >= 4
  {
    received, got := [], 0;
    ghost var stream, consumed: Bytes := sock.rest, [];
    while true
      invariant got == |received| && !sock.timedOut
      invariant ReadSoFar(stream, consumed, sock.rest, received)
      decreases |sock.rest|
    {
      ghost var before := sock.rest;
      ghost var header;
      var r;
      r, header := ReadFrame(sock);
      match r
      case Late =>
        ReadPart(stream, consumed, before, received, sock.rest);
        end := ReadTimeout;
        return;
      case NoHeader =>
        ReadEnds(stream, consumed, before, received);
        end := PeerClosed;
        return;
      case NoBody =>
        ReadEnds(stream, consumed, before, received);
        end := MidFrame;
        return;
      case Got(body) =>
        ReadNext(stream, consumed, before, received, header, body, sock.rest);
        consumed := consumed + (header + body);
        received := received + [body];
        got := got + 1;
    }
  }

  lemma PartOfBody(header: Bytes, after: Bytes, left: Bytes)
    requires |header| == 4 && IsRest(after, left) && |after| < |left| + FromBigEndian(header)
    ensures IsRest(header + after, left)
    ensures Partial((header + after)[..4 + |after| - |left|])
  {
    var part := (header + after)[..4 + |after| - |left|];
    assert part[..4] == header;
    assert (header + after)[4 + |after| - |left|..] == after[|after| - |left|..];
  }

  lemma WholeStream(payloads: seq<Bytes>)
    requires Framable(payloads)
    ensures Payloads(Encode(payloads)) == payloads && Leftover(Encode(payloads)) == []
  {
    DecodeEncode(payloads, []);
    assert Encode(payloads) + [] == Encode(payloads) && payloads + [] == payloads;
  }

  lemma CutIsPrefix(payloads: seq<Bytes>, k: int)
    requires Framable(payloads)
    ensures 0 <= k <= |Encode(payloads)| ==> Payloads(Encode(payloads)[..k]) <= payloads
  {
    if 0 <= k <= |Encode(payloads)| {
      var j := DecodeTruncated(payloads, k);
    }
  }

  /** End to end: whatever the splits, a peer that sends framed payloads and closes is heard exactly when its
      bytes come in time, and up to a prefix when a read times out. */
  method Transfer(payloads: seq<Bytes>, prompt: bool) returns (received: seq<Bytes>, end: Ending)
    requires Framable(payloads)
    ensures prompt ==> received == payloads && end.PeerClosed?
    ensures end.ReadTimeout? ==> received <= payloads
    ensures !end.ReadTimeout? ==> received == payloads && end.PeerClosed?
  {
    WholeStream(payloads);
    var sock := new Socket(Encode(payloads), prompt);
    var got;
    received, got, end := Receive(sock);
    CutIsPrefix(payloads, |Encode(payloads)| - |sock.rest|);
  }
}
