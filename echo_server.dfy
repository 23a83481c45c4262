/**
 * The per-connection handler of the mock echo server (`echo_server` in
 * mock/src/lib.rs). Each accepted connection owns a zero-filled 4096-byte
 * buffer; the handler repeatedly reads into it and writes back a prefix of
 * it whose length depends on how many bytes were read. The socket is
 * replaced by a sequence of inbound events.
 */
module EchoServer {

  type Byte = bv8

  /** Size of the per-connection buffer. */
  const BufferSize: nat := 4096

  /** The decision taken after a read of `n` bytes. */
  datatype Action = Close | Reply(length: nat)

  /** One call of `read` on the socket, and (for a non-empty read) the result
      of writing the reply back. */
  datatype Inbound = Data(bytes: seq<Byte>, writeOk: bool) | ReadFailure

  /** Why the handler stopped. `Pending`: the supplied events ran out first. */
  datatype End = PeerClosed | ReadPanic | WritePanic | Pending

  /** The replies written successfully, in order, and how the handler ended. */
  datatype Session = Session(replies: seq<seq<Byte>>, end: End)

  /** The response-length rule: 0 closes; 24 and 1048 are swapped; every
      other length is echoed. */
  function Respond(n: nat): (a: Action)
    ensures a.Close? <==> n == 0
    ensures a.Reply? ==> a.length > 0
    ensures a.Reply? && n <= BufferSize ==> a.length <= BufferSize
  {
    match n
    case 0 => Close
    case 24 => Reply(1048)
    case 1048 => Reply(24)
    case _ => Reply(n)
  }

  lemma RespondCases(n: nat)
    ensures n == 24 ==> Respond(n) == Reply(1048)
    ensures n == 1048 ==> Respond(n) == Reply(24)
    ensures n != 0 && n != 24 && n != 1048 ==> Respond(n) == Reply(n)
  {
  }

  /** Applying the rule twice to a non-zero length gives that length back. */
  lemma RespondInvolution(n: nat)
    requires n != 0
    ensures Respond(n).Reply? && Respond(Respond(n).length) == Reply(n)
  {
  }

  /** The buffer after a read has stored `bytes` at its front and left the rest alone. */
  function Receive(buf: seq<Byte>, bytes: seq<Byte>): (b: seq<Byte>)
    requires |bytes| <= |buf|
    ensures |b| == |buf|
    ensures forall j :: 0 <= j < |b| ==> b[j] == if j < |bytes| then bytes[j] else buf[j]
  {
    bytes + buf[|bytes|..]
  }

  /** A read never returns more bytes than the buffer holds. */
  predicate FitsBuffer(events: seq<Inbound>)
  {
    forall k :: 0 <= k < |events| ==> events[k].Data? ==> |events[k].bytes| <= BufferSize
  }

  function Zeros(): (z: seq<Byte>)
    ensures |z| == BufferSize
  {
    seq(BufferSize, _ => 0)
  }

  /** The handler's behaviour on `events`, starting from buffer contents `buf`. */
  function Serve(buf: seq<Byte>, events: seq<Inbound>): Session
    requires |buf| == BufferSize && FitsBuffer(events)
    decreases |events|
  {
    if events == [] then Session([], Pending)
    else
      match events[0]
      case ReadFailure => Session([], ReadPanic)
      case Data(bytes, ok) =>
        match Respond(|bytes|)
        case Close => Session([], PeerClosed)
        case Reply(len) =>
          if !ok then Session([], WritePanic)
          else
            var b := Receive(buf, bytes);
            var rest := Serve(b, events[1..]);
            Session([b[..len]] + rest.replies, rest.end)
  }

  /** The end an event causes when it is the one that stops the handler. */
  function EndOf(e: Inbound): End
  {
    match e
    case ReadFailure => ReadPanic
    case Data(bytes, ok) => if |bytes| == 0 then PeerClosed else WritePanic
  }

  /** An event after which the handler reads again. */
  predicate Answered(e: Inbound)
  {
    e.Data? && |e.bytes| > 0 && e.writeOk
  }

  /** Exactly one reply per answered read, up to the first event that stops
      the handler and none after it; that event decides the end. */
  lemma {:induction false} ServeStops(buf: seq<Byte>, events: seq<Inbound>)
    requires |buf| == BufferSize && FitsBuffer(events)
    ensures var s := Serve(buf, events);
      |s.replies| <= |events| &&
      (forall k :: 0 <= k < |s.replies| ==> Answered(events[k])) &&
      (s.end == Pending <==> |s.replies| == |events|) &&
      (s.end != Pending ==> !Answered(events[|s.replies|]) && s.end == EndOf(events[|s.replies|]))
    decreases |events|
  {
    if events != [] && Answered(events[0]) {
      var b := Receive(buf, events[0].bytes);
      ServeStops(b, events[1..]);
    }
  }

  /** Every reply has the length the rule gives for its read and starts with
      the bytes just read; a shorter reply is a prefix of them. */
  lemma {:induction false} ServeReplies(buf: seq<Byte>, events: seq<Inbound>)
    requires |buf| == BufferSize && FitsBuffer(events)
    ensures var s := Serve(buf, events);
      |s.replies| <= |events| &&
      forall k :: 0 <= k < |s.replies| ==>
        events[k].Data? &&
        Respond(|events[k].bytes|) == Reply(|s.replies[k]|) &&
        (|s.replies[k]| <= |events[k].bytes| ==> s.replies[k] == events[k].bytes[..|s.replies[k]|]) &&
        (|events[k].bytes| <= |s.replies[k]| ==> s.replies[k][..|events[k].bytes|] == events[k].bytes)
    decreases |events|
  {
    if events != [] && Answered(events[0]) {
      var bytes := events[0].bytes;
      var b := Receive(buf, bytes);
      ServeReplies(b, events[1..]);
      var s := Serve(buf, events);
      var len := Respond(|bytes|).length;
      assert s.replies[0] == b[..len];
      assert len <= |bytes| ==> b[..len] == bytes[..len];
      assert |bytes| <= len ==> b[..len][..|bytes|] == bytes;
    }
  }

  /** The buffer contents before the `k`-th event: the starting buffer with
      every earlier read stored into it in turn. A failed read leaves the
      buffer alone; the handler never reads past one. */
  function BufferAt(buf: seq<Byte>, events: seq<Inbound>, k: nat): (b: seq<Byte>)
    requires |buf| == BufferSize && FitsBuffer(events) && k <= |events|
    ensures |b| == BufferSize
    decreases k
  {
    if k == 0 then buf
    else BufferAt(if events[0].Data? then Receive(buf, events[0].bytes) else buf, events[1..], k - 1)
  }

  /** Each reply is the front of the buffer just after its read: the bytes
      read, followed (for a reply longer than the read) by bytes left in the
      buffer by earlier reads or by its zero fill. */
  lemma {:induction false} ReplyFromBuffer(buf: seq<Byte>, events: seq<Inbound>, k: nat)
    requires |buf| == BufferSize && FitsBuffer(events)
    requires k < |Serve(buf, events).replies| && k < |events| && events[k].Data?
    ensures var r := Serve(buf, events).replies[k];
      |r| <= BufferSize && r == Receive(BufferAt(buf, events, k), events[k].bytes)[..|r|]
    decreases k
  {
    ServeStops(buf, events);
    var b := Receive(buf, events[0].bytes);
    if k > 0 {
      ServeStops(b, events[1..]);
      ReplyFromBuffer(b, events[1..], k - 1);
    }
  }

  /** On a fresh connection, a first read of 24 bytes is answered with those
      24 bytes followed by 1024 zero bytes of the initial buffer. */
  lemma StaleTailOnFreshBuffer(bytes: seq<Byte>, events: seq<Inbound>)
    requires |bytes| == 24 && FitsBuffer([Data(bytes, true)] + events)
    ensures var s := Serve(Zeros(), [Data(bytes, true)] + events);
      |s.replies| > 0 && s.replies[0] == bytes + seq(1024, _ => 0)
  {
    var s := Serve(Zeros(), [Data(bytes, true)] + events);
    ServeStops(Zeros(), [Data(bytes, true)] + events);
    ReplyFromBuffer(Zeros(), [Data(bytes, true)] + events, 0);
    assert s.replies[0] == Receive(Zeros(), bytes)[..1048];
    assert Receive(Zeros(), bytes)[..1048] == bytes + seq(1024, _ => 0);
  }

  /** A reply to a read whose length is neither 24 nor 1048 is exactly the bytes read. */
  lemma EchoesData(buf: seq<Byte>, events: seq<Inbound>, k: nat)
    requires |buf| == BufferSize && FitsBuffer(events)
    requires k < |events| && k < |Serve(buf, events).replies|
    requires events[k].Data? && |events[k].bytes| != 24 && |events[k].bytes| != 1048
    ensures Serve(buf, events).replies[k] == events[k].bytes
  {
    ServeReplies(buf, events);
    RespondCases(|events[k].bytes|);
  }

  /** Reply lengths for a sequence of read lengths, ending at the first 0. */
  function ReplySizes(sizes: seq<nat>): seq<nat>
  {
    if sizes == [] then []
    else match Respond(sizes[0])
      case Close => []
      case Reply(len) => [len] + ReplySizes(sizes[1..])
  }

  /** Index of the first 0 in `sizes`, or `|sizes|` when there is none. */
  function FirstZero(sizes: seq<nat>): (z: nat)
    ensures z <= |sizes|
    ensures z < |sizes| ==> sizes[z] == 0
    ensures forall k :: 0 <= k < z ==> sizes[k] != 0
  {
    if sizes == [] || sizes[0] == 0 then 0 else 1 + FirstZero(sizes[1..])
  }

  /** One reply per read before the first 0-byte read, each sized by the rule, none after. */
  lemma {:induction false} ReplySizesOnePerRead(sizes: seq<nat>)
    ensures |ReplySizes(sizes)| == FirstZero(sizes)
    ensures forall k :: 0 <= k < FirstZero(sizes) ==> Respond(sizes[k]) == Reply(ReplySizes(sizes)[k])
  {
    if sizes != [] && sizes[0] != 0 {
      ReplySizesOnePerRead(sizes[1..]);
    }
  }

  /** The number of bytes each read returned; defined only when no read failed. */
  function Sizes(events: seq<Inbound>): (s: seq<nat>)
    requires forall k :: 0 <= k < |events| ==> events[k].Data?
    ensures |s| == |events|
  {
    if events == [] then [] else [|events[0].bytes|] + Sizes(events[1..])
  }

  function Lengths(replies: seq<seq<Byte>>): (s: seq<nat>)
    ensures |s| == |replies|
  {
    if replies == [] then [] else [|replies[0]|] + Lengths(replies[1..])
  }

  /** When no read or write fails, the reply lengths are those of `ReplySizes`.
      The requirement also covers events after the first 0-byte read, which
      the handler never reaches; it restricts nothing the handler observes. */
  lemma {:induction false} ServeReplySizes(buf: seq<Byte>, events: seq<Inbound>)
    requires |buf| == BufferSize && FitsBuffer(events)
    requires forall k :: 0 <= k < |events| ==> events[k].Data? && events[k].writeOk
    ensures Lengths(Serve(buf, events).replies) == ReplySizes(Sizes(events))
    decreases |events|
  {
    if events != [] && |events[0].bytes| != 0 {
      var b := Receive(buf, events[0].bytes);
      ServeReplySizes(b, events[1..]);
    }
  }

  /** The handler loop on a fresh zero-filled buffer: read into the buffer,
      pick the reply length, write the reply back, until a 0-byte read. */
  method Handle(events: seq<Inbound>) returns (replies: seq<seq<Byte>>, end: End)
    requires FitsBuffer(events)
    ensures Session(replies, end) == Serve(Zeros(), events)
  {
    var buf := new Byte[BufferSize](_ => 0);
    assert buf[..] == Zeros();
    replies := [];
    var i := 0;
    while i < |events|
      invariant 0 <= i <= |events|
      invariant FitsBuffer(events[i..])
      invariant var s := Serve(buf[..], events[i..]);
        Session(replies + s.replies, s.end) == Serve(Zeros(), events)
      decreases |events| - i
    {
      var e := events[i];
      assert events[i..][0] == e && events[i..][1..] == events[i + 1..];
      if e.ReadFailure? {
        end := ReadPanic;
        return;
      }
      var bytes := e.bytes;
      ghost var before := buf[..];
      forall j | 0 <= j < |bytes| {
        buf[j] := bytes[j];
      }
      assert buf[..] == Receive(before, bytes);
      var resp: nat;
      match Respond(|bytes|) {
        case Close =>
          end := PeerClosed;
          return;
        case Reply(len) =>
          resp := len;
      }
      if !e.writeOk {
        end := WritePanic;
        return;
      }
      replies := replies + [buf[0..resp]];
      i := i + 1;
    }
    assert events[i..] == [];
    end := Pending;
  }
}
