/** Lines over a stream socket that delivers and accepts bytes in arbitrary pieces. */
module SocketIo {
  const MAX_LINE: nat := 4096
  const BUFFER: nat := 512

  // ---- the receiving end ----

  type Piece = s: string | s != "" witness "."

  /** What the next calls of recv will see, and what they see when that is used up. */
  datatype Event = Arrives(bytes: Piece) | Signal
  datatype Ending = Eof | Failure
  datatype Received = Data(bytes: string) | Closed | Interrupted | Failed

  function Bytes(events: seq<Event>): string {
    if events == [] then ""
    else (match events[0] case Arrives(b) => b case Signal => "") + Bytes(events[1..])
  }

  function Weight(events: seq<Event>): nat {
    if events == [] then 0
    else (match events[0] case Arrives(b) => |b| case Signal => 0) + 1 + Weight(events[1..])
  }

  class Incoming {
    var events: seq<Event>
    const ending: Ending

    constructor (events: seq<Event>, ending: Ending)
      ensures this.events == events && this.ending == ending
    {
      this.events, this.ending := events, ending;
    }

    /** One call of recv: a piece, cut to the size of the buffer. */
    method Recv(limit: nat) returns (r: Received)
      requires limit > 0
      modifies `events
      ensures r.Closed? ==> old(events) == [] && ending == Eof
      ensures r.Failed? ==> old(events) == [] && ending == Failure
      ensures r.Interrupted? ==> Bytes(events) == old(Bytes(events))
      ensures r.Data? ==> 0 < |r.bytes| <= limit && r.bytes + Bytes(events) == old(Bytes(events))
      ensures r.Interrupted? || r.Data? ==> Weight(events) < old(Weight(events))
    {
      if events == [] {
        return if ending == Eof then Closed else Failed;
      }
      var tail := events[1..];
      match events[0] {
        case Signal =>
          r := Interrupted;
          events := tail;
        case Arrives(b) =>
          if |b| <= limit {
            r := Data(b);
            events := tail;
          } else {
            r := Data(b[..limit]);
            events := [Arrives(b[limit..])] + tail;
            assert events[1..] == tail;
            assert b[..limit] + (b[limit..] + Bytes(tail)) == b + Bytes(tail);
          }
      }
    }
  }

  // ---- lines ----

  /** The bytes before the first newline, or all of them. */
  function FirstLine(s: string): string {
    if s == "" || s[0] == '\n' then "" else [s[0]] + FirstLine(s[1..])
  }

  lemma NewlineInTail(s: string)
    requires s != "" && s[0] != '\n'
    ensures s == [s[0]] + s[1..] && ('\n' in s <==> '\n' in s[1..])
  {
    assert s == [s[0]] + s[1..];
  }

  lemma {:induction false} FirstLineIsPrefix(s: string)
    ensures FirstLine(s) <= s && '\n' !in FirstLine(s)
    ensures |FirstLine(s)| < |s| ==> s[|FirstLine(s)|] == '\n'
    ensures |FirstLine(s)| < |s| <==> '\n' in s
  {
    if s != "" && s[0] != '\n' {
      FirstLineIsPrefix(s[1..]);
      NewlineInTail(s);
    }
  }

  lemma FirstLineOf(c: char, s: string)
    ensures FirstLine([c] + s) == if c == '\n' then "" else [c] + FirstLine(s)
    ensures FirstLine("") == ""
  {
    assert ([c] + s)[1..] == s;
  }

  lemma {:induction false} FirstLineAppend(a: string, b: string)
    ensures FirstLine(a + b) == if '\n' in a then FirstLine(a) else a + FirstLine(b)
  {
    hide FirstLine;
    if a == "" {
      assert a + b == b && a + FirstLine(b) == FirstLine(b);
    } else {
      var c, t := a[0], a[1..];
      assert a == [c] + t && a + b == [c] + (t + b);
      FirstLineOf(c, t);
      FirstLineOf(c, t + b);
      if c != '\n' {
        FirstLineAppend(t, b);
        NewlineInTail(a);
        assert [c] + (t + FirstLine(b)) == a + FirstLine(b);
      }
    }
  }

  datatype Status = Line | TooLong | Error

  /** The answer to a stream of bytes, however it is cut into pieces. */
  function StatusOf(bytes: string, ending: Ending): Status {
    if |FirstLine(bytes)| > MAX_LINE then TooLong
    else if '\n' in bytes || ending == Eof then Line
    else Error
  }

  /** What one more piece tells about the first line. */
  lemma PieceOfLine(out: string, chunk: string, rest: string)
    requires '\n' !in out
    ensures var line, head := FirstLine(out + chunk + rest), FirstLine(chunk);
            out + head <= line && |head| <= |chunk|
            && (|head| < |chunk| ==> line == out + head && '\n' in out + chunk + rest)
            && (|head| == |chunk| ==> head == chunk && '\n' !in chunk)
  {
    hide FirstLine;
    var all, head := out + chunk + rest, FirstLine(chunk);
    assert all == out + (chunk + rest);
    FirstLineAppend(out, chunk + rest);
    FirstLineAppend(chunk, rest);
    FirstLineIsPrefix(chunk);
    if '\n' in chunk {
      assert all[|out| + |head|] == '\n';
    } else {
      assert head == chunk;
      assert out + (chunk + FirstLine(rest)) == out + chunk + FirstLine(rest);
    }
  }

  lemma LineAtEnd(out: string)
    requires '\n' !in out
    ensures FirstLine(out) == out
  {
    FirstLineIsPrefix(out);
  }

  /** Reads up to the first newline or the end of the stream. */
  method ReadLine(stream: Incoming) returns (status: Status, out: string)
    modifies stream`events
    ensures status == StatusOf(old(Bytes(stream.events)), stream.ending)
    ensures status != TooLong ==> out == FirstLine(old(Bytes(stream.events)))
    ensures |out| <= MAX_LINE + BUFFER && out <= FirstLine(old(Bytes(stream.events)))
  {
    ghost var bytes := Bytes(stream.events);
    out := "";
    while true
      invariant out + Bytes(stream.events) == bytes
      invariant '\n' !in out && |out| <= MAX_LINE
      decreases Weight(stream.events)
    {
      var r := stream.Recv(BUFFER);
      match r {
        case Interrupted =>
        case Failed =>
          assert out == bytes;
          LineAtEnd(out);
          return Error, out;
        case Closed =>
          assert out == bytes;
          LineAtEnd(out);
          return Line, out;
        case Data(chunk) =>
          ghost var rest := Bytes(stream.events);
          assert bytes == out + chunk + rest;
          PieceOfLine(out, chunk, rest);
          var head := FirstLine(chunk);
          FirstLineIsPrefix(chunk);
          out := out + head;
          if |out| > MAX_LINE {
            return TooLong, out;
          }
          if |head| < |chunk| {
            return Line, out;
          }
      }
    }
  }

  /** A request followed by a newline arrives exactly when it has no newline itself and fits. */
  lemma ArrivesExactly(request: string, more: string, ending: Ending)
    ensures var bytes := request + "\n" + more;
            StatusOf(bytes, ending) == Line && FirstLine(bytes) == request
            <==> '\n' !in request && |request| <= MAX_LINE
  {
    FirstLineAppend(request, "\n" + more);
    FirstLineIsPrefix(request);
    assert request + "\n" + more == request + ("\n" + more);
  }

  /** A sender that stops early leaves a shorter line, which the reader takes for a whole one. */
  lemma CutShortIsStillALine(request: string, n: nat)
    requires n <= |request| <= MAX_LINE && '\n' !in request
    ensures StatusOf(request[..n], Eof) == Line && FirstLine(request[..n]) == request[..n]
    ensures StatusOf(request[..n], Failure) == Error
  {
    FirstLineIsPrefix(request[..n]);
  }

  // ---- the sending end ----

  datatype Effort = Takes(n: nat) | Interrupts | Fails
  datatype Sent = Count(n: nat) | Retry | Broken

  /** How many of n bytes get through. */
  function Delivered(efforts: seq<Effort>, n: nat): (k: nat)
    ensures k <= n
  {
    if n == 0 || efforts == [] then 0
    else
      match efforts[0]
      case Fails => 0
      case Interrupts => Delivered(efforts[1..], n)
      case Takes(k) => if k >= n then n else k + Delivered(efforts[1..], n - k)
  }

  class Outgoing {
    var wire: string
    var efforts: seq<Effort>

    constructor (efforts: seq<Effort>)
      ensures wire == "" && this.efforts == efforts
    {
      wire, this.efforts := "", efforts;
    }

    /** One call of send: some prefix is taken; when the efforts are used up, the time limit fails. */
    method Send(data: string) returns (r: Sent)
      modifies this
      ensures old(efforts) == [] ==> r.Broken?
      ensures old(efforts) != [] ==> efforts == old(efforts)[1..]
      ensures old(efforts) != [] ==>
        match old(efforts)[0]
        case Fails => r == Broken
        case Interrupts => r == Retry
        case Takes(k) => r == Count(if k >= |data| then |data| else k)
      ensures wire == old(wire) + if r.Count? then data[..r.n] else ""
    {
      if efforts == [] {
        assert wire + "" == wire;
        return Broken;
      }
      match efforts[0] {
        case Fails => r := Broken;
        case Interrupts => r := Retry;
        case Takes(k) => r := Count(if k >= |data| then |data| else k);
      }
      efforts := efforts[1..];
      wire := wire + if r.Count? then data[..r.n] else "";
    }
  }

  /** Sends all of data or fails; either way a prefix is on the wire, and nothing else. */
  method SendAll(socket: Outgoing, data: string) returns (ok: bool)
    modifies socket
    ensures var k := Delivered(old(socket.efforts), |data|);
            ok == (k == |data|) && socket.wire == old(socket.wire) + data[..k]
  {
    var rest := data;
    ghost var at: nat := 0;
    while rest != ""
      invariant at <= |data| && rest == data[at..]
      invariant socket.wire == old(socket.wire) + data[..at]
      invariant Delivered(old(socket.efforts), |data|) == at + Delivered(socket.efforts, |rest|)
      decreases |socket.efforts|
    {
      var r := socket.Send(rest);
      match r {
        case Retry =>
        case Broken => return false;
        case Count(n) =>
          assert data[..at] + rest[..n] == data[..at + n];
          rest := rest[n..];
          at := at + n;
      }
    }
    ok := true;
  }
}
