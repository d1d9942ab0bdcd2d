/** src/gdb/packet_io.cpp: class PacketIO over a socket, a refill buffer and a write buffer. */
module PacketIo {
  import opened Bytes
  import opened Buffers
  import opened Framing

  const GDB_PACKET_BUFFER_SIZE: nat := 32 * 1024
  const GDB_TRANSPORT_BUFFER_SIZE: nat := 4 * 1024

  /** The far end: the bytes that reach us before our timeout, and all bytes we sent. */
  class Socket {
    var incoming: seq<u8>
    var sent: seq<u8>

    constructor (incoming: seq<u8>)
      ensures this.incoming == incoming && sent == []
    {
      this.incoming := incoming;
      sent := [];
    }

    /** async_receive into dst[off..off+max]: some non-empty prefix of what is coming, cut
        wherever the transport likes. None is timed_out. */
    method AsyncReceive(dst: array<u8>, off: nat, max: nat) returns (num: Option<nat>)
      requires 0 < max && off + max <= dst.Length
      modifies this`incoming, dst
      ensures num == None <==> old(incoming) == []
      ensures num == None ==> incoming == [] && dst[..] == old(dst[..])
      ensures num.Some? ==> 1 <= num.value <= max && dst[off..off + num.value] + incoming == old(incoming)
    {
      if incoming == [] {
        return None;
      }
      var n: nat :| 1 <= n <= max && n <= |incoming|;
      forall i | 0 <= i < n {
        dst[off + i] := incoming[i];
      }
      assert dst[off..off + n] == incoming[..n];
      incoming := incoming[n..];
      num := Some(n);
    }

    method AsyncSend(data: seq<u8>)
      modifies this`sent
      ensures sent == old(sent) + data
    {
      sent := sent + data;
    }
  }

  // ---- waiting for the acknowledgment ----

  datatype Reply = Waiting | Acked | Resend

  function OnReply(c: u8): Reply {
    if c == ACK then Acked else if c == NACK then Resend else Waiting
  }

  /** How send_packet ends once the frame is in the write buffer. */
  datatype Sending = Sending(acked: bool, interrupted: bool, copies: nat, rest: seq<u8>)

  function Await(s: seq<u8>, interrupted: bool): Sending {
    if s == [] then Sending(false, interrupted, 0, [])
    else
      match OnReply(s[0])
      case Acked => Sending(true, interrupted, 0, s[1..])
      case Resend => After(1, Await(s[1..], interrupted))
      case Waiting => Await(s[1..], interrupted || s[0] == BREAK)
  }

  /** The same wait when n more copies were asked for before. */
  function After(n: nat, w: Sending): Sending { w.(copies := n + w.copies) }

  /** The replies up to the first ack, all of them if there is none. */
  function BeforeAck(s: seq<u8>): (b: seq<u8>)
    ensures b <= s && ACK !in b
    ensures b != s ==> s[|b|] == ACK
  {
    if s == [] || s[0] == ACK then [] else [s[0]] + BeforeAck(s[1..])
  }

  /** The wait, in terms of the reply stream alone: it retransmits once per nack before the
      first ack, reports an interrupt exactly when a break came before that ack, and reads
      nothing behind it. */
  lemma {:induction false} AwaitCounts(s: seq<u8>, interrupted: bool)
    ensures var b := BeforeAck(s);
            Await(s, interrupted) == Sending(b != s, interrupted || BREAK in b, multiset(b)[NACK],
                                             if b != s then s[|b| + 1..] else [])
  {
    hide BeforeAck;
    if s == [] || s[0] == ACK {
      BeforeAckStops(s);
    } else {
      AwaitCounts(s[1..], interrupted || s[0] == BREAK);
      BeforeAckNext(s);
    }
  }

  lemma BeforeAckStops(s: seq<u8>)
    requires s == [] || s[0] == ACK
    ensures BeforeAck(s) == []
  {
  }

  lemma BeforeAckNext(s: seq<u8>)
    requires s != [] && s[0] != ACK
    ensures var b, b' := BeforeAck(s), BeforeAck(s[1..]);
            && b == [s[0]] + b' && (b == s <==> b' == s[1..])
            && (b' != s[1..] ==> s[|b| + 1..] == s[1..][|b'| + 1..])
            && multiset(b)[NACK] == multiset(b')[NACK] + (if s[0] == NACK then 1 else 0)
            && (BREAK in b <==> s[0] == BREAK || BREAK in b')
  {
    var b, b' := BeforeAck(s), BeforeAck(s[1..]);
    assert b == [s[0]] + b';
    assert s == [s[0]] + s[1..];
    assert b == s ==> b[1..] == s[1..] && b[1..] == b';
    assert multiset(b) == multiset{s[0]} + multiset(b');
  }

  function Copies(frame: seq<u8>, n: nat): seq<u8> {
    if n == 0 then [] else Copies(frame, n - 1) + frame
  }

  lemma CopiesNone(frame: seq<u8>)
    ensures Copies(frame, 0) == []
  {
  }

  lemma CopiesNext(frame: seq<u8>, n: nat)
    ensures Copies(frame, n + 1) == Copies(frame, n) + frame
  {
  }

  datatype SendResult = Sent(interrupted: bool) | SendTimedOut | TooLarge

  /** What receive_packet does after its switch. */
  datatype Turn = Again | Nack | Done(outcome: Outcome)

  /** A reception whose call had already sent some replies. */
  ghost function Preceded(replies: seq<u8>, r: Reception): Reception {
    r.(replies := replies + r.replies)
  }

  lemma PrecededTwice(a: seq<u8>, b: seq<u8>, r: Reception)
    ensures Preceded(a, Preceded(b, r)) == Preceded(a + b, r)
  {
    assert a + (b + r.replies) == (a + b) + r.replies;
  }

  class PacketIO {
    const socket: Socket
    const readBuf: Buffer
    const writeBuf: Buffer
    var noAck: bool

    ghost predicate Valid()
      reads this, readBuf, writeBuf
    {
      && readBuf.Valid() && writeBuf.Valid()
      && readBuf != writeBuf && readBuf.storage != writeBuf.storage
      && readBuf.maxSize == GDB_TRANSPORT_BUFFER_SIZE
      && writeBuf.maxSize == MaxPacketExpansion(GDB_PACKET_BUFFER_SIZE)
    }

    /** Everything this end has not looked at yet: buffered bytes, then those in the socket. */
    ghost function Stream(): seq<u8>
      reads this, readBuf, readBuf.storage, socket
      requires readBuf.Valid()
    {
      readBuf.View().unread + socket.incoming
    }

    /** A caller's buffer is not one of ours. */
    ghost predicate Foreign(b: Buffer)
    {
      b != readBuf && b != writeBuf && b.storage != readBuf.storage && b.storage != writeBuf.storage
    }

    constructor (socket: Socket)
      ensures Valid() && this.socket == socket && !noAck
      ensures Stream() == socket.incoming && fresh(readBuf) && fresh(readBuf.storage)
      ensures fresh(writeBuf) && fresh(writeBuf.storage)
    {
      this.socket := socket;
      readBuf := new Buffer(GDB_TRANSPORT_BUFFER_SIZE);
      writeBuf := new Buffer(MaxPacketExpansion(GDB_PACKET_BUFFER_SIZE));
      noAck := false;
      new;
      assert readBuf.View().unread == [] && writeBuf.View().unread == [];
      assert Stream() == this.socket.incoming;
    }

    method SetNoAck()
      modifies this`noAck
      ensures noAck
    {
      noAck := true;
    }

    /** recv_data: start the refill buffer over and take one chunk. What was still buffered is
        dropped, so it is called with an empty buffer only; the bytes in the socket keep their
        order. */
    method RecvData() returns (ok: bool)
      requires Valid()
      modifies readBuf`readOff, readBuf`writeOff, readBuf.storage, socket`incoming
      ensures Valid() && Stream() == old(socket.incoming)
      ensures ok == (old(socket.incoming) != []) == (readBuf.View().unread != [])
    {
      readBuf.Reset();
      assert readBuf.View().Written() == [];
      var num := socket.AsyncReceive(readBuf.storage, readBuf.writeOff, readBuf.WriteSize());
      ok := num.Some?;
      if num.Some? {
        var fits := readBuf.PutCount(num.value);
        assert fits;
      }
    }

    /** get_byte: the stream one byte at a time, however the socket chunks it. */
    method GetByte() returns (r: Option<u8>)
      requires Valid()
      modifies readBuf`readOff, readBuf`writeOff, readBuf.storage, socket`incoming
      ensures Valid()
      ensures old(Stream()) == [] ==> r == None && Stream() == []
      ensures old(Stream()) != [] ==> r == Some(old(Stream())[0]) && Stream() == old(Stream())[1..]
    {
      if readBuf.ReadSize() == 0 {
        assert Stream() == socket.incoming;
        var ok := RecvData();
        if !ok {
          return None;
        }
      }
      ghost var unread := readBuf.View().unread;
      assert old(Stream()) == unread + socket.incoming;
      r := readBuf.GetByte();
      assert unread == [r.value] + readBuf.View().unread;
    }

    /** send_packet: refuse a payload whose worst-case frame does not fit; otherwise frame it
        (no put can throw), then transmit it once and again for every nack until the ack. */
    method SendPacket(sendBuf: Buffer) returns (r: SendResult)
      requires Valid() && sendBuf.Valid() && Foreign(sendBuf)
      modifies readBuf`readOff, readBuf`writeOff, readBuf.storage, writeBuf`readOff, writeBuf`writeOff, writeBuf.storage
      modifies socket, sendBuf`readOff
      ensures Valid() && sendBuf.Valid()
      ensures var p := old(sendBuf.View().unread);
              var frame := Frame(RESPONSE_ESCAPES, p);
              var b := BeforeAck(old(Stream()));
              if |p| > GDB_PACKET_BUFFER_SIZE then
                r == TooLarge && socket.sent == old(socket.sent) && Stream() == old(Stream())
                && sendBuf.View() == old(sendBuf.View())
              else
                && sendBuf.View() == old(sendBuf.View().Take(|p|))
                && writeBuf.View().unread == frame
                && if noAck then
                     r == Sent(false) && socket.sent == old(socket.sent) + frame && Stream() == old(Stream())
                   else
                     && socket.sent == old(socket.sent) + Copies(frame, 1 + multiset(b)[NACK])
                     && (b == old(Stream()) ==> r == SendTimedOut && Stream() == [])
                     && (b != old(Stream()) ==> r == Sent(BREAK in b) && Stream() == old(Stream())[|b| + 1..])
    {
      hide BeforeAck, Frame, Copies;
      writeBuf.Reset();
      assert writeBuf.View().Written() == [];
      if MaxPacketExpansion(sendBuf.ReadSize()) > writeBuf.WriteSize() {
        return TooLarge;
      }
      r := SendFrame(sendBuf);
    }

    /** send_packet behind its guard. */
    method SendFrame(sendBuf: Buffer) returns (r: SendResult)
      requires Valid() && sendBuf.Valid() && Foreign(sendBuf)
      requires writeBuf.View() == Queue(writeBuf.maxSize, [], [])
      requires MaxPacketExpansion(|sendBuf.View().unread|) <= writeBuf.maxSize
      modifies readBuf`readOff, readBuf`writeOff, readBuf.storage, writeBuf`writeOff, writeBuf.storage
      modifies socket, sendBuf`readOff
      ensures Valid() && sendBuf.Valid()
      ensures var p := old(sendBuf.View().unread);
              var frame := Frame(RESPONSE_ESCAPES, p);
              var b := BeforeAck(old(Stream()));
              && sendBuf.View() == old(sendBuf.View().Take(|p|))
              && writeBuf.View().unread == frame
              && if noAck then r == Sent(false) && socket.sent == old(socket.sent) + frame && Stream() == old(Stream())
                 else
                   && socket.sent == old(socket.sent) + Copies(frame, 1 + multiset(b)[NACK])
                   && (b == old(Stream()) ==> r == SendTimedOut && Stream() == [])
                   && (b != old(Stream()) ==> r == Sent(BREAK in b) && Stream() == old(Stream())[|b| + 1..])
    {
      hide Await, BeforeAck, Frame, Copies;
      ghost var p := sendBuf.View().unread;
      AwaitCounts(Stream(), false);
      FillWriteBuf(sendBuf);
      assert Stream() == old(Stream());
      r := Transmit(Frame(RESPONSE_ESCAPES, p));
    }

    /** The frame, built in the write buffer: begin marker, encoding loop, trailer. */
    method FillWriteBuf(sendBuf: Buffer)
      requires Valid() && sendBuf.Valid() && Foreign(sendBuf)
      requires writeBuf.View() == Queue(writeBuf.maxSize, [], [])
      requires MaxPacketExpansion(|sendBuf.View().unread|) <= writeBuf.maxSize
      modifies writeBuf`writeOff, writeBuf.storage, sendBuf`readOff
      ensures Valid() && sendBuf.Valid()
      ensures var p := old(sendBuf.View().unread);
              && writeBuf.View() == Queue(writeBuf.maxSize, [], Frame(RESPONSE_ESCAPES, p))
              && sendBuf.View() == old(sendBuf.View().Take(|p|))
    {
      ghost var p := sendBuf.View().unread;
      FrameSize(RESPONSE_ESCAPES, p);
      var ok := writeBuf.PutByte(PACKET_BEGIN);
      assert ok;
      var checksum := PutBody(sendBuf);
      PutTrailer(checksum, Body(RESPONSE_ESCAPES, p));
    }

    /** The encoding loop of send_packet. */
    method PutBody(sendBuf: Buffer) returns (checksum: int)
      requires Valid() && sendBuf.Valid() && Foreign(sendBuf)
      requires |writeBuf.View().Written()| + 2 * |sendBuf.View().unread| <= writeBuf.maxSize
      modifies writeBuf`writeOff, writeBuf.storage, sendBuf`readOff
      ensures Valid() && sendBuf.Valid()
      ensures var p := old(sendBuf.View().unread);
              && writeBuf.View() == old(writeBuf.View()).Put(Body(RESPONSE_ESCAPES, p))
              && sendBuf.View() == old(sendBuf.View().Take(|p|))
              && checksum == Sum(Body(RESPONSE_ESCAPES, p)) % 256
    {
      ghost var q, w := sendBuf.View(), writeBuf.View();
      ghost var p := q.unread;
      var len := sendBuf.ReadSize();
      checksum := 0;
      assert w.Put(Body(RESPONSE_ESCAPES, p[..0])) == w && q.Take(0) == q;
      for i := 0 to len
        invariant Valid() && sendBuf.Valid()
        invariant sendBuf.View() == q.Take(i)
        invariant writeBuf.View() == w.Put(Body(RESPONSE_ESCAPES, p[..i]))
        invariant checksum == Sum(Body(RESPONSE_ESCAPES, p[..i])) % 256
      {
        BodyNext(p, i, w, q);
        var c := sendBuf.GetByte();
        ghost var w' := writeBuf.View();
        checksum := PutEscaped(c.value, checksum, Body(RESPONSE_ESCAPES, p[..i]));
        assert writeBuf.View() == w'.Put(EscapeByte(RESPONSE_ESCAPES, p[i]))
            == w.Put(Body(RESPONSE_ESCAPES, p[..i + 1]));
      }
      assert p[..len] == p;
    }

    method PutTrailer(checksum: int, ghost body: seq<u8>)
      requires writeBuf.Valid() && |writeBuf.View().Written()| + 3 <= writeBuf.maxSize
      requires checksum == Sum(body) % 256
      modifies writeBuf`writeOff, writeBuf.storage
      ensures writeBuf.Valid() && writeBuf.View() == old(writeBuf.View()).Put(Trailer(body))
    {
      var ok := writeBuf.PutByte(PACKET_END);
      assert ok;
      ok := writeBuf.PutByte(EncodeHex(checksum / 16));
      assert ok;
      ok := writeBuf.PutByte(EncodeHex(checksum));
      assert ok;
    }

    /** The body of that loop: one payload byte, escaped if need be, into the write buffer
        and into the checksum. */
    method PutEscaped(c: u8, checksum: int, ghost body: seq<u8>) returns (sum: int)
      requires writeBuf.Valid() && |writeBuf.View().Written()| + 2 <= writeBuf.maxSize
      requires checksum == Sum(body) % 256
      modifies writeBuf`writeOff, writeBuf.storage
      ensures writeBuf.Valid() && writeBuf.View() == old(writeBuf.View()).Put(EscapeByte(RESPONSE_ESCAPES, c))
      ensures sum == Sum(body + EscapeByte(RESPONSE_ESCAPES, c)) % 256
    {
      hide Sum;
      ghost var escaped := EscapeByte(RESPONSE_ESCAPES, c);
      SumConcat(body, escaped);
      SumOfEscape(RESPONSE_ESCAPES, c);
      WrapAgain(Sum(body), Sum(escaped));
      sum := checksum;
      var out := c;
      if c in RESPONSE_ESCAPES {
        var ok := writeBuf.PutByte(ESCAPE);
        assert ok;
        sum := sum + ESCAPE;
        out := CodeEscapeChar(c);
      }
      sum := (sum + out) % 256;
      var ok := writeBuf.PutByte(out);
      assert ok;
    }

    /** One turn of the encoding loop: what it adds and the room it needs. */
    static lemma BodyNext(p: seq<u8>, i: nat, w: Queue, q: Queue)
      requires i < |p| && p == q.unread
      ensures var esc := RESPONSE_ESCAPES;
              && w.Put(Body(esc, p[..i])).Put(EscapeByte(esc, p[i])) == w.Put(Body(esc, p[..i + 1]))
              && Body(esc, p[..i + 1]) == Body(esc, p[..i]) + EscapeByte(esc, p[i])
              && |Body(esc, p[..i])| <= 2 * i
      ensures q.Take(i).unread[0] == p[i] && q.Take(i).Take(1) == q.Take(i + 1)
    {
      var esc := RESPONSE_ESCAPES;
      assert p[..i + 1] == p[..i] + [p[i]];
      BodyConcat(esc, p[..i], [p[i]]);
      assert Body(esc, [p[i]]) == EscapeByte(esc, p[i]);
      FrameSize(esc, p[..i]);
    }

    /** The retransmit loop of send_packet. */
    method Transmit(ghost frame: seq<u8>) returns (r: SendResult)
      requires Valid() && writeBuf.View() == Queue(writeBuf.maxSize, [], frame)
      modifies readBuf`readOff, readBuf`writeOff, readBuf.storage, socket
      ensures Valid() && writeBuf.View() == old(writeBuf.View())
      ensures var w := Await(old(Stream()), false);
              if noAck then r == Sent(false) && socket.sent == old(socket.sent) + frame && Stream() == old(Stream())
              else
                && socket.sent == old(socket.sent) + Copies(frame, 1 + w.copies)
                && Stream() == w.rest
                && r == if w.acked then Sent(w.interrupted) else SendTimedOut
    {
      hide Await, Copies;
      CopiesNone(frame);
      ghost var w, rest := Await(Stream(), false), Await(Stream(), false);
      ghost var n: nat, soFar: seq<u8> := 0, [];
      var didInterrupt := false;
      while true
        invariant Valid() && writeBuf.View() == Queue(writeBuf.maxSize, [], frame)
        invariant noAck ==> n == 0 && Stream() == old(Stream())
        invariant soFar == Copies(frame, n) && socket.sent == old(socket.sent) + soFar
        invariant rest == Await(Stream(), didInterrupt) && w == After(n, rest)
        decreases |Stream()|
      {
        SendWriteBuf();
        assert socket.sent == old(socket.sent) + (soFar + frame);
        CopiesNext(frame, n);
        soFar := soFar + frame;
        if noAck {
          assert soFar == frame;
          return Sent(false);
        }
        n := n + 1;
        var reply;
        reply, didInterrupt := AwaitReply(didInterrupt);
        match reply {
          case Waiting => return SendTimedOut;
          case Acked => return Sent(didInterrupt);
          case Resend => rest := Await(Stream(), didInterrupt);
        }
      }
    }

    method SendWriteBuf()
      requires writeBuf.Valid()
      modifies socket`sent
      ensures socket.sent == old(socket.sent) + writeBuf.View().unread
    {
      socket.AsyncSend(writeBuf.storage[writeBuf.readOff..writeBuf.writeOff]);
    }

    /** The wait inside that loop, up to the first byte that decides. Waiting is timed_out. */
    method AwaitReply(interrupted: bool) returns (reply: Reply, didInterrupt: bool)
      requires Valid()
      modifies readBuf`readOff, readBuf`writeOff, readBuf.storage, socket`incoming
      ensures Valid()
      ensures var w := Await(old(Stream()), interrupted);
              match reply
              case Waiting => w == Sending(false, didInterrupt, 0, []) && Stream() == []
              case Acked => w == Sending(true, didInterrupt, 0, Stream())
              case Resend =>
                |Stream()| < |old(Stream())| && w == After(1, Await(Stream(), didInterrupt))
    {
      reply, didInterrupt := Waiting, interrupted;
      while reply == Waiting
        invariant Valid() && reply != Acked && |Stream()| <= |old(Stream())|
        invariant reply == Waiting ==> Await(Stream(), didInterrupt) == Await(old(Stream()), interrupted)
        invariant reply == Resend ==>
          |Stream()| < |old(Stream())| && Await(old(Stream()), interrupted) == After(1, Await(Stream(), didInterrupt))
        decreases |Stream()|, reply == Waiting
      {
        ghost var s := Stream();
        var c := GetByte();
        if c == None {
          return;
        }
        assert c.value == s[0] && Stream() == s[1..];
        reply := OnReply(c.value);
        match reply {
          case Acked => return;
          case Resend =>
          case Waiting => didInterrupt := didInterrupt || c.value == BREAK;
        }
      }
    }

    /** receive_packet: the result, the contents of recv_buf, the replies sent and the bytes
        left over are those of Receive on the stream, whatever the chunks. A call that times
        out before its first byte does not touch recv_buf. */
    method ReceivePacket(recvBuf: Buffer) returns (r: Outcome)
      requires Valid() && recvBuf.Valid() && Foreign(recvBuf)
      modifies readBuf`readOff, readBuf`writeOff, readBuf.storage, socket
      modifies recvBuf`readOff, recvBuf`writeOff, recvBuf.storage
      ensures Valid() && recvBuf.Valid()
      ensures var e := Receive(old(Stream()), noAck, recvBuf.maxSize);
              && r == e.outcome && Stream() == e.rest
              && socket.sent == old(socket.sent) + e.replies
              && recvBuf.View() == if old(Stream()) == [] then old(recvBuf.View())
                                   else Queue(recvBuf.maxSize, [], e.payload)
    {
      if readBuf.ReadSize() == 0 {
        assert Stream() == socket.incoming;
        var ok := RecvData();
        if !ok {
          return TimedOut;
        }
      }
      recvBuf.Reset();
      r := ReceiveLoop(recvBuf);
    }

    /** The inner loop of receive_packet, from its initial state. */
    method ReceiveLoop(recvBuf: Buffer) returns (r: Outcome)
      requires Valid() && recvBuf.Valid() && Foreign(recvBuf)
      requires recvBuf.View() == Queue(recvBuf.maxSize, [], [])
      modifies readBuf`readOff, readBuf`writeOff, readBuf.storage, socket
      modifies recvBuf`readOff, recvBuf`writeOff, recvBuf.storage
      ensures Valid() && recvBuf.Valid()
      ensures var e := Receive(old(Stream()), noAck, recvBuf.maxSize);
              && r == e.outcome && Stream() == e.rest
              && socket.sent == old(socket.sent) + e.replies
              && recvBuf.View() == Queue(recvBuf.maxSize, [], e.payload)
    {
      hide ReceiveFrom;
      ghost var e := Receive(Stream(), noAck, recvBuf.maxSize);
      var state := Initial;
      var checksum: u8 := 0;
      var csumHigh, csumLow := -1, -1;
      ghost var replies, rest := [], e;
      while true
        invariant Valid() && recvBuf.Valid()
        invariant recvBuf.View().consumed == []
        invariant socket.sent == old(socket.sent) + replies
        invariant rest == ReceiveFrom(Rx(state, checksum, csumHigh, csumLow, recvBuf.View().unread),
                                      Stream(), noAck, recvBuf.maxSize)
        invariant e == Preceded(replies, rest)
        decreases |Stream()|
      {
        var done;
        ghost var extra, after;
        state, checksum, csumHigh, csumLow, done, extra, after :=
          ReceiveByte(recvBuf, state, checksum, csumHigh, csumLow);
        PrecededTwice(replies, extra, after);
        assert socket.sent == old(socket.sent) + (replies + extra);
        replies, rest := replies + extra, after;
        if done.Some? {
          assert replies + [] == replies;
          return done.value;
        }
      }
    }

    /** One turn of the loop of receive_packet: get a byte, switch on it, reply if need be. */
    method ReceiveByte(recvBuf: Buffer, state0: State, checksum0: u8, high0: int, low0: int)
      returns (state: State, checksum: u8, high: int, low: int, done: Option<Outcome>,
               ghost extra: seq<u8>, ghost after: Reception)
      requires Valid() && recvBuf.Valid() && Foreign(recvBuf) && recvBuf.View().consumed == []
      modifies readBuf`readOff, readBuf`writeOff, readBuf.storage, socket
      modifies recvBuf`readOff, recvBuf`writeOff, recvBuf.storage
      ensures Valid() && recvBuf.Valid() && recvBuf.View().consumed == []
      ensures socket.sent == old(socket.sent) + extra
      ensures var before := ReceiveFrom(Rx(state0, checksum0, high0, low0, old(recvBuf.View().unread)),
                                        old(Stream()), noAck, recvBuf.maxSize);
              before == Preceded(extra, after)
      ensures match done
              case None =>
                && |Stream()| < |old(Stream())|
                && after == ReceiveFrom(Rx(state, checksum, high, low, recvBuf.View().unread),
                                        Stream(), noAck, recvBuf.maxSize)
              case Some(outcome) => after == Reception(outcome, recvBuf.View().unread, Stream(), [])
    {
      ghost var rx, s := Rx(state0, checksum0, high0, low0, recvBuf.View().unread), Stream();
      extra := [];
      var c := GetByte();
      if c == None {
        state, checksum, high, low := state0, checksum0, high0, low0;
        done, after := Some(TimedOut), Reception(TimedOut, rx.out, [], []);
        return;
      }
      assert c.value == s[0] && Stream() == s[1..];
      ReceiveOne(rx, s, noAck, recvBuf.maxSize);
      var turn;
      state, checksum, high, low, turn := OnByte(recvBuf, state0, checksum0, high0, low0, c.value);
      done := None;
      match turn {
        case Again =>
          after := ReceiveFrom(Rx(state, checksum, high, low, recvBuf.View().unread), s[1..], noAck, recvBuf.maxSize);
        case Nack =>
          socket.AsyncSend([NACK]);
          extra := [NACK];
          after := ReceiveFrom(FRESH, s[1..], noAck, recvBuf.maxSize);
        case Done(outcome) =>
          if outcome == Packet && !noAck {
            socket.AsyncSend([ACK]);
            extra := [ACK];
          }
          done, after := Some(outcome), Reception(outcome, recvBuf.View().unread, s[1..], []);
      }
    }

    /** The switch of receive_packet on the state and one byte; it touches recv_buf only. */
    method OnByte(recvBuf: Buffer, state0: State, checksum0: u8, high0: int, low0: int, c: u8)
      returns (state: State, checksum: u8, high: int, low: int, turn: Turn)
      requires recvBuf.Valid() && recvBuf.View().consumed == []
      modifies recvBuf`readOff, recvBuf`writeOff, recvBuf.storage
      ensures recvBuf.Valid() && recvBuf.View().consumed == []
      ensures var out := recvBuf.View().unread;
              match Step(Rx(state0, checksum0, high0, low0, old(recvBuf.View().unread)), c, noAck, recvBuf.maxSize)
              case Quiet(rx) => turn == Again && Rx(state, checksum, high, low, out) == rx
              case Rejected => turn == Nack && Rx(state, checksum, high, low, out) == FRESH
              case Delivered(p) => turn == Done(Packet) && out == p
              case Interrupted => turn == Done(Break) && out == []
              case Overflow(kept) => turn == Done(TooSmall) && out == kept
    {
      state, checksum, high, low, turn := state0, checksum0, high0, low0, Again;
      var ok := true;
      match state {
        case Initial =>
          if c == PACKET_BEGIN {
            state := PacketData;
          } else if c == BREAK {
            recvBuf.Reset();
            turn := Done(Break);
          }
        case PacketData =>
          if c == PACKET_END {
            state := CheckHi;
          } else {
            checksum := (checksum + c) % 256;
            if c == ESCAPE {
              state := Escaped;
            } else {
              ok := recvBuf.PutByte(c);
            }
          }
        case Escaped =>
          checksum := (checksum + c) % 256;
          ok := recvBuf.PutByte(CodeEscapeChar(c));
          state := PacketData;
        case CheckHi =>
          high := DecodeHex(c);
          state := CheckLo;
        case CheckLo =>
          low := DecodeHex(c);
          if noAck {
            turn := Done(Packet);
          } else if high < 0 || low < 0 || checksum != high * 16 + low {
            state, checksum, high, low := Initial, 0, -1, -1;
            recvBuf.Reset();
            turn := Nack;
          } else {
            turn := Done(Packet);
          }
      }
      if !ok {
        turn := Done(TooSmall);
      }
    }

    /** Receive after one byte, by the verdict on that byte. */
    static lemma ReceiveOne(rx: Rx, s: seq<u8>, noAck: bool, cap: nat)
      requires s != []
      ensures var r := ReceiveFrom(rx, s, noAck, cap);
              match Step(rx, s[0], noAck, cap)
              case Quiet(rx') => r == ReceiveFrom(rx', s[1..], noAck, cap)
              case Rejected =>
                var r' := ReceiveFrom(FRESH, s[1..], noAck, cap); r == r'.(replies := [NACK] + r'.replies)
              case Delivered(p) => r == Reception(Packet, p, s[1..], if noAck then [] else [ACK])
              case Interrupted => r == Reception(Break, [], s[1..], [])
              case Overflow(kept) => r == Reception(TooSmall, kept, s[1..], [])
    {
    }
  }
}
