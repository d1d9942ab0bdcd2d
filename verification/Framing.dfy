/** The packet format of src/gdb/packet_io: what a sender puts on the wire for a payload,
    and the byte machine that recovers it. The sender is parameterised by the set of bytes
    it escapes, since the two ends of a connection escape different sets. */
module Framing {
  import opened Bytes

  const PACKET_BEGIN: u8 := '$' as int
  const PACKET_END: u8 := '#' as int
  const ESCAPE: u8 := '}' as int
  const RLE: u8 := '*' as int
  const ACK: u8 := PLUS
  const NACK: u8 := MINUS
  const BREAK: u8 := 3

  /** must_escape_request and must_escape_response, as sets. */
  const REQUEST_ESCAPES: set<u8> := {PACKET_BEGIN, PACKET_END, ESCAPE}
  const RESPONSE_ESCAPES: set<u8> := REQUEST_ESCAPES + {RLE}

  /** code_escape_char: toggle bit 5. */
  function CodeEscapeChar(c: u8): u8 {
    if c / 32 % 2 == 0 then c + 32 else c - 32
  }

  lemma CodeEscapeCharIsXor(b: bv8)
    ensures CodeEscapeChar(b as int) == (b ^ 0x20) as int
  {
    assert (b / 32 % 2) as int == b as int / 32 % 2;
    assert b ^ 0x20 == if b / 32 % 2 == 0 then b + 0x20 else b - 0x20;
  }

  function MaxPacketExpansion(n: nat): nat { 1 + 2 * n + 4 }

  // ---- sender ----

  function EscapeByte(esc: set<u8>, c: u8): seq<u8> {
    if c in esc then [ESCAPE, CodeEscapeChar(c)] else [c]
  }

  function Body(esc: set<u8>, p: seq<u8>): seq<u8> {
    if p == [] then [] else EscapeByte(esc, p[0]) + Body(esc, p[1..])
  }

  function Trailer(body: seq<u8>): seq<u8> {
    var sum: u8 := Sum(body) % 256;
    [PACKET_END, EncodeHex(sum / 16), EncodeHex(sum)]
  }

  function Frame(esc: set<u8>, p: seq<u8>): seq<u8> {
    [PACKET_BEGIN] + Body(esc, p) + Trailer(Body(esc, p))
  }

  lemma SumOfEscape(esc: set<u8>, c: u8)
    ensures Sum(EscapeByte(esc, c)) == if c in esc then ESCAPE + CodeEscapeChar(c) else c
  {
    SumShort(ESCAPE, CodeEscapeChar(c));
    SumShort(c, c);
  }

  lemma {:induction false} BodyConcat(esc: set<u8>, p: seq<u8>, q: seq<u8>)
    ensures Body(esc, p + q) == Body(esc, p) + Body(esc, q)
  {
    if p == [] {
      assert p + q == q;
    } else {
      assert (p + q)[1..] == p[1..] + q;
      BodyConcat(esc, p[1..], q);
    }
  }

  // ---- bodies, independently of who wrote them ----

  /** A body whose end the decoder sees at the next '#': escapes are complete pairs and
      every '#' is the second byte of one. */
  predicate Closed(body: seq<u8>) {
    || body == []
    || (body[0] == ESCAPE && |body| >= 2 && Closed(body[2..]))
    || (body[0] != ESCAPE && body[0] != PACKET_END && Closed(body[1..]))
  }

  function Unescape(body: seq<u8>): (p: seq<u8>)
    requires Closed(body)
    ensures |p| <= |body| <= 2 * |p|
  {
    if body == [] then []
    else if body[0] == ESCAPE then [CodeEscapeChar(body[1])] + Unescape(body[2..])
    else [body[0]] + Unescape(body[1..])
  }

  /** The two received digits are digits and agree with the raw sum of the body. */
  predicate SumMatches(body: seq<u8>, hi: u8, lo: u8) {
    DecodeHex(hi) >= 0 && DecodeHex(lo) >= 0 && Sum(body) % 256 == 16 * DecodeHex(hi) + DecodeHex(lo)
  }

  predicate EscapesMarkers(esc: set<u8>) { PACKET_END in esc && ESCAPE in esc }

  /** Any encoder that escapes '#' and '}' writes closed bodies that unescape to the payload. */
  lemma {:induction false} BodyUnescapes(esc: set<u8>, p: seq<u8>)
    requires EscapesMarkers(esc)
    ensures Closed(Body(esc, p)) && Unescape(Body(esc, p)) == p
  {
    if p != [] {
      BodyUnescapes(esc, p[1..]);
      var b, rest := Body(esc, p), Body(esc, p[1..]);
      if p[0] in esc {
        assert b[0] == ESCAPE && b[1] == CodeEscapeChar(p[0]) && b[2..] == rest;
        assert CodeEscapeChar(b[1]) == p[0];
      } else {
        assert b[0] == p[0] && b[1..] == rest;
      }
    }
  }

  /** The bytes a response body may show, whatever the payload: no '$', '#' or '*'. */
  lemma {:induction false} ResponseBodyBytes(p: seq<u8>)
    ensures forall c :: c in Body(RESPONSE_ESCAPES, p) ==> c != PACKET_BEGIN && c != PACKET_END && c != RLE
  {
    if p != [] {
      ResponseBodyBytes(p[1..]);
    }
  }

  /** What the stub writes for one byte: '$', '#', '}' and '*' are escaped by toggling bit 5,
      and every other byte stands for itself. */
  lemma ResponseByte(b: bv8)
    ensures EscapeByte(RESPONSE_ESCAPES, b as int)
         == if b == '$' as bv8 || b == '#' as bv8 || b == '}' as bv8 || b == '*' as bv8
            then ['}' as int, (b ^ 0x20) as int] else [b as int]
  {
    CodeEscapeCharIsXor(b);
  }

  /** ... and for a payload: that, byte by byte. */
  lemma BodyAppend(esc: set<u8>, p: seq<u8>, c: u8)
    ensures Body(esc, p + [c]) == Body(esc, p) + EscapeByte(esc, c) && Body(esc, []) == []
  {
    BodyConcat(esc, p, [c]);
    assert Body(esc, [c]) == EscapeByte(esc, c) + Body(esc, []);
  }

  /** Sizes of frames; the worst case the sender reserves is one byte more than a frame in
      which every byte is escaped. */
  lemma {:induction false} FrameSize(esc: set<u8>, p: seq<u8>)
    ensures 4 + |p| <= |Frame(esc, p)| <= MaxPacketExpansion(|p|) - 1
    ensures (forall c :: c in p ==> c !in esc) ==> |Frame(esc, p)| == 4 + |p|
    ensures (forall c :: c in p ==> c in esc) ==> |Frame(esc, p)| == MaxPacketExpansion(|p|) - 1
  {
    if p != [] {
      FrameSize(esc, p[1..]);
    }
  }

  /** The trailer a sender computes is the one and only lower-case spelling the receiver
      takes: the sender's remainder of an int and the receiver's wrapping byte agree. */
  lemma TrailerMatches(body: seq<u8>)
    ensures var t := Trailer(body); SumMatches(body, t[1], t[2])
  {
    var sum: u8 := Sum(body) % 256;
    assert sum == 16 * (sum / 16) + sum % 16;
  }

  /** The four ways to spell a checksum: each of the two digits in either case. */
  lemma SumSpellings(body: seq<u8>, hi: u8, lo: u8)
    ensures var sum := Sum(body) % 256; SumMatches(body, hi, lo) <==> Spells(hi, sum / 16) && Spells(lo, sum % 16)
  {
    var sum := Sum(body) % 256;
    HexDigits(hi, sum / 16);
    HexDigits(lo, sum % 16);
  }

  // ---- receiver ----

  datatype State = Initial | PacketData | CheckHi | CheckLo | Escaped

  /** The locals of receive_packet and the bytes it has put into recv_buf. */
  datatype Rx = Rx(state: State, checksum: u8, high: int, low: int, out: seq<u8>)

  const FRESH: Rx := Rx(Initial, 0, -1, -1, [])

  /** Quiet: keep reading. Rejected: a nack is sent and the machine starts over.
      Overflow is buffer_too_small. */
  datatype Verdict = Quiet(rx: Rx) | Rejected | Delivered(payload: seq<u8>) | Interrupted | Overflow(kept: seq<u8>)

  /** Arithmetic of the receiver's unsigned byte. */
  function Wrap(n: int): u8 { n % 256 }

  function PutOut(rx: Rx, c: u8, cap: nat): Verdict {
    if |rx.out| < cap then Quiet(rx.(out := rx.out + [c])) else Overflow(rx.out)
  }

  /** One byte: the switch of receive_packet. */
  function Step(rx: Rx, c: u8, noAck: bool, cap: nat): Verdict {
    match rx.state
    case Initial =>
      if c == PACKET_BEGIN then Quiet(rx.(state := PacketData))
      else if c == BREAK then Interrupted
      else Quiet(rx)
    case PacketData =>
      if c == PACKET_END then Quiet(rx.(state := CheckHi))
      else
        var rx' := rx.(checksum := Wrap(rx.checksum + c));
        if c == ESCAPE then Quiet(rx'.(state := Escaped)) else PutOut(rx', c, cap)
    case Escaped =>
      PutOut(rx.(checksum := Wrap(rx.checksum + c), state := PacketData), CodeEscapeChar(c), cap)
    case CheckHi =>
      Quiet(rx.(high := DecodeHex(c), state := CheckLo))
    case CheckLo =>
      var low := DecodeHex(c);
      if noAck || (rx.high >= 0 && low >= 0 && rx.checksum == 16 * rx.high + low)
      then Delivered(rx.out)
      else Rejected
  }

  /** The first verdict that is not Quiet and the bytes behind it, or the state in which
      the bytes ran out. */
  datatype Scanned = Pending(rx: Rx) | At(verdict: Verdict, rest: seq<u8>)

  function Scan(rx: Rx, s: seq<u8>, noAck: bool, cap: nat): (r: Scanned)
    ensures r.At? ==> |r.rest| < |s| && !r.verdict.Quiet?
    decreases |s|
  {
    if s == [] then Pending(rx)
    else match Step(rx, s[0], noAck, cap)
      case Quiet(rx') => Scan(rx', s[1..], noAck, cap)
      case v => At(v, s[1..])
  }

  datatype Outcome = Packet | Break | TooSmall | TimedOut

  /** One call of receive_packet: how it ends, what recv_buf then holds, the bytes it left
      unread, and the acks and nacks it sent. */
  datatype Reception = Reception(outcome: Outcome, payload: seq<u8>, rest: seq<u8>, replies: seq<u8>)

  function ReceiveFrom(rx: Rx, s: seq<u8>, noAck: bool, cap: nat): Reception
    decreases |s|
  {
    match Scan(rx, s, noAck, cap)
    case Pending(rx') => Reception(TimedOut, rx'.out, [], [])
    case At(v, rest) =>
      match v
      case Rejected =>
        var r := ReceiveFrom(FRESH, rest, noAck, cap);
        r.(replies := [NACK] + r.replies)
      case Delivered(p) => Reception(Packet, p, rest, if noAck then [] else [ACK])
      case Interrupted => Reception(Break, [], rest, [])
      case Overflow(kept) => Reception(TooSmall, kept, rest, [])
  }

  function Receive(s: seq<u8>, noAck: bool, cap: nat): Reception {
    ReceiveFrom(FRESH, s, noAck, cap)
  }

  // ---- the machine on one closed body ----

  /** The bytes one payload byte takes up in a body: two when escaped. */
  function Width(s: seq<u8>): nat
    requires s != []
  {
    if s[0] == ESCAPE then 2 else 1
  }

  predicate HasItem(s: seq<u8>) {
    s != [] && s[0] != PACKET_END && Width(s) <= |s|
  }

  function ItemByte(s: seq<u8>): u8
    requires HasItem(s)
  {
    if Width(s) == 2 then CodeEscapeChar(s[1]) else s[0]
  }

  lemma UnescapeFirst(body: seq<u8>)
    requires body != [] && Closed(body)
    ensures HasItem(body) && Closed(body[Width(body)..])
    ensures Unescape(body) == [ItemByte(body)] + Unescape(body[Width(body)..])
  {
  }

  /** The machine after one more payload byte. */
  function Absorb(rx: Rx, s: seq<u8>): Rx
    requires HasItem(s)
  {
    rx.(checksum := Wrap(rx.checksum + Sum(s[..Width(s)])),
        out := rx.out + [ItemByte(s)])
  }

  lemma ScanItem(rx: Rx, s: seq<u8>, noAck: bool, cap: nat)
    requires rx.state.PacketData? && HasItem(s)
    ensures |rx.out| < cap ==> Scan(rx, s, noAck, cap) == Scan(Absorb(rx, s), s[Width(s)..], noAck, cap)
    ensures |rx.out| >= cap ==> Scan(rx, s, noAck, cap) == At(Overflow(rx.out), s[Width(s)..])
  {
    hide Sum, Wrap;
    SumShort(s[0], if Width(s) == 2 then s[1] else 0);
    if Width(s) == 2 {
      var rx1 := rx.(checksum := Wrap(rx.checksum + s[0]), state := Escaped);
      assert Scan(rx, s, noAck, cap) == Scan(rx1, s[1..], noAck, cap);
      assert s[1..][0] == s[1] && s[1..][1..] == s[2..] && s[..2] == [s[0], s[1]];
      WrapAgain(rx.checksum + s[0], s[1]);
    } else {
      assert s[..1] == [s[0]];
    }
  }

  /** Wrapping early does not change the wrapped sum. */
  lemma WrapAgain(a: int, b: int)
    ensures Wrap(Wrap(a) + b) == Wrap(a + b)
  {
  }

  /** The machine after a whole body, in terms of the body's sum and payload alone. */
  function AbsorbBody(rx: Rx, body: seq<u8>): Rx
    requires Closed(body)
  {
    rx.(checksum := Wrap(rx.checksum + Sum(body)), out := rx.out + Unescape(body))
  }

  lemma AbsorbNone(rx: Rx)
    ensures AbsorbBody(rx, []) == rx
  {
    assert rx.out + [] == rx.out;
  }

  lemma AbsorbFirst(rx: Rx, body: seq<u8>)
    requires body != [] && Closed(body)
    ensures HasItem(body) && Closed(body[Width(body)..])
    ensures AbsorbBody(Absorb(rx, body), body[Width(body)..]) == AbsorbBody(rx, body)
  {
    hide Sum, Wrap, Unescape, Closed;
    UnescapeFirst(body);
    WrappedSumSplits(rx.checksum, body, Width(body));
    var rest := Unescape(body[Width(body)..]);
    assert rx.out + [ItemByte(body)] + rest == rx.out + ([ItemByte(body)] + rest);
  }

  lemma WrappedSumSplits(c: int, s: seq<u8>, n: nat)
    requires n <= |s|
    ensures Wrap(Wrap(c + Sum(s[..n])) + Sum(s[n..])) == Wrap(c + Sum(s))
  {
    hide Sum, Wrap;
    assert s == s[..n] + s[n..];
    SumConcat(s[..n], s[n..]);
    WrapAgain(c + Sum(s[..n]), Sum(s[n..]));
  }

  lemma {:induction false} ScanBody(rx: Rx, body: seq<u8>, s: seq<u8>, noAck: bool, cap: nat)
    requires rx.state.PacketData? && Closed(body) && |rx.out| + |Unescape(body)| <= cap
    ensures Scan(rx, body + s, noAck, cap) == Scan(AbsorbBody(rx, body), s, noAck, cap)
    decreases |body|
  {
    hide Scan, Sum, Wrap, Unescape, Closed;
    if body == [] {
      assert body + s == s;
      AbsorbNone(rx);
    } else {
      UnescapeFirst(body);
      var n := Width(body);
      assert (body + s)[..n] == body[..n] && (body + s)[n..] == body[n..] + s;
      ScanItem(rx, body + s, noAck, cap);
      assert Absorb(rx, body + s) == Absorb(rx, body);
      ScanBody(Absorb(rx, body), body[n..], s, noAck, cap);
      AbsorbFirst(rx, body);
    }
  }

  /** A body that does not fit is never delivered: the buffer throws first. */
  lemma {:induction false} ScanLongBody(rx: Rx, body: seq<u8>, s: seq<u8>, noAck: bool, cap: nat)
    requires rx.state.PacketData? && Closed(body) && |rx.out| <= cap < |rx.out| + |Unescape(body)|
    ensures Scan(rx, body + s, noAck, cap).At? && Scan(rx, body + s, noAck, cap).verdict.Overflow?
    decreases |body|
  {
    var n := Width(body);
    assert (body + s)[..n] == body[..n] && (body + s)[n..] == body[n..] + s;
    ScanItem(rx, body + s, noAck, cap);
    if |rx.out| < cap {
      ScanLongBody(Absorb(rx, body), body[n..], s, noAck, cap);
    }
  }

  function Candidate(body: seq<u8>, hi: u8, lo: u8): seq<u8> {
    [PACKET_BEGIN] + body + [PACKET_END, hi, lo]
  }

  /** What the receiver does with any closed candidate frame that fits, right or wrong:
      deliver exactly its unescaped body, or reject it, stopping at its last byte. */
  lemma ScanCandidate(body: seq<u8>, hi: u8, lo: u8, s: seq<u8>, noAck: bool, cap: nat)
    requires Closed(body) && |Unescape(body)| <= cap
    ensures Scan(FRESH, Candidate(body, hi, lo) + s, noAck, cap)
         == At(if noAck || SumMatches(body, hi, lo) then Delivered(Unescape(body)) else Rejected, s)
  {
    var all := Candidate(body, hi, lo) + s;
    var tail := [PACKET_END, hi, lo] + s;
    var rx := FRESH.(state := PacketData);
    assert all[1..] == body + tail;
    ScanBody(rx, body, tail, noAck, cap);
    var rx1 := rx.(checksum := Sum(body) % 256, out := Unescape(body));
    assert rx.out + Unescape(body) == Unescape(body);
    var rx2 := rx1.(state := CheckHi);
    var rx3 := rx2.(high := DecodeHex(hi), state := CheckLo);
    assert tail[1..] == [hi, lo] + s;
    assert ([hi, lo] + s)[1..] == [lo] + s;
    assert ([lo] + s)[1..] == s;
    assert Scan(rx1, tail, noAck, cap) == Scan(rx2, [hi, lo] + s, noAck, cap) == Scan(rx3, [lo] + s, noAck, cap);
  }

  predicate IsNoise(s: seq<u8>) {
    PACKET_BEGIN !in s && BREAK !in s
  }

  lemma {:induction false} ScanNoise(noise: seq<u8>, s: seq<u8>, noAck: bool, cap: nat)
    requires IsNoise(noise)
    ensures Scan(FRESH, noise + s, noAck, cap) == Scan(FRESH, s, noAck, cap)
  {
    if noise == [] {
      assert noise + s == s;
    } else {
      assert (noise + s)[1..] == noise[1..] + s;
      ScanNoise(noise[1..], s, noAck, cap);
    }
  }

  /** A frame altered in ways that the checksum shows and that do not move its end. */
  ghost predicate Garbled(t: seq<u8>, cap: nat) {
    exists body, hi, lo :: t == Candidate(body, hi, lo) && Closed(body) && |Unescape(body)| <= cap
                           && !SumMatches(body, hi, lo)
  }

  lemma ScanGarbled(t: seq<u8>, s: seq<u8>, cap: nat)
    requires Garbled(t, cap)
    ensures Scan(FRESH, t + s, false, cap) == At(Rejected, s)
  {
    hide Scan, Closed, Unescape, SumMatches;
    var body, hi, lo :| t == Candidate(body, hi, lo) && Closed(body) && |Unescape(body)| <= cap
                        && !SumMatches(body, hi, lo);
    ScanCandidate(body, hi, lo, s, false, cap);
  }

  /** A sender's frame is delivered at its last byte. */
  lemma ScanFrame(esc: set<u8>, p: seq<u8>, s: seq<u8>, noAck: bool, cap: nat)
    requires EscapesMarkers(esc) && |p| <= cap
    ensures Scan(FRESH, Frame(esc, p) + s, noAck, cap) == At(Delivered(p), s)
  {
    hide Scan, Closed, Unescape, Body, SumMatches;
    var body := Body(esc, p);
    var t := Trailer(body);
    BodyUnescapes(esc, p);
    TrailerMatches(body);
    assert Frame(esc, p) == Candidate(body, t[1], t[2]);
    ScanCandidate(body, t[1], t[2], s, noAck, cap);
  }

  // ---- main results ----

  /** Round trip of one frame, for every escape set that covers '#' and '}': what was framed
      is delivered, unchanged, and nothing behind the frame is touched. */
  lemma FrameRoundTrip(esc: set<u8>, p: seq<u8>, noise: seq<u8>, s: seq<u8>, noAck: bool, cap: nat)
    requires EscapesMarkers(esc) && |p| <= cap && IsNoise(noise)
    ensures Receive(noise + Frame(esc, p) + s, noAck, cap)
         == Reception(Packet, p, s, if noAck then [] else [ACK])
  {
    assert noise + Frame(esc, p) + s == noise + (Frame(esc, p) + s);
    ScanNoise(noise, Frame(esc, p) + s, noAck, cap);
    ScanFrame(esc, p, s, noAck, cap);
  }

  /** ... and so whatever the stub sends is delivered, in ack mode and without acks. */
  lemma ResponseArrives(p: seq<u8>, noise: seq<u8>, s: seq<u8>, noAck: bool, cap: nat)
    requires |p| <= cap && IsNoise(noise)
    ensures Receive(noise + Frame(RESPONSE_ESCAPES, p) + s, noAck, cap)
         == Reception(Packet, p, s, if noAck then [] else [ACK])
  {
    FrameRoundTrip(RESPONSE_ESCAPES, p, noise, s, noAck, cap);
  }

  /** A peer may write its checksum in capitals. */
  lemma CapitalChecksum(esc: set<u8>, p: seq<u8>, s: seq<u8>, noAck: bool, cap: nat)
    requires EscapesMarkers(esc) && |p| <= cap
    ensures Receive([PACKET_BEGIN] + Body(esc, p) + UpperAll(Trailer(Body(esc, p))) + s, noAck, cap)
         == Reception(Packet, p, s, if noAck then [] else [ACK])
  {
    hide Scan, Closed, Unescape, Body;
    var body := Body(esc, p);
    var t := Trailer(body);
    BodyUnescapes(esc, p);
    TrailerMatches(body);
    UpperIsTheSameDigit(t[1]);
    UpperIsTheSameDigit(t[2]);
    assert UpperAll(t) == [PACKET_END, Upper(t[1]), Upper(t[2])];
    assert [PACKET_BEGIN] + body + UpperAll(t) == Candidate(body, Upper(t[1]), Upper(t[2]));
    ScanCandidate(body, Upper(t[1]), Upper(t[2]), s, noAck, cap);
  }

  /** Frames stand on their own: equal frames come from equal payloads, and no frame is a
      proper prefix of another, even between the two escape sets. */
  lemma FramesArePrefixFree(e: set<u8>, p: seq<u8>, f: set<u8>, q: seq<u8>)
    requires EscapesMarkers(e) && EscapesMarkers(f)
    ensures Frame(e, p) <= Frame(f, q) ==> p == q && Frame(e, p) == Frame(f, q)
  {
    hide ReceiveFrom, Frame;
    if Frame(e, p) <= Frame(f, q) {
      var cap := |p| + |q|;
      var t := Frame(f, q)[|Frame(e, p)|..];
      assert [] + Frame(e, p) + t == Frame(f, q) == [] + Frame(f, q) + [];
      FrameRoundTrip(e, p, [], t, true, cap);
      FrameRoundTrip(f, q, [], [], true, cap);
      assert Frame(e, p) + [] == Frame(f, q);
    }
  }

  /** The bytes of several packets, each with the noise in front of it. */
  function Wire(esc: set<u8>, noises: seq<seq<u8>>, ps: seq<seq<u8>>): seq<u8>
    requires |noises| == |ps|
  {
    if ps == [] then [] else noises[0] + Frame(esc, ps[0]) + Wire(esc, noises[1..], ps[1..])
  }

  /** n calls of receive_packet, each starting where the one before stopped. */
  function Calls(n: nat, s: seq<u8>, noAck: bool, cap: nat): seq<Reception> {
    if n == 0 then []
    else var r := Receive(s, noAck, cap); [r] + Calls(n - 1, r.rest, noAck, cap)
  }

  /** What those calls are to return for the packets of Wire. */
  function Deliveries(esc: set<u8>, noises: seq<seq<u8>>, ps: seq<seq<u8>>, tail: seq<u8>, noAck: bool): seq<Reception>
    requires |noises| == |ps|
  {
    if ps == [] then []
    else [Reception(Packet, ps[0], Wire(esc, noises[1..], ps[1..]) + tail, if noAck then [] else [ACK])]
         + Deliveries(esc, noises[1..], ps[1..], tail, noAck)
  }

  /** Round trip of a stream: one call per packet returns the payloads in order, whatever
      noise lies between the frames, and each call leaves exactly the bytes behind its frame. */
  lemma {:induction false} StreamRoundTrip(esc: set<u8>, noises: seq<seq<u8>>, ps: seq<seq<u8>>, tail: seq<u8>,
                                           noAck: bool, cap: nat)
    requires EscapesMarkers(esc) && |noises| == |ps|
    requires forall i :: 0 <= i < |ps| ==> |ps[i]| <= cap && IsNoise(noises[i])
    ensures Calls(|ps|, Wire(esc, noises, ps) + tail, noAck, cap) == Deliveries(esc, noises, ps, tail, noAck)
  {
    if ps != [] {
      var rest := Wire(esc, noises[1..], ps[1..]) + tail;
      assert Wire(esc, noises, ps) + tail == noises[0] + Frame(esc, ps[0]) + rest;
      FrameRoundTrip(esc, ps[0], noises[0], rest, noAck, cap);
      StreamRoundTrip(esc, noises[1..], ps[1..], tail, noAck, cap);
    }
  }

  /** One changed body byte that leaves the terminator where it was is always rejected (or
      overflows a full buffer), in front of anything, and never delivered. */
  lemma CorruptedByteIsRejected(body: seq<u8>, i: nat, x: u8, s: seq<u8>, cap: nat)
    requires i < |body| && x != body[i] && Closed(body[i := x])
    ensures var t := Trailer(body);
            var garbled := Candidate(body[i := x], t[1], t[2]);
            && !SumMatches(body[i := x], t[1], t[2])
            && (|Unescape(body[i := x])| <= cap ==> Scan(FRESH, garbled + s, false, cap) == At(Rejected, s))
            && (|Unescape(body[i := x])| > cap ==> Receive(garbled + s, false, cap).outcome == TooSmall)
  {
    hide Sum, Closed, Unescape;
    var t := Trailer(body);
    var body' := body[i := x];
    TrailerMatches(body);
    SumUpdate(body, i, x);
    if |Unescape(body')| <= cap {
      ScanCandidate(body', t[1], t[2], s, false, cap);
    } else {
      var rx := FRESH.(state := PacketData);
      var tail := [PACKET_END, t[1], t[2]] + s;
      assert (Candidate(body', t[1], t[2]) + s)[1..] == body' + tail;
      ScanLongBody(rx, body', tail, false, cap);
    }
  }

  /** In particular any such fault of a sender's frame garbles it. */
  lemma ByteFaultGarbles(esc: set<u8>, p: seq<u8>, i: nat, x: u8, cap: nat)
    requires i < |Body(esc, p)| && x != Body(esc, p)[i]
    requires Closed(Body(esc, p)[i := x]) && |Unescape(Body(esc, p)[i := x])| <= cap
    ensures Garbled(Frame(esc, p)[i + 1 := x], cap) && Frame(esc, p)[i + 1 := x] != Frame(esc, p)
  {
    var body := Body(esc, p);
    var t := Trailer(body);
    CorruptedByteIsRejected(body, i, x, [], cap);
    hide Body, Closed, Unescape, SumMatches;
    assert Frame(esc, p)[i + 1 := x] == Candidate(body[i := x], t[1], t[2]);
    assert Frame(esc, p)[i + 1] == body[i];
  }

  /** A garbled frame costs one nack and nothing else: the call goes on with the bytes
      behind it as if it had just begun. */
  lemma RejectionRestarts(t: seq<u8>, s: seq<u8>, cap: nat)
    requires Garbled(t, cap)
    ensures var r := Receive(s, false, cap); Receive(t + s, false, cap) == r.(replies := [NACK] + r.replies)
  {
    hide Scan, Garbled;
    ScanGarbled(t, s, cap);
  }
}
