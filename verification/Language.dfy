/** The language of one call of receive_packet: which bytes make it end in which way, holding and
    leaving what, with which replies. */
module Language {
  import opened Bytes
  import opened Framing

  // ---- the bytes up to the first verdict ----

  /** What a call may see first, behind noise. Silent: nothing more. Broken: a break byte. Whole:
      a closed body with its end. Bursting: a body that fills the buffer and one item more.
      Partial: a packet that the bytes end in. */
  datatype Opening = Silent(noise: seq<u8>)
                   | Broken(noise: seq<u8>)
                   | Whole(noise: seq<u8>, body: seq<u8>, hi: u8, lo: u8)
                   | Bursting(noise: seq<u8>, body: seq<u8>, item: seq<u8>)
                   | Partial(noise: seq<u8>, body: seq<u8>, tail: seq<u8>) {
    predicate Valid(cap: nat) {
      IsNoise(noise)
      && match this
         case Silent(_) => true
         case Broken(_) => true
         case Whole(_, body, _, _) => Closed(body) && |Unescape(body)| <= cap
         case Bursting(_, body, item) => Closed(body) && |Unescape(body)| == cap && IsItem(item)
         case Partial(_, body, tail) => Closed(body) && |Unescape(body)| <= cap && IsCutOff(tail)
    }

    /** The bytes behind the noise. */
    function Behind(): seq<u8> {
      match this
      case Silent(_) => []
      case Broken(_) => [BREAK]
      case Whole(_, body, hi, lo) => Candidate(body, hi, lo)
      case Bursting(_, body, item) => [PACKET_BEGIN] + body + item
      case Partial(_, body, tail) => [PACKET_BEGIN] + body + tail
    }

    function Text(): seq<u8> { noise + Behind() }
  }

  /** The bytes of one payload byte. */
  predicate IsItem(s: seq<u8>) { HasItem(s) && |s| == Width(s) }

  /** Half an escape, or an end that misses checksum digits. */
  predicate IsCutOff(s: seq<u8>) {
    s == [] || s == [ESCAPE] || (|s| <= 2 && s[0] == PACKET_END)
  }

  lemma ScanTrailer(rx: Rx, s: seq<u8>, noAck: bool, cap: nat)
    requires rx.state.PacketData? && (IsCutOff(s) || (s[0] == PACKET_END && |s| >= 3))
    ensures var r := Scan(rx, s, noAck, cap);
            if IsCutOff(s) then r.Pending? && r.rx.out == rx.out
            else r == At(Judge(rx, s[1], s[2], noAck), s[3..])
  {
    if s != [] && s[0] == PACKET_END {
      var rx1 := rx.(state := CheckHi);
      assert Scan(rx, s, noAck, cap) == Scan(rx1, s[1..], noAck, cap);
      if |s| >= 2 {
        var rx2 := rx1.(high := DecodeHex(s[1]), state := CheckLo);
        assert s[1..][1..] == s[2..];
        assert Scan(rx1, s[1..], noAck, cap) == Scan(rx2, s[2..], noAck, cap);
        assert |s| >= 3 ==> s[2..][1..] == s[3..];
      }
    }
  }

  /** The verdict on the two checksum digits behind a body. */
  function Judge(rx: Rx, hi: u8, lo: u8, noAck: bool): Verdict {
    if noAck || (DecodeHex(hi) >= 0 && DecodeHex(lo) >= 0 && rx.checksum == 16 * DecodeHex(hi) + DecodeHex(lo))
    then Delivered(rx.out)
    else Rejected
  }

  /** What the machine makes of an opening with rest behind it. */
  lemma ScanOpening(o: Opening, rest: seq<u8>, noAck: bool, cap: nat)
    requires o.Valid(cap) && (o.Silent? || o.Partial? ==> rest == [])
    ensures var r := Scan(FRESH, o.Text() + rest, noAck, cap);
            match o
            case Silent(_) => r == Pending(FRESH)
            case Broken(_) => r == At(Interrupted, rest)
            case Whole(_, body, hi, lo) =>
              r == At(if noAck || SumMatches(body, hi, lo) then Delivered(Unescape(body)) else Rejected, rest)
            case Bursting(_, body, _) => r == At(Overflow(Unescape(body)), rest)
            case Partial(_, body, _) => r.Pending? && r.rx.out == Unescape(body)
  {
    ScanBreak(rest, noAck, cap);
    hide Scan, IsNoise, Closed, Unescape, SumMatches, IsItem, IsCutOff;
    var behind := o.Behind() + rest;
    assert o.Text() + rest == o.noise + behind;
    ScanNoise(o.noise, behind, noAck, cap);
    match o {
      case Silent(_) =>
      case Broken(_) =>
      case Whole(_, body, hi, lo) => ScanCandidate(body, hi, lo, rest, noAck, cap);
      case Bursting(_, body, item) => ScanBursting(body, item, rest, noAck, cap);
      case Partial(_, body, tail) => ScanPartial(body, tail, noAck, cap);
    }
  }

  lemma ScanBreak(rest: seq<u8>, noAck: bool, cap: nat)
    ensures Scan(FRESH, [BREAK] + rest, noAck, cap) == At(Interrupted, rest)
    ensures Scan(FRESH, [] + [], noAck, cap) == Pending(FRESH)
  {
    assert ([BREAK] + rest)[1..] == rest;
  }

  lemma ScanBursting(body: seq<u8>, item: seq<u8>, rest: seq<u8>, noAck: bool, cap: nat)
    requires Closed(body) && |Unescape(body)| == cap && IsItem(item)
    ensures Scan(FRESH, [PACKET_BEGIN] + body + item + rest, noAck, cap) == At(Overflow(Unescape(body)), rest)
  {
    hide Scan, Closed, Unescape;
    var rx := ScanUnended(body, item + rest, noAck, cap);
    assert [PACKET_BEGIN] + body + item + rest == [PACKET_BEGIN] + body + (item + rest);
    assert (item + rest)[|item|..] == rest;
    ScanItem(rx, item + rest, noAck, cap);
  }

  lemma ScanPartial(body: seq<u8>, tail: seq<u8>, noAck: bool, cap: nat)
    requires Closed(body) && |Unescape(body)| <= cap && IsCutOff(tail)
    ensures var r := Scan(FRESH, [PACKET_BEGIN] + body + tail + [], noAck, cap);
            r.Pending? && r.rx.out == Unescape(body)
  {
    hide Scan, Closed, Unescape;
    var rx := ScanUnended(body, tail, noAck, cap);
    assert [PACKET_BEGIN] + body + tail + [] == [PACKET_BEGIN] + body + tail;
    ScanTrailer(rx, tail, noAck, cap);
  }

  lemma ScanUnended(body: seq<u8>, s: seq<u8>, noAck: bool, cap: nat) returns (rx: Rx)
    requires Closed(body) && |Unescape(body)| <= cap
    ensures rx.state.PacketData? && rx.out == Unescape(body)
    ensures Scan(FRESH, [PACKET_BEGIN] + body + s, noAck, cap) == Scan(rx, s, noAck, cap)
  {
    var begun := FRESH.(state := PacketData);
    rx := AbsorbBody(begun, body);
    assert ([PACKET_BEGIN] + body + s)[1..] == body + s;
    ScanBody(begun, body, s, noAck, cap);
    assert FRESH.out + Unescape(body) == Unescape(body);
  }

  // ---- every input has one ----

  lemma {:induction false} ParseNoise(s: seq<u8>) returns (noise: seq<u8>, rest: seq<u8>)
    ensures s == noise + rest && IsNoise(noise)
    ensures rest != [] ==> rest[0] == PACKET_BEGIN || rest[0] == BREAK
  {
    if s == [] || s[0] == PACKET_BEGIN || s[0] == BREAK {
      noise, rest := [], s;
    } else {
      noise, rest := ParseNoise(s[1..]);
      noise := [s[0]] + noise;
    }
  }

  /** A body as long as there is room, up to its end, its surplus, or the end of the bytes. */
  lemma {:induction false} ParseBody(s: seq<u8>, room: nat) returns (body: seq<u8>, rest: seq<u8>)
    ensures s == body + rest && Closed(body) && |Unescape(body)| <= room
    ensures rest == [] || rest == [ESCAPE] || rest[0] == PACKET_END || (HasItem(rest) && |Unescape(body)| == room)
    decreases |s|
  {
    if HasItem(s) && room > 0 {
      var n := Width(s);
      body, rest := ParseBody(s[n..], room - 1);
      PrependItem(s, body);
      assert s == s[..n] + s[n..];
      body := s[..n] + body;
    } else {
      body, rest := [], s;
    }
  }

  lemma PrependItem(s: seq<u8>, tail: seq<u8>)
    requires HasItem(s) && Closed(tail)
    ensures var body := s[..Width(s)] + tail; Closed(body) && |Unescape(body)| == 1 + |Unescape(tail)|
  {
    var n := Width(s);
    var body := s[..n] + tail;
    assert body[0] == s[0] && body[n..] == tail;
  }

  /** Every input is an opening and what is behind it. */
  lemma Parse(s: seq<u8>, cap: nat) returns (o: Opening, rest: seq<u8>)
    ensures o.Valid(cap) && s == o.Text() + rest && (o.Silent? || o.Partial? ==> rest == [])
  {
    var noise, s1 := ParseNoise(s);
    if s1 == [] {
      o, rest := Silent(noise), [];
    } else if s1[0] == BREAK {
      o, rest := Broken(noise), s1[1..];
    } else {
      o, rest := ParsePacket(noise, s1[1..], cap);
      assert s1 == [PACKET_BEGIN] + s1[1..];
    }
    assert s1 == o.Behind() + rest;
    assert noise + (o.Behind() + rest) == o.Text() + rest;
  }

  lemma ParsePacket(noise: seq<u8>, s: seq<u8>, cap: nat) returns (o: Opening, rest: seq<u8>)
    requires IsNoise(noise)
    ensures o.Valid(cap) && o.noise == noise && [PACKET_BEGIN] + s == o.Behind() + rest
    ensures o.Silent? || o.Partial? ==> rest == []
  {
    hide Closed, Unescape, IsNoise;
    var body, tail := ParseBody(s, cap);
    hide HasItem, Width;
    var n := if IsCutOff(tail) then |tail| else if tail[0] == PACKET_END then 3 else ItemWidth(tail);
    JoinCut([PACKET_BEGIN], body, tail, n);
    rest := tail[n..];
    if IsCutOff(tail) {
      o := Partial(noise, body, tail);
    } else if tail[0] == PACKET_END {
      o := Whole(noise, body, tail[1], tail[2]);
      assert tail[..3] == [PACKET_END, tail[1], tail[2]];
    } else {
      o := Bursting(noise, body, tail[..n]);
    }
  }

  function ItemWidth(s: seq<u8>): (n: nat)
    requires HasItem(s)
    ensures n <= |s| && IsItem(s[..n])
  {
    Width(s)
  }

  lemma JoinCut(a: seq<u8>, b: seq<u8>, c: seq<u8>, n: nat)
    requires n <= |c|
    ensures a + (b + c) == a + b + c[..n] + c[n..]
  {
    assert c == c[..n] + c[n..];
  }

  // ---- the four ways to end ----

  /** Noise, then one accepted frame. */
  ghost predicate IsDelivery(s: seq<u8>, p: seq<u8>, rest: seq<u8>, noAck: bool) {
    exists noise, body, hi, lo ::
      && IsNoise(noise) && Closed(body) && p == Unescape(body)
      && (noAck || SumMatches(body, hi, lo))
      && s == noise + Candidate(body, hi, lo) + rest
  }

  /** Noise, then a break byte. */
  ghost predicate IsInterrupt(s: seq<u8>, rest: seq<u8>) {
    exists noise :: IsNoise(noise) && s == noise + [BREAK] + rest
  }

  /** Noise, then the start of a packet that carries kept and one item more. */
  ghost predicate IsOverflow(s: seq<u8>, kept: seq<u8>, rest: seq<u8>) {
    exists noise, body, item ::
      && IsNoise(noise) && Closed(body) && kept == Unescape(body) && IsItem(item)
      && s == noise + ([PACKET_BEGIN] + body + item) + rest
  }

  /** Noise alone, or with the start of a packet that carries kept so far. */
  ghost predicate IsUnfinished(s: seq<u8>, kept: seq<u8>) {
    || (IsNoise(s) && kept == [])
    || exists noise, body, tail ::
         && IsNoise(noise) && Closed(body) && kept == Unescape(body) && IsCutOff(tail)
         && s == noise + ([PACKET_BEGIN] + body + tail)
  }

  /** The first verdict, both ways: it is a delivery exactly when the bytes are noise, then one
      closed frame that unescapes to the payload with, in ack mode, the right checksum. */
  lemma FirstVerdictDelivers(s: seq<u8>, p: seq<u8>, rest: seq<u8>, noAck: bool, cap: nat)
    ensures Scan(FRESH, s, noAck, cap) == At(Delivered(p), rest) <==> |p| <= cap && IsDelivery(s, p, rest, noAck)
  {
    hide Scan, Closed, Unescape, SumMatches;
    var o, left := Parse(s, cap);
    ScanOpening(o, left, noAck, cap);
    if |p| <= cap {
      forall noise, body, hi, lo |
        && IsNoise(noise) && Closed(body) && p == Unescape(body) && (noAck || SumMatches(body, hi, lo))
        && s == noise + Candidate(body, hi, lo) + rest
        ensures Scan(FRESH, s, noAck, cap) == At(Delivered(p), rest)
      {
        ScanOpening(Whole(noise, body, hi, lo), rest, noAck, cap);
      }
    }
  }

  /** The first verdict is an interrupt exactly when a break byte comes before any begin marker. */
  lemma FirstVerdictInterrupts(s: seq<u8>, rest: seq<u8>, noAck: bool, cap: nat)
    ensures Scan(FRESH, s, noAck, cap) == At(Interrupted, rest) <==> IsInterrupt(s, rest)
  {
    hide Scan;
    var o, left := Parse(s, cap);
    ScanOpening(o, left, noAck, cap);
    forall noise | IsNoise(noise) && s == noise + [BREAK] + rest
      ensures Scan(FRESH, s, noAck, cap) == At(Interrupted, rest)
    {
      ScanOpening(Broken(noise), rest, noAck, cap);
    }
  }

  /** The buffer overflows exactly when it is full and the packet goes on. */
  lemma FirstVerdictOverflows(s: seq<u8>, kept: seq<u8>, rest: seq<u8>, noAck: bool, cap: nat)
    ensures Scan(FRESH, s, noAck, cap) == At(Overflow(kept), rest) <==> |kept| == cap && IsOverflow(s, kept, rest)
  {
    hide Scan, Closed, Unescape;
    var o, left := Parse(s, cap);
    ScanOpening(o, left, noAck, cap);
    if |kept| == cap {
      forall noise, body, item |
        && IsNoise(noise) && Closed(body) && kept == Unescape(body) && IsItem(item)
        && s == noise + ([PACKET_BEGIN] + body + item) + rest
        ensures Scan(FRESH, s, noAck, cap) == At(Overflow(kept), rest)
      {
        ScanOpening(Bursting(noise, body, item), rest, noAck, cap);
      }
    }
  }

  /** There is no verdict exactly when the bytes end in noise or in a packet that fits so far. */
  lemma NoVerdictYet(s: seq<u8>, kept: seq<u8>, noAck: bool, cap: nat)
    ensures (Scan(FRESH, s, noAck, cap).Pending? && Scan(FRESH, s, noAck, cap).rx.out == kept)
       <==> |kept| <= cap && IsUnfinished(s, kept)
  {
    var o, left := Parse(s, cap);
    ScanOpening(o, left, noAck, cap);
    hide Scan, Closed, Unescape, IsNoise, IsCutOff;
    assert left == [] ==> s == o.Text();
    if IsNoise(s) {
      SilentPends(s, noAck, cap);
    }
    if |kept| <= cap {
      forall noise, body, tail |
        && IsNoise(noise) && Closed(body) && kept == Unescape(body) && IsCutOff(tail)
        && s == noise + ([PACKET_BEGIN] + body + tail)
        ensures Scan(FRESH, s, noAck, cap).Pending? && Scan(FRESH, s, noAck, cap).rx.out == kept
      {
        PartialPends(Partial(noise, body, tail), noAck, cap);
      }
    }
  }

  lemma SilentPends(s: seq<u8>, noAck: bool, cap: nat)
    requires IsNoise(s)
    ensures Scan(FRESH, s, noAck, cap) == Pending(FRESH)
  {
    assert s == s + [];
    ScanNoise(s, [], noAck, cap);
  }

  lemma PartialPends(o: Opening, noAck: bool, cap: nat)
    requires o.Partial? && o.Valid(cap)
    ensures var r := Scan(FRESH, o.Text(), noAck, cap); r.Pending? && r.rx.out == Unescape(o.body)
  {
    hide Scan, Closed, Unescape;
    assert o.Text() == o.Text() + [];
    ScanOpening(o, [], noAck, cap);
  }

  // ---- one call, behind any number of rejected frames ----

  function Nacks(n: nat): seq<u8> { seq(n, _ => NACK) }

  /** Noise and then a garbled frame. */
  ghost predicate IsRejection(s: seq<u8>, cap: nat) {
    exists noise, t :: IsNoise(noise) && Garbled(t, cap) && s == noise + t
  }

  ghost predicate AllRejected(fs: seq<seq<u8>>, cap: nat) {
    forall f :: f in fs ==> IsRejection(f, cap)
  }

  function Joined(fs: seq<seq<u8>>): seq<u8> {
    if fs == [] then [] else fs[0] + Joined(fs[1..])
  }

  function AfterNacks(n: nat, r: Reception): Reception { r.(replies := Nacks(n) + r.replies) }

  lemma AfterOneMoreNack(n: nat, r: Reception)
    requires n > 0
    ensures var r' := AfterNacks(n - 1, r); AfterNacks(n, r) == r'.(replies := [NACK] + r'.replies)
  {
    assert Nacks(n) == [NACK] + Nacks(n - 1);
    assert [NACK] + (Nacks(n - 1) + r.replies) == Nacks(n) + r.replies;
  }

  lemma RejectionIsNacked(s: seq<u8>, t: seq<u8>, cap: nat)
    requires IsRejection(s, cap)
    ensures var r := Receive(t, false, cap); Receive(s + t, false, cap) == r.(replies := [NACK] + r.replies)
  {
    hide Scan, Garbled;
    var noise, g :| IsNoise(noise) && Garbled(g, cap) && s == noise + g;
    assert s + t == noise + (g + t);
    ScanNoise(noise, g + t, false, cap);
    ScanGarbled(g, t, cap);
  }

  /** Rejected frames in front cost a nack each and nothing else. */
  lemma {:induction false} RejectionsAreNacked(fs: seq<seq<u8>>, t: seq<u8>, cap: nat)
    requires AllRejected(fs, cap)
    ensures Receive(Joined(fs) + t, false, cap) == AfterNacks(|fs|, Receive(t, false, cap))
  {
    hide ReceiveFrom, IsRejection;
    if fs == [] {
      NoNacks(t, Receive(t, false, cap));
    } else {
      RejectionsAreNacked(fs[1..], t, cap);
      RejectionIsNacked(fs[0], Joined(fs[1..]) + t, cap);
      assert Joined(fs) + t == fs[0] + (Joined(fs[1..]) + t);
      AfterOneMoreNack(|fs|, Receive(t, false, cap));
    }
  }

  lemma NoNacks(t: seq<u8>, r: Reception)
    ensures Joined([]) + t == t && AfterNacks(0, r) == r
  {
    assert Nacks(0) + r.replies == r.replies;
  }

  /** Every call starts with some number of rejected frames, none without acks, and then comes
      to a first verdict that is no rejection, or to the end of the bytes. */
  lemma {:induction false} SplitRejections(s: seq<u8>, noAck: bool, cap: nat) returns (fs: seq<seq<u8>>, t: seq<u8>)
    ensures s == Joined(fs) + t && AllRejected(fs, cap) && (noAck ==> fs == [])
    ensures Scan(FRESH, t, noAck, cap).At? ==> !Scan(FRESH, t, noAck, cap).verdict.Rejected?
    ensures Receive(s, noAck, cap) == AfterNacks(|fs|, Receive(t, noAck, cap))
    ensures Receive(t, noAck, cap).replies == OwnReplies(Receive(t, noAck, cap).outcome, noAck)
    decreases |s|
  {
    hide Scan, ReceiveFrom, IsRejection;
    if Scan(FRESH, s, noAck, cap).At? && Scan(FRESH, s, noAck, cap).verdict.Rejected? {
      var first, rest := SplitRejection(s, noAck, cap);
      var fs';
      fs', t := SplitRejections(rest, noAck, cap);
      fs := [first] + fs';
      assert fs[1..] == fs' && first + (Joined(fs') + t) == Joined(fs) + t;
      AfterOneMoreNack(|fs|, Receive(t, noAck, cap));
    } else {
      fs, t := [], s;
      RepliesAreOwn(s, noAck, cap);
      NoNacks(s, Receive(s, noAck, cap));
    }
  }

  lemma SplitRejection(s: seq<u8>, noAck: bool, cap: nat) returns (first: seq<u8>, rest: seq<u8>)
    requires Scan(FRESH, s, noAck, cap).At? && Scan(FRESH, s, noAck, cap).verdict.Rejected?
    ensures s == first + rest && |rest| < |s| && IsRejection(first, cap) && !noAck
    ensures var r := Receive(rest, noAck, cap); Receive(s, noAck, cap) == r.(replies := [NACK] + r.replies)
  {
    hide Scan;
    var o, left := Parse(s, cap);
    ScanOpening(o, left, noAck, cap);
    first, rest := o.Text(), left;
    assert Garbled(Candidate(o.body, o.hi, o.lo), cap) && IsRejection(first, cap);
  }

  /** The bytes are n rejected frames and then t; without acks nothing is rejected. */
  ghost predicate Behind(s: seq<u8>, n: nat, t: seq<u8>, noAck: bool, cap: nat) {
    (noAck ==> n == 0) && exists fs :: |fs| == n && AllRejected(fs, cap) && s == Joined(fs) + t
  }

  /** The replies of a call that rejects nothing. */
  function OwnReplies(outcome: Outcome, noAck: bool): seq<u8> {
    if outcome == Packet && !noAck then [ACK] else []
  }

  lemma RepliesAreOwn(t: seq<u8>, noAck: bool, cap: nat)
    requires Scan(FRESH, t, noAck, cap).At? ==> !Scan(FRESH, t, noAck, cap).verdict.Rejected?
    ensures var r := Receive(t, noAck, cap); r.replies == OwnReplies(r.outcome, noAck)
  {
  }

  /** A call that rejects nothing ends with its first verdict. */
  lemma EndsAtOnce(t: seq<u8>, r: Reception, noAck: bool, cap: nat)
    requires r.replies == OwnReplies(r.outcome, noAck)
    ensures var v := Scan(FRESH, t, noAck, cap);
            Receive(t, noAck, cap) == r <==>
              match r.outcome
              case Packet => v == At(Delivered(r.payload), r.rest)
              case Break => v == At(Interrupted, r.rest) && r.payload == []
              case TooSmall => v == At(Overflow(r.payload), r.rest)
              case TimedOut => v.Pending? && v.rx.out == r.payload && r.rest == []
  {
    hide Scan;
    var v := Scan(FRESH, t, noAck, cap);
    if v.At? && v.verdict.Rejected? {
      assert Receive(t, noAck, cap).replies[0] == NACK;
    }
  }

  /** A call that ends after n nacks is a call that ends at once behind n rejected frames. */
  lemma CallBehindRejections(s: seq<u8>, n: nat, r: Reception, noAck: bool, cap: nat)
    requires r.replies == OwnReplies(r.outcome, noAck)
    ensures Receive(s, noAck, cap) == AfterNacks(n, r)
       <==> exists t :: Behind(s, n, t, noAck, cap) && Receive(t, noAck, cap) == r
  {
    hide Scan, ReceiveFrom, IsRejection;
    if Receive(s, noAck, cap) == AfterNacks(n, r) {
      var fs, t := SplitRejections(s, noAck, cap);
      SameNacks(n, |fs|, r.replies);
      assert Receive(t, noAck, cap) == r;
      assert Behind(s, n, t, noAck, cap);
    }
    forall fs, t | (noAck ==> |fs| == 0) && AllRejected(fs, cap) && s == Joined(fs) + t
      ensures Receive(s, noAck, cap) == AfterNacks(|fs|, Receive(t, noAck, cap))
    {
      SkipRejections(fs, t, noAck, cap);
    }
  }

  /** The language of receive_packet for packets, both ways: one call returns a payload after n
      nacks, leaving rest, exactly when the bytes are n rejected frames, each behind noise, and
      then noise and one frame that carries the payload and is accepted. */
  lemma CallDelivers(s: seq<u8>, p: seq<u8>, rest: seq<u8>, n: nat, noAck: bool, cap: nat)
    ensures Receive(s, noAck, cap) == Reception(Packet, p, rest, Nacks(n) + (if noAck then [] else [ACK]))
       <==> |p| <= cap && exists t :: Behind(s, n, t, noAck, cap) && IsDelivery(t, p, rest, noAck)
  {
    hide Scan, ReceiveFrom, Behind, IsDelivery;
    var r := Reception(Packet, p, rest, if noAck then [] else [ACK]);
    CallBehindRejections(s, n, r, noAck, cap);
    forall t
      ensures Receive(t, noAck, cap) == r <==> |p| <= cap && IsDelivery(t, p, rest, noAck)
    {
      EndsAtOnce(t, r, noAck, cap);
      FirstVerdictDelivers(t, p, rest, noAck, cap);
    }
  }

  /** For interrupts: behind the rejected frames a break byte comes before any begin marker. */
  lemma CallInterrupted(s: seq<u8>, rest: seq<u8>, n: nat, noAck: bool, cap: nat)
    ensures Receive(s, noAck, cap) == Reception(Break, [], rest, Nacks(n))
       <==> exists t :: Behind(s, n, t, noAck, cap) && IsInterrupt(t, rest)
  {
    hide Scan, ReceiveFrom, Behind, IsInterrupt;
    var r := Reception(Break, [], rest, []);
    assert Nacks(n) + [] == Nacks(n);
    CallBehindRejections(s, n, r, noAck, cap);
    forall t
      ensures Receive(t, noAck, cap) == r <==> IsInterrupt(t, rest)
    {
      EndsAtOnce(t, r, noAck, cap);
      FirstVerdictInterrupts(t, rest, noAck, cap);
    }
  }

  /** For buffer_too_small: behind the rejected frames a packet fills the buffer and goes on;
      the buffer then holds what fitted, and the byte that did not is gone. */
  lemma CallOverflows(s: seq<u8>, kept: seq<u8>, rest: seq<u8>, n: nat, noAck: bool, cap: nat)
    ensures Receive(s, noAck, cap) == Reception(TooSmall, kept, rest, Nacks(n))
       <==> |kept| == cap && exists t :: Behind(s, n, t, noAck, cap) && IsOverflow(t, kept, rest)
  {
    hide Scan, ReceiveFrom, Behind, IsOverflow;
    var r := Reception(TooSmall, kept, rest, []);
    assert Nacks(n) + [] == Nacks(n);
    CallBehindRejections(s, n, r, noAck, cap);
    forall t
      ensures Receive(t, noAck, cap) == r <==> |kept| == cap && IsOverflow(t, kept, rest)
    {
      EndsAtOnce(t, r, noAck, cap);
      FirstVerdictOverflows(t, kept, rest, noAck, cap);
    }
  }

  /** For timed_out: behind the rejected frames the bytes end before any verdict. */
  lemma CallTimesOut(s: seq<u8>, kept: seq<u8>, rest: seq<u8>, n: nat, noAck: bool, cap: nat)
    ensures Receive(s, noAck, cap) == Reception(TimedOut, kept, rest, Nacks(n))
       <==> rest == [] && |kept| <= cap && exists t :: Behind(s, n, t, noAck, cap) && IsUnfinished(t, kept)
  {
    hide Scan, ReceiveFrom, Behind, IsUnfinished;
    var r := Reception(TimedOut, kept, rest, []);
    assert Nacks(n) + [] == Nacks(n);
    CallBehindRejections(s, n, r, noAck, cap);
    forall t
      ensures Receive(t, noAck, cap) == r <==> rest == [] && |kept| <= cap && IsUnfinished(t, kept)
    {
      EndsAtOnce(t, r, noAck, cap);
      NoVerdictYet(t, kept, noAck, cap);
    }
  }

  lemma SameNacks(n: nat, m: nat, tail: seq<u8>)
    requires Nacks(n) + tail == Nacks(m) + tail
    ensures n == m
  {
    assert |Nacks(n) + tail| == n + |tail| && |Nacks(m) + tail| == m + |tail|;
  }

  lemma SkipRejections(fs: seq<seq<u8>>, t: seq<u8>, noAck: bool, cap: nat)
    requires AllRejected(fs, cap) && (noAck ==> fs == [])
    ensures Receive(Joined(fs) + t, noAck, cap) == AfterNacks(|fs|, Receive(t, noAck, cap))
  {
    if noAck {
      NoNacks(t, Receive(t, noAck, cap));
    } else {
      RejectionsAreNacked(fs, t, cap);
    }
  }
}
