/** Two packet ends in acknowledgment mode over a link that may garble frames: every byte
    the receiver takes is a step of its machine, every byte the sender takes is a step of
    its wait for the ack. */
module StopAndWait {
  import opened Bytes
  import opened Framing
  import opened PacketIo

  /** What one connection is to carry: the sender's escape set, the receiver's buffer size
      and the payloads that send_packet is called with, in order. */
  datatype Session = Session(esc: set<u8>, cap: nat, payloads: seq<seq<u8>>) {
    predicate Valid() {
      EscapesMarkers(esc) && forall p :: p in payloads ==> |p| <= cap
    }
  }

  /** acked: calls of send_packet that have returned. sending: one is waiting for its ack.
      copies and garbled: transmissions of its frame, or of the last one, and how many of them
      the link altered. forward and backward: bytes in flight. */
  datatype Link = Link(acked: nat, sending: bool, copies: nat, garbled: nat,
                       rx: Rx, forward: seq<u8>, backward: seq<u8>, delivered: seq<seq<u8>>)

  const START: Link := Link(0, false, 0, 0, FRESH, [], [], [])

  /** Transmit: send_packet starts, its bytes being altered to t or not. NoiseByte: a stray
      byte while nothing is in flight. Chatter: a stray byte among the replies. ReceiverByte
      and SenderByte: an end takes its next byte; a nack makes the sender transmit t. */
  datatype Action = Transmit(t: seq<u8>) | NoiseByte(c: u8) | Chatter(c: u8) | ReceiverByte | SenderByte(t: seq<u8>)

  function CurrentFrame(w: Session, l: Link): seq<u8>
    requires l.acked < |w.payloads|
  {
    Frame(w.esc, w.payloads[l.acked])
  }

  ghost predicate MayTransmit(w: Session, l: Link, t: seq<u8>) {
    l.acked < |w.payloads| && (t == CurrentFrame(w, l) || Garbled(t, w.cap))
  }

  /** One more transmission, altered or not. */
  function Transmitted(w: Session, l: Link, t: seq<u8>): Link
    requires l.acked < |w.payloads|
  {
    l.(copies := l.copies + 1, garbled := l.garbled + (if t == CurrentFrame(w, l) then 0 else 1),
       forward := l.forward + t)
  }

  function ReceiverTakes(w: Session, l: Link): Link
    requires l.forward != []
  {
    var k := l.(forward := l.forward[1..]);
    match Step(l.rx, l.forward[0], false, w.cap)
    case Quiet(rx) => k.(rx := rx)
    case Rejected => k.(rx := FRESH, backward := k.backward + [NACK])
    case Delivered(p) => k.(rx := FRESH, backward := k.backward + [ACK], delivered := k.delivered + [p])
    case _ => k.(rx := FRESH)
  }

  function SenderTakes(w: Session, l: Link, t: seq<u8>): Link
    requires l.acked < |w.payloads| && l.backward != []
  {
    var k := l.(backward := l.backward[1..]);
    match OnReply(l.backward[0])
    case Waiting => k
    case Acked => k.(acked := k.acked + 1, sending := false)
    case Resend => Transmitted(w, k, t)
  }

  ghost predicate Next(w: Session, l: Link, a: Action, l': Link) {
    match a
    case Transmit(t) =>
      !l.sending && MayTransmit(w, l, t) && l' == Transmitted(w, l.(sending := true, copies := 0, garbled := 0), t)
    case NoiseByte(c) =>
      !l.sending && IsNoise([c]) && l' == l.(forward := l.forward + [c])
    case Chatter(c) =>
      OnReply(c) == Waiting && l' == l.(backward := l.backward + [c])
    case ReceiverByte =>
      l.forward != [] && l' == ReceiverTakes(w, l)
    case SenderByte(t) =>
      l.sending && l.backward != [] && MayTransmit(w, l, t) && l' == SenderTakes(w, l, t)
  }

  /** States joined by actions. */
  ghost predicate IsPath(w: Session, ls: seq<Link>, acts: seq<Action>) {
    |ls| == |acts| + 1 && forall i :: 0 <= i < |acts| ==> Next(w, ls[i], acts[i], ls[i + 1])
  }

  ghost predicate IsRun(w: Session, ls: seq<Link>, acts: seq<Action>) {
    IsPath(w, ls, acts) && ls[0] == START
  }

  // ---- the invariant ----

  /** The replies that decide something. */
  function Decisive(s: seq<u8>): seq<u8> {
    if s == [] then []
    else if OnReply(s[0]) == Waiting then Decisive(s[1..])
    else [s[0]] + Decisive(s[1..])
  }

  lemma {:induction false} DecisiveAppend(s: seq<u8>, c: u8)
    ensures Decisive(s + [c]) == Decisive(s) + (if OnReply(c) == Waiting then [] else [c])
  {
    if s == [] {
      assert [c][1..] == [];
    } else {
      assert (s + [c])[1..] == s[1..] + [c];
      DecisiveAppend(s[1..], c);
    }
  }

  /** The bytes in flight will make the receiver decide at their very last byte. */
  predicate WillDecide(w: Session, l: Link, v: Verdict) {
    Scan(l.rx, l.forward, false, w.cap) == At(v, [])
  }

  predicate Quiescent(l: Link) { l.rx == FRESH && l.forward == [] }

  /** Exactly one thing is outstanding for the current packet: a frame in flight that will be
      accepted, a garbled one that will be rejected, an ack, or a nack. Every transmission but
      the accepted one was garbled. */
  ghost predicate Inv(w: Session, l: Link) {
    && l.acked <= |w.payloads|
    && var replies := Decisive(l.backward);
       if !l.sending then
         && l.rx == FRESH && IsNoise(l.forward) && replies == [] && l.delivered == w.payloads[..l.acked]
         && (l.acked > 0 ==> l.copies == l.garbled + 1)
       else
         && l.acked < |w.payloads| && l.copies == l.garbled + (if Doomed(w, l) then 0 else 1)
         && var p := w.payloads[l.acked];
            if replies == [ACK] then Quiescent(l) && l.delivered == w.payloads[..l.acked] + [p]
            else
              && l.delivered == w.payloads[..l.acked]
              && if replies == [] then WillDecide(w, l, Delivered(p)) || WillDecide(w, l, Rejected)
                 else replies == [NACK] && Quiescent(l)
  }

  /** What is outstanding is a garbled frame or the nack for one. */
  predicate Doomed(w: Session, l: Link) {
    Decisive(l.backward) == [NACK] || (Decisive(l.backward) == [] && WillDecide(w, l, Rejected))
  }

  /** A transmission behind mere noise reaches a receiver that will decide at its end, against
      it exactly if it was altered. */
  lemma TransmissionDecides(w: Session, l: Link, t: seq<u8>)
    requires w.Valid() && MayTransmit(w, l, t) && IsNoise(l.forward)
    ensures Scan(FRESH, l.forward + t, false, w.cap)
         == At(if t == CurrentFrame(w, l) then Delivered(w.payloads[l.acked]) else Rejected, [])
  {
    ScanNoise(l.forward, t, false, w.cap);
    assert t + [] == t;
    if t == CurrentFrame(w, l) {
      ScanFrame(w.esc, w.payloads[l.acked], [], false, w.cap);
    } else {
      ScanGarbled(t, [], w.cap);
    }
  }

  lemma ReceiverStep(w: Session, l: Link, l': Link)
    requires w.Valid() && Inv(w, l) && Next(w, l, ReceiverByte, l')
    ensures Inv(w, l')
  {
    DecisiveAppend(l.backward, ACK);
    DecisiveAppend(l.backward, NACK);
    assert [ACK] == [] + [ACK] && [NACK] == [] + [NACK];
    if !l.sending {
      assert l.forward[0] in l.forward;
      assert forall c :: c in l.forward[1..] ==> c in l.forward;
    } else {
      assert Decisive(l.backward) == [];
      assert Scan(l.rx, l.forward, false, w.cap).At?;
    }
  }

  lemma SenderStep(w: Session, l: Link, t: seq<u8>, l': Link)
    requires w.Valid() && Inv(w, l) && Next(w, l, SenderByte(t), l')
    ensures Inv(w, l')
  {
    match OnReply(l.backward[0]) {
      case Waiting =>
      case Acked =>
        assert Decisive(l.backward) == [ACK];
        assert w.payloads[..l.acked] + [w.payloads[l.acked]] == w.payloads[..l.acked + 1];
      case Resend =>
        assert Decisive(l.backward) == [NACK];
        TransmissionDecides(w, l, t);
    }
  }

  lemma StepKeepsInv(w: Session, l: Link, a: Action, l': Link)
    requires w.Valid() && Inv(w, l) && Next(w, l, a, l')
    ensures Inv(w, l')
  {
    match a {
      case Transmit(t) => TransmissionDecides(w, l, t);
      case NoiseByte(c) => assert c in [c];
      case Chatter(c) =>
        DecisiveAppend(l.backward, c);
        assert Decisive(l.backward) + [] == Decisive(l.backward);
      case ReceiverByte => ReceiverStep(w, l, l');
      case SenderByte(t) => SenderStep(w, l, t, l');
    }
  }

  lemma {:induction false} RunKeepsInv(w: Session, ls: seq<Link>, acts: seq<Action>, i: nat)
    requires w.Valid() && IsRun(w, ls, acts) && i < |ls|
    ensures Inv(w, ls[i])
  {
    if i > 0 {
      RunKeepsInv(w, ls, acts, i - 1);
      StepKeepsInv(w, ls[i - 1], acts[i - 1], ls[i]);
    } else {
      assert w.payloads[..0] == [];
    }
  }

  // ---- safety ----

  /** Safety over whole runs: what was handed up is always the payloads of the finished
      calls, in order, each once and unchanged, and at most the one being sent besides; once
      send_packet has returned its payload has arrived, and it was transmitted once more than
      the link garbled it. */
  lemma StopAndWaitIsSafe(w: Session, ls: seq<Link>, acts: seq<Action>, i: nat)
    requires w.Valid() && IsRun(w, ls, acts) && i < |ls|
    ensures var l := ls[i];
            && l.acked <= |w.payloads|
            && (l.delivered == w.payloads[..l.acked]
                || (l.sending && l.acked < |w.payloads| && l.delivered == w.payloads[..l.acked + 1]))
            && (!l.sending ==> l.delivered == w.payloads[..l.acked])
            && (!l.sending && l.acked > 0 ==> l.copies == l.garbled + 1)
            && (l.sending ==> l.garbled <= l.copies <= l.garbled + 1)
  {
    RunKeepsInv(w, ls, acts, i);
    var l := ls[i];
    if l.sending {
      assert w.payloads[..l.acked] + [w.payloads[l.acked]] == w.payloads[..l.acked + 1];
    }
  }

  // ---- completion ----

  /** An end takes a byte, and a retransmission that this causes arrives as it was sent. */
  ghost predicate CleanStep(w: Session, l: Link, a: Action) {
    a.ReceiverByte? || (a.SenderByte? && l.acked < |w.payloads| && a.t == CurrentFrame(w, l))
  }

  /** A bound on the clean steps until send_packet returns: each byte towards the receiver
      counts twice, for the reply it may cause, and a doomed frame needs one more copy. */
  function Rank(w: Session, l: Link): nat
    requires l.acked < |w.payloads|
  {
    2 * |l.forward| + |l.backward| + (if Doomed(w, l) then 2 * |CurrentFrame(w, l)| + 1 else 0)
  }

  /** In the middle of a send one of the two ends has a byte to take. */
  lemma CleanStepEnabled(w: Session, l: Link) returns (a: Action, l': Link)
    requires w.Valid() && Inv(w, l) && l.sending
    ensures CleanStep(w, l, a) && Next(w, l, a, l') && Rank(w, l) > 0
  {
    if l.backward != [] {
      a := SenderByte(CurrentFrame(w, l));
      l' := SenderTakes(w, l, CurrentFrame(w, l));
    } else {
      assert Decisive(l.backward) == [];
      a, l' := ReceiverByte, ReceiverTakes(w, l);
    }
  }

  lemma CleanReceiverStep(w: Session, l: Link, l': Link)
    requires w.Valid() && Inv(w, l) && l.sending && Next(w, l, ReceiverByte, l')
    ensures l'.sending && l'.acked == l.acked && Rank(w, l') < Rank(w, l)
  {
    DecisiveAppend(l.backward, ACK);
    DecisiveAppend(l.backward, NACK);
    assert [ACK] == [] + [ACK] && [NACK] == [] + [NACK];
    assert Decisive(l.backward) == [];
  }

  lemma CleanSenderStep(w: Session, l: Link, l': Link)
    requires w.Valid() && Inv(w, l) && l.sending && Next(w, l, SenderByte(CurrentFrame(w, l)), l')
    ensures if l'.sending then l'.acked == l.acked && Rank(w, l') < Rank(w, l) else l'.acked == l.acked + 1
  {
    match OnReply(l.backward[0]) {
      case Waiting =>
      case Acked =>
      case Resend =>
        assert Decisive(l.backward) == [NACK];
        TransmissionDecides(w, l, CurrentFrame(w, l));
    }
  }

  /** A clean step brings the end of the call nearer or is it. */
  lemma CleanStepProgress(w: Session, l: Link, a: Action, l': Link)
    requires w.Valid() && Inv(w, l) && l.sending && CleanStep(w, l, a) && Next(w, l, a, l')
    ensures Inv(w, l')
    ensures if l'.sending then l'.acked == l.acked && Rank(w, l') < Rank(w, l) else l'.acked == l.acked + 1
  {
    StepKeepsInv(w, l, a, l');
    match a {
      case ReceiverByte => CleanReceiverStep(w, l, l');
      case SenderByte(_) => CleanSenderStep(w, l, l');
    }
  }

  /** Every schedule completes: whatever garbling went before, once the link is clean the call
      of send_packet returns after a bounded number of bytes, in whichever order the two ends
      take them. */
  lemma {:induction false} SendCompletes(w: Session, ls: seq<Link>, acts: seq<Action>, i: nat, j: nat)
    requires w.Valid() && IsRun(w, ls, acts) && i <= j < |ls|
    requires ls[i].sending && ls[i].acked < |w.payloads| && j - i >= Rank(w, ls[i])
    requires forall k :: i <= k < j ==> CleanStep(w, ls[k], acts[k])
    ensures exists m :: i < m <= j && !ls[m].sending && ls[m].acked == ls[i].acked + 1
    decreases j - i
  {
    RunKeepsInv(w, ls, acts, i);
    var a, l' := CleanStepEnabled(w, ls[i]);
    CleanStepProgress(w, ls[i], acts[i], ls[i + 1]);
    if ls[i + 1].sending {
      SendCompletes(w, ls, acts, i + 1, j);
    }
  }

  lemma JoinPaths(w: Session, ls: seq<Link>, acts: seq<Action>, ls': seq<Link>, acts': seq<Action>)
    requires IsPath(w, ls, acts) && IsPath(w, ls', acts') && ls[|acts|] == ls'[0]
    ensures IsPath(w, ls + ls'[1..], acts + acts')
    ensures (ls + ls'[1..])[|acts| + |acts'|] == ls'[|acts'|]
  {
    hide Next;
    var n, all := |acts|, ls + ls'[1..];
    forall i | 0 <= i < n + |acts'| ensures Next(w, all[i], (acts + acts')[i], all[i + 1]) {
      if i >= n {
        assert all[i] == ls'[i - n] && all[i + 1] == ls'[i - n + 1];
      }
    }
  }

  predicate Finished(w: Session, l: Link) {
    l.acked == |w.payloads| && l.delivered == w.payloads
  }

  /** Goes down whenever a call begins and whenever one returns. */
  function CallsLeft(w: Session, l: Link): int {
    2 * (|w.payloads| - l.acked) + (if l.sending then 0 else 1)
  }

  lemma StepAhead(w: Session, l: Link) returns (a: Action, l': Link)
    requires w.Valid() && Inv(w, l) && !Finished(w, l)
    ensures l.acked < |w.payloads| && Next(w, l, a, l') && Inv(w, l') && 0 <= CallsLeft(w, l') <= CallsLeft(w, l)
    ensures CallsLeft(w, l') == CallsLeft(w, l) ==> l'.acked == l.acked && Rank(w, l') < Rank(w, l)
  {
    assert w.payloads[..|w.payloads|] == w.payloads;
    hide Scan, Frame, EscapesMarkers, Rank;
    if l.sending {
      a, l' := CleanStepEnabled(w, l);
      CleanStepProgress(w, l, a, l');
    } else {
      a := Transmit(CurrentFrame(w, l));
      l' := Transmitted(w, l.(sending := true, copies := 0, garbled := 0), CurrentFrame(w, l));
      StepKeepsInv(w, l, a, l');
    }
  }

  /** From any state of a run there is a way to the end of the session. */
  lemma {:induction false} PathToEnd(w: Session, l: Link) returns (ls: seq<Link>, acts: seq<Action>)
    requires w.Valid() && Inv(w, l)
    ensures IsPath(w, ls, acts) && ls[0] == l && Finished(w, ls[|acts|])
    decreases CallsLeft(w, l), if l.acked < |w.payloads| then Rank(w, l) else 0
  {
    hide Inv, Next, CallsLeft, Rank, Session.Valid, Finished;
    if Finished(w, l) {
      ls, acts := [l], [];
    } else {
      var a, l' := StepAhead(w, l);
      ls, acts := PathToEnd(w, l');
      JoinPaths(w, [l, l'], [a], ls, acts);
      ls, acts := [l, l'] + ls[1..], [a] + acts;
    }
  }

  /** No dead end: every run, however much the link garbled, can be continued so that all
      payloads arrive. */
  lemma EveryPayloadCanArrive(w: Session, ls: seq<Link>, acts: seq<Action>)
    requires w.Valid() && IsRun(w, ls, acts)
    ensures exists ls': seq<Link>, acts' ::
              IsRun(w, ls', acts') && ls <= ls' && acts <= acts' && Finished(w, ls'[|acts'|])
  {
    hide Inv, Next, Session.Valid, Finished;
    RunKeepsInv(w, ls, acts, |acts|);
    var more, steps := PathToEnd(w, ls[|acts|]);
    JoinPaths(w, ls, acts, more, steps);
    var ls', acts' := ls + more[1..], acts + steps;
    assert IsRun(w, ls', acts') && Finished(w, ls'[|acts'|]);
  }

  /** Any one body byte of the current frame changed, with its end where it was, is something
      this link may do, at the first transmission as after a nack. */
  lemma ByteFaultsHappen(w: Session, l: Link, i: nat, x: u8)
    requires l.acked < |w.payloads|
    requires var body := Body(w.esc, w.payloads[l.acked]);
             i < |body| && x != body[i] && Closed(body[i := x]) && |Unescape(body[i := x])| <= w.cap
    ensures var t := CurrentFrame(w, l)[i + 1 := x];
            && (!l.sending ==> exists l' :: Next(w, l, Transmit(t), l'))
            && (l.sending && l.backward != [] && l.backward[0] == NACK ==>
                 exists l' :: Next(w, l, SenderByte(t), l') && l'.garbled == l.garbled + 1)
  {
    ByteFaultGarbles(w.esc, w.payloads[l.acked], i, x, w.cap);
    hide Frame, Garbled, Body, Closed, Unescape;
    var t := CurrentFrame(w, l)[i + 1 := x];
    if !l.sending {
      assert Next(w, l, Transmit(t), Transmitted(w, l.(sending := true, copies := 0, garbled := 0), t));
    } else if l.backward != [] && l.backward[0] == NACK {
      assert Next(w, l, SenderByte(t), SenderTakes(w, l, t));
    }
  }

  /** The two ends of the program's connection are such sessions, in either direction. */
  lemma ProtocolSessions(cap: nat, payloads: seq<seq<u8>>)
    requires forall p :: p in payloads ==> |p| <= cap
    ensures Session(REQUEST_ESCAPES, cap, payloads).Valid() && Session(RESPONSE_ESCAPES, cap, payloads).Valid()
  {
  }
}
