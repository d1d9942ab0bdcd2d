/** A whole session: a debugger sends requests and the stub's packet loop answers each, over one
    stream in each direction that carries packets of the one end and acks for the other. The
    ack for a request is directly followed by the response, and the ack for a response by the
    next request; each end must leave for its next call what is behind the byte it waited for. */
module Duplex {
  import opened Bytes
  import opened Framing
  import opened PacketIo

  /** The requests of the debugger, in order, and what the stub answers to each. */
  datatype Dialogue = Dialogue(clientEsc: set<u8>, serverEsc: set<u8>, cap: nat,
                               requests: seq<seq<u8>>, handler: seq<u8> -> seq<u8>) {
    ghost predicate Valid() {
      && EscapesMarkers(clientEsc) && EscapesMarkers(serverEsc)
      && forall r :: r in requests ==> |r| <= cap && |handler(r)| <= cap
    }

    function Request(k: nat): seq<u8>
      requires k < |requests|
    {
      Frame(clientEsc, requests[k])
    }

    function Response(r: seq<u8>): seq<u8> { Frame(serverEsc, handler(r)) }
  }

  /** Idle: between exchanges. RequestSent: in send_packet. Expecting: in receive_packet. */
  datatype ClientPhase = Idle | RequestSent | Expecting

  /** Listening: in receive_packet. Handling: between the two. ResponseSent: in send_packet. */
  datatype ServerPhase = Listening | Handling | ResponseSent

  /** exchanged: finished exchanges, as the client counts. handed: requests that reached the
      handler. answered: responses that reached the client. */
  datatype State = State(exchanged: nat, client: ClientPhase, server: ServerPhase, clientRx: Rx, serverRx: Rx,
                         toServer: seq<u8>, toClient: seq<u8>, handed: seq<seq<u8>>, answered: seq<seq<u8>>)

  const BEGINNING: State := State(0, Idle, Listening, FRESH, FRESH, [], [], [], [])

  /** ClientSends, ServerSends: send_packet starts, t being what the link makes of its frame.
      ClientTakes, ServerTakes: an end takes its next byte; a nack makes it transmit t. */
  datatype Event = ClientSends(t: seq<u8>) | ServerSends(t: seq<u8>) | ClientTakes(t: seq<u8>) | ServerTakes(t: seq<u8>)

  /** The link delivers the frame, or garbles it in a way the checksum shows. */
  ghost predicate MayBecome(w: Dialogue, frame: seq<u8>, t: seq<u8>) {
    t == frame || Garbled(t, w.cap)
  }

  /** receive_packet on one byte, at either end. */
  datatype Received = Received(rx: Rx, reply: seq<u8>, payload: Option<seq<u8>>)

  function Receives(w: Dialogue, rx: Rx, c: u8): Received {
    match Step(rx, c, false, w.cap)
    case Quiet(rx') => Received(rx', [], None)
    case Rejected => Received(FRESH, [NACK], None)
    case Delivered(p) => Received(FRESH, [ACK], Some(p))
    case _ => Received(FRESH, [], None)
  }

  function ClientTake(w: Dialogue, d: State, t: seq<u8>): State
    requires d.toClient != [] && d.client != Idle
  {
    var c, k := d.toClient[0], d.(toClient := d.toClient[1..]);
    if d.client == RequestSent then
      match OnReply(c)
      case Waiting => k
      case Acked => k.(client := Expecting, clientRx := FRESH)
      case Resend => k.(toServer := k.toServer + t)
    else
      var r := Receives(w, d.clientRx, c);
      var k' := k.(clientRx := r.rx, toServer := k.toServer + r.reply);
      match r.payload
      case None => k'
      case Some(p) => k'.(client := Idle, exchanged := d.exchanged + 1, answered := d.answered + [p])
  }

  function ServerTake(w: Dialogue, d: State, t: seq<u8>): State
    requires d.toServer != [] && d.server != Handling
  {
    var c, k := d.toServer[0], d.(toServer := d.toServer[1..]);
    if d.server == ResponseSent then
      match OnReply(c)
      case Waiting => k
      case Acked => k.(server := Listening, serverRx := FRESH)
      case Resend => k.(toClient := k.toClient + t)
    else
      var r := Receives(w, d.serverRx, c);
      var k' := k.(serverRx := r.rx, toClient := k.toClient + r.reply);
      match r.payload
      case None => k'
      case Some(p) => k'.(server := Handling, handed := d.handed + [p])
  }

  ghost predicate MayRequest(w: Dialogue, d: State, t: seq<u8>) {
    d.exchanged < |w.requests| && MayBecome(w, w.Request(d.exchanged), t)
  }

  /** The response is the handler's answer to the request that was handed up last. */
  ghost predicate MayRespond(w: Dialogue, d: State, t: seq<u8>) {
    d.handed != [] && MayBecome(w, w.Response(d.handed[|d.handed| - 1]), t)
  }

  ghost predicate Next(w: Dialogue, d: State, e: Event, d': State) {
    match e
    case ClientSends(t) =>
      d.client == Idle && MayRequest(w, d, t) && d' == d.(client := RequestSent, toServer := d.toServer + t)
    case ServerSends(t) =>
      d.server == Handling && MayRespond(w, d, t) && d' == d.(server := ResponseSent, toClient := d.toClient + t)
    case ClientTakes(t) =>
      && d.client != Idle && d.toClient != [] && d' == ClientTake(w, d, t)
      && (d.client == RequestSent && d.toClient[0] == NACK ==> MayRequest(w, d, t))
    case ServerTakes(t) =>
      && d.server != Handling && d.toServer != [] && d' == ServerTake(w, d, t)
      && (d.server == ResponseSent && d.toServer[0] == NACK ==> MayRespond(w, d, t))
  }

  ghost predicate IsPath(w: Dialogue, ds: seq<State>, es: seq<Event>) {
    |ds| == |es| + 1 && forall i :: 0 <= i < |es| ==> Next(w, ds[i], es[i], ds[i + 1])
  }

  ghost predicate IsRun(w: Dialogue, ds: seq<State>, es: seq<Event>) {
    IsPath(w, ds, es) && ds[0] == BEGINNING
  }

  /** The debugger's and the stub's escapes make such a session. */
  lemma ProtocolDialogue(cap: nat, requests: seq<seq<u8>>, handler: seq<u8> -> seq<u8>)
    requires forall r :: r in requests ==> |r| <= cap && |handler(r)| <= cap
    ensures Dialogue(REQUEST_ESCAPES, RESPONSE_ESCAPES, cap, requests, handler).Valid()
  {
  }

  /** One changed body byte that leaves the end in place is something the link may do. */
  lemma ByteFaultsHappen(w: Dialogue, esc: set<u8>, p: seq<u8>, i: nat, x: u8)
    requires i < |Body(esc, p)| && x != Body(esc, p)[i]
    requires Closed(Body(esc, p)[i := x]) && |Unescape(Body(esc, p)[i := x])| <= w.cap
    ensures MayBecome(w, Frame(esc, p), Frame(esc, p)[i + 1 := x])
  {
    ByteFaultGarbles(esc, p, i, x, w.cap);
  }

  // ---- the invariant ----

  function Answers(w: Dialogue, rs: seq<seq<u8>>): (r: seq<seq<u8>>)
    ensures |r| == |rs| && forall i :: 0 <= i < |rs| ==> r[i] == w.handler(rs[i])
  {
    seq(|rs|, i requires 0 <= i < |rs| => w.handler(rs[i]))
  }

  /** The bytes make the receiver accept p, or reject, at their last byte. */
  predicate Decides(w: Dialogue, rx: Rx, s: seq<u8>, p: seq<u8>) {
    Scan(rx, s, false, w.cap) == At(Delivered(p), []) || Scan(rx, s, false, w.cap) == At(Rejected, [])
  }

  /** A packet is on its way, or the nack for one that was garbled. */
  predicate Underway(w: Dialogue, rx: Rx, there: seq<u8>, back: seq<u8>, p: seq<u8>) {
    (back == [] && Decides(w, rx, there, p)) || (back == [NACK] && there == [] && rx == FRESH)
  }

  /** The ack for the packet before, and a fresh packet behind it. */
  predicate Piggybacked(w: Dialogue, s: seq<u8>, p: seq<u8>) {
    s != [] && s[0] == ACK && Decides(w, FRESH, s[1..], p)
  }

  /** Where the two ends can stand relative to each other, and what is then in flight. */
  ghost predicate InStep(w: Dialogue, d: State)
    requires d.exchanged <= |w.requests|
  {
    var k := d.exchanged;
    var before := |d.handed| == k;
    match (d.client, d.server)
    case (Idle, Listening) => before && d.toServer == d.toClient == [] && d.serverRx == FRESH
    case (Idle, ResponseSent) => before && k > 0 && d.toServer == [ACK] && d.toClient == []
    case (RequestSent, Listening) =>
      before && k < |w.requests| && Underway(w, d.serverRx, d.toServer, d.toClient, w.requests[k])
    case (RequestSent, Handling) => !before && d.toServer == [] && d.toClient == [ACK]
    case (RequestSent, ResponseSent) =>
      k < |w.requests|
      && if before then d.toClient == [] && Piggybacked(w, d.toServer, w.requests[k])
         else d.toServer == [] && Piggybacked(w, d.toClient, w.handler(w.requests[k]))
    case (Expecting, Handling) => !before && d.toServer == d.toClient == [] && d.clientRx == FRESH
    case (Expecting, ResponseSent) =>
      !before && k < |w.requests| && Underway(w, d.clientRx, d.toClient, d.toServer, w.handler(w.requests[k]))
    case _ => false
  }

  ghost predicate Inv(w: Dialogue, d: State) {
    && d.exchanged <= |d.handed| <= |w.requests| && |d.handed| <= d.exchanged + 1
    && d.handed == w.requests[..|d.handed|]
    && d.answered == Answers(w, w.requests[..d.exchanged])
    && InStep(w, d)
  }

  /** A transmission that starts on an empty line will be decided at its end. */
  lemma TransmissionDecides(w: Dialogue, esc: set<u8>, p: seq<u8>, t: seq<u8>)
    requires EscapesMarkers(esc) && |p| <= w.cap && MayBecome(w, Frame(esc, p), t)
    ensures Decides(w, FRESH, t, p)
    ensures t == Frame(esc, p) ==> Scan(FRESH, t, false, w.cap) == At(Delivered(p), [])
  {
    hide Scan, Frame, Garbled;
    assert t + [] == t;
    if t == Frame(esc, p) {
      ScanFrame(esc, p, [], false, w.cap);
    } else {
      ScanGarbled(t, [], w.cap);
    }
  }

  /** One byte of a packet underway: still underway, or decided and the reply sent. */
  lemma UnderwayByte(w: Dialogue, rx: Rx, s: seq<u8>, p: seq<u8>)
    requires Decides(w, rx, s, p)
    ensures s != []
    ensures var r := Receives(w, rx, s[0]);
            || (r.reply == [] && r.payload == None && s[1..] != []
                && Scan(r.rx, s[1..], false, w.cap) == Scan(rx, s, false, w.cap))
            || (r == Received(FRESH, [NACK], None) && s[1..] == [] && Scan(rx, s, false, w.cap) == At(Rejected, []))
            || (r == Received(FRESH, [ACK], Some(p)) && s[1..] == []
                && Scan(rx, s, false, w.cap) == At(Delivered(p), []))
  {
  }

  lemma ClientSendsKeepsInv(w: Dialogue, d: State, t: seq<u8>, d': State)
    requires w.Valid() && Inv(w, d) && Next(w, d, ClientSends(t), d')
    ensures Inv(w, d')
  {
    TransmissionDecides(w, w.clientEsc, w.requests[d.exchanged], t);
    assert [] + t == t && ([ACK] + t)[1..] == t;
  }

  lemma ServerSendsKeepsInv(w: Dialogue, d: State, t: seq<u8>, d': State)
    requires w.Valid() && Inv(w, d) && Next(w, d, ServerSends(t), d')
    ensures Inv(w, d')
  {
    var k := d.exchanged;
    assert d.handed[k] == w.requests[k];
    TransmissionDecides(w, w.serverEsc, w.handler(w.requests[k]), t);
    assert [] + t == t && ([ACK] + t)[1..] == t;
  }

  lemma ClientReplyKeepsInv(w: Dialogue, d: State, t: seq<u8>, d': State)
    requires w.Valid() && Inv(w, d) && d.client == RequestSent && Next(w, d, ClientTakes(t), d')
    ensures Inv(w, d')
  {
    hide Scan, MayBecome, Frame, EscapesMarkers, Answers;
    if d.toClient == [NACK] {
      assert w.requests[d.exchanged] in w.requests;
      TransmissionDecides(w, w.clientEsc, w.requests[d.exchanged], t);
      assert [] + t == t;
    }
  }

  lemma ClientReceiveKeepsInv(w: Dialogue, d: State, t: seq<u8>, d': State)
    requires w.Valid() && Inv(w, d) && d.client == Expecting && Next(w, d, ClientTakes(t), d')
    ensures Inv(w, d')
  {
    hide Scan, MayBecome, Frame, EscapesMarkers, Dialogue.Valid, MayRequest;
    var k := d.exchanged;
    UnderwayByte(w, d.clientRx, d.toClient, w.handler(w.requests[k]));
    assert w.requests[..k + 1] == w.requests[..k] + [w.requests[k]];
    assert Answers(w, w.requests[..k + 1]) == Answers(w, w.requests[..k]) + [w.handler(w.requests[k])];
  }

  lemma ServerReplyKeepsInv(w: Dialogue, d: State, t: seq<u8>, d': State)
    requires w.Valid() && Inv(w, d) && d.server == ResponseSent && Next(w, d, ServerTakes(t), d')
    ensures Inv(w, d')
  {
    hide Scan, MayBecome, Frame, EscapesMarkers, Answers;
    if d.toServer == [NACK] {
      var k := d.exchanged;
      assert d.handed[k] == w.requests[k] && w.requests[k] in w.requests;
      TransmissionDecides(w, w.serverEsc, w.handler(w.requests[k]), t);
      assert [] + t == t;
    }
  }

  lemma ServerReceiveKeepsInv(w: Dialogue, d: State, t: seq<u8>, d': State)
    requires w.Valid() && Inv(w, d) && d.server == Listening && Next(w, d, ServerTakes(t), d')
    ensures Inv(w, d')
  {
    hide Scan, MayBecome, Frame, EscapesMarkers, Answers, Dialogue.Valid, MayRespond;
    var k := d.exchanged;
    UnderwayByte(w, d.serverRx, d.toServer, w.requests[k]);
    assert w.requests[..k + 1] == w.requests[..k] + [w.requests[k]];
  }

  lemma StepKeepsInv(w: Dialogue, d: State, e: Event, d': State)
    requires w.Valid() && Inv(w, d) && Next(w, d, e, d')
    ensures Inv(w, d')
  {
    match e {
      case ClientSends(t) => ClientSendsKeepsInv(w, d, t, d');
      case ServerSends(t) => ServerSendsKeepsInv(w, d, t, d');
      case ClientTakes(t) =>
        if d.client == RequestSent {
          ClientReplyKeepsInv(w, d, t, d');
        } else {
          ClientReceiveKeepsInv(w, d, t, d');
        }
      case ServerTakes(t) =>
        if d.server == ResponseSent {
          ServerReplyKeepsInv(w, d, t, d');
        } else {
          ServerReceiveKeepsInv(w, d, t, d');
        }
    }
  }

  lemma {:induction false} RunKeepsInv(w: Dialogue, ds: seq<State>, es: seq<Event>, i: nat)
    requires w.Valid() && IsRun(w, ds, es) && i < |ds|
    ensures Inv(w, ds[i])
  {
    if i > 0 {
      RunKeepsInv(w, ds, es, i - 1);
      StepKeepsInv(w, ds[i - 1], es[i - 1], ds[i]);
    } else {
      assert w.requests[..0] == [];
    }
  }

  // ---- main results ----

  /** Safety over whole sessions: the stub's handler gets the requests in order, once each and
      unchanged, and the debugger gets the answer to each request it has finished, in order;
      at most one request is ahead of its answer. */
  lemma DialogueIsSafe(w: Dialogue, ds: seq<State>, es: seq<Event>, i: nat)
    requires w.Valid() && IsRun(w, ds, es) && i < |ds|
    ensures var d := ds[i];
            && |d.answered| == d.exchanged <= |d.handed| <= d.exchanged + 1
            && |d.handed| <= |w.requests| && d.handed == w.requests[..|d.handed|]
            && d.answered == Answers(w, w.requests[..d.exchanged])
  {
    RunKeepsInv(w, ds, es, i);
  }

  // ---- completion ----

  /** Whatever is transmitted in this step arrives as it was sent. */
  ghost predicate CleanStep(w: Dialogue, d: State, e: Event) {
    match e
    case ClientSends(t) => d.exchanged < |w.requests| && t == w.Request(d.exchanged)
    case ServerSends(t) => d.handed != [] && t == w.Response(d.handed[|d.handed| - 1])
    case ClientTakes(t) =>
      d.client == RequestSent && d.toClient != [] && d.toClient[0] == NACK ==>
        d.exchanged < |w.requests| && t == w.Request(d.exchanged)
    case ServerTakes(t) =>
      d.server == ResponseSent && d.toServer != [] && d.toServer[0] == NACK ==>
        d.handed != [] && t == w.Response(d.handed[|d.handed| - 1])
  }

  /** The steps of the exchanges from the k-th on: two packets and two acks are taken byte by
      byte, and two packets are sent. */
  function Future(w: Dialogue, k: nat): nat
    decreases |w.requests| - k
  {
    if k >= |w.requests| then 0
    else 4 + |w.Request(k)| + |w.Response(w.requests[k])| + Future(w, k + 1)
  }

  /** The steps that garbling has added for the packet there: a nack and a copy of it, or the
      copy alone when the nack is already on its way. */
  function Redo(w: Dialogue, rx: Rx, there: seq<u8>, copy: nat): nat {
    if there == [] then copy else if Scan(rx, there, false, w.cap) == At(Rejected, []) then 1 + copy else 0
  }

  function Behind(s: seq<u8>): seq<u8> { if s == [] then [] else s[1..] }

  /** What the current exchange needs besides the bytes in flight. */
  function Rest(w: Dialogue, d: State): nat
    requires d.exchanged < |w.requests|
  {
    var copy, answer := |w.Request(d.exchanged)|, |w.Response(w.requests[d.exchanged])|;
    match d.server
    case Listening => 3 + answer + Redo(w, d.serverRx, d.toServer, copy)
    case Handling => 2 + answer
    case ResponseSent =>
      if |d.handed| == d.exchanged then 3 + answer + Redo(w, FRESH, Behind(d.toServer), copy)
      else if d.client == RequestSent then 1 + Redo(w, FRESH, Behind(d.toClient), answer)
      else 1 + Redo(w, d.clientRx, d.toClient, answer)
  }

  /** The clean steps up to the end of the session. */
  function Work(w: Dialogue, d: State): nat {
    |d.toServer| + |d.toClient|
    + if d.client == Idle || d.exchanged >= |w.requests| then Future(w, d.exchanged)
      else Rest(w, d) + Future(w, d.exchanged + 1)
  }

  lemma CleanNeedsNoCopy(w: Dialogue, esc: set<u8>, p: seq<u8>, copy: nat)
    requires EscapesMarkers(esc) && |p| <= w.cap
    ensures Redo(w, FRESH, Frame(esc, p), copy) == 0
  {
    hide Scan;
    assert Frame(esc, p) + [] == Frame(esc, p);
    ScanFrame(esc, p, [], false, w.cap);
  }

  lemma SendsCountDown(w: Dialogue, d: State, e: Event, d': State)
    requires w.Valid() && Inv(w, d) && Next(w, d, e, d') && CleanStep(w, d, e) && (e.ClientSends? || e.ServerSends?)
    ensures Work(w, d') + 1 == Work(w, d)
  {
    hide Scan, MayBecome, Frame, Answers, Redo, Decides;
    var k := d.exchanged;
    assert w.requests[k] in w.requests && [] + e.t == e.t && ([ACK] + e.t)[1..] == e.t;
    if e.ClientSends? {
      CleanNeedsNoCopy(w, w.clientEsc, w.requests[k], |e.t|);
    } else {
      assert d.handed[k] == w.requests[k];
      CleanNeedsNoCopy(w, w.serverEsc, w.handler(w.requests[k]), |e.t|);
    }
  }

  lemma ClientReplyCountsDown(w: Dialogue, d: State, e: Event, d': State)
    requires w.Valid() && Inv(w, d) && Next(w, d, e, d') && CleanStep(w, d, e)
    requires e.ClientTakes? && d.client == RequestSent
    ensures Work(w, d') + 1 == Work(w, d)
  {
    hide Scan, MayBecome, Frame, EscapesMarkers, Answers, Decides;
    if d.toClient == [NACK] {
      hide Redo;
      assert w.requests[d.exchanged] in w.requests && [] + e.t == e.t;
      CleanNeedsNoCopy(w, w.clientEsc, w.requests[d.exchanged], |e.t|);
    }
  }

  lemma ServerReplyCountsDown(w: Dialogue, d: State, e: Event, d': State)
    requires w.Valid() && Inv(w, d) && Next(w, d, e, d') && CleanStep(w, d, e)
    requires e.ServerTakes? && d.server == ResponseSent
    ensures Work(w, d') + 1 == Work(w, d)
  {
    hide Scan, MayBecome, Frame, EscapesMarkers, Answers, Decides;
    if d.toServer == [NACK] {
      var k := d.exchanged;
      assert d.handed[k] == w.requests[k] && w.requests[k] in w.requests && [] + e.t == e.t;
      CleanNeedsNoCopy(w, w.serverEsc, w.handler(w.requests[k]), |e.t|);
    }
  }

  lemma ClientReceiveCountsDown(w: Dialogue, d: State, e: Event, d': State)
    requires w.Valid() && Inv(w, d) && Next(w, d, e, d') && e.ClientTakes? && d.client == Expecting
    ensures Work(w, d') + 1 == Work(w, d)
  {
    hide Scan, MayBecome, Frame, EscapesMarkers, Answers, Dialogue.Valid, MayRequest;
    UnderwayByte(w, d.clientRx, d.toClient, w.handler(w.requests[d.exchanged]));
  }

  lemma ServerReceiveCountsDown(w: Dialogue, d: State, e: Event, d': State)
    requires w.Valid() && Inv(w, d) && Next(w, d, e, d') && e.ServerTakes? && d.server == Listening
    ensures Work(w, d') + 1 == Work(w, d)
  {
    hide Scan, MayBecome, Frame, EscapesMarkers, Answers, Dialogue.Valid, MayRespond;
    UnderwayByte(w, d.serverRx, d.toServer, w.requests[d.exchanged]);
  }

  /** Every clean step, of either end, is one unit of the work. */
  lemma CleanStepCountsDown(w: Dialogue, d: State, e: Event, d': State)
    requires w.Valid() && Inv(w, d) && Next(w, d, e, d') && CleanStep(w, d, e)
    ensures Work(w, d') + 1 == Work(w, d)
  {
    hide Work, Inv, CleanStep;
    match e {
      case ClientTakes(_) =>
        if d.client == RequestSent {
          ClientReplyCountsDown(w, d, e, d');
        } else {
          ClientReceiveCountsDown(w, d, e, d');
        }
      case ServerTakes(_) =>
        if d.server == ResponseSent {
          ServerReplyCountsDown(w, d, e, d');
        } else {
          ServerReceiveCountsDown(w, d, e, d');
        }
      case _ => SendsCountDown(w, d, e, d');
    }
  }

  /** While there is work, some end can take a clean step. */
  lemma CleanStepEnabled(w: Dialogue, d: State) returns (e: Event, d': State)
    requires w.Valid() && Inv(w, d) && Work(w, d) > 0
    ensures CleanStep(w, d, e) && Next(w, d, e, d')
  {
    hide Scan, Frame, EscapesMarkers, Answers, Garbled;
    var k := d.exchanged;
    if d.server == Handling {
      e := ServerSends(w.Response(d.handed[|d.handed| - 1]));
      d' := d.(server := ResponseSent, toClient := d.toClient + e.t);
    } else if d.client == Idle && k < |w.requests| {
      e := ClientSends(w.Request(k));
      d' := d.(client := RequestSent, toServer := d.toServer + e.t);
    } else if d.toClient != [] {
      e := ClientTakes(w.Request(k));
      d' := ClientTake(w, d, e.t);
    } else {
      InFlight(w, d);
      e := ServerTakes(if d.handed == [] then [] else w.Response(d.handed[|d.handed| - 1]));
      d' := ServerTake(w, d, e.t);
    }
  }

  /** Nobody waits for a byte that is not in flight. */
  lemma InFlight(w: Dialogue, d: State)
    requires Inv(w, d) && Work(w, d) > 0 && d.server != Handling && (d.client == Idle ==> d.exchanged == |w.requests|)
    ensures d.toServer != [] || d.toClient != []
    ensures d.client == Idle || d.exchanged == |w.requests| ==> d.toClient == []
  {
  }

  lemma JoinPaths(w: Dialogue, ds: seq<State>, es: seq<Event>, ds': seq<State>, es': seq<Event>)
    requires IsPath(w, ds, es) && IsPath(w, ds', es') && ds[|es|] == ds'[0]
    ensures IsPath(w, ds + ds'[1..], es + es')
    ensures (ds + ds'[1..])[|es| + |es'|] == ds'[|es'|]
  {
    hide Next;
    var n, all := |es|, ds + ds'[1..];
    forall i | 0 <= i < n + |es'| ensures Next(w, all[i], (es + es')[i], all[i + 1]) {
      if i >= n {
        assert all[i] == ds'[i - n] && all[i + 1] == ds'[i - n + 1];
      }
    }
  }

  /** Without work left the session is over. */
  lemma NoWorkLeft(w: Dialogue, d: State)
    requires Inv(w, d) && Work(w, d) == 0
    ensures d.answered == Answers(w, w.requests)
  {
    hide Decides, Answers;
    assert w.requests[..|w.requests|] == w.requests;
  }

  /** Every schedule completes: however much was garbled before, as long as transmissions arrive
      clean the two ends, in whichever order they move, take just the steps Work counts, can
      always take the next one of them, and have then exchanged every request and answer. */
  lemma {:induction false} SessionCompletes(w: Dialogue, ds: seq<State>, es: seq<Event>, i: nat, j: nat)
    requires w.Valid() && IsRun(w, ds, es) && i <= j < |ds|
    requires forall k :: i <= k < j ==> CleanStep(w, ds[k], es[k])
    ensures Work(w, ds[j]) + (j - i) == Work(w, ds[i])
    ensures j - i == Work(w, ds[i]) ==> ds[j].answered == Answers(w, w.requests)
    ensures j - i < Work(w, ds[i]) <==> exists e, d' :: CleanStep(w, ds[j], e) && Next(w, ds[j], e, d')
    decreases j - i
  {
    hide Inv, Next, Answers, Dialogue.Valid, CleanStep, Work;
    if i < j {
      RunKeepsInv(w, ds, es, i);
      CleanStepCountsDown(w, ds[i], es[i], ds[i + 1]);
      SessionCompletes(w, ds, es, i + 1, j);
    } else {
      RunKeepsInv(w, ds, es, j);
      if Work(w, ds[j]) == 0 {
        NoWorkLeft(w, ds[j]);
      } else {
        var e, d' := CleanStepEnabled(w, ds[j]);
      }
      forall e, d' | CleanStep(w, ds[j], e) && Next(w, ds[j], e, d') ensures Work(w, ds[j]) > 0 {
        CleanStepCountsDown(w, ds[j], e, d');
      }
    }
  }

  lemma {:induction false} PathToEnd(w: Dialogue, d: State) returns (ds: seq<State>, es: seq<Event>)
    requires w.Valid() && Inv(w, d)
    ensures IsPath(w, ds, es) && ds[0] == d && ds[|es|].answered == Answers(w, w.requests)
    decreases Work(w, d)
  {
    hide Inv, Next, Answers, Work, CleanStep, Dialogue.Valid;
    if Work(w, d) == 0 {
      NoWorkLeft(w, d);
      ds, es := [d], [];
    } else {
      var e, d' := CleanStepEnabled(w, d);
      CleanStepCountsDown(w, d, e, d');
      StepKeepsInv(w, d, e, d');
      ds, es := PathToEnd(w, d');
      JoinPaths(w, [d, d'], [e], ds, es);
      ds, es := [d, d'] + ds[1..], [e] + es;
    }
  }

  /** No dead end: every session, however much the link garbled, can be continued so that each
      request is answered. */
  lemma EveryRequestCanBeAnswered(w: Dialogue, ds: seq<State>, es: seq<Event>)
    requires w.Valid() && IsRun(w, ds, es)
    ensures exists ds': seq<State>, es' ::
              IsRun(w, ds', es') && ds <= ds' && es <= es' && ds'[|es'|].answered == Answers(w, w.requests)
  {
    hide Inv, Next, Answers, Dialogue.Valid;
    RunKeepsInv(w, ds, es, |es|);
    var more, steps := PathToEnd(w, ds[|es|]);
    JoinPaths(w, ds, es, more, steps);
    var ds', es' := ds + more[1..], es + steps;
    assert IsRun(w, ds', es') && ds'[|es'|].answered == Answers(w, w.requests);
  }
}
