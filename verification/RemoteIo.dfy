/** Remote File-I/O in src/gdb/connection.cpp: tasks that want the debugger to do a system
    call wait in one queue for a packet they may answer, then in a second one for the reply. */
module RemoteIo {
  import opened Bytes
  import opened Buffers
  import opened Coding
  import opened Coders

  /** remote_io: a system call of the debugger's host, and the answer that asks for it. */
  datatype Call = Call(name: seq<u8>, args: seq<u8>) {
    function Text(): (t: seq<u8>)
      ensures t != []
    {
      ['F' as int] + name + [COMMA] + args
    }
  }

  /** The debugger reads the call back: behind the letter F the name of the system call up to
      the first comma, which no such name has, and all arguments behind that comma. */
  lemma CallReadsBack(call: Call)
    requires COMMA !in call.name
    ensures var text := call.Text();
            && text == ['F' as int] + call.name + [',' as int] + call.args
            && text[0] == 'F' as int
            && Token(text[1..], COMMA) == call.name && AfterToken(text[1..], COMMA) == call.args
  {
    assert call.Text()[1..] == call.name + [COMMA] + call.args;
    TokenIs(call.name, COMMA, call.args);
  }

  /** The whole history of one connection. Requests are named by their submission number.
      resp: what the answer to the current packet holds so far. emitted: requests sent, in
      order. lost: requests whose text did not fit into an answer. */
  datatype Io = Io(cap: nat, requests: seq<Call>, waiting: seq<nat>, inFlight: seq<nat>,
                   emitted: seq<nat>, lost: set<nat>, completed: seq<(nat, FileReply)>,
                   resp: seq<u8>, shouldRespond: bool)

  function Start(cap: nat): Io {
    Io(cap, [], [], [], [], {}, [], [], true)
  }

  /** remote_io called by some task: it suspends in io_req. */
  function Submit(io: Io, call: Call): Io {
    io.(requests := io.requests + [call], waiting := io.waiting + [|io.requests|])
  }

  /** process, before each packet is handled. */
  function Begin(io: Io): Io {
    io.(resp := [], shouldRespond := true)
  }

  ghost predicate WellQueued(io: Io) {
    && (forall i :: i in io.waiting ==> i < |io.requests|)
    && |io.resp| <= io.cap
  }

  /** wakeup_request: the first waiting task writes its request and suspends in io_resp; with
      nobody waiting the packet stays unanswered. A request too long for the answer throws
      in its coroutine, which ends. */
  function Wake(io: Io): Io
    requires WellQueued(io)
  {
    if io.waiting == [] then io.(shouldRespond := false)
    else
      var id := io.waiting[0];
      assert id in io.waiting;
      var text := io.requests[id].Text();
      if |io.resp| + |text| <= io.cap then
        io.(waiting := io.waiting[1..], inFlight := io.inFlight + [id], emitted := io.emitted + [id],
            resp := io.resp + text)
      else
        io.(waiting := io.waiting[1..], lost := io.lost + {id})
  }

  /** handle_file_reply: the coroutine first in line gets the reply and runs to its next
      suspension, which may be another request; then the next waiting task is woken. A reply
      that nobody waits for throws and changes nothing. */
  function Accept(io: Io, reply: FileReply, next: Option<Call>): Io
    requires WellQueued(io)
  {
    if io.inFlight == [] then io
    else
      var done := io.(inFlight := io.inFlight[1..], completed := io.completed + [(io.inFlight[0], reply)]);
      Wake(if next.Some? then Submit(done, next.value) else done)
  }

  // ---- runs ----

  /** The answer of a packet that wakes nobody; one that does not fit throws. */
  function Answer(io: Io, out: seq<u8>): Io {
    if |out| <= io.cap then io.(resp := out) else io
  }

  /** The error reply of process to an exception of unknown kind. */
  const E01: seq<u8> := ['E' as int, '0' as int, '1' as int]

  /** TaskSubmits: a task asks for a system call. ContPacket and ReplyPacket: the two packets
      that wake tasks. OtherPacket: any other packet, answered with out. */
  datatype Event = TaskSubmits(call: Call) | ContPacket | ReplyPacket(reply: FileReply, next: Option<Call>)
                 | OtherPacket(out: seq<u8>)

  function Handled(io: Io, e: Event): Io
    requires WellQueued(io)
  {
    match e
    case TaskSubmits(call) => Submit(io, call)
    case ContPacket => Wake(Begin(io))
    case ReplyPacket(reply, next) =>
      if io.inFlight == [] then Answer(Begin(io), E01) else Accept(Begin(io), reply, next)
    case OtherPacket(out) => Answer(Begin(io), out)
  }

  function Upto(n: nat): seq<nat> { seq(n, i => i) }

  function Without(ids: seq<nat>, gone: set<nat>): seq<nat> {
    if ids == [] then []
    else (if ids[0] in gone then [] else [ids[0]]) + Without(ids[1..], gone)
  }

  function Owners(completed: seq<(nat, FileReply)>): (r: seq<nat>)
    ensures |r| == |completed| && forall i :: 0 <= i < |r| ==> r[i] == completed[i].0
  {
    seq(|completed|, i requires 0 <= i < |completed| => completed[i].0)
  }

  /** Nothing is lost, duplicated or overtaken: emitted requests are answered in order, and
      with the waiting ones they are the submissions, in order, without those that were too
      long. */
  ghost predicate Conserved(io: Io) {
    && WellQueued(io)
    && io.emitted == Owners(io.completed) + io.inFlight
    && io.emitted + io.waiting == Without(Upto(|io.requests|), io.lost)
    && (forall i :: i in io.lost ==> i < |io.requests| && |io.requests[i].Text()| > io.cap)
    && (forall i :: i in io.emitted ==> i < |io.requests| && |io.requests[i].Text()| <= io.cap)
  }

  lemma {:induction false} WithoutConcat(a: seq<nat>, b: seq<nat>, gone: set<nat>)
    ensures Without(a + b, gone) == Without(a, gone) + Without(b, gone)
  {
    if a == [] {
      assert a + b == b;
    } else {
      assert (a + b)[1..] == a[1..] + b;
      WithoutConcat(a[1..], b, gone);
    }
  }

  lemma {:induction false} WithoutMore(ids: seq<nat>, gone: set<nat>, x: nat)
    ensures Without(ids, gone + {x}) == Without(Without(ids, gone), {x})
  {
    if ids != [] {
      WithoutMore(ids[1..], gone, x);
      WithoutConcat(if ids[0] in gone then [] else [ids[0]], Without(ids[1..], gone), {x});
    }
  }

  lemma {:induction false} WithoutNothing(ids: seq<nat>, gone: set<nat>)
    requires forall i :: i in ids ==> i !in gone
    ensures Without(ids, gone) == ids
  {
    if ids != [] {
      WithoutNothing(ids[1..], gone);
      assert ids[0] in ids;
    }
  }

  ghost predicate Increasing(ids: seq<nat>) {
    forall i, j :: 0 <= i < j < |ids| ==> ids[i] < ids[j]
  }

  lemma {:induction false} WithoutMembers(ids: seq<nat>, gone: set<nat>, x: nat)
    ensures x in Without(ids, gone) <==> x in ids && x !in gone
  {
    if ids != [] {
      WithoutMembers(ids[1..], gone, x);
      assert x in ids <==> x == ids[0] || x in ids[1..];
    }
  }

  lemma {:induction false} WithoutIncreasing(ids: seq<nat>, gone: set<nat>)
    requires Increasing(ids)
    ensures Increasing(Without(ids, gone))
  {
    if ids != [] {
      var rest := Without(ids[1..], gone);
      WithoutIncreasing(ids[1..], gone);
      forall j | 0 <= j < |rest| ensures ids[0] < rest[j] {
        WithoutMembers(ids[1..], gone, rest[j]);
        var k :| 0 <= k < |ids[1..]| && ids[1..][k] == rest[j];
        assert ids[1..][k] == ids[k + 1];
      }
    }
  }

  lemma SubmitConserves(io: Io, call: Call)
    requires Conserved(io)
    ensures Conserved(Submit(io, call))
  {
    var n := |io.requests|;
    assert Upto(n + 1) == Upto(n) + [n];
    WithoutConcat(Upto(n), [n], io.lost);
    assert n !in io.lost;
    assert Without([n], io.lost) == [n];
    assert io.emitted + (io.waiting + [n]) == (io.emitted + io.waiting) + [n];
  }

  /** Taking one element out of the middle of what is left. */
  lemma DropFromMiddle(a: seq<nat>, x: nat, b: seq<nat>, ids: seq<nat>, gone: set<nat>)
    requires Increasing(ids) && a + ([x] + b) == Without(ids, gone)
    ensures a + b == Without(ids, gone + {x})
  {
    WithoutMore(ids, gone, x);
    assert x !in a && x !in b by {
      WithoutIncreasing(ids, gone);
      IncreasingApart(a, x, b);
    }
    WithoutOne(a, x, b);
  }

  lemma WithoutOne(a: seq<nat>, x: nat, b: seq<nat>)
    requires x !in a && x !in b
    ensures Without(a + ([x] + b), {x}) == a + b
  {
    assert Without([x] + b, {x}) == b by {
      assert ([x] + b)[1..] == b;
      WithoutNothing(b, {x});
    }
    WithoutNothing(a, {x});
    WithoutConcat(a, [x] + b, {x});
  }

  lemma IncreasingApart(a: seq<nat>, x: nat, b: seq<nat>)
    requires Increasing(a + ([x] + b))
    ensures x !in a && x !in b
  {
    var all := a + ([x] + b);
    assert all[|a|] == x;
    assert forall i :: 0 <= i < |a| ==> a[i] == all[i];
    assert forall i :: 0 <= i < |b| ==> b[i] == all[|a| + 1 + i];
  }

  /** Waking is the only step that can lose a request, and with an empty answer at hand it
      loses only one that fits into no answer. */
  lemma WakeConserves(io: Io)
    requires Conserved(io) && io.resp == []
    ensures Conserved(Wake(io)) && Wake(io).cap == io.cap
  {
    if io.waiting != [] {
      var x, rest := io.waiting[0], io.waiting[1..];
      assert io.waiting == [x] + rest && x in io.waiting;
      assert forall i :: i in rest ==> i in io.waiting;
      if |io.requests[x].Text()| > io.cap {
        DropFromMiddle(io.emitted, x, rest, Upto(|io.requests|), io.lost);
      } else {
        assert io.emitted + io.waiting == (io.emitted + [x]) + rest;
        assert Owners(io.completed) + (io.inFlight + [x]) == (Owners(io.completed) + io.inFlight) + [x];
      }
    }
  }

  lemma AcceptConserves(io: Io, reply: FileReply, next: Option<Call>)
    requires Conserved(io) && io.resp == []
    ensures Conserved(Accept(io, reply, next)) && Accept(io, reply, next).cap == io.cap
  {
    if io.inFlight != [] {
      var done := io.(inFlight := io.inFlight[1..], completed := io.completed + [(io.inFlight[0], reply)]);
      assert Owners(done.completed) == Owners(io.completed) + [io.inFlight[0]];
      assert io.inFlight == [io.inFlight[0]] + io.inFlight[1..];
      assert done.emitted == Owners(done.completed) + done.inFlight;
      if next.Some? {
        SubmitConserves(done, next.value);
        WakeConserves(Submit(done, next.value));
      } else {
        WakeConserves(done);
      }
    }
  }

  lemma EventConserves(io: Io, e: Event)
    requires Conserved(io)
    ensures Conserved(Handled(io, e)) && Handled(io, e).cap == io.cap
  {
    hide Wake, Accept, Without, Upto, Owners;
    match e {
      case TaskSubmits(call) => SubmitConserves(io, call);
      case ContPacket => WakeConserves(Begin(io));
      case ReplyPacket(reply, next) => if io.inFlight != [] { AcceptConserves(Begin(io), reply, next); }
      case OtherPacket(_) =>
    }
  }

  /** The state after a run; every run can be continued. */
  ghost function After(io: Io, es: seq<Event>): (r: Io)
    requires Conserved(io)
    ensures Conserved(r) && r.cap == io.cap
    decreases |es|
  {
    if es == [] then io
    else
      EventConserves(io, es[0]);
      After(Handled(io, es[0]), es[1..])
  }

  /** Main result, for every run: the k-th accepted reply went to the k-th emitted request,
      emitted requests are those submitted first among the ones that fit an answer, each
      exactly once, and the requests outstanding at the debugger are emitted minus answered. */
  lemma RepliesMatchRequests(cap: nat, es: seq<Event>, k: nat)
    ensures Conserved(Start(cap))
    ensures var io := After(Start(cap), es);
            && |io.inFlight| == |io.emitted| - |io.completed|
            && (k < |io.completed| ==> io.completed[k].0 == io.emitted[k])
            && Increasing(io.emitted + io.waiting)
            && (forall i :: 0 <= i < |io.requests| ==> i in io.emitted || i in io.waiting || i in io.lost)
            && (forall i :: i in io.lost ==> i !in io.emitted && i !in io.waiting && |io.requests[i].Text()| > cap)
  {
    assert Upto(0) == [];
    var io := After(Start(cap), es);
    var ids := Upto(|io.requests|);
    var all := io.emitted + io.waiting;
    WithoutIncreasing(ids, io.lost);
    forall i ensures (i in io.emitted || i in io.waiting) <==> i in ids && i !in io.lost {
      WithoutMembers(ids, io.lost, i);
      assert i in all <==> i in io.emitted || i in io.waiting;
    }
    forall i | 0 <= i < |io.requests| ensures i in ids {
      assert ids[i] == i;
    }
  }

  // ---- what the debugger sees ----

  /** The end of process: what is given to send_packet, if anything. */
  function Answered(io: Io): Option<seq<u8>> {
    if io.shouldRespond then Some(io.resp) else None
  }

  /** The packets after which a task may write its request. */
  predicate Wakes(io: Io, e: Event) {
    e.ContPacket? || (e.ReplyPacket? && io.inFlight != [])
  }

  /** A packet that wakes tasks is answered with the request next in line and nothing else;
      it stays without answer exactly when nobody is waiting. An accepted reply leaves the
      line in front, and the coroutine it resumed may join the waiting ones at the end. */
  lemma WakingPacketSendsNextRequest(io: Io, e: Event)
    requires Conserved(io) && Wakes(io, e)
    ensures var io' := Handled(io, e);
            var calls := io.requests + (if e.ReplyPacket? && e.next.Some? then [e.next.value] else []);
            var line := io.waiting + (if e.ReplyPacket? && e.next.Some? then [|io.requests|] else []);
            && io'.requests == calls
            && io'.completed == io.completed + (if e.ReplyPacket? then [(io.inFlight[0], e.reply)] else [])
            && (line == [] ==> Answered(io') == None && io'.emitted == io.emitted)
            && (line != [] ==>
                 && io'.waiting == line[1..] && line[0] < |calls|
                 && var text := calls[line[0]].Text();
                    if |text| <= io.cap then Answered(io') == Some(text) && io'.emitted == io.emitted + [line[0]]
                    else Answered(io') == Some([]) && io'.emitted == io.emitted && line[0] in io'.lost)
  {
    var line := io.waiting + (if e.ReplyPacket? && e.next.Some? then [|io.requests|] else []);
    assert line != [] ==> line[0] in line;
    assert forall t: seq<u8> :: [] + t == t;
  }

  /** Packets that wake nobody leave both queues alone and get their own answer, which to a
      reply that nobody waits for is the error E01. */
  lemma OtherPacketsAreAnswered(io: Io, e: Event)
    requires Conserved(io) && 3 <= io.cap && (e.OtherPacket? || (e.ReplyPacket? && io.inFlight == []))
    ensures var out := if e.OtherPacket? then e.out else Ascii("E01");
            && Handled(io, e) == io.(resp := Handled(io, e).resp, shouldRespond := true)
            && (|out| <= io.cap ==> Answered(Handled(io, e)) == Some(out))
  {
    assert E01 == Ascii("E01");
  }

  /** The request that leaves after an event, as seen on the wire alone: an answer other than
      the empty one to a packet that wakes tasks. */
  function SentAfter(io: Io, e: Event): seq<seq<u8>>
    requires WellQueued(io)
  {
    var answer := Answered(Handled(io, e));
    if Wakes(io, e) && answer.Some? && answer.value != [] then [answer.value] else []
  }

  /** All requests the debugger sees during a run. */
  ghost function SentRequests(io: Io, es: seq<Event>): seq<seq<u8>>
    requires Conserved(io)
    decreases |es|
  {
    if es == [] then []
    else
      EventConserves(io, es[0]);
      SentAfter(io, es[0]) + SentRequests(Handled(io, es[0]), es[1..])
  }

  /** The texts of the emitted requests, in order. */
  ghost function Texts(io: Io): seq<seq<u8>>
    requires Conserved(io)
  {
    seq(|io.emitted|, k requires 0 <= k < |io.emitted| =>
      assert io.emitted[k] in io.emitted;
      io.requests[io.emitted[k]].Text())
  }

  lemma TextsGrow(io: Io, io': Io, more: seq<nat>)
    requires Conserved(io) && Conserved(io')
    requires io.requests <= io'.requests && io'.emitted == io.emitted + more && |more| <= 1
    ensures |more| == 1 ==> more[0] < |io'.requests|
    ensures Texts(io') == Texts(io) + if more == [] then [] else [io'.requests[more[0]].Text()]
  {
    assert forall i :: i in io.emitted ==> i < |io.requests|;
    assert more != [] ==> more[0] in io'.emitted;
  }

  lemma EmittedAfter(io: Io, e: Event) returns (more: seq<nat>)
    requires Conserved(io)
    ensures var io' := Handled(io, e);
            && io.requests <= io'.requests && io'.emitted == io.emitted + more && |more| <= 1
            && (more != [] ==> more[0] < |io'.requests|)
            && SentAfter(io, e) == if more == [] then [] else [io'.requests[more[0]].Text()]
  {
    more := Handled(io, e).emitted[|io.emitted|..];
    if Wakes(io, e) {
      WakingPacketSendsNextRequest(io, e);
      hide Handled;
    }
  }

  lemma SentAfterIsEmitted(io: Io, e: Event)
    requires Conserved(io)
    ensures Conserved(Handled(io, e)) && Texts(Handled(io, e)) == Texts(io) + SentAfter(io, e)
  {
    EventConserves(io, e);
    var more := EmittedAfter(io, e);
    hide Handled, Conserved, SentAfter, Texts;
    TextsGrow(io, Handled(io, e), more);
  }

  lemma {:induction false} SentIsEmitted(io: Io, es: seq<Event>)
    requires Conserved(io)
    ensures Texts(After(io, es)) == Texts(io) + SentRequests(io, es)
    decreases |es|
  {
    if es == [] {
      assert Texts(io) + [] == Texts(io);
    } else {
      assert WellQueued(io);
      hide Handled, Conserved, SentAfter, Texts, WellQueued;
      var io', rest := Handled(io, es[0]), es[1..];
      SentAfterIsEmitted(io, es[0]);
      SentIsEmitted(io', rest);
      assert After(io, es) == After(io', rest);
      JoinTexts(Texts(io), SentAfter(io, es[0]), SentRequests(io', rest));
    }
  }

  lemma JoinTexts(a: seq<seq<u8>>, b: seq<seq<u8>>, c: seq<seq<u8>>)
    ensures a + (b + c) == a + b + c
  {
  }

  /** Main result on the wire, for every run: the requests the debugger saw are the emitted
      ones, text for text, and its k-th accepted reply goes to the task whose system call it
      read, name and arguments, from the k-th. */
  lemma KthReplyAnswersKthRequest(cap: nat, es: seq<Event>, k: nat)
    ensures Conserved(Start(cap))
    ensures var io, sent := After(Start(cap), es), SentRequests(Start(cap), es);
            && sent == Texts(io) && |io.completed| <= |sent|
            && (k < |io.completed| ==>
                 var id := io.completed[k].0;
                 && id < |io.requests| && |sent[k]| <= cap
                 && var call := io.requests[id];
                    && sent[k] == ['F' as int] + call.name + [',' as int] + call.args
                    && (COMMA !in call.name ==>
                         Token(sent[k][1..], COMMA) == call.name && AfterToken(sent[k][1..], COMMA) == call.args))
  {
    assert Upto(0) == [];
    var io := After(Start(cap), es);
    SentIsEmitted(Start(cap), es);
    if k < |io.completed| {
      assert io.emitted[k] == Owners(io.completed)[k];
      assert io.emitted[k] in io.emitted;
      var call := io.requests[io.emitted[k]];
      if COMMA !in call.name {
        CallReadsBack(call);
      }
    }
  }

  /** When every request fits an answer, nothing is left out: answered, outstanding and
      waiting requests together are all submissions in order. */
  lemma NothingIsLost(cap: nat, es: seq<Event>)
    requires Conserved(Start(cap))
    requires forall c :: c in After(Start(cap), es).requests ==> |c.Text()| <= cap
    ensures var io := After(Start(cap), es);
            Owners(io.completed) + io.inFlight + io.waiting == Upto(|io.requests|)
  {
    var io := After(Start(cap), es);
    forall i | i in io.lost ensures io.requests[i] in io.requests {
    }
    WithoutNothing(Upto(|io.requests|), io.lost);
  }

  // ---- the class ----

  /** A suspended coroutine: whose request it is and the call it is about to send. */
  datatype Task = Task(id: nat, call: Call)

  function Ids(ts: seq<Task>): (r: seq<nat>)
    ensures |r| == |ts| && forall i :: 0 <= i < |ts| ==> r[i] == ts[i].id
  {
    seq(|ts|, i requires 0 <= i < |ts| => ts[i].id)
  }

  /** The coroutines in a queue stand for the requests named there. */
  ghost predicate Queued(ts: seq<Task>, requests: seq<Call>, waiting: seq<nat>) {
    Ids(ts) == waiting && forall t :: t in ts ==> t.id < |requests| && t.call == requests[t.id]
  }

  lemma QueuedTail(ts: seq<Task>, requests: seq<Call>, waiting: seq<nat>)
    requires Queued(ts, requests, waiting) && ts != []
    ensures waiting != [] && Queued(ts[1..], requests, waiting[1..])
    ensures ts[0].id == waiting[0] < |requests| && ts[0].call == requests[waiting[0]]
  {
    assert ts[0] in ts && forall t :: t in ts[1..] ==> t in ts;
    assert Ids(ts[1..]) == waiting[1..];
  }

  lemma IdsAppend(ts: seq<Task>, t: Task)
    ensures Ids(ts + [t]) == Ids(ts) + [t.id]
  {
  }

  lemma WakeStaysWellQueued(io: Io)
    requires WellQueued(io)
    ensures WellQueued(Wake(io))
  {
    assert io.waiting != [] ==> forall i :: i in io.waiting[1..] ==> i in io.waiting;
  }

  lemma AcceptCompletes(io: Io, reply: FileReply, next: Option<Call>)
    requires WellQueued(io)
    ensures io.inFlight != [] ==> Accept(io, reply, next).completed == io.completed + [(io.inFlight[0], reply)]
  {
  }

  class Connection {
    var ioReq: seq<Task>
    var ioResp: seq<Task>
    var submitted: nat
    var shouldRespond: bool
    const respBuf: Buffer
    ghost var io: Io

    ghost predicate Valid()
      reads this, respBuf, respBuf.storage
    {
      && respBuf.Valid() && WellQueued(io)
      && respBuf.View() == Queue(io.cap, [], io.resp)
      && shouldRespond == io.shouldRespond && submitted == |io.requests|
      && Queued(ioReq, io.requests, io.waiting) && Ids(ioResp) == io.inFlight
    }

    constructor (cap: nat)
      ensures Valid() && io == Start(cap) && fresh(respBuf) && fresh(respBuf.storage)
    {
      ioReq, ioResp, submitted := [], [], 0;
      shouldRespond := true;
      respBuf := new Buffer(cap);
      io := Start(cap);
    }

    /** remote_io up to its first suspension, in wait_for_request. */
    method WaitForRequest(call: Call)
      requires Valid()
      modifies this`ioReq, this`submitted, this`io
      ensures Valid() && io == Submit(old(io), call)
    {
      ioReq := ioReq + [Task(submitted, call)];
      submitted := submitted + 1;
      io := Submit(io, call);
    }

    /** What process does in front of every packet. */
    method BeginPacket()
      requires Valid()
      modifies this`shouldRespond, this`io, respBuf`readOff, respBuf`writeOff
      ensures Valid() && io == Begin(old(io))
    {
      respBuf.Reset();
      shouldRespond := true;
      io := Begin(io);
    }

    /** What process does behind every packet: the bytes given to send_packet. */
    method FinishPacket() returns (answer: Option<seq<u8>>)
      requires Valid()
      ensures answer == Answered(io)
    {
      answer := if shouldRespond then Some(respBuf.Unread()) else None;
    }

    /** wakeup_request; the resumed task appends its request and suspends in
        wait_for_response, unless the append throws inside it. */
    method WakeupRequest()
      requires Valid()
      modifies this`ioReq, this`ioResp, this`shouldRespond, this`io, respBuf`writeOff, respBuf.storage
      ensures Valid() && io == Wake(old(io))
    {
      if ioReq == [] {
        shouldRespond := false;
        io := Wake(io);
        return;
      }
      QueuedTail(ioReq, io.requests, io.waiting);
      WakeStaysWellQueued(io);
      var resume := ioReq[0];
      ioReq := ioReq[1..];
      var ok := respBuf.AppendBuf(resume.call.Text());
      if ok {
        IdsAppend(ioResp, resume);
        ioResp := ioResp + [resume];
      }
      io := Wake(io);
    }

    /** handle_file_reply. The answer names the coroutine that got the reply; None is the
        exception for a reply nobody waits for. */
    method HandleFileReply(reply: FileReply, next: Option<Call>) returns (resumed: Option<Task>)
      requires Valid()
      modifies this`ioReq, this`ioResp, this`submitted, this`shouldRespond, this`io, respBuf`writeOff, respBuf.storage
      ensures Valid() && io == Accept(old(io), reply, next)
      ensures resumed == if old(ioResp) == [] then None else Some(old(ioResp[0]))
      ensures resumed.Some? ==> |io.completed| > 0 && io.completed[|io.completed| - 1] == (resumed.value.id, reply)
    {
      AcceptCompletes(io, reply, next);
      hide Wake, Submit;
      if ioResp == [] {
        return None;
      }
      resumed := Some(ioResp[0]);
      ioResp := ioResp[1..];
      io := io.(inFlight := io.inFlight[1..], completed := io.completed + [(io.inFlight[0], reply)]);
      assert Ids(ioResp) == io.inFlight;
      if next.Some? {
        WaitForRequest(next.value);
      }
      WakeupRequest();
    }

    /** append_error and append_str in an answer that is still empty. */
    method AppendAnswer(out: seq<u8>)
      requires Valid() && io.resp == []
      modifies this`io, respBuf`writeOff, respBuf.storage
      ensures Valid() && io == Answer(old(io), out)
    {
      var ok := respBuf.AppendBuf(out);
      assert [] + out == out;
      io := Answer(io, out);
    }

    /** One turn of the loop in process: the packet is handled, an exception becomes an error
        code, and what is to be answered is given to send_packet. */
    method ProcessPacket(e: Event) returns (answer: Option<seq<u8>>)
      requires Valid() && !e.TaskSubmits?
      modifies this`ioReq, this`ioResp, this`submitted, this`shouldRespond, this`io
      modifies respBuf`readOff, respBuf`writeOff, respBuf.storage
      ensures Valid() && io == Handled(old(io), e) && answer == Answered(io)
    {
      hide Wake, Accept, Submit, Answer;
      BeginPacket();
      match e {
        case ContPacket => WakeupRequest();
        case ReplyPacket(reply, next) =>
          NobodyWaits(io, reply, next);
          var resumed := HandleFileReply(reply, next);
          if resumed == None {
            AppendAnswer(E01);
          }
        case OtherPacket(out) => AppendAnswer(out);
      }
      answer := FinishPacket();
    }
  }

  lemma NobodyWaits(io: Io, reply: FileReply, next: Option<Call>)
    requires WellQueued(io)
    ensures io.inFlight == [] ==> Accept(io, reply, next) == io
  {
  }
}
