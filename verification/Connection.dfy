/** Serials, queues and replies of a connection (connection.cpp). Each locked region is one step,
    and so is the check-and-store of a reply, which holds no lock. One thread dispatches; any
    other thread may send and call. */
module Connections {
  import opened Bytes
  import opened Messages

  /** A message read from the transport; `id` counts them. A reply without a reply serial has 0. */
  datatype Incoming = Incoming(id: nat, kind: Kind, replySerial: uint32)

  /** A message under its serial; `direct` when the dispatching thread wrote it past the queue. */
  datatype Outgoing = Outgoing(serial: uint32, payload: nat, direct: bool)

  /** A thread that called and waits: still waiting, woken with the status of its wait (its entry
      not collected yet), or finished with a reply or without one. */
  datatype Caller = Waiting | Woken(status: bool) | Finished(reply: Option<Incoming>)

  datatype State = State(
    currentSerial: uint32,
    outgoing: seq<Outgoing>,
    incoming: seq<Incoming>,
    expecting: map<uint32, Option<Incoming>>,
    // the serial the dispatching thread is blocked on
    direct: Option<uint32>,
    callers: map<uint32, Caller>,
    // an unchecked lookup missed, a branch meant to be unreachable was reached, or the entry of a
    // waiting caller was overwritten
    broken: bool,
    history: History)

  /** What happened so far: serials handed out, messages queued, writes attempted, messages read,
      messages popped for processing, and replies taken off the transport by a direct call. */
  datatype History = History(
    issued: seq<uint32>,
    queued: seq<Outgoing>,
    written: seq<Outgoing>,
    arrived: seq<Incoming>,
    processed: seq<Incoming>,
    taken: seq<(uint32, Incoming)>)

  const START := State(1, [], [], map[], None, map[], false, History([], [], [], [], [], []))

  datatype Event =
    | Send(payload: nat)
    | Call(payload: nat)
    | Flush
    | DirectWrite(payload: nat)
    | DirectRead(kind: Kind, replySerial: uint32)
    | DirectFail
    | Read(kind: Kind, replySerial: uint32)
    | Process
    | Wake(serial: uint32)
    | TimeOut(serial: uint32)
    | Collect(serial: uint32)

  predicate IsReply(m: Incoming) { m.kind == RETURN || m.kind == ERROR }

  function Increment(serial: uint32): uint32 { (serial + 1) % TWO32 }

  /** Handing out a serial and queueing a message under it. */
  function Queue(s: State, serial: uint32, payload: nat): State {
    var o := Outgoing(serial, payload, false);
    s.(currentSerial := Increment(serial), outgoing := s.outgoing + [o],
       history := s.history.(issued := s.history.issued + [serial], queued := s.history.queued + [o]))
  }

  /** The two locked regions that queue a message. Only `send` skips serial 0. */
  function AfterSend(s: State, payload: nat): State {
    Queue(s, if s.currentSerial == 0 then 1 else s.currentSerial, payload)
  }

  function AfterCall(s: State, payload: nat): State {
    Queue(s, s.currentSerial, payload)
      .(expecting := s.expecting[s.currentSerial := None], callers := s.callers[s.currentSerial := Waiting],
        broken := s.broken || Awaited(s.callers, s.currentSerial))
  }

  /** A thread that called under this serial has not finished. */
  predicate Awaited(callers: map<uint32, Caller>, serial: uint32) {
    serial in callers && !callers[serial].Finished?
  }

  function AfterFlush(s: State): State {
    s.(outgoing := [], history := s.history.(written := s.history.written + s.outgoing))
  }

  /** `write_single_message`, and the dispatching thread starts to wait. */
  function AfterDirectWrite(s: State, payload: nat): State {
    s.(currentSerial := Increment(s.currentSerial), direct := Some(s.currentSerial),
       history := s.history.(issued := s.history.issued + [s.currentSerial],
                             written := s.history.written + [Outgoing(s.currentSerial, payload, true)]))
  }

  function Arrived(s: State, m: Incoming): State {
    s.(history := s.history.(arrived := s.history.arrived + [m]))
  }

  /** One read of the loop of a direct call: the awaited reply or error ends it, anything else is
      put aside. */
  function AfterDirectRead(s: State, m: Incoming): State
    requires s.direct.Some?
  {
    var t := Arrived(s, m);
    if IsReply(m) && m.replySerial == s.direct.value then
      t.(direct := None, history := t.history.(taken := t.history.taken + [(s.direct.value, m)]))
    else t.(incoming := t.incoming + [m])
  }

  function AfterRead(s: State, m: Incoming): State { Arrived(s, m).(incoming := s.incoming + [m]) }

  /** `process_single_message` up to the routing of what is not an expected reply. */
  function AfterProcess(s: State): State
    requires s.incoming != []
  {
    var m := s.incoming[0];
    var t := s.(incoming := s.incoming[1..], history := s.history.(processed := s.history.processed + [m]));
    if IsReply(m) && m.replySerial in s.expecting then t.(expecting := t.expecting[m.replySerial := Some(m)]) else t
  }

  /** The caller takes its entry out of the map and looks at the reply in it. */
  function AfterCollect(s: State, serial: uint32, status: bool): State {
    if serial !in s.expecting then s.(broken := true)
    else
      var reply := s.expecting[serial];
      var t := s.(expecting := s.expecting - {serial});
      if !status then t.(callers := t.callers[serial := Finished(None)])
      else if reply == None || reply.value.kind == CALL then t.(broken := true)
      else if reply.value.kind == SIGNAL then t.(callers := t.callers[serial := Finished(None)])
      else t.(callers := t.callers[serial := Finished(reply)])
  }

  /** What an event does, or `None` where it cannot happen. */
  function Next(s: State, e: Event): Option<State> {
    match e
    case Send(payload) => Some(AfterSend(s, payload))
    case Call(payload) => Some(AfterCall(s, payload))
    case Flush => Some(AfterFlush(s))
    case DirectWrite(payload) => if s.direct.Some? then None else Some(AfterDirectWrite(s, payload))
    case DirectRead(kind, rs) =>
      if s.direct.None? then None else Some(AfterDirectRead(s, Incoming(|s.history.arrived|, kind, rs)))
    case DirectFail => if s.direct.None? then None else Some(s.(direct := None))
    case Read(kind, rs) =>
      if s.direct.Some? then None else Some(AfterRead(s, Incoming(|s.history.arrived|, kind, rs)))
    case Process => if s.direct.Some? || s.incoming == [] then None else Some(AfterProcess(s))
    case Wake(serial) =>
      if serial !in s.callers || s.callers[serial] != Waiting then None
      else if serial !in s.expecting then Some(s.(broken := true))
      else if s.expecting[serial] == None then None
      else Some(s.(callers := s.callers[serial := Woken(true)]))
    case TimeOut(serial) =>
      if serial !in s.callers || s.callers[serial] != Waiting then None
      else if serial !in s.expecting then Some(s.(broken := true))
      else if s.expecting[serial] != None then None
      else Some(s.(callers := s.callers[serial := Woken(false)]))
    case Collect(serial) =>
      if serial in s.callers && s.callers[serial].Woken? then Some(AfterCollect(s, serial, s.callers[serial].status)) else None
  }

  /** A run: the state after a list of events, each of which could happen. */
  function Run(es: seq<Event>): Option<State> {
    if es == [] then Some(START)
    else match Run(es[..|es| - 1])
      case None => None
      case Some(s) => Next(s, es[|es| - 1])
  }

  // ----- serials -----

  ghost predicate SerialsOk(s: State) {
    && (forall i :: 0 <= i < |s.history.issued| ==> s.history.issued[i] == i + 1)
    && s.currentSerial == (|s.history.issued| + 1) % TWO32
  }

  function Serials(os: seq<Outgoing>): seq<uint32> {
    if os == [] then [] else [os[0].serial] + Serials(os[1..])
  }

  lemma {:induction false} SerialsSplit(a: seq<Outgoing>, b: seq<Outgoing>)
    ensures Serials(a + b) == Serials(a) + Serials(b)
  {
    if a == [] {
      assert [] + b == b;
    } else {
      hide Serials;
      SerialsSplit(a[1..], b);
      assert (a + b)[1..] == a[1..] + b;
      SerialsByHead(a);
      SerialsByHead(a + b);
    }
  }

  lemma SerialsByHead(os: seq<Outgoing>)
    requires os != []
    ensures Serials(os) == [os[0].serial] + Serials(os[1..])
  {
  }

  /** Every serial handed out is in the queue or was written, exactly once. */
  ghost predicate SerialsKept(s: State) {
    multiset(Serials(s.outgoing)) + multiset(Serials(s.history.written)) == multiset(s.history.issued)
  }

  /** The written messages that went through the queue. */
  function ThroughQueue(os: seq<Outgoing>): seq<Outgoing> {
    if os == [] then []
    else if os[0].direct then ThroughQueue(os[1..]) else [os[0]] + ThroughQueue(os[1..])
  }

  lemma {:induction false} ThroughQueueSplit(a: seq<Outgoing>, b: seq<Outgoing>)
    ensures ThroughQueue(a + b) == ThroughQueue(a) + ThroughQueue(b)
  {
    if a == [] {
      assert [] + b == b;
    } else {
      hide ThroughQueue;
      ThroughQueueSplit(a[1..], b);
      assert (a + b)[1..] == a[1..] + b;
      ThroughQueueByHead(a);
      ThroughQueueByHead(a + b);
      Associative([a[0]], ThroughQueue(a[1..]), ThroughQueue(b));
    }
  }

  lemma ThroughQueueByHead(os: seq<Outgoing>)
    requires os != []
    ensures ThroughQueue(os) == if os[0].direct then ThroughQueue(os[1..]) else [os[0]] + ThroughQueue(os[1..])
  {
  }

  ghost predicate NoneDirect(os: seq<Outgoing>) { forall o :: o in os ==> !o.direct }

  lemma {:induction false} ThroughQueueAll(os: seq<Outgoing>)
    requires NoneDirect(os)
    ensures ThroughQueue(os) == os
  {
    if os != [] { ThroughQueueAll(os[1..]); }
  }

  ghost predicate OrderKept(s: State) {
    NoneDirect(s.outgoing) && ThroughQueue(s.history.written) + s.outgoing == s.history.queued
  }

  lemma QueueKeeps(s: State, serial: uint32, payload: nat)
    requires SerialsKept(s) && OrderKept(s)
    ensures SerialsKept(Queue(s, serial, payload)) && OrderKept(Queue(s, serial, payload))
  {
    var o := Outgoing(serial, payload, false);
    SerialsSplit(s.outgoing, [o]);
    assert Serials([o]) == [serial];
    Associative(ThroughQueue(s.history.written), s.outgoing, [o]);
  }

  lemma FlushKeeps(s: State)
    requires SerialsKept(s) && OrderKept(s)
    ensures SerialsKept(AfterFlush(s)) && OrderKept(AfterFlush(s))
  {
    SerialsSplit(s.history.written, s.outgoing);
    ThroughQueueSplit(s.history.written, s.outgoing);
    ThroughQueueAll(s.outgoing);
  }

  lemma DirectWriteKeeps(s: State, payload: nat)
    requires SerialsKept(s) && OrderKept(s)
    ensures SerialsKept(AfterDirectWrite(s, payload)) && OrderKept(AfterDirectWrite(s, payload))
  {
    hide Serials, ThroughQueue, Increment;
    var o := Outgoing(s.currentSerial, payload, true);
    SerialsSplit(s.history.written, [o]);
    ThroughQueueSplit(s.history.written, [o]);
    OneDirect(o);
    var w := ThroughQueue(s.history.written);
    assert w + [] == w;
  }

  lemma OneDirect(o: Outgoing)
    requires o.direct
    ensures Serials([o]) == [o.serial] && ThroughQueue([o]) == []
  {
    assert [o][1..] == [];
  }

  /** Serials count up from 1. */
  lemma CountsUp(s: State, e: Event)
    requires SerialsOk(s) && Next(s, e).Some?
    requires |Next(s, e).value.history.issued| < TWO32
    ensures SerialsOk(Next(s, e).value)
  {
    var t, n := Next(s, e).value, |s.history.issued|;
    if e.Send? || e.Call? || e.DirectWrite? {
      assert t.history.issued == s.history.issued + [n + 1];
      assert t.currentSerial == Increment(n + 1);
    } else {
      assert t.history.issued == s.history.issued && t.currentSerial == s.currentSerial;
    }
  }

  lemma SerialsStep(s: State, e: Event)
    requires SerialsKept(s) && OrderKept(s) && Next(s, e).Some?
    ensures SerialsKept(Next(s, e).value) && OrderKept(Next(s, e).value)
  {
    hide SerialsKept, OrderKept;
    match e
    case Send(payload) => QueueKeeps(s, if s.currentSerial == 0 then 1 else s.currentSerial, payload);
    case Call(payload) =>
      QueueKeeps(s, s.currentSerial, payload);
      SameQueues(Queue(s, s.currentSerial, payload), AfterCall(s, payload));
    case Flush => FlushKeeps(s);
    case DirectWrite(payload) => DirectWriteKeeps(s, payload);
    case _ =>
      var h, h' := s.history, Next(s, e).value.history;
      assert h'.issued == h.issued && h'.queued == h.queued && h'.written == h.written;
      SameQueues(s, Next(s, e).value);
  }

  lemma SameQueues(s: State, t: State)
    requires SerialsKept(s) && OrderKept(s) && t.outgoing == s.outgoing
    requires t.history.issued == s.history.issued && t.history.queued == s.history.queued
    requires t.history.written == s.history.written
    ensures SerialsKept(t) && OrderKept(t)
  {
  }

  // ----- replies -----

  predicate Issued(s: State, serial: uint32) { 1 <= serial <= |s.history.issued| }

  /** A reply that answers the call with this serial. */
  predicate Answers(m: Incoming, serial: uint32) { IsReply(m) && m.replySerial == serial }

  ghost predicate ReplyHeld(s: State, serial: uint32, m: Incoming) {
    Answers(m, serial) && m in s.history.processed
  }

  ghost predicate CallerOk(s: State, serial: uint32)
    requires serial in s.callers
  {
    && Issued(s, serial)
    && match s.callers[serial]
       case Waiting => serial in s.expecting
       case Woken(status) => serial in s.expecting && (status ==> s.expecting[serial].Some?)
       case Finished(reply) => serial !in s.expecting && (reply.Some? ==> ReplyHeld(s, serial, reply.value))
  }

  ghost predicate TakenOk(s: State, k: nat)
    requires k < |s.history.taken|
  {
    var (serial, m) := s.history.taken[k];
    && Issued(s, serial) && serial !in s.callers && Some(serial) != s.direct
    && Answers(m, serial) && m in s.history.arrived
    && forall j :: 0 <= j < k ==> s.history.taken[j].0 != serial
  }

  ghost predicate RepliesOk(s: State) {
    && !s.broken
    && (forall serial :: serial in s.callers ==> CallerOk(s, serial))
    && (forall serial :: serial in s.expecting ==>
          serial in s.callers && (s.expecting[serial].Some? ==> ReplyHeld(s, serial, s.expecting[serial].value)))
    && (s.direct.Some? ==> Issued(s, s.direct.value) && s.direct.value !in s.callers)
    && (forall k :: 0 <= k < |s.history.taken| ==> TakenOk(s, k))
  }

  lemma SendKeepsReplies(s: State, payload: nat)
    requires SerialsOk(s) && RepliesOk(s)
    ensures RepliesOk(AfterSend(s, payload))
  {
    var t := AfterSend(s, payload);
    forall serial | serial in t.callers ensures CallerOk(t, serial) { assert CallerOk(s, serial); }
    forall k | 0 <= k < |t.history.taken| ensures TakenOk(t, k) { assert TakenOk(s, k); }
  }

  lemma CallKeepsReplies(s: State, payload: nat)
    requires SerialsOk(s) && RepliesOk(s) && |s.history.issued| + 1 < TWO32
    ensures RepliesOk(AfterCall(s, payload))
  {
    var t := AfterCall(s, payload);
    assert !Issued(s, s.currentSerial);
    forall serial | serial in t.callers ensures CallerOk(t, serial) {
      if serial != s.currentSerial { assert CallerOk(s, serial); }
    }
    forall k | 0 <= k < |t.history.taken| ensures TakenOk(t, k) { assert TakenOk(s, k); }
  }

  lemma DirectWriteKeepsReplies(s: State, payload: nat)
    requires SerialsOk(s) && RepliesOk(s) && s.direct.None? && |s.history.issued| + 1 < TWO32
    ensures RepliesOk(AfterDirectWrite(s, payload))
  {
    var t := AfterDirectWrite(s, payload);
    assert !Issued(s, s.currentSerial);
    forall serial | serial in t.callers ensures CallerOk(t, serial) { assert CallerOk(s, serial); }
    forall k | 0 <= k < |t.history.taken| ensures TakenOk(t, k) { assert TakenOk(s, k); }
  }

  lemma DirectReadKeepsReplies(s: State, m: Incoming)
    requires RepliesOk(s) && s.direct.Some?
    ensures RepliesOk(AfterDirectRead(s, m))
  {
    var t := AfterDirectRead(s, m);
    forall serial | serial in t.callers ensures CallerOk(t, serial) { assert CallerOk(s, serial); }
    forall k | 0 <= k < |t.history.taken| ensures TakenOk(t, k) {
      if k < |s.history.taken| { assert TakenOk(s, k); }
      forall j | 0 <= j < k ensures t.history.taken[j].0 != t.history.taken[k].0 { assert TakenOk(s, j); }
    }
  }

  lemma ProcessKeepsReplies(s: State)
    requires RepliesOk(s) && s.incoming != []
    ensures RepliesOk(AfterProcess(s))
  {
    var t := AfterProcess(s);
    forall serial | serial in t.callers ensures CallerOk(t, serial) { assert CallerOk(s, serial); }
    forall k | 0 <= k < |t.history.taken| ensures TakenOk(t, k) { assert TakenOk(s, k); }
  }

  lemma CollectKeepsReplies(s: State, serial: uint32)
    requires RepliesOk(s) && serial in s.callers && s.callers[serial].Woken?
    ensures RepliesOk(AfterCollect(s, serial, s.callers[serial].status))
  {
    var t := AfterCollect(s, serial, s.callers[serial].status);
    assert CallerOk(s, serial);
    forall c | c in t.callers ensures CallerOk(t, c) { assert CallerOk(s, c); }
    forall k | 0 <= k < |t.history.taken| ensures TakenOk(t, k) { assert TakenOk(s, k); }
  }

  lemma OtherKeepsReplies(s: State, e: Event)
    requires RepliesOk(s) && Next(s, e).Some?
    requires e.Flush? || e.DirectFail? || e.Read? || e.Wake? || e.TimeOut?
    ensures RepliesOk(Next(s, e).value)
  {
    var t := Next(s, e).value;
    forall serial | serial in s.callers ensures CallerOk(s, serial) && CallerOk(t, serial) { assert CallerOk(s, serial); }
    forall k | 0 <= k < |t.history.taken| ensures TakenOk(t, k) { assert TakenOk(s, k); }
  }

  lemma RepliesStep(s: State, e: Event)
    requires SerialsOk(s) && RepliesOk(s) && Next(s, e).Some?
    requires |Next(s, e).value.history.issued| < TWO32
    ensures RepliesOk(Next(s, e).value)
  {
    hide RepliesOk, SerialsOk;
    match e
    case Send(payload) => SendKeepsReplies(s, payload);
    case Call(payload) => CallKeepsReplies(s, payload);
    case DirectWrite(payload) => DirectWriteKeepsReplies(s, payload);
    case DirectRead(kind, rs) => DirectReadKeepsReplies(s, Incoming(|s.history.arrived|, kind, rs));
    case Process => ProcessKeepsReplies(s);
    case Collect(serial) => CollectKeepsReplies(s, serial);
    case _ => OtherKeepsReplies(s, e);
  }

  // ----- incoming messages -----

  predicate WasTaken(ts: seq<(uint32, Incoming)>, m: Incoming) { exists k :: 0 <= k < |ts| && ts[k].1 == m }

  /** The messages read that no direct call took, in the order they arrived. */
  function Untaken(ms: seq<Incoming>, ts: seq<(uint32, Incoming)>): seq<Incoming> {
    if ms == [] then []
    else if WasTaken(ts, ms[0]) then Untaken(ms[1..], ts) else [ms[0]] + Untaken(ms[1..], ts)
  }

  lemma {:induction false} UntakenSplit(a: seq<Incoming>, b: seq<Incoming>, ts: seq<(uint32, Incoming)>)
    ensures Untaken(a + b, ts) == Untaken(a, ts) + Untaken(b, ts)
  {
    if a == [] {
      assert [] + b == b;
    } else {
      hide Untaken, WasTaken;
      UntakenSplit(a[1..], b, ts);
      assert (a + b)[1..] == a[1..] + b;
      UntakenByHead(a, ts);
      UntakenByHead(a + b, ts);
      Associative([a[0]], Untaken(a[1..], ts), Untaken(b, ts));
    }
  }

  lemma UntakenByHead(ms: seq<Incoming>, ts: seq<(uint32, Incoming)>)
    requires ms != []
    ensures Untaken(ms, ts) == if WasTaken(ts, ms[0]) then Untaken(ms[1..], ts) else [ms[0]] + Untaken(ms[1..], ts)
  {
    hide WasTaken;
  }

  /** A newly taken message changes nothing for messages other than itself. */
  lemma {:induction false} UntakenMore(ms: seq<Incoming>, ts: seq<(uint32, Incoming)>, more: (uint32, Incoming))
    requires more.1 !in ms
    ensures Untaken(ms, ts + [more]) == Untaken(ms, ts)
  {
    if ms != [] {
      UntakenMore(ms[1..], ts, more);
      var all := ts + [more];
      assert WasTaken(all, ms[0]) <==> WasTaken(ts, ms[0]) by {
        if WasTaken(ts, ms[0]) {
          var k :| 0 <= k < |ts| && ts[k].1 == ms[0];
          assert all[k].1 == ms[0];
        }
      }
    }
  }

  ghost predicate ArrivalsOk(s: State) {
    && (forall i :: 0 <= i < |s.history.arrived| ==> s.history.arrived[i].id == i)
    && (forall k :: 0 <= k < |s.history.taken| ==> s.history.taken[k].1 in s.history.arrived)
    && s.history.processed + s.incoming == Untaken(s.history.arrived, s.history.taken)
  }

  lemma FreshArrival(s: State, m: Incoming)
    requires ArrivalsOk(s) && m.id == |s.history.arrived|
    ensures m !in s.history.arrived && !WasTaken(s.history.taken, m)
    ensures Untaken([m], s.history.taken) == [m]
  {
    assert [m][1..] == [];
  }

  lemma PutAsideKeeps(s: State, m: Incoming)
    requires ArrivalsOk(s) && m.id == |s.history.arrived|
    ensures ArrivalsOk(AfterRead(s, m))
  {
    FreshArrival(s, m);
    UntakenSplit(s.history.arrived, [m], s.history.taken);
    Associative(s.history.processed, s.incoming, [m]);
  }

  lemma TakeKeeps(s: State, m: Incoming)
    requires ArrivalsOk(s) && m.id == |s.history.arrived| && s.direct.Some? && Answers(m, s.direct.value)
    ensures ArrivalsOk(AfterDirectRead(s, m))
  {
    var h := s.history;
    var more := (s.direct.value, m);
    var ts := h.taken + [more];
    FreshArrival(s, m);
    UntakenMore(h.arrived, h.taken, more);
    UntakenSplit(h.arrived, [m], ts);
    assert ts[|h.taken|].1 == m;
    assert WasTaken(ts, m) && [m][1..] == [] && Untaken([m], ts) == [];
    var t := AfterDirectRead(s, m);
    assert t.history.taken == ts && t.history.arrived == h.arrived + [m];
    assert m in t.history.arrived;
    assert Untaken(t.history.arrived, ts) == Untaken(h.arrived, h.taken);
  }

  lemma ArrivalsStep(s: State, e: Event)
    requires ArrivalsOk(s) && Next(s, e).Some?
    ensures ArrivalsOk(Next(s, e).value)
  {
    match e
    case DirectRead(kind, rs) =>
      var m := Incoming(|s.history.arrived|, kind, rs);
      if Answers(m, s.direct.value) { TakeKeeps(s, m); } else { PutAsideKeeps(s, m); }
    case Read(kind, rs) => PutAsideKeeps(s, Incoming(|s.history.arrived|, kind, rs));
    case Process =>
      assert s.history.processed + [s.incoming[0]] + s.incoming[1..] == s.history.processed + s.incoming;
    case _ =>
      var t := Next(s, e).value;
      assert t.history.arrived == s.history.arrived && t.history.taken == s.history.taken;
      assert t.history.processed == s.history.processed && t.incoming == s.incoming;
  }

  // ----- every run -----

  ghost predicate Safe(s: State) {
    SerialsOk(s) && SerialsKept(s) && OrderKept(s) && RepliesOk(s) && ArrivalsOk(s)
  }

  lemma {:induction false} EveryRunIsSafe(es: seq<Event>)
    requires Run(es).Some? && |Run(es).value.history.issued| < TWO32
    ensures Safe(Run(es).value)
  {
    if es != [] {
      var before := es[..|es| - 1];
      var s, e := Run(before).value, es[|es| - 1];
      MoreIssued(s, e);
      EveryRunIsSafe(before);
      hide Next, SerialsOk, SerialsKept, OrderKept, RepliesOk, ArrivalsOk;
      CountsUp(s, e);
      SerialsStep(s, e);
      RepliesStep(s, e);
      ArrivalsStep(s, e);
    }
  }

  lemma MoreIssued(s: State, e: Event)
    requires Next(s, e).Some?
    ensures |s.history.issued| <= |Next(s, e).value.history.issued|
  {
  }

  /** Serial conservation, in every run with fewer than 2^32 serials handed out: they are nonzero
      and distinct, each is exactly once in the queue or among the writes, and queued messages are
      written in the order they were queued. */
  lemma SerialConservation(es: seq<Event>)
    requires Run(es).Some? && |Run(es).value.history.issued| < TWO32
    ensures var s := Run(es).value;
            && (forall i :: 0 <= i < |s.history.issued| ==> s.history.issued[i] != 0)
            && (forall i, j :: 0 <= i < j < |s.history.issued| ==> s.history.issued[i] != s.history.issued[j])
            && multiset(Serials(s.outgoing)) + multiset(Serials(s.history.written)) == multiset(s.history.issued)
            && ThroughQueue(s.history.written) + s.outgoing == s.history.queued
  {
    EveryRunIsSafe(es);
  }

  // ----- beyond 2^32 serials -----

  const LAST_SERIAL: uint32 := 0xFFFF_FFFF

  /** Serials go up by one and wrap to 0, or from the last one straight to 1. */
  predicate Follows(serial: uint32, before: uint32) {
    serial == Increment(before) || (before == LAST_SERIAL && serial == 1)
  }

  ghost predicate Wound(s: State) {
    var n := |s.history.issued|;
    && s.currentSerial == (if n == 0 then 1 else Increment(s.history.issued[n - 1]))
    && (n > 0 ==> s.history.issued[0] == 1)
    && (forall i :: 0 < i < n ==> Follows(s.history.issued[i], s.history.issued[i - 1]))
  }

  predicate Allocates(e: Event) { e.Send? || e.Call? || e.DirectWrite? }

  lemma StepWinds(s: State, e: Event)
    requires Wound(s) && Next(s, e).Some?
    ensures Wound(Next(s, e).value)
  {
    var t := Next(s, e).value;
    if Allocates(e) {
      var serial := if e.Send? && s.currentSerial == 0 then 1 else s.currentSerial;
      assert t.history.issued == s.history.issued + [serial] && t.currentSerial == Increment(serial);
    } else {
      assert t.history.issued == s.history.issued && t.currentSerial == s.currentSerial;
    }
  }

  /** In every run, of any length: serials follow each other, each is exactly once in the queue or
      among the writes, and queued messages are written in the order they were queued. */
  lemma {:induction false} ConservedForever(es: seq<Event>)
    requires Run(es).Some?
    ensures Wound(Run(es).value) && SerialsKept(Run(es).value) && OrderKept(Run(es).value)
  {
    if es != [] {
      var before := es[..|es| - 1];
      ConservedForever(before);
      hide Next, Wound, SerialsKept, OrderKept;
      StepWinds(Run(before).value, es[|es| - 1]);
      SerialsStep(Run(before).value, es[|es| - 1]);
    }
  }

  predicate LastIssued(s: State) { s.history.issued != [] && s.history.issued[|s.history.issued| - 1] == LAST_SERIAL }

  /** The `k`-th event is a call, by any thread, right after the last serial was handed out. */
  predicate TurnsOver(es: seq<Event>, k: nat) {
    k < |es| && (es[k].Call? || es[k].DirectWrite?) && Run(es[..k]).Some? && LastIssued(Run(es[..k]).value)
  }

  lemma ZeroStep(s: State, e: Event)
    requires Wound(s) && Next(s, e).Some?
    ensures var h, h' := s.history.issued, Next(s, e).value.history.issued;
            if Allocates(e) then
              |h'| == |h| + 1 && h'[..|h|] == h && (h'[|h|] == 0 <==> LastIssued(s) && (e.Call? || e.DirectWrite?))
            else h' == h
  {
    assert s.currentSerial == 0 <==> LastIssued(s);
  }

  predicate NoneZero(issued: seq<uint32>) { forall i :: 0 <= i < |issued| ==> issued[i] != 0 }

  predicate NeverTurnsOver(es: seq<Event>) { forall k :: 0 <= k < |es| ==> !TurnsOver(es, k) }

  lemma TurnsOverBefore(es: seq<Event>)
    requires es != []
    ensures var before := es[..|es| - 1];
            NeverTurnsOver(es) <==> NeverTurnsOver(before) && !TurnsOver(es, |before|)
  {
    hide Run;
    var before := es[..|es| - 1];
    forall k | 0 <= k < |before| ensures TurnsOver(es, k) == TurnsOver(before, k) { assert es[..k] == before[..k]; }
  }

  /** In every run, of any length, all serials are nonzero if and only if no call comes right after
      the last serial; a plain send in that place skips 0. */
  lemma {:induction false} NonzeroIff(es: seq<Event>)
    requires Run(es).Some?
    ensures NoneZero(Run(es).value.history.issued) <==> NeverTurnsOver(es)
  {
    if es != [] {
      var before := es[..|es| - 1];
      var s, e := Run(before).value, es[|es| - 1];
      NonzeroIff(before);
      ConservedForever(before);
      TurnsOverBefore(es);
      hide Next, Wound, NeverTurnsOver, LastIssued;
      ZeroStep(s, e);
      NoneZeroMore(s.history.issued, Next(s, e).value.history.issued);
    }
  }

  lemma NoneZeroMore(h: seq<uint32>, more: seq<uint32>)
    requires |h| <= |more| <= |h| + 1 && more[..|h|] == h
    ensures NoneZero(more) <==> NoneZero(h) && (|more| > |h| ==> more[|h|] != 0)
  {
    forall i | 0 <= i < |h| ensures more[i] == h[i] { assert more[..|h|][i] == more[i]; }
  }

  /** A caller that finished with this reply, from another thread. */
  predicate Got(s: State, c: uint32, m: Incoming) { c in s.callers && s.callers[c] == Finished(Some(m)) }

  /** The dispatching thread took this reply for this serial. */
  predicate Took(s: State, c: uint32, m: Incoming) { (c, m) in s.history.taken }

  // ----- who gets which reply, in runs of any length -----

  /** Every reply that is kept, handed over or taken directly answers the call it is kept under. */
  ghost predicate AnswersHeld(s: State) {
    && (forall c :: c in s.expecting && s.expecting[c].Some? ==> ReplyHeld(s, c, s.expecting[c].value))
    && (forall c, m :: Got(s, c, m) ==> ReplyHeld(s, c, m))
    && (forall k :: 0 <= k < |s.history.taken| ==> Answers(s.history.taken[k].1, s.history.taken[k].0))
  }

  lemma AnswersStep(s: State, e: Event)
    requires AnswersHeld(s) && Next(s, e).Some?
    ensures AnswersHeld(Next(s, e).value)
  {
    var t := Next(s, e).value;
    forall c, m | Got(t, c, m) ensures ReplyHeld(t, c, m) {
      if Got(s, c, m) { assert ReplyHeld(s, c, m); } else { assert e.Collect? && e.serial == c; }
    }
  }

  lemma {:induction false} HeldForever(es: seq<Event>)
    requires Run(es).Some?
    ensures AnswersHeld(Run(es).value) && ArrivalsOk(Run(es).value)
  {
    if es != [] {
      var before := es[..|es| - 1];
      HeldForever(before);
      hide Next, AnswersHeld, ArrivalsOk;
      AnswersStep(Run(before).value, es[|es| - 1]);
      ArrivalsStep(Run(before).value, es[|es| - 1]);
    }
  }

  lemma {:induction false} UntakenNotTaken(ms: seq<Incoming>, ts: seq<(uint32, Incoming)>, m: Incoming)
    requires m in Untaken(ms, ts)
    ensures !WasTaken(ts, m)
  {
    hide WasTaken;
    UntakenByHead(ms, ts);
    if m in Untaken(ms[1..], ts) { UntakenNotTaken(ms[1..], ts, m); }
  }

  lemma GotAnswers(s: State, c: uint32, m: Incoming)
    requires AnswersHeld(s) && ArrivalsOk(s) && Got(s, c, m)
    ensures Answers(m, c) && m in s.history.arrived && !WasTaken(s.history.taken, m)
  {
    hide WasTaken, Answers, Got;
    assert ReplyHeld(s, c, m);
    ProcessedArrived(s, m);
    assert m in s.history.processed + s.incoming;
    UntakenNotTaken(s.history.arrived, s.history.taken, m);
  }

  lemma TookAnswers(s: State, c: uint32, m: Incoming)
    requires AnswersHeld(s) && ArrivalsOk(s) && Took(s, c, m)
    ensures Answers(m, c) && m in s.history.arrived && WasTaken(s.history.taken, m)
  {
    var k :| 0 <= k < |s.history.taken| && s.history.taken[k] == (c, m);
    assert s.history.taken[k].1 == m;
  }

  /** In every run, of any length: a reply that a caller has or took arrived and answers its serial. */
  lemma RepliesAnswer(es: seq<Event>, c: uint32, m: Incoming)
    requires Run(es).Some? && (Got(Run(es).value, c, m) || Took(Run(es).value, c, m))
    ensures Answers(m, c) && m in Run(es).value.history.arrived
  {
    hide Run, Got, Took, Answers, AnswersHeld, ArrivalsOk, WasTaken;
    HeldForever(es);
    if Got(Run(es).value, c, m) { GotAnswers(Run(es).value, c, m); } else { TookAnswers(Run(es).value, c, m); }
  }

  /** A caller that has not finished has its entry, and one that was woken for a reply has the reply. */
  ghost predicate EntriesKept(s: State) {
    && (forall c :: Awaited(s.callers, c) ==> c in s.expecting)
    && (forall c :: c in s.callers && s.callers[c] == Woken(true) ==> c in s.expecting && s.expecting[c].Some?)
  }

  /** The `k`-th event is a call under a serial that a caller is still waiting under. */
  predicate Overwrites(es: seq<Event>, k: nat) {
    && k < |es| && es[k].Call? && Run(es[..k]).Some?
    && Awaited(Run(es[..k]).value.callers, Run(es[..k]).value.currentSerial)
  }

  predicate NeverOverwrites(es: seq<Event>) { forall k :: 0 <= k < |es| ==> !Overwrites(es, k) }

  lemma OverwritesBefore(es: seq<Event>)
    requires es != []
    ensures var before := es[..|es| - 1];
            NeverOverwrites(es) <==> NeverOverwrites(before) && !Overwrites(es, |before|)
  {
    hide Run;
    var before := es[..|es| - 1];
    forall k | 0 <= k < |before| ensures Overwrites(es, k) == Overwrites(before, k) { assert es[..k] == before[..k]; }
  }

  lemma BreakingStep(s: State, e: Event)
    requires EntriesKept(s) && AnswersHeld(s) && Next(s, e).Some?
    ensures var t := Next(s, e).value;
            && EntriesKept(t)
            && (t.broken <==> s.broken || (e.Call? && Awaited(s.callers, s.currentSerial)))
  {
    if e.Collect? && s.callers[e.serial].status && e.serial in s.expecting {
      assert ReplyHeld(s, e.serial, s.expecting[e.serial].value);
    }
  }

  /** In every run, of any length: every lookup of a waiting caller finds its entry and no
      unreachable branch is reached, if and only if no call is made under a serial that a caller
      is still waiting under. */
  lemma {:induction false} BrokenIff(es: seq<Event>)
    requires Run(es).Some?
    ensures EntriesKept(Run(es).value)
    ensures !Run(es).value.broken <==> NeverOverwrites(es)
  {
    if es != [] {
      var before := es[..|es| - 1];
      BrokenIff(before);
      HeldForever(before);
      OverwritesBefore(es);
      hide Next, EntriesKept, AnswersHeld, NeverOverwrites, Awaited;
      BreakingStep(Run(before).value, es[|es| - 1]);
    }
  }

  /** Reply correlation: no lookup of a waiting caller misses and no unreachable branch is
      reached, and a caller that finishes with a reply, from another thread or directly, has one
      that arrived and answers its own serial. */
  lemma ReplyCorrelation(es: seq<Event>)
    requires Run(es).Some? && |Run(es).value.history.issued| < TWO32
    ensures var s := Run(es).value;
            && !s.broken
            && (forall c :: c in s.callers && !s.callers[c].Finished? ==> c in s.expecting)
            && (forall c, m :: Got(s, c, m) || Took(s, c, m) ==> Answers(m, c) && m in s.history.arrived)
  {
    EveryRunIsSafe(es);
    BrokenIff(es);
    hide Run, Answers, RepliesOk, ArrivalsOk, SerialsOk, SerialsKept, OrderKept, Got, Took;
    var s := Run(es).value;
    NotBroken(s);
    forall c | c in s.callers && !s.callers[c].Finished? ensures c in s.expecting { assert Awaited(s.callers, c); }
    forall c, m | Got(s, c, m) || Took(s, c, m) ensures Answers(m, c) && m in s.history.arrived {
      RepliesAnswer(es, c, m);
    }
  }

  lemma NotBroken(s: State)
    requires RepliesOk(s)
    ensures !s.broken
  {
  }

  /** No reply that arrived goes to two callers, in runs of any length. */
  lemma NoReplyTwice(es: seq<Event>, c: uint32, d: uint32, m: Incoming)
    requires Run(es).Some?
    requires var s := Run(es).value; (Got(s, c, m) || Took(s, c, m)) && (Got(s, d, m) || Took(s, d, m))
    ensures c == d
    ensures !(Got(Run(es).value, c, m) && Took(Run(es).value, d, m))
  {
    hide Run, Got, Took, AnswersHeld, ArrivalsOk, WasTaken;
    var s := Run(es).value;
    RepliesAnswer(es, c, m);
    RepliesAnswer(es, d, m);
    HeldForever(es);
    if Got(s, c, m) && Took(s, d, m) {
      GotAnswers(s, c, m);
      TookAnswers(s, d, m);
      assert false;
    }
  }

  lemma {:induction false} UntakenArrived(ms: seq<Incoming>, ts: seq<(uint32, Incoming)>, m: Incoming)
    requires m in Untaken(ms, ts)
    ensures m in ms
  {
    if ms != [] && m != ms[0] { UntakenArrived(ms[1..], ts, m); }
  }

  lemma ProcessedArrived(s: State, m: Incoming)
    requires ArrivalsOk(s) && m in s.history.processed
    ensures m in s.history.arrived
  {
    assert m in s.history.processed + s.incoming;
    UntakenArrived(s.history.arrived, s.history.taken, m);
  }

  // ----- what the events alone say -----

  /** The kinds and reply serials of the messages that a list of events reads. */
  function Reads(es: seq<Event>): seq<(Kind, uint32)> {
    if es == [] then []
    else Reads(es[..|es| - 1]) + match es[|es| - 1]
                                 case Read(kind, rs) => [(kind, rs)]
                                 case DirectRead(kind, rs) => [(kind, rs)]
                                 case _ => []
  }

  /** In every run, the messages that arrived are exactly those the events read, in order. */
  lemma {:induction false} ArrivedIsRead(es: seq<Event>)
    requires Run(es).Some?
    ensures Run(es).value.history.arrived == Numbering(Reads(es), 0)
  {
    if es != [] {
      ArrivedIsRead(es[..|es| - 1]);
      ArrivesWithStep(Run(es[..|es| - 1]).value, es[|es| - 1], Reads(es[..|es| - 1]));
    }
  }

  lemma ArrivesWithStep(s: State, e: Event, before: seq<(Kind, uint32)>)
    requires Next(s, e).Some? && s.history.arrived == Numbering(before, 0)
    ensures Next(s, e).value.history.arrived
         == match e
            case Read(kind, rs) => Numbering(before + [(kind, rs)], 0)
            case DirectRead(kind, rs) => Numbering(before + [(kind, rs)], 0)
            case _ => Numbering(before + [], 0)
  {
    assert before + [] == before;
  }

  /** Incoming conservation, in runs of any length: the messages the events read are those a
      direct call took as its awaited reply, those processed and those still queued; the processed
      ones and then the queued ones are in the order in which they were read. */
  lemma IncomingConservation(es: seq<Event>)
    requires Run(es).Some?
    ensures var s := Run(es).value;
            && s.history.arrived == Numbering(Reads(es), 0)
            && s.history.processed + s.incoming == Untaken(s.history.arrived, s.history.taken)
            && (forall c, m :: Took(s, c, m) ==> m in s.history.arrived && Answers(m, c))
  {
    hide Run, Answers, Untaken, Took, Numbering, Reads;
    HeldForever(es);
    ArrivedIsRead(es);
    var s := Run(es).value;
    forall c, m | Took(s, c, m) ensures m in s.history.arrived && Answers(m, c) { RepliesAnswer(es, c, m); }
  }

  /** The payloads that a list of events asks to send, and whether directly. */
  function Asked(es: seq<Event>): seq<(nat, bool)> {
    if es == [] then []
    else Asked(es[..|es| - 1]) + Asks(es[|es| - 1])
  }

  function Asks(e: Event): seq<(nat, bool)> {
    match e
    case Send(payload) => [(payload, false)]
    case Call(payload) => [(payload, false)]
    case DirectWrite(payload) => [(payload, true)]
    case _ => []
  }

  /** The messages that were asked for, under the serials handed out. */
  function Made(asked: seq<(nat, bool)>, issued: seq<uint32>): (os: seq<Outgoing>)
    requires |asked| == |issued|
    ensures |os| == |asked|
    ensures forall i :: 0 <= i < |os| ==> os[i] == Outgoing(issued[i], asked[i].0, asked[i].1)
  {
    seq(|asked|, i requires 0 <= i < |asked| => Outgoing(issued[i], asked[i].0, asked[i].1))
  }

  function Directly(os: seq<Outgoing>): seq<Outgoing> {
    if os == [] then []
    else if os[|os| - 1].direct then Directly(os[..|os| - 1]) + [os[|os| - 1]] else Directly(os[..|os| - 1])
  }

  /** In every run, of any length: each event that sends is handed the next serial, and what it asked
      to send goes out under that serial, through the queue or directly, in the order asked. */
  lemma {:induction false} SentAsAsked(es: seq<Event>)
    requires Run(es).Some?
    ensures var s := Run(es).value;
            && |s.history.issued| == |Asked(es)|
            && ThroughQueue(s.history.written) + s.outgoing == ThroughQueue(Made(Asked(es), s.history.issued))
            && Directly(s.history.written) == Directly(Made(Asked(es), s.history.issued))
  {
    if es != [] {
      var before := es[..|es| - 1];
      SentAsAsked(before);
      ConservedForever(before);
      AsksWithStep(Run(before).value, es[|es| - 1], Asked(before));
    }
  }

  lemma DirectlyMore(os: seq<Outgoing>, o: Outgoing)
    ensures Directly(os + [o]) == if o.direct then Directly(os) + [o] else Directly(os)
    ensures ThroughQueue(os + [o]) == if o.direct then ThroughQueue(os) else ThroughQueue(os) + [o]
  {
    assert (os + [o])[..|os|] == os;
    ThroughQueueSplit(os, [o]);
    assert [o][1..] == [];
  }

  lemma {:induction false} DirectlyNone(os: seq<Outgoing>, more: seq<Outgoing>)
    requires NoneDirect(more)
    ensures Directly(os + more) == Directly(os)
    decreases |more|
  {
    if more == [] {
      assert os + more == os;
    } else {
      var k := |more| - 1;
      assert os + more == os + more[..k] + [more[k]];
      DirectlyMore(os + more[..k], more[k]);
      DirectlyNone(os, more[..k]);
    }
  }

  lemma AsksWithStep(s: State, e: Event, asked: seq<(nat, bool)>)
    requires Next(s, e).Some? && |s.history.issued| == |asked| && OrderKept(s)
    requires ThroughQueue(s.history.written) + s.outgoing == ThroughQueue(Made(asked, s.history.issued))
    requires Directly(s.history.written) == Directly(Made(asked, s.history.issued))
    ensures var t, more := Next(s, e).value, asked + Asks(e);
            && |t.history.issued| == |more|
            && ThroughQueue(t.history.written) + t.outgoing == ThroughQueue(Made(more, t.history.issued))
            && Directly(t.history.written) == Directly(Made(more, t.history.issued))
  {
    hide Directly, ThroughQueue;
    var t, made := Next(s, e).value, Made(asked, s.history.issued);
    if Allocates(e) {
      var o := Outgoing(t.history.issued[|asked|], Asks(e)[0].0, Asks(e)[0].1);
      assert Made(asked + Asks(e), t.history.issued) == made + [o];
      DirectlyMore(made, o);
      if e.DirectWrite? {
        DirectlyMore(s.history.written, o);
      } else {
        assert t.outgoing == s.outgoing + [o] && t.history.written == s.history.written;
        Associative(ThroughQueue(s.history.written), s.outgoing, [o]);
      }
    } else {
      assert asked + Asks(e) == asked;
      if e.Flush? {
        ThroughQueueSplit(s.history.written, s.outgoing);
        ThroughQueueAll(s.outgoing);
        DirectlyNone(s.history.written, s.outgoing);
        assert ThroughQueue(t.history.written) + [] == ThroughQueue(t.history.written);
      }
    }
  }

  /** What can happen when: sending always; a direct call and what needs the dispatching thread only
      while no direct call waits, and what ends one only while one does. */
  lemma Enabled(s: State, payload: nat, kind: Kind, rs: uint32)
    ensures Next(s, Send(payload)).Some? && Next(s, Call(payload)).Some? && Next(s, Flush).Some?
    ensures Next(s, DirectWrite(payload)).Some? <==> s.direct.None?
    ensures Next(s, Read(kind, rs)).Some? <==> s.direct.None?
    ensures Next(s, DirectRead(kind, rs)).Some? <==> s.direct.Some?
    ensures Next(s, DirectFail).Some? <==> s.direct.Some?
    ensures Next(s, Process).Some? <==> s.direct.None? && s.incoming != []
    ensures Next(s, DirectFail).Some? ==> Next(s, DirectFail).value == s.(direct := None)
  {
  }

  // ----- replies are delivered -----

  /** The reply that is due to the caller under serial `c`: the last one processed for it since it
      called, and None when there is none or the caller has finished. */
  function Due(es: seq<Event>, c: uint32): Option<Incoming>
    requires Run(es).Some?
  {
    if es == [] then None
    else
      var before, e := es[..|es| - 1], es[|es| - 1];
      var s := Run(before).value;
      match e
      case Call(_) => if s.currentSerial == c then None else Due(before, c)
      case Collect(d) => if d == c then None else Due(before, c)
      case Process =>
        if Awaited(s.callers, c) && Answers(s.incoming[0], c) then Some(s.incoming[0]) else Due(before, c)
      case _ => Due(before, c)
  }

  function Entry(s: State, c: uint32): Option<Incoming> { if c in s.expecting then s.expecting[c] else None }

  /** Entries and callers that have not finished belong together. */
  ghost predicate Paired(s: State) { forall c :: c in s.expecting <==> Awaited(s.callers, c) }

  lemma PairedStep(s: State, e: Event)
    requires Paired(s) && Next(s, e).Some? && !Next(s, e).value.broken
    ensures Paired(Next(s, e).value)
  {
    var t := Next(s, e).value;
    forall c ensures c in t.expecting <==> Awaited(t.callers, c) { assert c in s.expecting <==> Awaited(s.callers, c); }
  }

  /** What a step does to the entry of one caller. */
  lemma EntryStep(s: State, e: Event, c: uint32)
    requires Paired(s) && Next(s, e).Some? && !Next(s, e).value.broken
    ensures Entry(Next(s, e).value, c)
         == match e
            case Call(_) => if s.currentSerial == c then None else Entry(s, c)
            case Collect(d) => if d == c then None else Entry(s, c)
            case Process =>
              if Awaited(s.callers, c) && Answers(s.incoming[0], c) then Some(s.incoming[0]) else Entry(s, c)
            case _ => Entry(s, c)
  {
  }

  lemma NotBrokenBefore(s: State, e: Event)
    requires Next(s, e).Some? && !Next(s, e).value.broken
    ensures !s.broken
  {
  }

  lemma {:induction false} EntryIsDue(es: seq<Event>, c: uint32)
    requires Run(es).Some? && !Run(es).value.broken
    ensures Paired(Run(es).value) && Entry(Run(es).value, c) == Due(es, c)
  {
    if es != [] {
      var before, e := es[..|es| - 1], es[|es| - 1];
      NotBrokenBefore(Run(before).value, e);
      EntryIsDue(before, c);
      PairedStep(Run(before).value, e);
      EntryStep(Run(before).value, e, c);
    }
  }

  /** Delivery, in every run without an overwritten entry: a waiting caller is woken for a reply
      exactly when one is due to it, times out exactly when none is, and after it was woken for one
      finishes with the reply that is due. */
  lemma RepliesDelivered(es: seq<Event>, c: uint32)
    requires Run(es).Some? && NeverOverwrites(es) && c in Run(es).value.callers
    ensures var s, due := Run(es).value, Due(es, c);
            && (s.callers[c] == Waiting ==> (due.Some? <==> Next(s, Wake(c)).Some?))
            && (s.callers[c] == Waiting ==> (due.None? <==> Next(s, TimeOut(c)).Some?))
            && (s.callers[c] == Waiting && due.Some? ==> Next(s, Wake(c)).value.callers[c] == Woken(true))
            && (s.callers[c] == Woken(true) ==>
                  && Next(s, Collect(c)).Some? && due.Some? && ReplyHeld(s, c, due.value)
                  && Next(s, Collect(c)).value.callers[c] == Finished(due))
            && (s.callers[c] == Woken(false) ==>
                  Next(s, Collect(c)).Some? && Next(s, Collect(c)).value.callers[c] == Finished(None))
  {
    hide Run, Due;
    BrokenIff(es);
    EntryIsDue(es, c);
    HeldForever(es);
    var s := Run(es).value;
    assert c in s.expecting <==> Awaited(s.callers, c);
    if c in s.expecting && s.expecting[c].Some? { assert ReplyHeld(s, c, s.expecting[c].value); }
  }

  // ----- the locked regions as they run -----

  class Connection {
    var currentSerial: uint32
    var outgoing: seq<Outgoing>
    var incoming: seq<Incoming>
    var expecting: map<uint32, Option<Incoming>>
    ghost var direct: Option<uint32>
    ghost var callers: map<uint32, Caller>
    ghost var broken: bool
    var history: History

    constructor ()
      ensures View() == START
    {
      currentSerial, outgoing, incoming, expecting := 1, [], [], map[];
      direct, callers, broken, history := None, map[], false, START.history;
    }

    ghost function View(): State
      reads this
    {
      State(currentSerial, outgoing, incoming, expecting, direct, callers, broken, history)
    }

    /** `send`, up to the wakeup: serial 0 is skipped. */
    method Send(payload: nat) returns (serial: uint32)
      modifies this
      ensures View() == AfterSend(old(View()), payload)
      ensures serial == if old(currentSerial) == 0 then 1 else old(currentSerial)
      ensures currentSerial == if serial == 0xFFFF_FFFF then 0 else serial + 1
      ensures outgoing == old(outgoing) + [Outgoing(serial, payload, false)]
      ensures expecting == old(expecting) && incoming == old(incoming)
    {
      if currentSerial == 0 { currentSerial := 1; }
      serial := Push(payload);
    }

    /** The region that both kinds of senders share: take the serial, count on, queue. */
    method Push(payload: nat) returns (serial: uint32)
      modifies this
      ensures View() == Queue(old(View()), old(currentSerial), payload)
      ensures serial == old(currentSerial)
    {
      serial := currentSerial;
      currentSerial := Increment(currentSerial);
      outgoing := outgoing + [Outgoing(serial, payload, false)];
      history := history.(issued := history.issued + [serial], queued := history.queued + [Outgoing(serial, payload, false)]);
    }

    /** The region of a call from another thread, under both locks. */
    method QueueCall(payload: nat) returns (serial: uint32)
      modifies this
      ensures View() == AfterCall(old(View()), payload)
      ensures serial == old(currentSerial)
      ensures currentSerial == if serial == 0xFFFF_FFFF then 0 else serial + 1
      ensures outgoing == old(outgoing) + [Outgoing(serial, payload, false)]
      ensures expecting == old(expecting)[serial := None] && callers == old(callers)[serial := Waiting]
      ensures incoming == old(incoming)
    {
      serial := Push(payload);
      expecting := expecting[serial := None];
      broken := broken || Awaited(callers, serial);
      callers := callers[serial := Waiting];
    }

    /** `flush`: the queue is emptied front to back under the lock. */
    method Flush()
      modifies this
      ensures View() == AfterFlush(old(View()))
      ensures outgoing == [] && history.written == old(history.written) + old(outgoing)
      ensures incoming == old(incoming) && expecting == old(expecting) && callers == old(callers)
    {
      ghost var was := View();
      assert outgoing + [] == outgoing;
      while outgoing != []
        invariant View() == was.(outgoing := outgoing, history := was.history.(written := history.written))
        invariant history.written + outgoing == was.history.written + was.outgoing
        decreases |outgoing|
      {
        var front := outgoing[0];
        outgoing := outgoing[1..];
        history := history.(written := history.written + [front]);
      }
    }

    method WriteSingleMessage(payload: nat) returns (serial: uint32)
      modifies this
      ensures View() == AfterDirectWrite(old(View()), payload)
      ensures serial == old(currentSerial) && direct == Some(serial)
      ensures currentSerial == if serial == 0xFFFF_FFFF then 0 else serial + 1
      ensures history.written == old(history.written) + [Outgoing(serial, payload, true)]
      ensures outgoing == old(outgoing) && incoming == old(incoming) && expecting == old(expecting)
    {
      serial := currentSerial;
      currentSerial := Increment(currentSerial);
      history := history.(issued := history.issued + [serial], written := history.written + [Outgoing(serial, payload, true)]);
      direct := Some(serial);
    }

    /** The loop of a direct call over the messages that come in: it ends with the first that
        answers the serial; the ones before it are put aside, in order. */
    method ReadUntilReply(serial: uint32, stream: seq<(Kind, uint32)>) returns (reply: Option<Incoming>)
      requires direct == Some(serial)
      modifies this
      ensures ReadUntil(old(View()), stream) == View()
      ensures reply.Some? ==> Answers(reply.value, serial) && direct == None
      ensures reply.Some? ==> history.taken == old(history.taken) + [(serial, reply.value)]
      ensures reply == None ==> direct == Some(serial)
      ensures reply == None <==>
                forall k :: 0 <= k < |stream| ==> !((stream[k].0 == RETURN || stream[k].0 == ERROR) && stream[k].1 == serial)
      ensures PutAside(old(View()), View(), serial, stream)
    {
      ghost var was := View();
      PutsAside(was, serial, stream);
      hide PutAside, ReadUntil, Before, Numbering;
      reply := None;
      for i := 0 to |stream|
        invariant direct == Some(serial) && reply == None && history.taken == was.history.taken
        invariant ReadUntil(was, stream) == ReadUntil(View(), stream[i..])
        invariant forall k :: 0 <= k < i ==> !Matches(stream[k], serial)
      {
        assert stream[i..][0] == stream[i] && stream[i..][1..] == stream[i + 1..];
        var m := Incoming(|history.arrived|, stream[i].0, stream[i].1);
        ReadsOne(View(), serial, stream[i..]);
        ghost var next := AfterDirectRead(View(), m);
        history := history.(arrived := history.arrived + [m]);
        if (m.kind == ERROR || m.kind == RETURN) && m.replySerial == serial {
          history := history.(taken := history.taken + [(serial, m)]);
          direct := None;
          assert View() == next;
          return Some(m);
        }
        incoming := incoming + [m];
        assert View() == next;
      }
      assert stream[|stream|..] == [];
      NothingRead(View(), serial);
    }

    /** `process_single_message`: pops one message and stores it with the caller that expects it;
        `rest` is a message to route to a handler. */
    method ProcessSingleMessage() returns (rest: Option<Incoming>)
      modifies this
      ensures if old(incoming) == [] then View() == old(View()) && rest == None
              else View() == AfterProcess(old(View()))
                   && rest == if IsReply(old(incoming)[0]) then None else Some(old(incoming)[0])
      ensures old(incoming) != [] ==>
                && incoming == old(incoming)[1..] && history.processed == old(history.processed) + [old(incoming)[0]]
                && var m := old(incoming)[0];
                   expecting == if (m.kind == RETURN || m.kind == ERROR) && m.replySerial in old(expecting)
                                then old(expecting)[m.replySerial := Some(m)] else old(expecting)
      ensures callers == old(callers) && outgoing == old(outgoing)
    {
      if incoming == [] { return None; }
      var m := incoming[0];
      incoming := incoming[1..];
      history := history.(processed := history.processed + [m]);
      if m.kind == RETURN || m.kind == ERROR {
        if m.replySerial in expecting { expecting := expecting[m.replySerial := Some(m)]; }
        return None;
      }
      rest := Some(m);
    }
  }

  predicate Matches(x: (Kind, uint32), serial: uint32) { (x.0 == RETURN || x.0 == ERROR) && x.1 == serial }

  /** How many messages come before the first that answers the serial. */
  function Before(stream: seq<(Kind, uint32)>, serial: uint32): (n: nat)
    ensures n <= |stream|
    ensures n < |stream| ==> (stream[n].0 == RETURN || stream[n].0 == ERROR) && stream[n].1 == serial
    ensures forall k :: 0 <= k < n ==> !((stream[k].0 == RETURN || stream[k].0 == ERROR) && stream[k].1 == serial)
  {
    if stream == [] || Matches(stream[0], serial) then 0
    else
      assert forall k :: 0 < k < |stream| ==> stream[k] == stream[1..][k - 1];
      1 + Before(stream[1..], serial)
  }

  /** Messages as they are read, numbered from `id`. */
  function Numbering(stream: seq<(Kind, uint32)>, id: nat): (ms: seq<Incoming>)
    ensures |ms| == |stream|
    ensures forall i :: 0 <= i < |ms| ==> ms[i] == Incoming(id + i, stream[i].0, stream[i].1)
  {
    seq(|stream|, i requires 0 <= i < |stream| => Incoming(id + i, stream[i].0, stream[i].1))
  }

  lemma NumberingByHead(stream: seq<(Kind, uint32)>, id: nat)
    requires stream != []
    ensures Numbering(stream, id) == [Incoming(id, stream[0].0, stream[0].1)] + Numbering(stream[1..], id + 1)
  {
  }

  /** The messages before the answer are queued behind what was queued already, in order, the answer is
      taken, and nothing after it is read. */
  ghost predicate PutAside(s: State, t: State, serial: uint32, stream: seq<(Kind, uint32)>) {
    var n, id := Before(stream, serial), |s.history.arrived|;
    && t.incoming == s.incoming + Numbering(stream[..n], id)
    && t.history.arrived == s.history.arrived + Numbering(stream[..if n < |stream| then n + 1 else n], id)
    && t.history.taken
         == s.history.taken + if n < |stream| then [(serial, Incoming(id + n, stream[n].0, stream[n].1))] else []
  }

  /** The loop of a direct call puts aside what comes before the answer, and takes the answer. */
  lemma {:induction false} PutsAside(s: State, serial: uint32, stream: seq<(Kind, uint32)>)
    requires s.direct == Some(serial)
    ensures PutAside(s, ReadUntil(s, stream), serial, stream)
    decreases |stream|
  {
    hide Before, Numbering, ReadUntil, AfterDirectRead, Matches;
    if stream == [] {
      NothingRead(s, serial);
    } else {
      var m, n, id := Incoming(|s.history.arrived|, stream[0].0, stream[0].1), Before(stream, serial), |s.history.arrived|;
      ReadsOne(s, serial, stream);
      if Matches(stream[0], serial) {
        assert stream[..1] == [stream[0]] && stream[..0] == [] && stream[..1][1..] == [];
        NumberingByHead(stream[..1], id);
        NumberingNone(id);
      } else {
        PutsAside(AfterDirectRead(s, m), serial, stream[1..]);
        assert stream[..n][1..] == stream[1..][..n - 1];
        NumberingByHead(stream[..n], id);
        Associative(s.incoming, [m], Numbering(stream[1..][..n - 1], id + 1));
        Associative(s.history.arrived, [m], Numbering(stream[1..][..n - 1], id + 1));
        if n < |stream| {
          assert stream[..n + 1][1..] == stream[1..][..n];
          NumberingByHead(stream[..n + 1], id);
          Associative(s.history.arrived, [m], Numbering(stream[1..][..n], id + 1));
          assert stream[n] == stream[1..][n - 1];
        }
      }
    }
  }

  lemma NumberingNone(id: nat)
    ensures Numbering([], id) == []
  {
  }

  lemma NothingRead(s: State, serial: uint32)
    ensures ReadUntil(s, []) == s && Before([], serial) == 0
    ensures s.incoming + Numbering([], |s.history.arrived|) == s.incoming
    ensures s.history.arrived + Numbering([], |s.history.arrived|) == s.history.arrived
    ensures s.history.taken + [] == s.history.taken
  {
    NumberingNone(|s.history.arrived|);
  }

  /** One round of the loop. */
  lemma ReadsOne(s: State, serial: uint32, stream: seq<(Kind, uint32)>)
    requires s.direct == Some(serial) && stream != []
    ensures var m := Incoming(|s.history.arrived|, stream[0].0, stream[0].1);
            var t := AfterDirectRead(s, m);
            && t.history.arrived == s.history.arrived + [m]
            && if Matches(stream[0], serial) then
                 Before(stream, serial) == 0 && ReadUntil(s, stream) == t && t.incoming == s.incoming
                 && t.history.taken == s.history.taken + [(serial, m)] && t.incoming + [] == s.incoming
               else
                 Before(stream, serial) == Before(stream[1..], serial) + 1 && ReadUntil(s, stream) == ReadUntil(t, stream[1..])
                 && t.direct == s.direct && t.incoming == s.incoming + [m] && t.history.taken == s.history.taken
  {
  }

  /** The direct-call loop over a stream of messages. */
  function ReadUntil(s: State, stream: seq<(Kind, uint32)>): State
    decreases |stream|
  {
    if stream == [] || s.direct.None? then s
    else ReadUntil(AfterDirectRead(s, Incoming(|s.history.arrived|, stream[0].0, stream[0].1)), stream[1..])
  }
}
