/** The dispatcher thread and the bytes that wake it (standalonedispatcher.cpp, and the notifying
    half of connection.cpp). Senders on other threads queue a message and then signal; the
    dispatcher blocks in poll until a byte or a message comes in. */
module Wakeups {
  import opened Bytes

  /** Where the dispatcher thread is: blocked in poll; in the loop over its connections, at
      connection `at` and before or after the flush of a `dispatch`; after the dispatches of a
      connection, about to look at its status; or gone. */
  datatype Phase = Polling | Dispatching(at: nat, flushed: bool) | Checking(at: nat) | Stopped

  /** Per connection: messages queued, senders that have queued but not yet signalled, and
      whether its dispatch status is complete. `bytes` wait unread in the socket pair, which
      holds at most `capacity`. A handler on the dispatcher thread that sends dispatches that
      connection on the spot: `unflushed` is the one it has just sent on, `nested` are the
      dispatches it is in the middle of. */
  datatype State = State(
    queued: seq<nat>,
    pending: seq<nat>,
    complete: seq<bool>,
    bytes: nat,
    capacity: nat,
    phase: Phase,
    unflushed: Option<nat>,
    nested: seq<nat>,
    running: bool)

  datatype Event =
    | Push(c: nat)
    | Signal(c: nat)
    | Add(messages: nat)
    | Stop
    | PollReturns
    | Flush
    | OwnSend(c: nat)
    | OwnFlush
    | OwnStatus(incomingEmpty: bool)
    | Status(incomingEmpty: bool, limitReached: bool)
    | Finish

  predicate WellFormed(s: State) {
    && |s.queued| == |s.pending| == |s.complete| && s.capacity >= 1 && s.bytes <= s.capacity
    && (forall i :: 0 <= i < |s.nested| ==> s.nested[i] < |s.queued|)
    && (s.unflushed.Some? ==> s.unflushed.value < |s.queued|)
    && (!Settled(s) ==> s.phase.Dispatching? && s.phase.flushed)
    && (s.phase.Dispatching? || s.phase.Checking? ==> s.phase.at < |s.queued|)
  }

  /** The dispatcher thread is not inside a handler that sends. */
  predicate Settled(s: State) { s.unflushed == None && s.nested == [] }

  /** `wakeup_thread`: a write that finds the socket full is dropped. */
  function Wakened(s: State): State {
    s.(bytes := if s.bytes < s.capacity then s.bytes + 1 else s.bytes)
  }

  /** The start of an iteration over the connections from `at`. */
  function Visit(s: State, at: nat): State {
    if at < |s.queued| then s.(phase := Dispatching(at, false))
    else s.(phase := if s.running then Polling else Stopped)
  }

  /** Other threads: one queues a message, and later signals; one adds a connection, perhaps with
      messages queued; one stops the dispatcher. */
  function SenderStep(s: State, e: Event): (r: Option<State>)
    requires WellFormed(s)
    ensures r.Some? ==> WellFormed(r.value)
  {
    match e
    case Push(c) =>
      if c >= |s.queued| then None
      else Some(s.(queued := s.queued[c := s.queued[c] + 1], pending := s.pending[c := s.pending[c] + 1]))
    case Signal(c) =>
      if c >= |s.queued| || s.pending[c] == 0 then None
      else Some(Wakened(s.(pending := s.pending[c := s.pending[c] - 1], complete := s.complete[c := false])))
    case Add(messages) =>
      if s.phase != Polling then None
      else
        Some(Wakened(s.(queued := s.queued + [messages], pending := s.pending + [0], complete := s.complete + [false])))
    case Stop => Some(Wakened(s.(running := false)))
    case _ => None
  }

  /** A handler on the dispatcher thread sends on some connection, and that dispatches it: flush,
      perhaps more handlers, and the status. */
  function HandlerStep(s: State, e: Event): (r: Option<State>)
    requires WellFormed(s)
    ensures r.Some? ==> WellFormed(r.value)
  {
    match e
    case OwnSend(c) =>
      if c >= |s.queued| || !s.phase.Dispatching? || !s.phase.flushed || s.unflushed.Some? then None
      else Some(s.(queued := s.queued[c := s.queued[c] + 1], unflushed := Some(c), complete := s.complete[c := false]))
    case OwnFlush =>
      if s.unflushed == None then None
      else
        var c := s.unflushed.value;
        Some(s.(queued := s.queued[c := 0], unflushed := None, nested := s.nested + [c]))
    case OwnStatus(incomingEmpty) =>
      if s.nested == [] || s.unflushed.Some? then None
      else
        var c := s.nested[|s.nested| - 1];
        Some(s.(nested := s.nested[..|s.nested| - 1], complete := s.complete[c := s.queued[c] == 0 && incomingEmpty]))
    case _ => None
  }

  /** The dispatcher thread: poll returns for a byte, which is read, or for a message on some
      connection; each connection is dispatched, flush first, until its status is complete or
      the limit is reached, and one left incomplete makes the thread wake itself. */
  function DispatcherStep(s: State, e: Event): (r: Option<State>)
    requires WellFormed(s)
    ensures r.Some? ==> WellFormed(r.value)
  {
    match e
    case PollReturns =>
      if s.phase != Polling then None
      else Some(Visit(s.(bytes := if s.bytes > 0 then s.bytes - 1 else 0), 0))
    case Flush =>
      if !s.phase.Dispatching? || s.phase.flushed then None
      else Some(s.(queued := s.queued[s.phase.at := 0], phase := Dispatching(s.phase.at, true)))
    case Status(incomingEmpty, limitReached) =>
      if !s.phase.Dispatching? || !s.phase.flushed || !Settled(s) then None
      else
        var c := s.phase.at;
        var done := s.queued[c] == 0 && incomingEmpty;
        Some(s.(complete := s.complete[c := done],
                phase := if done || limitReached then Checking(c) else Dispatching(c, false)))
    case Finish =>
      if !s.phase.Checking? then None
      else
        var c := s.phase.at;
        Some(Visit(if s.complete[c] then s else Wakened(s), c + 1))
    case _ => None
  }

  /** What an event does, or `None` where it cannot happen. */
  function Next(s: State, e: Event): (r: Option<State>)
    requires WellFormed(s)
    ensures r.Some? ==> WellFormed(r.value)
  {
    if e.Push? || e.Signal? || e.Add? || e.Stop? then SenderStep(s, e)
    else if e.OwnSend? || e.OwnFlush? || e.OwnStatus? then HandlerStep(s, e)
    else DispatcherStep(s, e)
  }

  /** The dispatcher will still flush or report this connection before it blocks again. */
  predicate StillToCome(s: State, c: nat)
    requires WellFormed(s) && c < |s.queued|
  {
    match s.phase
    case Dispatching(at, _) => c >= at
    case Checking(at) => c > at || (c == at && !s.complete[c])
    case _ => false
  }

  /** Each connection with queued messages is covered. */
  ghost predicate Covered(s: State)
    requires WellFormed(s)
  {
    forall c :: 0 <= c < |s.queued| && s.queued[c] > 0 ==>
      s.phase == Stopped || s.bytes > 0 || s.pending[c] > 0 || s.unflushed == Some(c) || StillToCome(s, c)
  }

  lemma StepKeepsCovered(s: State, e: Event)
    requires WellFormed(s) && Covered(s) && Next(s, e).Some?
    ensures Covered(Next(s, e).value)
  {
  }

  /** The dispatcher thread starts at poll with nothing queued that nobody signals; adding a
      connection leaves a byte. */
  predicate Initial(s: State) {
    && WellFormed(s) && s.phase == Polling && Settled(s)
    && forall c :: 0 <= c < |s.queued| && s.queued[c] > 0 ==> s.bytes > 0 || s.pending[c] > 0
  }

  /** A run from `s`: where a list of events leads, if each can happen. */
  function Run(s: State, es: seq<Event>): (r: Option<State>)
    requires WellFormed(s)
    ensures r.Some? ==> WellFormed(r.value)
    decreases |es|
  {
    if es == [] then Some(s)
    else
      match Next(s, es[0])
      case None => None
      case Some(t) => Run(t, es[1..])
  }

  lemma {:induction false} RunKeepsCovered(s: State, es: seq<Event>)
    requires WellFormed(s) && Covered(s) && Run(s, es).Some?
    ensures Covered(Run(s, es).value)
    decreases |es|
  {
    if es != [] {
      StepKeepsCovered(s, es[0]);
      RunKeepsCovered(Next(s, es[0]).value, es[1..]);
    }
  }

  /** No lost wakeup: whenever the dispatcher thread is blocked in poll, each queued message is
      covered by an unread byte or by a sender that has yet to signal, even when writes to a full
      socket pair are dropped. */
  lemma NoLostWakeup(s: State, es: seq<Event>, c: nat)
    requires Initial(s) && Run(s, es).Some? && Run(s, es).value.phase == Polling
    requires c < |Run(s, es).value.queued| && Run(s, es).value.queued[c] > 0
    ensures Run(s, es).value.bytes > 0 || Run(s, es).value.pending[c] > 0
  {
    RunKeepsCovered(s, es);
  }

  /** In this round, the dispatcher has been at connection `c` and flushed it. */
  predicate Passed(s: State, c: nat) {
    match s.phase
    case Dispatching(at, flushed) => c < at || (c == at && flushed)
    case Checking(at) => c <= at
    case _ => true
  }

  ghost predicate Emptied(s: State) {
    forall c :: 0 <= c < |s.queued| && Passed(s, c) && s.unflushed != Some(c) ==> s.queued[c] == 0
  }

  /** Nothing new comes in from another thread. */
  predicate Quiet(e: Event) { !e.Push? && (e.Add? ==> e.messages == 0) }

  lemma {:induction false} RunEmpties(s: State, es: seq<Event>)
    requires WellFormed(s) && Emptied(s) && Run(s, es).Some?
    requires forall e :: e in es ==> Quiet(e)
    ensures Emptied(Run(s, es).value)
    decreases |es|
  {
    if es != [] {
      assert es[0] in es;
      StepEmpties(s, es[0]);
      hide Next, Emptied;
      RunEmpties(Next(s, es[0]).value, es[1..]);
    }
  }

  lemma StepEmpties(s: State, e: Event)
    requires WellFormed(s) && Emptied(s) && Next(s, e).Some? && Quiet(e)
    ensures Emptied(Next(s, e).value)
  {
  }

  /** A wakeup is enough: when the round that follows it ends in poll again, every queue is empty,
      whatever handlers sent meanwhile, unless another thread queued something new. */
  lemma RoundEmptiesQueues(s: State, es: seq<Event>, c: nat)
    requires WellFormed(s) && s.phase == Dispatching(0, false)
    requires forall e :: e in es ==> Quiet(e)
    requires Run(s, es).Some? && Run(s, es).value.phase == Polling && c < |Run(s, es).value.queued|
    ensures Run(s, es).value.queued[c] == 0
  {
    RunEmpties(s, es);
  }

  // ----- the thread goes on as long as it runs -----

  lemma {:induction false} RunStays(s: State, es: seq<Event>)
    requires WellFormed(s) && Run(s, es).Some?
    requires s.running && s.phase != Stopped && forall e :: e in es ==> !e.Stop?
    ensures Run(s, es).value.running && Run(s, es).value.phase != Stopped
    decreases |es|
  {
    if es != [] {
      var e := es[0];
      assert e in es;
      assert Next(s, e).value.running && Next(s, e).value.phase != Stopped;
      hide Next;
      RunStays(Next(s, e).value, es[1..]);
    }
  }

  /** The thread of a running dispatcher ends only after it was stopped, and it runs until then. */
  lemma StopsOnlyWhenStopped(s: State, es: seq<Event>)
    requires Initial(s) && s.running && Run(s, es).Some?
    ensures Run(s, es).value.phase == Stopped || !Run(s, es).value.running ==> exists e :: e in es && e.Stop?
  {
    hide Run;
    if forall e :: e in es ==> !e.Stop? { RunStays(s, es); }
  }

  lemma {:induction false} StopLasts(s: State, es: seq<Event>)
    requires WellFormed(s) && Run(s, es).Some? && (!s.running || exists e :: e in es && e.Stop?)
    ensures !Run(s, es).value.running
    decreases |es|
  {
    if es != [] {
      assert es == [es[0]] + es[1..];
      assert !s.running || es[0].Stop? ==> !Next(s, es[0]).value.running;
      hide Next;
      StopLasts(Next(s, es[0]).value, es[1..]);
    }
  }

  /** After the last connection the thread blocks in poll again while it runs, and is gone otherwise;
      before that it goes on with the next connection. A connection left incomplete leaves a byte. */
  lemma FinishGoesOn(s: State)
    requires WellFormed(s) && s.phase.Checking?
    ensures Next(s, Finish).Some?
    ensures var t, c := Next(s, Finish).value, s.phase.at;
            && t.phase == (if c + 1 < |s.queued| then Dispatching(c + 1, false) else if s.running then Polling else Stopped)
            && t.bytes == (if s.complete[c] || s.bytes == s.capacity then s.bytes else s.bytes + 1)
            && t == s.(phase := t.phase, bytes := t.bytes)
  {
  }

  /** A return from poll takes one byte, if there is any, and starts with the first connection. */
  lemma PollTakesOne(s: State)
    requires WellFormed(s) && s.phase == Polling
    ensures Next(s, PollReturns).Some?
    ensures var t := Next(s, PollReturns).value;
            && t.bytes == (if s.bytes == 0 then 0 else s.bytes - 1)
            && t.phase == (if |s.queued| > 0 then Dispatching(0, false) else if s.running then Polling else Stopped)
            && t == s.(phase := t.phase, bytes := t.bytes)
  {
  }

  /** A flush empties the queue; the status of a connection is complete when nothing is queued in
      either direction, and only then, or at the limit, the thread leaves the connection. */
  lemma DispatchGoesOn(s: State, incomingEmpty: bool, limitReached: bool)
    requires WellFormed(s) && s.phase.Dispatching? && Settled(s)
    ensures !s.phase.flushed ==>
              Next(s, Flush) == Some(s.(queued := s.queued[s.phase.at := 0], phase := Dispatching(s.phase.at, true)))
    ensures s.phase.flushed ==>
              var c := s.phase.at;
              var done := s.queued[c] == 0 && incomingEmpty;
              Next(s, Status(incomingEmpty, limitReached))
                == Some(s.(complete := s.complete[c := done],
                           phase := if done || limitReached then Checking(c) else Dispatching(c, false)))
  {
  }

  /** A sender of its own accord: the message first, then the status and the byte. */
  lemma SenderSignals(s: State, c: nat)
    requires WellFormed(s) && c < |s.queued|
    ensures Next(s, Push(c)).Some?
    ensures var t := Next(s, Push(c)).value;
            && t == s.(queued := s.queued[c := s.queued[c] + 1], pending := s.pending[c := s.pending[c] + 1])
            && Next(t, Signal(c)).Some?
            && var u := Next(t, Signal(c)).value;
               && u.queued[c] == s.queued[c] + 1 && u.pending == s.pending && !u.complete[c]
               && u.bytes == (if s.bytes == s.capacity then s.bytes else s.bytes + 1) && u.phase == s.phase
  {
    assert s.pending[c := s.pending[c] + 1][c := s.pending[c]] == s.pending;
  }

  /** Stopping clears the running flag and leaves a byte, so that the thread wakes up to see it; adding a
      connection puts it last and leaves a byte. */
  lemma StopAndAdd(s: State, messages: nat)
    requires WellFormed(s)
    ensures var bytes := if s.bytes == s.capacity then s.bytes else s.bytes + 1;
            && Next(s, Stop) == Some(s.(running := false, bytes := bytes))
            && (Next(s, Add(messages)).Some? <==> s.phase == Polling)
            && (s.phase == Polling ==>
                  Next(s, Add(messages)) == Some(s.(queued := s.queued + [messages], pending := s.pending + [0],
                                                    complete := s.complete + [false], bytes := bytes)))
  {
  }

  /** A handler on the thread sends: the message is queued, flushed at once, and the dispatch ends with
      the status of that connection, the last one begun first. */
  lemma HandlerDispatches(s: State, c: nat, incomingEmpty: bool)
    requires WellFormed(s) && c < |s.queued| && s.phase.Dispatching? && s.phase.flushed && s.unflushed == None
    ensures Next(s, OwnSend(c)).Some?
    ensures var t := Next(s, OwnSend(c)).value;
            && t == s.(queued := s.queued[c := s.queued[c] + 1], unflushed := Some(c), complete := s.complete[c := false])
            && Next(t, OwnFlush).Some?
            && var u := Next(t, OwnFlush).value;
               && u.queued == s.queued[c := 0] && u.unflushed == None && u.nested == s.nested + [c]
               && u.complete == t.complete && u.bytes == s.bytes && u.phase == s.phase
               && Next(u, OwnStatus(incomingEmpty)) == Some(u.(nested := s.nested, complete := u.complete[c := incomingEmpty]))
  {
    var t := Next(s, OwnSend(c)).value;
    assert t.queued[c := 0] == s.queued[c := 0];
    assert (s.nested + [c])[..|s.nested|] == s.nested;
  }

  /** The events of the thread from where it is to the end of its round, when nothing is incoming. */
  function RestOfRound(s: State): seq<Event>
    requires WellFormed(s) && Settled(s)
    decreases |s.queued| - (if s.phase.Dispatching? || s.phase.Checking? then s.phase.at else |s.queued|),
              if s.phase.Dispatching? then (if s.phase.flushed then 1 else 2) else 0
  {
    match s.phase
    case Dispatching(at, flushed) =>
      if flushed then
        [Status(true, true)] + RestOfRound(s.(complete := s.complete[at := s.queued[at] == 0], phase := Checking(at)))
      else [Flush] + RestOfRound(s.(queued := s.queued[at := 0], phase := Dispatching(at, true)))
    case Checking(at) =>
      if at + 1 < |s.queued| then
        [Finish] + RestOfRound(s.(phase := Dispatching(at + 1, false),
                                  bytes := if s.complete[at] || s.bytes == s.capacity then s.bytes else s.bytes + 1))
      else [Finish]
    case _ => []
  }

  /** Every round can end, and a running dispatcher is then blocked in poll again. */
  lemma {:induction false} RoundEnds(s: State)
    requires WellFormed(s) && Settled(s) && (s.phase.Dispatching? || s.phase.Checking?)
    ensures Run(s, RestOfRound(s)).Some?
    ensures Run(s, RestOfRound(s)).value.phase == if s.running then Polling else Stopped
    ensures forall e :: e in RestOfRound(s) ==> Quiet(e)
    decreases |s.queued| - s.phase.at, if s.phase.Dispatching? then (if s.phase.flushed then 1 else 2) else 0
  {
    var e, es := RestOfRound(s)[0], RestOfRound(s)[1..];
    if s.phase.Dispatching? { DispatchGoesOn(s, true, true); } else { FinishGoesOn(s); }
    var t := Next(s, e).value;
    if s.phase.Dispatching? || s.phase.at + 1 < |s.queued| {
      assert es == RestOfRound(t);
      RoundEnds(t);
    } else {
      assert es == [];
    }
    assert RestOfRound(s) == [e] + es;
  }
}
