/** A server's properties and the cache that a proxy keeps of them (property.cpp, interface.cpp,
    propertyproxy.cpp, interfaceproxy.cpp), over a channel that keeps order. The proxy makes its
    calls on its dispatching thread, so a reply is acted on while signals read before it still
    wait to be processed. */
module PropertyCache {
  import opened Bytes

  type Name = string
  type Val = int

  datatype Access = ReadOnly | WriteOnly | ReadWrite

  datatype Request = Get(name: Name) | GetAll | Set(name: Name, value: Val)

  /** What a reply carries: the values it makes the proxy cache, or an error. */
  datatype Reply =
    | GotReply(name: Name, value: Val)
    | AllReply(values: map<Name, Val>)
    | SetReply(name: Name, value: Val)
    | ErrorReply

  /** A message from the server: a PropertiesChanged signal, or the reply to call `id`. */
  datatype Message = Changed(name: Name, value: Val) | Answer(id: nat, reply: Reply)

  /** A cached value, and whether it is marked set. */
  datatype Slot = Slot(value: Val, isSet: bool)

  /** A set that was accepted and whose signal is being sent; its reply goes out afterwards. */
  datatype Owed = Owed(id: nat, name: Name, value: Val)

  datatype State = State(
    access: map<Name, Access>,
    server: map<Name, Val>,
    requests: seq<(nat, Request)>,
    owed: seq<Owed>,
    wire: seq<Message>,
    incoming: seq<Message>,
    cache: map<Name, Slot>,
    waiting: Option<nat>,
    calls: nat)

  // ----- the server -----

  /** `handle_properties_message` up to the first message it sends: the properties, the message and
      the reply it then owes. A property without a value counts as missing. Sending a message on
      the dispatching thread dispatches, so other requests may be handled before an owed reply. */
  function Handled(access: map<Name, Access>, server: map<Name, Val>, id: nat, r: Request): (map<Name, Val>,
          Message, seq<Owed>) {
    match r
    case Get(n) =>
      if n in server && n in access && access[n] != WriteOnly then (server, Answer(id, GotReply(n, server[n])), [])
      else (server, Answer(id, ErrorReply), [])
    case GetAll => (server, Answer(id, AllReply(Readable(access, server))), [])
    case Set(n, v) =>
      if n in server && n in access && access[n] != ReadOnly then (server[n := v], Changed(n, v), [Owed(id, n, v)])
      else (server, Answer(id, ErrorReply), [])
  }

  function ReplyTo(o: Owed): Message { Answer(o.id, SetReply(o.name, o.value)) }

  function Readable(access: map<Name, Access>, server: map<Name, Val>): map<Name, Val> {
    map n | n in server && n in access && access[n] != WriteOnly :: server[n]
  }

  // ----- the proxy -----

  /** `updated_value`; a property the proxy does not have is passed over. */
  function Updated(cache: map<Name, Slot>, n: Name, v: Val): map<Name, Slot> {
    if n in cache then cache[n := Slot(v, true)] else cache
  }

  function AllUpdated(cache: map<Name, Slot>, values: map<Name, Val>): map<Name, Slot> {
    map n | n in cache :: if n in values then Slot(values[n], true) else cache[n]
  }

  /** What the proxy does with the reply it waited for; after a set the slot is not marked. */
  function Accepted(cache: map<Name, Slot>, r: Reply): map<Name, Slot> {
    match r
    case GotReply(n, v) => Updated(cache, n, v)
    case AllReply(values) => AllUpdated(cache, values)
    case SetReply(n, v) => if n in cache then cache[n := cache[n].(value := v)] else cache
    case ErrorReply => cache
  }

  /** Processing a message from the incoming queue; a late reply is dropped. */
  function Processed(cache: map<Name, Slot>, m: Message): map<Name, Slot> {
    match m case Changed(n, v) => Updated(cache, n, v) case Answer(_, _) => cache
  }

  // ----- steps -----

  datatype Event =
    | ServerSet(name: Name, value: Val)
    | ServerHandles
    | ServerReplies
    | ProxyCalls(request: Request)
    | CallFails
    | ProxyReads
    | ProxyProcesses
    | Invalidate(name: Name)

  /** What an event does, or `None` where it cannot happen. A read while a call waits ends it if it
      is its reply, and otherwise puts the message aside; nothing is processed meanwhile. */
  function Next(s: State, e: Event): Option<State> {
    match e
    case ServerSet(n, v) =>
      if n !in s.access then None else Some(s.(server := s.server[n := v], wire := s.wire + [Changed(n, v)]))
    case ServerHandles =>
      if s.requests == [] then None
      else
        var (server, sent, owed) := Handled(s.access, s.server, s.requests[0].0, s.requests[0].1);
        Some(s.(server := server, wire := s.wire + [sent], requests := s.requests[1..], owed := s.owed + owed))
    case ServerReplies =>
      if s.owed == [] then None
      else
        var last := |s.owed| - 1;
        Some(s.(wire := s.wire + [ReplyTo(s.owed[last])], owed := s.owed[..last]))
    case ProxyCalls(r) =>
      if s.waiting.Some? then None
      else Some(s.(requests := s.requests + [(s.calls, r)], waiting := Some(s.calls), calls := s.calls + 1))
    case CallFails => if s.waiting.None? then None else Some(s.(waiting := None))
    case ProxyReads =>
      if s.wire == [] then None
      else if s.wire[0].Answer? && s.waiting == Some(s.wire[0].id) then
        Some(s.(wire := s.wire[1..], waiting := None, cache := Accepted(s.cache, s.wire[0].reply)))
      else Some(s.(wire := s.wire[1..], incoming := s.incoming + [s.wire[0]]))
    case ProxyProcesses =>
      if s.waiting.Some? || s.incoming == [] then None
      else Some(s.(incoming := s.incoming[1..], cache := Processed(s.cache, s.incoming[0])))
    case Invalidate(n) =>
      if n !in s.cache then None else Some(s.(cache := s.cache[n := s.cache[n].(isSet := false)]))
  }

  function Run(s: State, es: seq<Event>): Option<State>
    decreases |es|
  {
    if es == [] then Some(s)
    else match Next(s, es[0]) case None => None case Some(t) => Run(t, es[1..])
  }

  /** The messages a step puts on the wire. */
  function Sent(s: State, e: Event): seq<Message> {
    match e
    case ServerSet(n, v) => [Changed(n, v)]
    case ServerHandles =>
      if s.requests == [] then [] else [Handled(s.access, s.server, s.requests[0].0, s.requests[0].1).1]
    case ServerReplies => if s.owed == [] then [] else [ReplyTo(s.owed[|s.owed| - 1])]
    case _ => []
  }

  lemma SentIsOnWire(s: State, e: Event)
    requires Next(s, e).Some?
    ensures Next(s, e).value.wire == (if e.ProxyReads? then s.wire[1..] else s.wire) + Sent(s, e)
  {
  }

  // ----- what is still to be delivered -----

  /** The messages from the server the proxy has not acted on, in order. */
  function Undelivered(s: State): seq<Message> { s.incoming + s.wire }

  /** Applying all signals for a property, in order, to a value. */
  function Applied(n: Name, v: Val, ms: seq<Message>): Val
    decreases |ms|
  {
    if ms == [] then v
    else Applied(n, if ms[0].Changed? && ms[0].name == n then ms[0].value else v, ms[1..])
  }

  predicate HasSignal(n: Name, ms: seq<Message>) {
    ms != [] && ((ms[0].Changed? && ms[0].name == n) || HasSignal(n, ms[1..]))
  }

  /** The value a property ends up with does not depend on the start once there is a signal. */
  lemma {:induction false} SignalDecides(n: Name, v: Val, w: Val, ms: seq<Message>)
    ensures HasSignal(n, ms) ==> Applied(n, v, ms) == Applied(n, w, ms)
    ensures !HasSignal(n, ms) ==> Applied(n, v, ms) == v
    decreases |ms|
  {
    if ms != [] {
      if ms[0].Changed? && ms[0].name == n { SignalDecides(n, ms[0].value, ms[0].value, ms[1..]); }
      else { SignalDecides(n, v, w, ms[1..]); }
    }
  }

  lemma {:induction false} AppliedSplit(n: Name, v: Val, a: seq<Message>, b: seq<Message>)
    ensures Applied(n, v, a + b) == Applied(n, Applied(n, v, a), b)
    ensures HasSignal(n, a + b) <==> HasSignal(n, a) || HasSignal(n, b)
    decreases |a|
  {
    if a == [] {
      assert [] + b == b;
    } else {
      assert (a + b)[1..] == a[1..] + b && (a + b)[0] == a[0];
      AppliedSplit(n, if a[0].Changed? && a[0].name == n then a[0].value else v, a[1..], b);
    }
  }

  /** The value `v` for property `n` is right once the messages behind it are applied. */
  predicate Leads(server: map<Name, Val>, n: Name, v: Val, behind: seq<Message>) {
    n in server && Applied(n, v, behind) == server[n]
  }

  ghost predicate ReplyLeads(server: map<Name, Val>, r: Reply, behind: seq<Message>) {
    match r
    case GotReply(n, v) => Leads(server, n, v, behind)
    case AllReply(values) => forall n :: n in values ==> Leads(server, n, values[n], behind)
    case SetReply(_, _) => true
    case ErrorReply => true
  }

  /** Every message, followed by the ones behind it, leads to the server's values. */
  ghost predicate AllLead(server: map<Name, Val>, ms: seq<Message>) {
    ms != [] ==>
      && (match ms[0]
          case Changed(n, v) => Leads(server, n, v, ms[1..])
          case Answer(_, r) => ReplyLeads(server, r, ms[1..]))
      && AllLead(server, ms[1..])
  }

  /** Every marked slot leads to the server's value. */
  ghost predicate CacheLeads(s: State) {
    forall n :: n in s.cache && s.cache[n].isSet ==> Leads(s.server, n, s.cache[n].value, Undelivered(s))
  }

  /** Calls are numbered in order. */
  ghost predicate Numbered(s: State) {
    && (forall i :: 0 <= i < |s.requests| ==> s.requests[i].0 < s.calls)
    && (forall i :: 0 <= i < |s.owed| ==> s.owed[i].id < s.calls)
    && (forall m :: m in s.wire && m.Answer? ==> m.id < s.calls)
    && (s.waiting.Some? ==> s.waiting.value < s.calls)
  }

  /** The reply to this call reports a set of this property. */
  ghost predicate ToSet(s: State, id: nat, n: Name) {
    || (exists i :: 0 <= i < |s.owed| && s.owed[i].id == id && s.owed[i].name == n)
    || (exists m :: m in s.wire && m.Answer? && m.id == id && m.reply.SetReply? && m.reply.name == n)
  }

  /** While a call waits for the reply to a set, the signal of the set has not been acted on. */
  ghost predicate SetAhead(s: State) {
    s.waiting.Some? ==> forall n :: ToSet(s, s.waiting.value, n) ==> HasSignal(n, Undelivered(s))
  }

  ghost predicate Leading(s: State) { AllLead(s.server, Undelivered(s)) && CacheLeads(s) }

  ghost predicate Coherent(s: State) { Leading(s) && Numbered(s) && SetAhead(s) }

  // ----- the server's steps -----

  lemma LeadsChanged(server: map<Name, Val>, n: Name, v: Val, m: Name, w: Val, behind: seq<Message>)
    requires Leads(server, m, w, behind)
    ensures Leads(server[n := v], m, w, behind + [Changed(n, v)])
  {
    AppliedSplit(m, w, behind, [Changed(n, v)]);
    assert [Changed(n, v)][1..] == [];
  }

  lemma LeadsAnswered(server: map<Name, Val>, m: Name, w: Val, behind: seq<Message>, a: Message)
    requires Leads(server, m, w, behind) && a.Answer?
    ensures Leads(server, m, w, behind + [a])
  {
    AppliedSplit(m, w, behind, [a]);
    assert [a][1..] == [];
  }

  lemma {:induction false} AllLeadChanged(server: map<Name, Val>, n: Name, v: Val, ms: seq<Message>)
    requires AllLead(server, ms)
    ensures AllLead(server[n := v], ms + [Changed(n, v)])
  {
    if ms == [] {
      assert [Changed(n, v)][1..] == [];
    } else {
      AllLeadChanged(server, n, v, ms[1..]);
      assert (ms + [Changed(n, v)])[1..] == ms[1..] + [Changed(n, v)];
      HeadChanged(server, n, v, ms[0], ms[1..]);
    }
  }

  lemma HeadChanged(server: map<Name, Val>, n: Name, v: Val, m: Message, behind: seq<Message>)
    ensures m.Changed? && Leads(server, m.name, m.value, behind) ==>
              Leads(server[n := v], m.name, m.value, behind + [Changed(n, v)])
    ensures m.Answer? && ReplyLeads(server, m.reply, behind) ==>
              ReplyLeads(server[n := v], m.reply, behind + [Changed(n, v)])
  {
    hide Leads;
    forall k, w | Leads(server, k, w, behind) ensures Leads(server[n := v], k, w, behind + [Changed(n, v)]) {
      LeadsChanged(server, n, v, k, w, behind);
    }
  }

  lemma {:induction false} AllLeadAnswered(server: map<Name, Val>, ms: seq<Message>, a: Message)
    requires AllLead(server, ms) && a.Answer? && ReplyLeads(server, a.reply, [])
    ensures AllLead(server, ms + [a])
  {
    if ms == [] {
      assert [a][1..] == [];
    } else {
      AllLeadAnswered(server, ms[1..], a);
      assert (ms + [a])[1..] == ms[1..] + [a];
      HeadAnswered(server, ms[0], ms[1..], a);
    }
  }

  lemma HeadAnswered(server: map<Name, Val>, m: Message, behind: seq<Message>, a: Message)
    requires a.Answer?
    ensures m.Changed? && Leads(server, m.name, m.value, behind) ==> Leads(server, m.name, m.value, behind + [a])
    ensures m.Answer? && ReplyLeads(server, m.reply, behind) ==> ReplyLeads(server, m.reply, behind + [a])
  {
    hide Leads;
    forall k, w | Leads(server, k, w, behind) ensures Leads(server, k, w, behind + [a]) {
      LeadsAnswered(server, k, w, behind, a);
    }
  }

  /** The server changes a value and sends the signal for it. */
  lemma ChangeKeeps(s: State, n: Name, v: Val)
    requires Leading(s)
    ensures Leading(s.(server := s.server[n := v], wire := s.wire + [Changed(n, v)]))
  {
    hide Leads, AllLead, ReplyLeads;
    var t := s.(server := s.server[n := v], wire := s.wire + [Changed(n, v)]);
    Associative(s.incoming, s.wire, [Changed(n, v)]);
    AllLeadChanged(s.server, n, v, Undelivered(s));
    forall m | m in t.cache && t.cache[m].isSet ensures Leads(t.server, m, t.cache[m].value, Undelivered(t)) {
      LeadsChanged(s.server, n, v, m, s.cache[m].value, Undelivered(s));
    }
  }

  /** The server sends a reply that tells the truth at this moment. */
  lemma AnswerKeeps(s: State, a: Message)
    requires Leading(s) && a.Answer? && ReplyLeads(s.server, a.reply, [])
    ensures Leading(s.(wire := s.wire + [a]))
  {
    hide Leads, AllLead, ReplyLeads;
    var t := s.(wire := s.wire + [a]);
    Associative(s.incoming, s.wire, [a]);
    AllLeadAnswered(s.server, Undelivered(s), a);
    forall m | m in t.cache && t.cache[m].isSet ensures Leads(t.server, m, t.cache[m].value, Undelivered(t)) {
      LeadsAnswered(s.server, m, s.cache[m].value, Undelivered(s), a);
    }
  }

  lemma HandlingKeeps(s: State)
    requires Leading(s) && s.requests != []
    ensures Leading(Next(s, ServerHandles).value)
  {
    var (id, r) := s.requests[0];
    var (server, sent, owed) := Handled(s.access, s.server, id, r);
    var t := s.(requests := s.requests[1..], owed := s.owed + owed);
    assert Leading(t);
    if sent.Changed? { ChangeKeeps(t, r.name, r.value); } else { AnswerKeeps(t, sent); }
  }

  // ----- the proxy's steps -----

  /** Taking a message out of the middle of the undelivered ones changes nothing for the rest, as
      long as it is not a signal. */
  lemma {:induction false} AllLeadWithout(server: map<Name, Val>, a: seq<Message>, m: Message, b: seq<Message>)
    requires m.Answer? && AllLead(server, a + ([m] + b))
    ensures AllLead(server, a + b)
    ensures ReplyLeads(server, m.reply, b)
  {
    if a == [] {
      assert [] + ([m] + b) == [m] + b && ([m] + b)[1..] == b && [] + b == b;
    } else {
      assert (a + ([m] + b))[1..] == a[1..] + ([m] + b) && (a + b)[1..] == a[1..] + b;
      AllLeadWithout(server, a[1..], m, b);
      forall n, v ensures Applied(n, v, a[1..] + b) == Applied(n, v, a[1..] + ([m] + b)) { AppliedWithout(n, v, a[1..], m, b); }
    }
  }

  lemma AppliedWithout(n: Name, v: Val, a: seq<Message>, m: Message, b: seq<Message>)
    requires m.Answer?
    ensures Applied(n, v, a + b) == Applied(n, v, a + ([m] + b))
  {
    AppliedSplit(n, v, a, b);
    AppliedSplit(n, v, a, [m] + b);
    assert ([m] + b)[1..] == b;
  }

  /** If the last signal for a property is anywhere, it carries the server's value. */
  lemma {:induction false} LastSignalIsRight(server: map<Name, Val>, n: Name, v: Val, ms: seq<Message>)
    requires AllLead(server, ms) && HasSignal(n, ms)
    ensures Leads(server, n, v, ms)
  {
    if !(ms[0].Changed? && ms[0].name == n) { LastSignalIsRight(server, n, v, ms[1..]); }
  }

  /** A value that leads from behind its reply also leads from before the signals that were put
      aside earlier. */
  lemma OvertakingLeads(server: map<Name, Val>, n: Name, v: Val, aside: seq<Message>, behind: seq<Message>)
    requires AllLead(server, aside + behind) && Leads(server, n, v, behind)
    ensures Leads(server, n, v, aside + behind)
  {
    AppliedSplit(n, v, aside, behind);
    if HasSignal(n, aside + behind) { LastSignalIsRight(server, n, v, aside + behind); }
    else { SignalDecides(n, v, v, aside + behind); SignalDecides(n, v, v, behind); }
  }

  lemma AcceptingKeeps(s: State)
    requires Leading(s) && SetAhead(s) && s.wire != [] && s.wire[0].Answer? && s.waiting == Some(s.wire[0].id)
    ensures Leading(s.(wire := s.wire[1..], waiting := None, cache := Accepted(s.cache, s.wire[0].reply)))
  {
    var m, behind := s.wire[0], s.wire[1..];
    var t := s.(wire := behind, waiting := None, cache := Accepted(s.cache, m.reply));
    assert s.wire == [m] + behind;
    AllLeadWithout(s.server, s.incoming, m, behind);
    forall n | n in t.cache && t.cache[n].isSet ensures Leads(t.server, n, t.cache[n].value, Undelivered(t)) {
      var v := t.cache[n].value;
      if m.reply == SetReply(n, v) {
        SetOvertakes(s, n, v);
      } else if Carries(m.reply, n, v) {
        CarriedLeads(s.server, m.reply, n, v, behind);
        OvertakingLeads(s.server, n, v, s.incoming, behind);
      } else {
        assert s.cache[n] == t.cache[n];
        AppliedWithout(n, v, s.incoming, m, behind);
      }
    }
  }

  predicate Carries(r: Reply, n: Name, v: Val) {
    match r
    case GotReply(m, w) => n == m && v == w
    case AllReply(values) => n in values && values[n] == v
    case SetReply(_, _) => false
    case ErrorReply => false
  }

  lemma CarriedLeads(server: map<Name, Val>, r: Reply, n: Name, v: Val, behind: seq<Message>)
    requires ReplyLeads(server, r, behind) && Carries(r, n, v)
    ensures Leads(server, n, v, behind)
  {
  }

  /** The reply to a set is accepted while the signal of the set is still undelivered, so whatever
      the reply makes of the slot, the signals after it decide. */
  lemma SetOvertakes(s: State, n: Name, v: Val)
    requires SetAhead(s) && s.wire != [] && AllLead(s.server, s.incoming + s.wire[1..])
    requires s.wire[0].Answer? && s.waiting == Some(s.wire[0].id)
    requires s.wire[0].reply.SetReply? && s.wire[0].reply.name == n
    ensures Leads(s.server, n, v, s.incoming + s.wire[1..])
  {
    hide AllLead, Leads, HasSignal, Applied;
    var m, behind := s.wire[0], s.wire[1..];
    assert m in s.wire && ToSet(s, m.id, n);
    assert s.wire == [m] + behind;
    AppliedSplit(n, v, s.incoming, [m] + behind);
    AppliedSplit(n, v, [m], behind);
    NoSignal(n, m);
    AppliedSplit(n, v, s.incoming, behind);
    LastSignalIsRight(s.server, n, v, s.incoming + behind);
  }

  lemma NoSignal(n: Name, m: Message)
    requires m.Answer?
    ensures !HasSignal(n, [m])
  {
    assert [m][1..] == [];
  }

  lemma ReadingKeeps(s: State)
    requires Leading(s) && s.wire != []
    ensures Leading(s.(wire := s.wire[1..], incoming := s.incoming + [s.wire[0]]))
  {
    assert s.incoming + [s.wire[0]] + s.wire[1..] == s.incoming + s.wire;
  }

  lemma ProcessingKeeps(s: State)
    requires Leading(s) && s.incoming != []
    ensures Leading(s.(incoming := s.incoming[1..], cache := Processed(s.cache, s.incoming[0])))
  {
    var m := s.incoming[0];
    var t := s.(incoming := s.incoming[1..], cache := Processed(s.cache, m));
    assert Undelivered(s)[0] == m && Undelivered(s)[1..] == Undelivered(t);
  }

  lemma LeadingStep(s: State, e: Event)
    requires Coherent(s) && Next(s, e).Some?
    ensures Leading(Next(s, e).value)
  {
    hide AllLead, Leads, ReplyLeads, Handled, Numbered, ToSet;
    match e
    case ServerSet(n, v) => ChangeKeeps(s, n, v);
    case ServerHandles => HandlingKeeps(s);
    case ServerReplies =>
      var last := |s.owed| - 1;
      assert Leading(s.(owed := s.owed[..last]));
      SetReplyLeads(s.server, s.owed[last]);
      AnswerKeeps(s.(owed := s.owed[..last]), ReplyTo(s.owed[last]));
    case ProxyReads =>
      if s.wire[0].Answer? && s.waiting == Some(s.wire[0].id) { AcceptingKeeps(s); } else { ReadingKeeps(s); }
    case ProxyProcesses => ProcessingKeeps(s);
    case _ =>
  }

  lemma SetReplyLeads(server: map<Name, Val>, o: Owed)
    ensures ReplyTo(o).Answer? && ReplyLeads(server, ReplyTo(o).reply, [])
  {
  }

  lemma NumberedStep(s: State, e: Event)
    requires Numbered(s) && Next(s, e).Some?
    ensures Numbered(Next(s, e).value)
  {
  }

  lemma OwedStep(s: State, e: Event, i: nat)
    requires Next(s, e).Some? && i < |Next(s, e).value.owed|
    ensures var o := Next(s, e).value.owed[i];
            || (i < |s.owed| && s.owed[i] == o)
            || (e.ServerHandles? && s.requests != [] && HasSignal(o.name, Sent(s, e)))
  {
  }

  lemma WireStep(s: State, e: Event, m: Message)
    requires Next(s, e).Some? && m in Next(s, e).value.wire && m.Answer? && m.reply.SetReply?
    ensures m in s.wire || (s.owed != [] && m == ReplyTo(s.owed[|s.owed| - 1]))
  {
  }

  /** A step brings a reply to a set on its way only together with the signal of the set. */
  lemma ToSetStep(s: State, e: Event, id: nat, n: Name)
    requires Next(s, e).Some? && ToSet(Next(s, e).value, id, n)
    ensures ToSet(s, id, n) || (e.ServerHandles? && s.requests != [] && HasSignal(n, Sent(s, e)))
  {
    hide Next, Sent, HasSignal;
    var t := Next(s, e).value;
    if i :| 0 <= i < |t.owed| && t.owed[i].id == id && t.owed[i].name == n {
      OwedStep(s, e, i);
    } else {
      var m :| m in t.wire && m.Answer? && m.id == id && m.reply.SetReply? && m.reply.name == n;
      WireStep(s, e, m);
      if m !in s.wire { assert s.owed[|s.owed| - 1].id == id; }
    }
  }

  lemma SetAheadStep(s: State, e: Event)
    requires Numbered(s) && SetAhead(s) && Next(s, e).Some?
    ensures SetAhead(Next(s, e).value)
  {
    hide Handled, Applied, HasSignal, Numbered;
    var t := Next(s, e).value;
    if t.waiting.Some? {
      if e.ProxyCalls? { NewCall(s); }
      forall n | ToSet(t, t.waiting.value, n) ensures HasSignal(n, Undelivered(t)) {
        ToSetStep(s, e, t.waiting.value, n);
        SignalsGrow(s, e, n);
      }
    }
  }

  lemma NewCall(s: State)
    requires Numbered(s)
    ensures forall n :: !ToSet(s, s.calls, n)
  {
  }

  /** While a call waits, the undelivered messages are only added to. */
  lemma SignalsGrow(s: State, e: Event, n: Name)
    requires Next(s, e).Some? && Next(s, e).value.waiting.Some?
    ensures HasSignal(n, Undelivered(s)) || HasSignal(n, Sent(s, e)) ==> HasSignal(n, Undelivered(Next(s, e).value))
  {
    hide Handled, HasSignal, Applied;
    var t := Next(s, e).value;
    SentIsOnWire(s, e);
    if e.ProxyReads? {
      assert s.wire == [s.wire[0]] + s.wire[1..];
      assert t.incoming + t.wire == s.incoming + s.wire;
      NothingSent(n);
    } else {
      assert Undelivered(t) == Undelivered(s) + Sent(s, e);
      AppliedSplit(n, 0, Undelivered(s), Sent(s, e));
    }
  }

  lemma NothingSent(n: Name)
    ensures !HasSignal(n, [])
  {
  }

  lemma StepKeeps(s: State, e: Event)
    requires Coherent(s) && Next(s, e).Some?
    ensures Coherent(Next(s, e).value)
  {
    hide Leading, Numbered, SetAhead, Next;
    LeadingStep(s, e);
    NumberedStep(s, e);
    SetAheadStep(s, e);
  }

  /** A proxy that has cached nothing yet, and no message on its way. */
  ghost predicate Initial(s: State) {
    && s.wire == [] && s.incoming == [] && s.owed == [] && Numbered(s)
    && forall n :: n in s.cache ==> !s.cache[n].isSet
  }

  lemma {:induction false} RunKeeps(s: State, es: seq<Event>)
    requires Coherent(s) && Run(s, es).Some?
    ensures Coherent(Run(s, es).value)
    decreases |es|
  {
    hide Coherent, Next;
    if es != [] {
      StepKeeps(s, es[0]);
      RunKeeps(Next(s, es[0]).value, es[1..]);
    }
  }

  /** Cache convergence: whenever a cached value is marked set, applying the undelivered signals to
      it in order gives the server's current value, across server sets, remote sets and replies
      that overtake signals put aside. With nothing undelivered, the two are equal. */
  lemma CacheConverges(s: State, es: seq<Event>, n: Name)
    requires Initial(s) && Run(s, es).Some?
    requires n in Run(s, es).value.cache && Run(s, es).value.cache[n].isSet
    ensures var t := Run(s, es).value;
            && n in t.server
            && Applied(n, t.cache[n].value, Undelivered(t)) == t.server[n]
            && (Undelivered(t) == [] ==> t.cache[n].value == t.server[n])
  {
    assert Undelivered(s) == [];
    RunKeeps(s, es);
  }

  // ----- what reaches the cache -----

  /** What each step does to one cached value: the awaited reply and a processed signal store what they
      carry and mark it, the reply to a set stores without marking, and an invalidation unmarks. */
  lemma CacheStep(s: State, e: Event, n: Name)
    requires Next(s, e).Some? && n in s.cache
    ensures n in Next(s, e).value.cache
    ensures Next(s, e).value.cache[n]
         == if e.ProxyReads? && s.wire[0].Answer? && s.waiting == Some(s.wire[0].id) then
              (match s.wire[0].reply
               case GotReply(m, v) => if m == n then Slot(v, true) else s.cache[n]
               case AllReply(values) => if n in values then Slot(values[n], true) else s.cache[n]
               case SetReply(m, v) => if m == n then Slot(v, s.cache[n].isSet) else s.cache[n]
               case ErrorReply => s.cache[n])
            else if e.ProxyProcesses? && s.incoming[0].Changed? && s.incoming[0].name == n then Slot(s.incoming[0].value, true)
            else if e == Invalidate(n) then Slot(s.cache[n].value, false)
            else s.cache[n]
  {
  }

  /** When each step can happen, and where messages and calls go. */
  lemma Flow(s: State, e: Event)
    ensures Next(s, e).Some? <==>
              match e
              case ServerSet(n, _) => n in s.access
              case ServerHandles => s.requests != []
              case ServerReplies => s.owed != []
              case ProxyCalls(_) => s.waiting == None
              case CallFails => s.waiting != None
              case ProxyReads => s.wire != []
              case ProxyProcesses => s.waiting == None && s.incoming != []
              case Invalidate(n) => n in s.cache
    ensures Next(s, e).Some? ==>
              var t, mine := Next(s, e).value, e.ProxyReads? && s.wire[0].Answer? && s.waiting == Some(s.wire[0].id);
              && t.waiting == (if e.ProxyCalls? then Some(s.calls) else if mine || e.CallFails? then None else s.waiting)
              && t.calls == (if e.ProxyCalls? then s.calls + 1 else s.calls)
              && t.requests == (if e.ProxyCalls? then s.requests + [(s.calls, e.request)]
                                else if e.ServerHandles? then s.requests[1..] else s.requests)
              && t.incoming == (if e.ProxyReads? && !mine then s.incoming + [s.wire[0]]
                                else if e.ProxyProcesses? then s.incoming[1..] else s.incoming)
              && (e.ServerSet? ==> t.server == s.server[e.name := e.value] && t.wire == s.wire + [Changed(e.name, e.value)])
  {
  }

  // ----- access -----

  /** A remote set never changes a read-only property: only the server itself does. */
  lemma {:induction false} ReadOnlyStays(s: State, es: seq<Event>, n: Name)
    requires Run(s, es).Some? && n in s.access && s.access[n] == ReadOnly
    requires forall e :: e in es ==> !(e.ServerSet? && e.name == n)
    ensures n in s.server <==> n in Run(s, es).value.server
    ensures n in s.server ==> Run(s, es).value.server[n] == s.server[n]
    decreases |es|
  {
    if es != [] {
      var t := Next(s, es[0]).value;
      assert es[0] in es;
      assert t.access == s.access;
      assert (n in t.server <==> n in s.server) && (n in s.server ==> t.server[n] == s.server[n]);
      hide Next;
      ReadOnlyStays(t, es[1..], n);
    }
  }

  /** A reply gives away no value of a write-only property, other than the one just set. */
  predicate Discreet(access: map<Name, Access>, m: Message) {
    match m
    case Changed(_, _) => true
    case Answer(_, GotReply(n, _)) => n in access && access[n] != WriteOnly
    case Answer(_, AllReply(values)) => forall n :: n in values ==> n in access && access[n] != WriteOnly
    case Answer(_, SetReply(n, _)) => n in access && access[n] != ReadOnly
    case Answer(_, ErrorReply) => true
  }

  ghost predicate AllDiscreet(access: map<Name, Access>, ms: seq<Message>) {
    forall i :: 0 <= i < |ms| ==> Discreet(access, ms[i])
  }

  /** Replies to sets are owed for properties that may be set. */
  ghost predicate OwedDiscreet(access: map<Name, Access>, os: seq<Owed>) {
    forall i :: 0 <= i < |os| ==> Discreet(access, ReplyTo(os[i]))
  }

  lemma HandledIsDiscreet(access: map<Name, Access>, server: map<Name, Val>, id: nat, r: Request)
    ensures Discreet(access, Handled(access, server, id, r).1) && OwedDiscreet(access, Handled(access, server, id, r).2)
  {
  }

  lemma StepIsDiscreet(s: State, e: Event)
    requires Next(s, e).Some?
    requires AllDiscreet(s.access, s.incoming) && AllDiscreet(s.access, s.wire) && OwedDiscreet(s.access, s.owed)
    ensures var t := Next(s, e).value;
            && t.access == s.access
            && AllDiscreet(s.access, t.incoming) && AllDiscreet(s.access, t.wire) && OwedDiscreet(s.access, t.owed)
  {
    hide Discreet, Handled, ReplyTo;
    if e.ServerSet? { ChangesAreDiscreet(s.access, e.name, e.value); }
    if e.ServerHandles? && s.requests != [] { HandledIsDiscreet(s.access, s.server, s.requests[0].0, s.requests[0].1); }
  }

  lemma ChangesAreDiscreet(access: map<Name, Access>, n: Name, v: Val)
    ensures Discreet(access, Changed(n, v))
  {
  }

  /** No reply of the server on any run gives such a value away. */
  lemma {:induction false} RepliesAreDiscreet(s: State, es: seq<Event>)
    requires Run(s, es).Some?
    requires AllDiscreet(s.access, s.incoming) && AllDiscreet(s.access, s.wire) && OwedDiscreet(s.access, s.owed)
    ensures AllDiscreet(s.access, Run(s, es).value.incoming) && AllDiscreet(s.access, Run(s, es).value.wire)
    decreases |es|
  {
    hide Next, AllDiscreet, OwedDiscreet;
    if es != [] {
      StepIsDiscreet(s, es[0]);
      RepliesAreDiscreet(Next(s, es[0]).value, es[1..]);
    }
  }

  function SentOver(s: State, es: seq<Event>): seq<Message>
    requires Run(s, es).Some?
    decreases |es|
  {
    if es == [] then [] else Sent(s, es[0]) + SentOver(Next(s, es[0]).value, es[1..])
  }

  function Read(s: State, e: Event): seq<Message> { if e.ProxyReads? && s.wire != [] then [s.wire[0]] else [] }

  /** The messages the proxy reads over a run. */
  function ReadOver(s: State, es: seq<Event>): seq<Message>
    requires Run(s, es).Some?
    decreases |es|
  {
    if es == [] then []
    else Read(s, es[0]) + ReadOver(Next(s, es[0]).value, es[1..])
  }

  /** The channel keeps messages and their order: what is read and what is left on the wire is what
      was on it, followed by what was sent. */
  lemma {:induction false} ChannelKeeps(s: State, es: seq<Event>)
    requires Run(s, es).Some?
    ensures ReadOver(s, es) + Run(s, es).value.wire == s.wire + SentOver(s, es)
    decreases |es|
  {
    hide Next, Sent, Read;
    if es == [] {
      assert [] + s.wire == s.wire + [];
    } else {
      var t := Next(s, es[0]).value;
      var read := Read(s, es[0]);
      WireSplit(s, es[0]);
      ChannelKeeps(t, es[1..]);
      Associative(read, ReadOver(t, es[1..]), Run(s, es).value.wire);
      Associative(read, t.wire, SentOver(t, es[1..]));
      Associative(s.wire, Sent(s, es[0]), SentOver(t, es[1..]));
      assert Run(s, es) == Run(t, es[1..]);
    }
  }

  lemma WireSplit(s: State, e: Event)
    requires Next(s, e).Some?
    ensures Read(s, e) + Next(s, e).value.wire == s.wire + Sent(s, e)
  {
    hide Sent;
    SentIsOnWire(s, e);
    if e.ProxyReads? {
      assert [s.wire[0]] + s.wire[1..] == s.wire;
      Associative([s.wire[0]], s.wire[1..], Sent(s, e));
    } else {
      assert [] + (s.wire + Sent(s, e)) == s.wire + Sent(s, e);
    }
  }

  /** The value of a property that a message gives away; the reply to a set is empty. */
  function Told(n: Name, m: Message): seq<Val> {
    match m
    case Changed(k, v) => if k == n then [v] else []
    case Answer(_, GotReply(k, v)) => if k == n then [v] else []
    case Answer(_, AllReply(values)) => if n in values then [values[n]] else []
    case Answer(_, _) => []
  }

  function AllTold(n: Name, ms: seq<Message>): seq<Val> {
    if ms == [] then [] else Told(n, ms[0]) + AllTold(n, ms[1..])
  }

  /** The value a step gives a property: the server itself sets it, or it accepts a remote set. */
  function Assigned(n: Name, s: State, e: Event): seq<Val> {
    match e
    case ServerSet(k, v) => if k == n then [v] else []
    case ServerHandles =>
      if s.requests == [] then []
      else (match s.requests[0].1
            case Set(k, v) => if k == n && n in s.server && n in s.access && s.access[n] != ReadOnly then [v] else []
            case _ => [])
    case _ => []
  }

  function AssignedOver(n: Name, s: State, es: seq<Event>): seq<Val>
    requires Run(s, es).Some?
    decreases |es|
  {
    if es == [] then [] else Assigned(n, s, es[0]) + AssignedOver(n, Next(s, es[0]).value, es[1..])
  }

  lemma {:induction false} ToldSplit(n: Name, a: seq<Message>, b: seq<Message>)
    ensures AllTold(n, a + b) == AllTold(n, a) + AllTold(n, b)
    decreases |a|
  {
    hide Told;
    if a == [] {
      assert [] + b == b;
    } else {
      assert (a + b)[1..] == a[1..] + b;
      ToldSplit(n, a[1..], b);
      Associative(Told(n, a[0]), AllTold(n, a[1..]), AllTold(n, b));
    }
  }

  lemma StepTells(s: State, e: Event, n: Name)
    requires Next(s, e).Some? && n in s.access && s.access[n] == WriteOnly
    ensures AllTold(n, Sent(s, e)) == Assigned(n, s, e)
    ensures forall i :: 0 <= i < |Sent(s, e)| && Told(n, Sent(s, e)[i]) != [] ==> Sent(s, e)[i].Changed?
    ensures Next(s, e).value.access == s.access
  {
    hide Handled, AllTold;
    if e.ServerSet? {
      OneTold(n, Changed(e.name, e.value));
    } else if e.ServerHandles? && s.requests != [] {
      HandledTells(s, n);
      OneTold(n, Sent(s, e)[0]);
    } else if e.ServerReplies? {
      OneTold(n, Sent(s, e)[0]);
    } else {
      NothingTold(n);
    }
  }

  lemma OneTold(n: Name, m: Message)
    ensures AllTold(n, [m]) == Told(n, m)
  {
    hide Told;
    assert [m][1..] == [] && Told(n, m) + [] == Told(n, m);
  }

  lemma HandledTells(s: State, n: Name)
    requires s.requests != [] && n in s.access && s.access[n] == WriteOnly
    ensures var m := Handled(s.access, s.server, s.requests[0].0, s.requests[0].1).1;
            Told(n, m) == Assigned(n, s, ServerHandles) && (Told(n, m) != [] ==> m.Changed?)
  {
  }

  /** A write-only property is not kept from anyone who listens: over any run the values given away
      are exactly the values it is set to, each once and in order, and always by a signal. */
  lemma {:induction false} WriteOnlyIsTold(s: State, es: seq<Event>, n: Name)
    requires Run(s, es).Some? && n in s.access && s.access[n] == WriteOnly
    ensures AllTold(n, SentOver(s, es)) == AssignedOver(n, s, es)
    ensures forall i :: 0 <= i < |SentOver(s, es)| && Told(n, SentOver(s, es)[i]) != [] ==> SentOver(s, es)[i].Changed?
    decreases |es|
  {
    hide Next, Sent, Assigned, Told, AllTold;
    if es == [] {
      NothingTold(n);
    } else {
      var t := Next(s, es[0]).value;
      StepTells(s, es[0], n);
      WriteOnlyIsTold(t, es[1..], n);
      ToldSplit(n, Sent(s, es[0]), SentOver(t, es[1..]));
    }
  }

  lemma NothingTold(n: Name)
    ensures AllTold(n, []) == []
  {
  }

  // ----- requests that come in while another is handled -----

  /** A request, and those that are handled while the first message for it is sent. */
  datatype Job = Job(id: nat, request: Request, during: seq<Job>)

  function Replies(os: seq<Owed>): seq<Message> {
    if os == [] then [] else [ReplyTo(os[0])] + Replies(os[1..])
  }

  /** The properties after a job, and the messages it sends. */
  function Handling(access: map<Name, Access>, server: map<Name, Val>, j: Job): (map<Name, Val>, seq<Message>)
    decreases j
  {
    var (after, first, owed) := Handled(access, server, j.id, j.request);
    var (end, more) := HandlingAll(access, after, j.during);
    (end, [first] + more + Replies(owed))
  }

  function HandlingAll(access: map<Name, Access>, server: map<Name, Val>, js: seq<Job>): (map<Name, Val>, seq<Message>)
    decreases js
  {
    if js == [] then (server, [])
    else
      var (after, sent) := Handling(access, server, js[0]);
      var (end, more) := HandlingAll(access, after, js[1..]);
      (end, sent + more)
  }

  lemma HandlingForms(access: map<Name, Access>, server: map<Name, Val>, j: Job)
    ensures var (after, first, owed) := Handled(access, server, j.id, j.request);
            var (end, more) := HandlingAll(access, after, j.during);
            && Handling(access, server, j).0 == end
            && forall was: seq<Message> ::
                 was + Handling(access, server, j).1
                   == if owed == [] then was + [first] + more else was + [first] + more + [ReplyTo(owed[0])]
  {
    hide HandlingAll;
    var (after, first, owed) := Handled(access, server, j.id, j.request);
    var (end, more) := HandlingAll(access, after, j.during);
    assert |owed| <= 1;
    if owed != [] { assert owed[1..] == []; }
    assert Replies(owed) == if owed == [] then [] else [ReplyTo(owed[0])];
    forall was: seq<Message>
      ensures was + Handling(access, server, j).1
           == if owed == [] then was + [first] + more else was + [first] + more + [ReplyTo(owed[0])]
    {
      assert was + ([first] + more + Replies(owed)) == was + [first] + more + Replies(owed);
    }
  }

  /** What a request is answered with, by the messages sent and the properties before and after. */
  ghost predicate AnsweredRight(access: map<Name, Access>, was: map<Name, Val>, now: map<Name, Val>,
                                before: seq<Message>, sent: seq<Message>, j: Job) {
    && before < sent
    && var first, alone := sent[|before|], j.during == [];
       match j.request
       case Get(n) =>
         // a value that may be read is given
         && first == (if n in was && n in access && (access[n] == ReadOnly || access[n] == ReadWrite)
                      then Answer(j.id, GotReply(n, was[n])) else Answer(j.id, ErrorReply))
         && (alone ==> |sent| == |before| + 1 && now == was)
       case GetAll =>
         // all values that may be read are given, and no others
         && first.Answer? && first.id == j.id && first.reply.AllReply?
         && (forall n :: n in first.reply.values <==>
               n in was && n in access && (access[n] == ReadOnly || access[n] == ReadWrite))
         && (forall n :: n in first.reply.values ==> first.reply.values[n] == was[n])
         && (alone ==> |sent| == |before| + 1 && now == was)
       case Set(n, v) =>
         // a value that may be written is set, with its signal first and its reply last
         if n in was && n in access && (access[n] == WriteOnly || access[n] == ReadWrite) then
           && first == Changed(n, v) && |sent| >= |before| + 2 && sent[|sent| - 1] == Answer(j.id, SetReply(n, v))
           && (alone ==> |sent| == |before| + 2 && now == was[n := v])
         else first == Answer(j.id, ErrorReply) && (alone ==> |sent| == |before| + 1 && now == was)
  }

  lemma HandlingAnswers(access: map<Name, Access>, server: map<Name, Val>, before: seq<Message>, j: Job)
    ensures var (end, sent) := Handling(access, server, j);
            AnsweredRight(access, server, end, before, before + sent, j)
  {
    hide HandlingAll;
    var (after, first, owed) := Handled(access, server, j.id, j.request);
    var (end, more) := HandlingAll(access, after, j.during);
    var sent := before + Handling(access, server, j).1;
    HandlingForms(access, server, j);
    if j.during == [] { NoJobs(access, after); }
    assert sent == before + [first] + more + (if owed == [] then [] else [ReplyTo(owed[0])]);
    assert sent[|before|] == first;
    assert owed != [] ==> sent[|sent| - 1] == ReplyTo(owed[0]);
  }

  lemma NoJobs(access: map<Name, Access>, server: map<Name, Val>)
    ensures HandlingAll(access, server, []) == (server, [])
  {
  }

  /** The order in which the requests of a job are read. */
  function Queue(j: Job): seq<(nat, Request)>
    decreases j
  {
    [(j.id, j.request)] + QueueAll(j.during)
  }

  function QueueAll(js: seq<Job>): seq<(nat, Request)>
    decreases js
  {
    if js == [] then [] else Queue(js[0]) + QueueAll(js[1..])
  }

  /** The steps of a job. */
  function Steps(access: map<Name, Access>, server: map<Name, Val>, j: Job): seq<Event>
    decreases j
  {
    var (after, _, owed) := Handled(access, server, j.id, j.request);
    [ServerHandles] + StepsAll(access, after, j.during) + (if owed == [] then [] else [ServerReplies])
  }

  function StepsAll(access: map<Name, Access>, server: map<Name, Val>, js: seq<Job>): seq<Event>
    decreases js
  {
    if js == [] then []
    else Steps(access, server, js[0]) + StepsAll(access, Handling(access, server, js[0]).0, js[1..])
  }

  lemma {:induction false} RunSplit(s: State, a: seq<Event>, b: seq<Event>)
    ensures Run(s, a + b) == if Run(s, a).None? then None else Run(Run(s, a).value, b)
    decreases |a|
  {
    hide Next;
    if a == [] {
      assert [] + b == b;
    } else {
      assert (a + b)[1..] == a[1..] + b && (a + b)[0] == a[0];
      if Next(s, a[0]).Some? { RunSplit(Next(s, a[0]).value, a[1..], b); }
    }
  }

  lemma RunOne(s: State, e: Event)
    ensures Run(s, [e]) == Next(s, e)
  {
    hide Next;
    assert [e][1..] == [];
  }

  /** What the method does for a job is what the steps of the job do, one after the other. */
  lemma {:induction false} JobRuns(s: State, j: Job, rest: seq<(nat, Request)>)
    requires s.requests == Queue(j) + rest
    ensures var (end, sent) := Handling(s.access, s.server, j);
            Run(s, Steps(s.access, s.server, j)) == Some(s.(server := end, wire := s.wire + sent, requests := rest))
    decreases j
  {
    hide Run, Handled, HandlingAll, StepsAll, QueueAll;
    var (after, first, owed) := Handled(s.access, s.server, j.id, j.request);
    var t := s.(server := after, wire := s.wire + [first], requests := QueueAll(j.during) + rest, owed := s.owed + owed);
    HeadOfQueue(s, j, rest);
    assert Next(s, ServerHandles) == Some(t);
    RunOne(s, ServerHandles);
    var (end, more) := HandlingAll(s.access, after, j.during);
    JobsRun(t, j.during, rest);
    var u := t.(server := end, wire := t.wire + more, requests := rest);
    RunSplit(s, [ServerHandles], StepsAll(s.access, after, j.during));
    RunSplit(s, [ServerHandles] + StepsAll(s.access, after, j.during), if owed == [] then [] else [ServerReplies]);
    HandlingForms(s.access, s.server, j);
    Settles(u, s.owed, owed, s.access, s.server, j);
  }

  lemma HeadOfQueue(s: State, j: Job, rest: seq<(nat, Request)>)
    requires s.requests == Queue(j) + rest
    ensures s.requests != [] && s.requests[0] == (j.id, j.request) && s.requests[1..] == QueueAll(j.during) + rest
  {
    hide QueueAll;
  }

  /** The reply that is owed last goes out. */
  lemma Settles(u: State, before: seq<Owed>, owed: seq<Owed>, access: map<Name, Access>, server: map<Name, Val>, j: Job)
    requires u.owed == before + owed && owed == Handled(access, server, j.id, j.request).2
    ensures Run(u, if owed == [] then [] else [ServerReplies])
         == Some(if owed == [] then u.(owed := before) else u.(owed := before, wire := u.wire + [ReplyTo(owed[0])]))
  {
    assert |owed| <= 1;
    if owed == [] {
      assert before + [] == before;
    } else {
      assert (before + owed)[..|before|] == before;
      RunOne(u, ServerReplies);
    }
  }

  lemma {:induction false} JobsRun(s: State, js: seq<Job>, rest: seq<(nat, Request)>)
    requires s.requests == QueueAll(js) + rest
    ensures var (end, sent) := HandlingAll(s.access, s.server, js);
            Run(s, StepsAll(s.access, s.server, js)) == Some(s.(server := end, wire := s.wire + sent, requests := rest))
    decreases js
  {
    hide Next, Handling, Queue, Steps;
    if js == [] {
      assert s.wire + [] == s.wire && [] + rest == rest;
    } else {
      var (after, sent) := Handling(s.access, s.server, js[0]);
      Associative(Queue(js[0]), QueueAll(js[1..]), rest);
      JobRuns(s, js[0], QueueAll(js[1..]) + rest);
      var t := s.(server := after, wire := s.wire + sent, requests := QueueAll(js[1..]) + rest);
      JobsRun(t, js[1..], rest);
      RunSplit(s, Steps(s.access, s.server, js[0]), StepsAll(s.access, after, js[1..]));
      Associative(s.wire, sent, HandlingAll(s.access, after, js[1..]).1);
    }
  }

  // ----- as it runs -----

  /** `PropertyProxyBase`. */
  class PropertyProxy {
    const name: Name
    const isConst: bool
    var value: Val
    var valueSet: bool

    constructor (name: Name, isConst: bool)
      ensures this.name == name && this.isConst == isConst && !valueSet
    {
      this.name, this.isConst := name, isConst;
      value, valueSet := 0, false;
    }

    function View(): map<Name, Slot>
      reads this
    {
      map[name := Slot(value, valueSet)]
    }

    method UpdatedValue(v: Val)
      modifies this
      ensures View() == Updated(old(View()), name, v)
      ensures value == v && valueSet
    {
      value := v;
      valueSet := true;
    }

    /** The end of `set_value`, when the call has returned; nothing happens for a constant. */
    method SetValue(v: Val) returns (called: bool)
      modifies this
      ensures called == !isConst
      ensures View() == if called then Accepted(old(View()), SetReply(name, v)) else old(View())
      ensures value == (if called then v else old(value)) && valueSet == old(valueSet)
    {
      if isConst { return false; }
      value := v;
      called := true;
    }

    method Invalidate()
      modifies this
      ensures View() == old(View())[name := old(View())[name].(isSet := false)]
    {
      valueSet := false;
    }
  }

  /** The proxy's `InterfaceProxy`: its properties, in one map. */
  class InterfaceProxy {
    const name: Name
    var slots: map<Name, Slot>

    constructor (name: Name, names: set<Name>)
      ensures this.name == name && slots == map n | n in names :: Slot(0, false)
    {
      this.name := name;
      slots := map n | n in names :: Slot(0, false);
    }

    /** `property_updated`: the changed properties it knows; the invalidated ones are ignored. */
    method PropertyUpdated(iface: Name, changed: map<Name, Val>, invalidated: seq<Name>)
      modifies this
      ensures slots == if iface == name then AllUpdated(old(slots), changed) else old(slots)
      ensures slots.Keys == old(slots).Keys
      ensures forall n :: n in slots ==>
                slots[n] == if iface == name && n in changed then Slot(changed[n], true) else old(slots)[n]
    {
      if iface != name { return; }
      var left := changed.Keys;
      assert slots == AllUpdated(slots, map[]);
      while left != {}
        invariant left <= changed.Keys && slots == AllUpdated(old(slots), changed - left)
      {
        var n :| n in left;
        left := left - {n};
        if n in slots { slots := slots[n := Slot(changed[n], true)]; }
      }
      assert changed - {} == changed;
    }

    /** The loop of `cache_properties` over the values of a GetAll reply. A value for a property the
        proxy does not have is a null pointer, and the result is false. */
    method CacheProperties(values: map<Name, Val>) returns (ok: bool)
      modifies this
      ensures ok <==> values.Keys <= old(slots).Keys
      ensures ok ==> slots == Accepted(old(slots), AllReply(values))
      ensures ok ==> slots.Keys == old(slots).Keys
      ensures ok ==> forall n :: n in slots ==> slots[n] == if n in values then Slot(values[n], true) else old(slots)[n]
    {
      var left := values.Keys;
      assert slots == AllUpdated(slots, map[]);
      while left != {}
        invariant left <= values.Keys && values.Keys - left <= old(slots).Keys
        invariant slots == AllUpdated(old(slots), values - left)
      {
        var n :| n in left;
        left := left - {n};
        if n !in slots { return false; }
        slots := slots[n := Slot(values[n], true)];
      }
      assert values - {} == values;
      ok := true;
    }
  }

  /** The server's `Interface`; `sent` is what it puts on its connection. */
  class Interface {
    const access: map<Name, Access>
    var values: map<Name, Val>
    var sent: seq<Message>

    constructor (access: map<Name, Access>)
      ensures this.access == access && values == map[] && sent == []
    {
      this.access := access;
      values, sent := map[], [];
    }

    /** `PropertyBase::set_value` and the signal it emits. */
    method SetValue(n: Name, v: Val)
      modifies this
      ensures values == old(values)[n := v] && sent == old(sent) + [Changed(n, v)]
    {
      values := values[n := v];
      sent := sent + [Changed(n, v)];
    }

    /** `handle_properties_message`. Sending the first message for a request dispatches, and so
        handles the requests in `during`, before a set is answered. */
    method HandleProperties(j: Job)
      modifies this
      ensures (values, sent) == (Handling(access, old(values), j).0, old(sent) + Handling(access, old(values), j).1)
      ensures AnsweredRight(access, old(values), values, old(sent), sent, j)
      decreases j
    {
      hide Handling, HandlingAll, Readable, AnsweredRight;
      ghost var was, before := values, sent;
      HandlingForms(access, values, j);
      HandlingAnswers(access, values, sent, j);
      match j.request
      case GetAll =>
        var all := Collect();
        sent := sent + [Answer(j.id, AllReply(all))];
        Dispatch(j.during);
      case Get(n) =>
        if n in values && n in access && access[n] != WriteOnly {
          sent := sent + [Answer(j.id, GotReply(n, values[n]))];
        } else {
          sent := sent + [Answer(j.id, ErrorReply)];
        }
        Dispatch(j.during);
      case Set(n, v) =>
        if n in values && n in access && access[n] != ReadOnly {
          SetValue(n, v);
          Dispatch(j.during);
          sent := sent + [Answer(j.id, SetReply(n, v))];
        } else {
          sent := sent + [Answer(j.id, ErrorReply)];
          Dispatch(j.during);
        }
    }

    /** The dispatching that goes on while a message is sent. */
    method Dispatch(js: seq<Job>)
      modifies this
      ensures (values, sent) == (HandlingAll(access, old(values), js).0, old(sent) + HandlingAll(access, old(values), js).1)
      decreases js
    {
      hide Handling;
      ghost var was, before := values, sent;
      assert before + [] == before && js[0..] == js;
      for i := 0 to |js|
        invariant HandlingAll(access, was, js).0 == HandlingAll(access, values, js[i..]).0
        invariant before + HandlingAll(access, was, js).1 == sent + HandlingAll(access, values, js[i..]).1
      {
        assert js[i..][0] == js[i] && js[i..][1..] == js[i + 1..];
        ghost var (after, more) := Handling(access, values, js[i]);
        Associative(sent, more, HandlingAll(access, after, js[i + 1..]).1);
        HandleProperties(js[i]);
      }
      assert sent + [] == sent;
    }

    /** The loop of `GetAll` over the properties. */
    method Collect() returns (all: map<Name, Val>)
      ensures all == Readable(access, values)
      ensures forall n :: n in all <==> n in values && n in access && (access[n] == ReadOnly || access[n] == ReadWrite)
      ensures forall n :: n in all ==> all[n] == values[n]
    {
      all := map[];
      var left := values.Keys;
      while left != {}
        invariant left <= values.Keys
        invariant all == map n | n in values && n !in left && n in access && access[n] != WriteOnly :: values[n]
      {
        var n :| n in left;
        left := left - {n};
        if n in access && access[n] != WriteOnly { all := all[n := values[n]]; }
      }
    }
  }
}
