/** Where an incoming call goes (connection.cpp): to the dispatching thread, to the dispatcher of
    the thread its object is registered for, or back as an error. */
module Routing {

  type Thread = nat

  datatype Entry = Entry(handler: nat, thread: Thread)

  /** The registered paths, and the dispatchers of other threads, each alive or expired. */
  datatype Registry = Registry(dispatching: Thread, paths: map<string, Entry>, dispatchers: map<Thread, bool>)

  datatype Outcome = RunHere(handler: nat) | Handed(thread: Thread, handler: nat) | NoPath

  predicate Alive(r: Registry, t: Thread) { t in r.dispatchers && r.dispatchers[t] }

  /** The one thing that happens to a call. */
  function Route(r: Registry, path: string): Outcome {
    if path !in r.paths then NoPath
    else
      var entry := r.paths[path];
      if entry.thread == r.dispatching then RunHere(entry.handler)
      else if Alive(r, entry.thread) then Handed(entry.thread, entry.handler)
      else NoPath
  }

  predicate Expired(r: Registry, t: Thread) { t in r.dispatchers && !r.dispatchers[t] }

  function Dead(r: Registry): set<Thread> { set t | t in r.dispatchers && Expired(r, t) }

  function BoundTo(paths: map<string, Entry>, ts: set<Thread>): set<string> {
    set p | p in paths && paths[p].thread in ts
  }

  /** `remove_invalid_threaddispatchers_and_associated_objects`: exactly the expired dispatchers
      go, and exactly the paths bound to their threads. */
  function Cleaned(r: Registry): Registry {
    r.(paths := r.paths - BoundTo(r.paths, Dead(r)), dispatchers := r.dispatchers - Dead(r))
  }

  /** The registry after a call: looking up the dispatcher of a thread that has none enters an
      expired one, and a dispatcher that is not alive sets off the cleanup. */
  function After(r: Registry, path: string): Registry {
    if path in r.paths && r.paths[path].thread != r.dispatching && !Alive(r, r.paths[path].thread)
    then Cleaned(r.(dispatchers := r.dispatchers[r.paths[path].thread := false]))
    else r
  }

  /** The cleanup leaves nothing for itself to do. */
  lemma CleanedIsClean(r: Registry)
    ensures Cleaned(Cleaned(r)) == Cleaned(r)
    ensures forall t :: !Expired(Cleaned(r), t)
    ensures forall p :: p in Cleaned(r).paths <==> p in r.paths && !Expired(r, r.paths[p].thread)
  {
    assert Cleaned(Cleaned(r)).paths == Cleaned(r).paths;
    assert Cleaned(Cleaned(r)).dispatchers == Cleaned(r).dispatchers;
  }

  /** No path of the dispatching thread goes away: that thread has no expired dispatcher. */
  predicate Keeps(r: Registry) {
    Expired(r, r.dispatching) ==> forall p :: p in r.paths ==> r.paths[p].thread != r.dispatching
  }

  /** The cleanup changes where no call goes if and only if no path of the dispatching thread has
      an expired dispatcher entry. */
  lemma CleanupKeepsRoutesIff(r: Registry)
    ensures (forall p :: Route(Cleaned(r), p) == Route(r, p)) <==> Keeps(r)
  {
    if !Keeps(r) {
      var p :| p in r.paths && r.paths[p].thread == r.dispatching;
      assert Route(Cleaned(r), p) == NoPath && Route(r, p).RunHere?;
    }
  }

  /** A call does not change where any call goes, under the same condition. */
  lemma CallKeepsRoutes(r: Registry, path: string, p: string)
    requires Keeps(r)
    ensures Route(After(r, path), p) == Route(r, p)
  {
    if path in r.paths && r.paths[path].thread != r.dispatching && !Alive(r, r.paths[path].thread) {
      var entered := r.(dispatchers := r.dispatchers[r.paths[path].thread := false]);
      assert Keeps(entered);
      CleanupKeepsRoutesIff(entered);
      assert Route(entered, p) == Route(r, p);
    }
  }

  /** Calls that come in one after the other, with no dispatcher expiring between them. */
  function AfterAll(r: Registry, calls: seq<string>): Registry
    decreases |calls|
  {
    if calls == [] then r else AfterAll(After(r, calls[0]), calls[1..])
  }

  lemma {:induction false} CallsKeepRoutes(r: Registry, calls: seq<string>, p: string)
    requires Keeps(r)
    ensures Route(AfterAll(r, calls), p) == Route(r, p)
    decreases |calls|
  {
    if calls != [] {
      CallKeepsRoutes(r, calls[0], p);
      KeepsAfter(r, calls[0]);
      CallsKeepRoutes(After(r, calls[0]), calls[1..], p);
    }
  }

  lemma KeepsAfter(r: Registry, path: string)
    requires Keeps(r)
    ensures Keeps(After(r, path))
  {
  }

  // ----- as it runs -----

  class Router {
    const dispatching: Thread
    var paths: map<string, Entry>
    var dispatchers: map<Thread, bool>
    /** What was run here, what was handed to other threads, and what was answered with an error. */
    var ran: seq<(nat, string)>
    var handed: seq<(Thread, nat, string)>
    var errors: seq<string>

    constructor (dispatching: Thread)
      ensures View() == Registry(dispatching, map[], map[]) && ran == [] && handed == [] && errors == []
    {
      this.dispatching := dispatching;
      paths, dispatchers, ran, handed, errors := map[], map[], [], [], [];
    }

    function View(): Registry
      reads this
    {
      Registry(dispatching, paths, dispatchers)
    }

    /** `process_call_message`: exactly one of the three happens, once. */
    method ProcessCallMessage(path: string)
      modifies this
      ensures View() == After(old(View()), path)
      ensures match Route(old(View()), path)
              case RunHere(h) => ran == old(ran) + [(h, path)] && handed == old(handed) && errors == old(errors)
              case Handed(t, h) => ran == old(ran) && handed == old(handed) + [(t, h, path)] && errors == old(errors)
              case NoPath => ran == old(ran) && handed == old(handed) && errors == old(errors) + [path]
      ensures var known := path in old(paths);
              var t := if known then old(paths)[path].thread else dispatching;
              var here, live := known && t == dispatching, known && t != dispatching && t in old(dispatchers) && old(dispatchers)[t];
              && ran == old(ran) + (if here then [(old(paths)[path].handler, path)] else [])
              && handed == old(handed) + (if live then [(t, old(paths)[path].handler, path)] else [])
              && errors == old(errors) + (if here || live then [] else [path])
              && (here || live || !known ==> paths == old(paths) && dispatchers == old(dispatchers))
              && (known && !here && !live ==>
                    && (forall u :: u in dispatchers <==> u in old(dispatchers) && old(dispatchers)[u])
                    && (forall p :: p in paths <==>
                          && p in old(paths) && old(paths)[p].thread != t
                          && (old(paths)[p].thread in old(dispatchers) ==> old(dispatchers)[old(paths)[p].thread])))
    {
      if path !in paths {
        errors := errors + [path];
        return;
      }
      var entry := paths[path];
      if entry.thread == dispatching {
        ran := ran + [(entry.handler, path)];
      } else {
        if entry.thread !in dispatchers { dispatchers := dispatchers[entry.thread := false]; }
        if !dispatchers[entry.thread] {
          assert View() == old(View()).(dispatchers := old(View()).dispatchers[entry.thread := false]);
          RemoveInvalid();
          errors := errors + [path];
        } else {
          assert dispatchers == old(dispatchers);
          handed := handed + [(entry.thread, entry.handler, path)];
        }
      }
    }

    /** The two loops of the cleanup. */
    method RemoveInvalid()
      modifies this`paths, this`dispatchers
      ensures View() == Cleaned(old(View()))
      ensures forall u :: u in dispatchers <==> u in old(dispatchers) && old(dispatchers)[u]
      ensures forall p :: p in paths <==>
                p in old(paths) && (old(paths)[p].thread in old(dispatchers) ==> old(dispatchers)[old(paths)[p].thread])
    {
      ghost var was := View();
      var invalid: set<Thread> := {};
      var todo := dispatchers.Keys;
      while todo != {}
        invariant todo <= was.dispatchers.Keys && paths == was.paths
        invariant invalid == Dead(was) - todo && dispatchers == was.dispatchers - invalid
      {
        var t :| t in todo;
        todo := todo - {t};
        if !dispatchers[t] {
          invalid := invalid + {t};
          dispatchers := dispatchers - {t};
        }
      }
      assert invalid == Dead(was);
      if invalid == {} {
        assert BoundTo(paths, Dead(was)) == {};
        return;
      }
      var left := paths.Keys;
      while left != {}
        invariant left <= was.paths.Keys && dispatchers == was.dispatchers - Dead(was)
        invariant paths == was.paths - (BoundTo(was.paths, invalid) - left)
      {
        var p :| p in left;
        left := left - {p};
        if paths[p].thread in invalid { paths := paths - {p}; }
      }
      assert BoundTo(was.paths, invalid) - left == BoundTo(was.paths, Dead(was));
      assert View().paths == Cleaned(was).paths && View().dispatchers == Cleaned(was).dispatchers;
    }
  }
}
