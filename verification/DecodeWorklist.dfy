/** The seed decode loop: which blocks of which functions get decoded. */
module DecodeWorklist {
  import opened Wrappers

  /** A block of a function, to be decoded. */
  datatype Seed = Seed(entry: nat, block: nat)

  function Next(fallthrough: Option<nat>): seq<nat> {
    if fallthrough.Some? then [fallthrough.value] else []
  }

  /** What one local decode reports. */
  datatype Report = Report(
    calls: seq<nat>, tailBranches: seq<nat>, branches: seq<nat>, fallthrough: Option<nat>, jumpTables: seq<nat>)

  /** Everything the loop asks of its surroundings.  The program state changes
      while decoding, so a report and a range test also depend on how many seeds
      have been decoded. */
  datatype Surroundings = Surroundings(
    executable: set<nat>,
    skipRuntime: bool,
    runtime: nat -> bool,
    report: (nat, Seed) -> Report,
    inRange: (nat, nat, nat) -> bool)

  // ----- what ought to be decoded ------------------------------------------------

  predicate Executable(env: Surroundings, s: Seed) {
    s.entry in env.executable && s.block in env.executable
  }

  /** How a reported target becomes a seed: as a function of its own, or as a
      block of the function being decoded at step n. */
  datatype Route = FromOptions | NewFunction | SameFunction(n: nat, entry: nat)

  predicate Passes(env: Surroundings, route: Route, target: nat) {
    match route
    case FromOptions => true
    case NewFunction => !(env.skipRuntime && env.runtime(target))
    case SameFunction(n, entry) => env.inRange(n, entry, target)
  }

  function SeedFor(route: Route, target: nat): Seed {
    if route.SameFunction? then Seed(route.entry, target) else Seed(target, target)
  }

  function Filtered(env: Surroundings, route: Route, targets: seq<nat>): set<Seed> {
    set t | t in targets && Passes(env, route, t) && Executable(env, SeedFor(route, t)) :: SeedFor(route, t)
  }

  /** The seeds that pass the filters when step n decodes seed s. */
  function Accepted(env: Surroundings, n: nat, s: Seed): set<Seed> {
    var r, here := env.report(n, s), SameFunction(n, s.entry);
    Filtered(env, NewFunction, r.calls) + Filtered(env, NewFunction, r.tailBranches)
    + Filtered(env, here, r.branches)
    + Filtered(env, here, Next(r.fallthrough))
    + Filtered(env, here, r.jumpTables)
  }

  function Initial(env: Surroundings, entries: seq<nat>): set<Seed> {
    Filtered(env, FromOptions, entries)
  }

  /** Which seeds a step adds: a called or tail-called function that the runtime filter
      lets through, or a branch target, fall-through or table entry in the range of
      the function being decoded; always with both addresses executable. */
  lemma AcceptedSeeds(env: Surroundings, n: nat, parent: Seed, s: Seed)
    ensures var r := env.report(n, parent);
      s in Accepted(env, n, parent) <==>
        && s.entry in env.executable && s.block in env.executable
        && (|| (s.entry == s.block && (s.block in r.calls || s.block in r.tailBranches) &&
                  (env.skipRuntime ==> !env.runtime(s.block)))
            || (s.entry == parent.entry && env.inRange(n, parent.entry, s.block) &&
                  (s.block in r.branches || r.fallthrough == Some(s.block) || s.block in r.jumpTables)))
  {
    var r, here := env.report(n, parent), SameFunction(n, parent.entry);
    InFiltered(env, NewFunction, r.calls, s);
    InFiltered(env, NewFunction, r.tailBranches, s);
    InFiltered(env, here, r.branches, s);
    InFiltered(env, here, Next(r.fallthrough), s);
    InFiltered(env, here, r.jumpTables, s);
    hide Filtered;
  }

  lemma InFiltered(env: Surroundings, route: Route, targets: seq<nat>, s: Seed)
    ensures s in Filtered(env, route, targets) <==>
              s == SeedFor(route, s.block) && s.block in targets && Passes(env, route, s.block) && Executable(env, s)
  {
  }

  /** The initial seeds are the executable entries, each as a function of its own. */
  lemma InitialSeeds(env: Surroundings, entries: seq<nat>, s: Seed)
    ensures s in Initial(env, entries) <==> s.entry == s.block && s.block in entries && s.block in env.executable
  {
    InFiltered(env, FromOptions, entries, s);
  }

  /** Each decoded seed was initial or accepted at an earlier step. */
  ghost predicate Justified(env: Surroundings, entries: seq<nat>, trace: seq<Seed>, s: Seed) {
    s in Initial(env, entries) || exists n :: 0 <= n < |trace| && s in Accepted(env, n, trace[n])
  }

  predicate NoDuplicates(trace: seq<Seed>) {
    forall i, j :: 0 <= i < j < |trace| ==> trace[i] != trace[j]
  }

  // ----- the order in which seeds are queued ----------------------------------------

  /** The seeds of one route, in the order of the targets. */
  function InOrder(env: Surroundings, route: Route, targets: seq<nat>): seq<Seed> {
    if targets == [] then []
    else
      var t := targets[|targets| - 1];
      InOrder(env, route, targets[..|targets| - 1])
      + if Passes(env, route, t) && Executable(env, SeedFor(route, t)) then [SeedFor(route, t)] else []
  }

  /** The seeds of one report: calls, tail branches, branches, the fall-through, tables. */
  function Reported(env: Surroundings, n: nat, s: Seed): seq<Seed> {
    var r, here := env.report(n, s), SameFunction(n, s.entry);
    InOrder(env, NewFunction, r.calls) + InOrder(env, NewFunction, r.tailBranches)
    + InOrder(env, here, r.branches)
    + InOrder(env, here, Next(r.fallthrough))
    + InOrder(env, here, r.jumpTables)
  }

  /** The entries and then what each decoded seed reports, one report after another. */
  function Discovered(env: Surroundings, entries: seq<nat>, trace: seq<Seed>): seq<Seed> {
    if trace == [] then InOrder(env, FromOptions, entries)
    else
      var n := |trace| - 1;
      Discovered(env, entries, trace[..n]) + Reported(env, n, trace[n])
  }

  /** The first occurrences of the seeds that are not known. */
  function Fresh(seeds: seq<Seed>, known: set<Seed>): seq<Seed> {
    if seeds == [] then []
    else
      var s, front := seeds[|seeds| - 1], Fresh(seeds[..|seeds| - 1], known);
      if s in known || s in front then front else front + [s]
  }

  lemma {:induction false} FreshSeeds(seeds: seq<Seed>, known: set<Seed>)
    ensures forall s :: s in Fresh(seeds, known) <==> s in seeds && s !in known
    ensures NoDuplicates(Fresh(seeds, known))
    decreases |seeds|
  {
    if seeds != [] {
      var last, front := seeds[|seeds| - 1], seeds[..|seeds| - 1];
      FreshSeeds(front, known);
      assert forall s :: s in seeds <==> s in front || s == last;
    }
  }

  lemma {:induction false} FreshMore(one: seq<Seed>, more: seq<Seed>, known: set<Seed>, all: set<Seed>)
    requires all == known + set s | s in one
    ensures Fresh(one + more, known) == Fresh(one, known) + Fresh(more, all)
    decreases |more|
  {
    if more == [] {
      assert one + more == one;
    } else {
      var last, front := more[|more| - 1], more[..|more| - 1];
      FreshMore(one, front, known, all);
      assert (one + more)[..|one| + |front|] == one + front;
      FreshSeeds(one, known);
      hide Fresh;
    }
  }

  lemma {:induction false} OrderedAlike(env: Surroundings, route: Route, targets: seq<nat>)
    ensures (set s | s in InOrder(env, route, targets)) == Filtered(env, route, targets)
    decreases |targets|
  {
    hide Passes, Executable, SeedFor;
    if targets != [] {
      var t, front := targets[|targets| - 1], targets[..|targets| - 1];
      OrderedAlike(env, route, front);
      FilteredMore(env, route, front, t);
      assert targets == front + [t];
    } else {
      FilteredMore(env, route, [], 0);
    }
  }

  // ----- the queue -----------------------------------------------------------------

  ghost function Unqueued(env: Surroundings, queued: set<Seed>): set<Seed> {
    set e, b | e in env.executable && b in env.executable && Seed(e, b) !in queued :: Seed(e, b)
  }

  /** Every queued seed is executable and is either waiting or decoded, once. */
  ghost predicate Consistent(env: Surroundings, queue: seq<Seed>, queued: set<Seed>, trace: seq<Seed>) {
    && (forall s :: s in queued ==> Executable(env, s))
    && (forall s :: s in queued <==> s in queue || s in trace)
    && NoDuplicates(queue + trace)
  }

  /** Nothing changed, or fewer seeds remain to be queued. */
  ghost predicate Progress(env: Surroundings, queue: seq<Seed>, queued: set<Seed>, queue': seq<Seed>,
          queued': set<Seed>) {
    (queued' == queued && queue' == queue) || |Unqueued(env, queued')| < |Unqueued(env, queued)|
  }

  /** The first waiting seed is executable and new; decoding it moves it over. */
  lemma PopKeeps(env: Surroundings, queue: seq<Seed>, queued: set<Seed>, trace: seq<Seed>)
    requires Consistent(env, queue, queued, trace) && queue != []
    ensures Executable(env, queue[0]) && queue[0] !in trace && queue[0] in queued
    ensures NoDuplicates(trace) && Consistent(env, queue[1..], queued, trace + [queue[0]])
  {
    var before, after := queue + trace, queue[1..] + (trace + [queue[0]]);
    assert forall i :: 0 <= i < |after| ==> after[i] == before[if i < |after| - 1 then i + 1 else 0];
    assert forall i :: 0 <= i < |trace| ==> trace[i] == before[|queue| + i];
    assert before[0] == queue[0];
    assert queue == [queue[0]] + queue[1..];
  }

  lemma ConsistentTrace(env: Surroundings, queue: seq<Seed>, queued: set<Seed>, trace: seq<Seed>)
    requires Consistent(env, queue, queued, trace)
    ensures NoDuplicates(trace) && (forall s :: s in trace ==> s in queued && Executable(env, s))
    ensures queue == [] ==> forall s :: s in queued ==> s in trace
  {
    assert forall i :: 0 <= i < |trace| ==> trace[i] == (queue + trace)[|queue| + i];
  }

  lemma AppendKeeps(env: Surroundings, s: Seed, queue: seq<Seed>, queued: set<Seed>, trace: seq<Seed>)
    requires Consistent(env, queue, queued, trace) && Executable(env, s) && s !in queued
    ensures Consistent(env, queue + [s], queued + {s}, trace)
    ensures |Unqueued(env, queued + {s})| < |Unqueued(env, queued)|
  {
    assert Unqueued(env, queued) == Unqueued(env, queued + {s}) + {s};
    hide Unqueued;
    var before, after := queue + trace, queue + [s] + trace;
    var at := |queue|;
    assert forall i :: 0 <= i < |before| ==> before[i] in queue || before[i] in trace;
    assert forall i :: 0 <= i < |after| && i != at ==> after[i] == before[if i < at then i else i - 1];
    assert after[at] == s;
  }

  method EnqueueSeed(env: Surroundings, s: Seed, queue: seq<Seed>, queued: set<Seed>, ghost trace: seq<Seed>)
    returns (queue': seq<Seed>, queued': set<Seed>)
    requires Consistent(env, queue, queued, trace)
    ensures Consistent(env, queue', queued', trace)
    ensures queued' == if Executable(env, s) then queued + {s} else queued
    ensures queue' == queue + Fresh(if Executable(env, s) then [s] else [], queued)
    ensures Progress(env, queue, queued, queue', queued')
  {
    hide Consistent, Unqueued;
    if !Executable(env, s) || s in queued {
      return queue, queued;
    }
    AppendKeeps(env, s, queue, queued, trace);
    queue', queued' := queue + [s], queued + {s};
  }

  lemma FilteredMore(env: Surroundings, route: Route, targets: seq<nat>, t: nat)
    ensures Filtered(env, route, []) == {}
    ensures Filtered(env, route, targets + [t]) == Filtered(env, route, targets)
         + if Passes(env, route, t) && Executable(env, SeedFor(route, t)) then {SeedFor(route, t)} else {}
  {
    hide Passes, Executable, SeedFor;
  }

  lemma FewTargets(env: Surroundings, route: Route, t: nat, known: set<Seed>)
    ensures InOrder(env, route, []) == [] && Fresh([], known) == []
    ensures InOrder(env, route, [t])
         == if Passes(env, route, t) && Executable(env, SeedFor(route, t)) then [SeedFor(route, t)] else []
  {
    assert [t][..0] == [];
  }

  /** One more target of a route, in order. */
  lemma OneMore(env: Surroundings, route: Route, targets: seq<nat>, t: nat, known: set<Seed>, all: set<Seed>)
    requires all == known + Filtered(env, route, targets)
    ensures Fresh([], all) == []
    ensures Fresh(InOrder(env, route, targets + [t]), known) == Fresh(InOrder(env, route, targets), known)
         + Fresh(if Passes(env, route, t) && Executable(env, SeedFor(route, t)) then [SeedFor(route, t)] else [], all)
  {
    var s := SeedFor(route, t);
    var last := if Passes(env, route, t) && Executable(env, s) then [s] else [];
    assert (targets + [t])[..|targets|] == targets;
    assert InOrder(env, route, targets + [t]) == InOrder(env, route, targets) + last;
    hide InOrder, Filtered, Passes, Executable, SeedFor, Fresh;
    OrderedAlike(env, route, targets);
    FreshMore(InOrder(env, route, targets), last, known, all);
  }

  /** Enqueues the targets of one route. */
  method EnqueueAll(env: Surroundings, route: Route, targets: seq<nat>,
                    queue: seq<Seed>, queued: set<Seed>, ghost trace: seq<Seed>)
    returns (queue': seq<Seed>, queued': set<Seed>)
    requires Consistent(env, queue, queued, trace)
    ensures Consistent(env, queue', queued', trace)
    ensures queued' == queued + Filtered(env, route, targets)
    ensures queue' == queue + Fresh(InOrder(env, route, targets), queued)
    ensures Progress(env, queue, queued, queue', queued')
  {
    hide Consistent, Unqueued, Filtered, Passes, Fresh;
    queue', queued' := queue, queued;
    FilteredMore(env, route, [], 0);
    FewTargets(env, route, 0, queued);
    for k := 0 to |targets|
      invariant Consistent(env, queue', queued', trace)
      invariant queued' == queued + Filtered(env, route, targets[..k])
      invariant queue' == queue + Fresh(InOrder(env, route, targets[..k]), queued)
      invariant Progress(env, queue, queued, queue', queued')
    {
      assert targets[..k + 1] == targets[..k] + [targets[k]];
      FilteredMore(env, route, targets[..k], targets[k]);
      OneMore(env, route, targets[..k], targets[k], queued, queued');
      if Passes(env, route, targets[k]) {
        queue', queued' := EnqueueSeed(env, SeedFor(route, targets[k]), queue', queued', trace);
      }
    }
    assert targets[..|targets|] == targets;
  }

  /** The parts of a report are new one after another. */
  lemma ReportedInOrder(env: Surroundings, n: nat, s: Seed, queue: seq<Seed>, known: set<Seed>)
    ensures var r, here := env.report(n, s), SameFunction(n, s.entry);
      var afterCalls := known + Filtered(env, NewFunction, r.calls);
      var afterTails := afterCalls + Filtered(env, NewFunction, r.tailBranches);
      var afterBranches := afterTails + Filtered(env, here, r.branches);
      var afterNext := afterBranches + Filtered(env, here, Next(r.fallthrough));
      && queue + Fresh(Reported(env, n, s), known)
         == queue + Fresh(InOrder(env, NewFunction, r.calls), known)
            + Fresh(InOrder(env, NewFunction, r.tailBranches), afterCalls)
            + Fresh(InOrder(env, here, r.branches), afterTails)
            + Fresh(InOrder(env, here, Next(r.fallthrough)), afterBranches)
            + Fresh(InOrder(env, here, r.jumpTables), afterNext)
      && known + Accepted(env, n, s) == afterNext + Filtered(env, here, r.jumpTables)
  {
    hide InOrder, Filtered, Fresh, Next;
    var r, here := env.report(n, s), SameFunction(n, s.entry);
    OrderedAlike(env, NewFunction, r.calls);
    OrderedAlike(env, NewFunction, r.tailBranches);
    OrderedAlike(env, here, r.branches);
    OrderedAlike(env, here, Next(r.fallthrough));
    var one := InOrder(env, NewFunction, r.calls);
    var two := one + InOrder(env, NewFunction, r.tailBranches);
    var three := two + InOrder(env, here, r.branches);
    var four := three + InOrder(env, here, Next(r.fallthrough));
    var afterCalls := known + Filtered(env, NewFunction, r.calls);
    var afterTails := afterCalls + Filtered(env, NewFunction, r.tailBranches);
    var afterBranches := afterTails + Filtered(env, here, r.branches);
    var afterNext := afterBranches + Filtered(env, here, Next(r.fallthrough));
    FreshMore(one, InOrder(env, NewFunction, r.tailBranches), known, afterCalls);
    FreshMore(two, InOrder(env, here, r.branches), known, afterTails);
    FreshMore(three, InOrder(env, here, Next(r.fallthrough)), known, afterBranches);
    FreshMore(four, InOrder(env, here, r.jumpTables), known, afterNext);
  }

  lemma ReportedSeeds(env: Surroundings, n: nat, s: Seed)
    ensures (set t | t in Reported(env, n, s)) == Accepted(env, n, s)
  {
    hide InOrder, Filtered, Next;
    var r, here := env.report(n, s), SameFunction(n, s.entry);
    OrderedAlike(env, NewFunction, r.calls);
    OrderedAlike(env, NewFunction, r.tailBranches);
    OrderedAlike(env, here, r.branches);
    OrderedAlike(env, here, Next(r.fallthrough));
    OrderedAlike(env, here, r.jumpTables);
  }

  /** Enqueues the instruction behind the last one, if control gets there. */
  method EnqueueFallthrough(env: Surroundings, n: nat, entry: nat, fallthrough: Option<nat>,
                            queue: seq<Seed>, queued: set<Seed>, ghost trace: seq<Seed>)
    returns (queue': seq<Seed>, queued': set<Seed>)
    requires Consistent(env, queue, queued, trace)
    ensures Consistent(env, queue', queued', trace)
    ensures queued' == queued + Filtered(env, SameFunction(n, entry), Next(fallthrough))
    ensures queue' == queue + Fresh(InOrder(env, SameFunction(n, entry), Next(fallthrough)), queued)
    ensures Progress(env, queue, queued, queue', queued')
  {
    hide Consistent, Unqueued, Filtered, Fresh, InOrder;
    var here := SameFunction(n, entry);
    queue', queued' := queue, queued;
    if fallthrough.Some? {
      var t := fallthrough.value;
      FilteredMore(env, here, [], t);
      FewTargets(env, here, t, queued);
      assert [] + [t] == [t];
      if env.inRange(n, entry, t) {
        queue', queued' := EnqueueSeed(env, Seed(entry, t), queue, queued, trace);
      }
    } else {
      FilteredMore(env, here, [], 0);
      FewTargets(env, here, 0, queued);
    }
  }

  /** Everything one report adds to the queue. */
  method EnqueueReport(env: Surroundings, n: nat, s: Seed, queue: seq<Seed>, queued: set<Seed>, ghost trace: seq<Seed>)
    returns (queue': seq<Seed>, queued': set<Seed>)
    requires Consistent(env, queue, queued, trace)
    ensures Consistent(env, queue', queued', trace)
    ensures queued' == queued + Accepted(env, n, s)
    ensures queue' == queue + Fresh(Reported(env, n, s), queued)
    ensures Progress(env, queue, queued, queue', queued')
  {
    hide Consistent, Unqueued, Filtered, Fresh, InOrder, Reported, Accepted, Next;
    var r, here := env.report(n, s), SameFunction(n, s.entry);
    ReportedInOrder(env, n, s, queue, queued);
    queue', queued' := EnqueueAll(env, NewFunction, r.calls, queue, queued, trace);
    queue', queued' := EnqueueAll(env, NewFunction, r.tailBranches, queue', queued', trace);
    queue', queued' := EnqueueAll(env, here, r.branches, queue', queued', trace);
    queue', queued' := EnqueueFallthrough(env, n, s.entry, r.fallthrough, queue', queued', trace);
    queue', queued' := EnqueueAll(env, here, r.jumpTables, queue', queued', trace);
  }

  // ----- the loop --------------------------------------------------------------------

  /** trace lists the decoded seeds in order: first come, first served, each where it
      was first discovered.  No seed is decoded twice; without a limit, everything
      accepted on the way is decoded; with one, the loop stops early only after
      exactly that many seeds. */
  method DecodeSeeds(env: Surroundings, entries: seq<nat>, limit: Option<nat>) returns (trace: seq<Seed>)
    ensures NoDuplicates(trace)
    ensures forall s :: s in trace ==> Executable(env, s) && Justified(env, entries, trace, s)
    ensures limit.Some? ==> |trace| <= limit.value
    ensures trace <= Fresh(Discovered(env, entries, trace), {})
    ensures limit.None? || |trace| < limit.value ==> trace == Fresh(Discovered(env, entries, trace), {})
    ensures limit.None? || |trace| < limit.value ==>
              && (forall s :: s in Initial(env, entries) ==> s in trace)
              && (forall n, s :: 0 <= n < |trace| && s in Accepted(env, n, trace[n]) ==> s in trace)
  {
    hide Accepted, Unqueued, Consistent, Justified, NoDuplicates, Initial, Filtered;
    hide Fresh, Discovered, InOrder, Reported;
    trace := [];
    assert Consistent(env, [], {}, []) by { NothingQueued(env); }
    var decoded: set<Seed> := {};
    var queue, queued := EnqueueAll(env, FromOptions, entries, [], {}, trace);
    InitiallyQueued(env, entries, queued);
    InitiallyInOrder(env, entries);
    while queue != []
      invariant Consistent(env, queue, queued, trace)
      invariant decoded == set s | s in trace
      invariant limit.Some? ==> |trace| <= limit.value
      invariant trace + queue == Fresh(Discovered(env, entries, trace), {})
      invariant queued == set s | s in Discovered(env, entries, trace)
      invariant forall s :: s in queued ==> Justified(env, entries, trace, s)
      invariant Initial(env, entries) <= queued
      invariant forall n, s :: 0 <= n < |trace| && s in Accepted(env, n, trace[n]) ==> s in queued
      decreases |Unqueued(env, queued)|, |queue|
    {
      if limit.Some? && |trace| >= limit.value {
        break;
      }
      var item := queue[0];
      var n := |trace|;
      PopKeeps(env, queue, queued, trace);
      queue := queue[1..];
      if item in decoded || item.block !in env.executable {
        continue;
      }
      ghost var before, known := trace, queued;
      decoded := decoded + {item};
      trace := trace + [item];
      ghost var waiting := queue;
      queue, queued := EnqueueReport(env, n, item, queue, queued, trace);
      DiscoveredMore(env, entries, before, item, waiting, known);
      JustifiedMore(env, entries, before, item, known, queued);
    }
    ConsistentTrace(env, queue, queued, trace);
  }

  lemma InitiallyInOrder(env: Surroundings, entries: seq<nat>)
    ensures Discovered(env, entries, []) == InOrder(env, FromOptions, entries)
    ensures (set s | s in Discovered(env, entries, [])) == {} + Filtered(env, FromOptions, entries)
  {
    hide InOrder, Filtered;
    OrderedAlike(env, FromOptions, entries);
  }

  /** Decoding the first waiting seed leaves the others waiting and puts what it
      reports behind them. */
  lemma DiscoveredMore(env: Surroundings, entries: seq<nat>, trace: seq<Seed>, item: Seed, waiting: seq<Seed>,
          known: set<Seed>)
    requires known == set s | s in Discovered(env, entries, trace)
    requires trace + ([item] + waiting) == Fresh(Discovered(env, entries, trace), {})
    ensures (trace + [item]) + (waiting + Fresh(Reported(env, |trace|, item), known))
         == Fresh(Discovered(env, entries, trace + [item]), {})
    ensures known + Accepted(env, |trace|, item) == set s | s in Discovered(env, entries, trace + [item])
  {
    hide *;
    var earlier, latest := Discovered(env, entries, trace), Reported(env, |trace|, item);
    DiscoveredStep(env, entries, trace, item);
    FreshMore(earlier, latest, {}, known);
    ReportedSeeds(env, |trace|, item);
    assert trace + ([item] + waiting) + Fresh(latest, known) == (trace + [item]) + (waiting + Fresh(latest, known));
    assert forall s :: s in earlier + latest <==> s in earlier || s in latest;
  }

  lemma DiscoveredStep(env: Surroundings, entries: seq<nat>, trace: seq<Seed>, item: Seed)
    ensures Discovered(env, entries, trace + [item]) == Discovered(env, entries, trace) + Reported(env, |trace|, item)
  {
    hide Reported;
    assert (trace + [item])[..|trace|] == trace;
  }

  lemma NothingQueued(env: Surroundings)
    ensures Consistent(env, [], {}, [])
  {
  }

  lemma InitiallyQueued(env: Surroundings, entries: seq<nat>, queued: set<Seed>)
    requires queued == {} + Filtered(env, FromOptions, entries)
    ensures queued == Initial(env, entries)
    ensures forall s :: s in queued ==> Justified(env, entries, [], s)
  {
  }

  /** One more decoded seed justifies what its report adds. */
  lemma JustifiedMore(env: Surroundings, entries: seq<nat>, trace: seq<Seed>, item: Seed, known: set<Seed>,
          queued: set<Seed>)
    requires queued == known + Accepted(env, |trace|, item)
    requires forall s :: s in known ==> Justified(env, entries, trace, s)
    requires forall n, s :: 0 <= n < |trace| && s in Accepted(env, n, trace[n]) ==> s in known
    ensures forall s :: s in queued ==> Justified(env, entries, trace + [item], s)
    ensures forall n, s :: 0 <= n < |trace| + 1 && s in Accepted(env, n, (trace + [item])[n]) ==> s in queued
  {
    hide Accepted, Initial;
    forall s | s in queued
      ensures Justified(env, entries, trace + [item], s)
    {
      if s in known {
        assert Justified(env, entries, trace, s);
        assert forall n :: 0 <= n < |trace| ==> (trace + [item])[n] == trace[n];
      } else {
        assert s in Accepted(env, |trace|, (trace + [item])[|trace|]);
      }
    }
  }
}
