/** The static x87 stack depth analysis over a function's control-flow graph. */
module X87Depth {
  import opened Wrappers

  /** Per block: its net depth change and its successors, each unknown when the
      lowering cannot tell. */
  datatype Cfg = Cfg(entry: nat, delta: seq<Option<int>>, succ: seq<Option<seq<nat>>>) {
    predicate Valid() {
      && |delta| == |succ|
      && forall b, k :: 0 <= b < |succ| && succ[b].Some? && 0 <= k < |succ[b].value| ==> succ[b].value[k] < |succ|
    }

    predicate Known(b: nat)
      requires Valid() && b < |delta|
    {
      delta[b].Some? && succ[b].Some?
    }

    predicate Edge(b: nat, c: nat)
      requires Valid() && b < |delta|
    {
      Known(b) && c in succ[b].value
    }
  }

  // ----- what the analysis is about: paths ------------------------------------

  function Last(p: seq<nat>): nat
    requires p != []
  {
    p[|p| - 1]
  }

  /** A walk from the entry along edges of known blocks. */
  predicate IsPath(g: Cfg, p: seq<nat>)
    requires g.Valid()
  {
    && p != [] && p[0] == g.entry
    && (forall i :: 0 <= i < |p| ==> p[i] < |g.delta|)
    && (forall i :: 0 <= i < |p| - 1 ==> g.Edge(p[i], p[i + 1]))
  }

  /** The depth on arrival at the last block. */
  function PathSum(g: Cfg, p: seq<nat>): int
    requires g.Valid() && IsPath(g, p)
  {
    if |p| == 1 then 0
    else
      assert g.Edge(p[|p| - 2], p[|p| - 1]);
      PathSum(g, p[..|p| - 1]) + g.delta[p[|p| - 2]].value
  }

  ghost predicate Reaches(g: Cfg, b: nat)
    requires g.Valid()
  {
    exists p :: IsPath(g, p) && Last(p) == b
  }

  /** Every walk meets known blocks only, never leaves a block below depth zero,
      and any two walks agree on the depth where they meet. */
  ghost predicate Balanced(g: Cfg)
    requires g.Valid()
  {
    && (forall p | IsPath(g, p) :: g.Known(Last(p)) && 0 <= PathSum(g, p) + g.delta[Last(p)].value)
    && (forall p, q | IsPath(g, p) && IsPath(g, q) && Last(p) == Last(q) :: PathSum(g, p) == PathSum(g, q))
  }

  lemma ExtendPath(g: Cfg, p: seq<nat>, c: nat)
    requires g.Valid() && IsPath(g, p) && g.Edge(Last(p), c)
    ensures IsPath(g, p + [c]) && Last(p + [c]) == c
    ensures PathSum(g, p + [c]) == PathSum(g, p) + g.delta[Last(p)].value
  {
    var r := p + [c];
    forall i | 0 <= i < |r| - 1
      ensures g.Edge(r[i], r[i + 1])
    {
      if i < |p| - 1 { assert g.Edge(p[i], p[i + 1]); }
    }
    assert r[..|r| - 1] == p;
  }

  lemma PathPrefix(g: Cfg, p: seq<nat>)
    requires g.Valid() && IsPath(g, p) && 1 < |p|
    ensures IsPath(g, p[..|p| - 1]) && g.Edge(Last(p[..|p| - 1]), Last(p))
  {
    assert g.Edge(p[|p| - 2], p[|p| - 1]);
  }

  /** A depth assignment that starts at zero and is kept by every edge. */
  ghost predicate IsFixpoint(g: Cfg, depth: seq<Option<int>>)
    requires g.Valid() && |depth| == |g.delta| && g.entry < |g.delta|
  {
    && depth[g.entry] == Some(0)
    && forall b | 0 <= b < |depth| && depth[b].Some? :: Settled(g, depth, b)
  }

  ghost predicate Settled(g: Cfg, depth: seq<Option<int>>, b: nat)
    requires g.Valid() && |depth| == |g.delta| && b < |depth| && depth[b].Some?
  {
    && g.Known(b)
    && 0 <= depth[b].value + g.delta[b].value
    && forall c | c in g.succ[b].value :: c < |depth| && depth[c] == Some(depth[b].value + g.delta[b].value)
  }

  lemma {:induction false} FixpointFollowsPath(g: Cfg, depth: seq<Option<int>>, p: seq<nat>)
    requires g.Valid() && |depth| == |g.delta| && g.entry < |g.delta| && IsFixpoint(g, depth)
    requires IsPath(g, p)
    ensures depth[Last(p)] == Some(PathSum(g, p))
    decreases |p|
  {
    if |p| > 1 {
      var r := p[..|p| - 1];
      PathPrefix(g, p);
      FixpointFollowsPath(g, depth, r);
      assert Settled(g, depth, Last(r));
    }
  }

  lemma FixpointIsBalanced(g: Cfg, depth: seq<Option<int>>)
    requires g.Valid() && |depth| == |g.delta| && g.entry < |g.delta| && IsFixpoint(g, depth)
    ensures Balanced(g)
  {
    forall p | IsPath(g, p)
      ensures g.Known(Last(p)) && 0 <= PathSum(g, p) + g.delta[Last(p)].value
    {
      FixpointFollowsPath(g, depth, p);
      assert Settled(g, depth, Last(p));
    }
    forall p, q | IsPath(g, p) && IsPath(g, q) && Last(p) == Last(q)
      ensures PathSum(g, p) == PathSum(g, q)
    {
      FixpointFollowsPath(g, depth, p);
      FixpointFollowsPath(g, depth, q);
    }
  }

  // ----- the analysis -----------------------------------------------------------

  /** walks[b] is a walk to b for every marked b. */
  ghost predicate WalksReach(g: Cfg, marked: seq<bool>, walks: seq<seq<nat>>)
    requires g.Valid() && |marked| == |walks| == |g.delta|
  {
    forall b | 0 <= b < |marked| && marked[b] :: IsPath(g, walks[b]) && Last(walks[b]) == b
  }

  ghost function Unmarked(marked: seq<bool>): set<nat> {
    set b: nat | b < |marked| && !marked[b]
  }

  lemma MarkingShrinks(marked: seq<bool>, c: nat)
    requires c < |marked| && !marked[c]
    ensures |Unmarked(marked[c := true])| < |Unmarked(marked)|
  {
    assert Unmarked(marked) == Unmarked(marked[c := true]) + {c};
  }

  /** Every marked block that is no longer queued is known and has its
      successors marked; done is being worked on. */
  ghost predicate Explored(g: Cfg, marked: seq<bool>, worklist: seq<nat>, done: set<nat>)
    requires g.Valid() && |marked| == |g.delta|
  {
    && (forall b | b in worklist :: b < |marked| && marked[b])
    && (forall b | 0 <= b < |marked| && marked[b] && b !in worklist && b !in done :: Closed(g, marked, b))
  }

  ghost predicate Closed(g: Cfg, marked: seq<bool>, b: nat)
    requires g.Valid() && b < |marked| == |g.delta|
  {
    g.Known(b) && forall c | c in g.succ[b].value :: c < |marked| && marked[c]
  }

  lemma {:induction false} ClosedMarksContainPaths(g: Cfg, marked: seq<bool>, p: seq<nat>)
    requires g.Valid() && g.entry < |marked| == |g.delta| && marked[g.entry] && IsPath(g, p)
    requires forall b | 0 <= b < |marked| && marked[b] :: Closed(g, marked, b)
    ensures marked[Last(p)]
    decreases |p|
  {
    if |p| > 1 {
      PathPrefix(g, p);
      ClosedMarksContainPaths(g, marked, p[..|p| - 1]);
      assert Closed(g, marked, Last(p[..|p| - 1]));
    }
  }

  method MarkSuccessors(g: Cfg, index: nat, marked: seq<bool>, worklist: seq<nat>, ghost walks: seq<seq<nat>>)
    returns (marked': seq<bool>, worklist': seq<nat>, ghost walks': seq<seq<nat>>)
    requires g.Valid() && index < |marked| == |walks| == |g.delta| && marked[index] && g.Known(index)
    requires WalksReach(g, marked, walks) && Explored(g, marked, worklist, {index})
    ensures |marked'| == |walks'| == |g.delta|
    ensures forall b | 0 <= b < |marked| && marked[b] :: marked'[b]
    ensures WalksReach(g, marked', walks') && Explored(g, marked', worklist', {})
    ensures (marked' == marked && worklist' == worklist) || |Unmarked(marked')| < |Unmarked(marked)|
  {
    marked', worklist', walks' := marked, worklist, walks;
    var next := g.succ[index].value;
    for k := 0 to |next|
      invariant |marked'| == |walks'| == |g.delta|
      invariant forall b | 0 <= b < |marked| && marked[b] :: marked'[b]
      invariant WalksReach(g, marked', walks') && Explored(g, marked', worklist', {index})
      invariant forall j | 0 <= j < k :: marked'[next[j]]
      invariant (marked' == marked && worklist' == worklist) || |Unmarked(marked')| < |Unmarked(marked)|
    {
      var c := next[k];
      if !marked'[c] {
        MarkingShrinks(marked', c);
        assert g.Edge(index, c);
        ExtendPath(g, walks'[index], c);
        marked' := marked'[c := true];
        walks' := walks'[c := walks'[index] + [c]];
        worklist' := worklist' + [c];
      }
    }
    assert Closed(g, marked', index);
  }

  /** Marks the reachable blocks; stops at a reachable block it knows nothing of. */
  method MarkReachable(g: Cfg) returns (ok: bool, reachable: seq<bool>)
    requires g.Valid() && g.entry < |g.delta|
    ensures |reachable| == |g.delta| && reachable[g.entry]
    ensures ok ==> forall b | 0 <= b < |reachable| && reachable[b] :: Closed(g, reachable, b)
    ensures forall b | 0 <= b < |reachable| && reachable[b] :: Reaches(g, b)
    ensures !ok ==> exists p :: IsPath(g, p) && !g.Known(Last(p))
  {
    var n := |g.delta|;
    reachable := seq(n, _ => false)[g.entry := true];
    var worklist: seq<nat> := [g.entry];
    ghost var walks: seq<seq<nat>> := seq(n, _ => [])[g.entry := [g.entry]];
    while worklist != []
      invariant |reachable| == |walks| == n && reachable[g.entry]
      invariant WalksReach(g, reachable, walks) && Explored(g, reachable, worklist, {})
      decreases |Unmarked(reachable)|, |worklist|
    {
      var index := worklist[|worklist| - 1];
      assert index in worklist;
      ghost var before := worklist;
      worklist := worklist[..|worklist| - 1];
      assert forall b | b in before :: b in worklist || b == index;
      assert forall b | b in worklist :: b in before;
      if !g.Known(index) {
        assert !g.Known(Last(walks[index]));
        return false, reachable;
      }
      reachable, worklist, walks := MarkSuccessors(g, index, reachable, worklist, walks);
    }
    ok := true;
  }

  /** Every recorded depth is the sum along some walk. */
  ghost predicate WalksExplain(g: Cfg, depth: seq<Option<int>>, walks: seq<seq<nat>>)
    requires g.Valid() && |depth| == |walks| == |g.delta|
  {
    forall b | 0 <= b < |depth| && depth[b].Some? ::
      IsPath(g, walks[b]) && Last(walks[b]) == b && PathSum(g, walks[b]) == depth[b].value
  }

  ghost function Undetermined(depth: seq<Option<int>>): set<nat> {
    set b: nat | b < |depth| && depth[b].None?
  }

  lemma DeterminingShrinks(depth: seq<Option<int>>, c: nat, v: int)
    requires c < |depth| && depth[c].None?
    ensures |Undetermined(depth[c := Some(v)])| < |Undetermined(depth)|
  {
    assert Undetermined(depth) == Undetermined(depth[c := Some(v)]) + {c};
  }

  lemma NegativeExitUnbalances(g: Cfg, p: seq<nat>)
    requires g.Valid() && IsPath(g, p) && g.Known(Last(p)) && PathSum(g, p) + g.delta[Last(p)].value < 0
    ensures !Balanced(g)
  {
  }

  lemma MeetingUnbalances(g: Cfg, p: seq<nat>, q: seq<nat>)
    requires g.Valid() && IsPath(g, p) && IsPath(g, q) && Last(p) == Last(q) && PathSum(g, p) != PathSum(g, q)
    ensures !Balanced(g)
  {
  }

  lemma {:induction false} PathSumNonNegative(g: Cfg, p: seq<nat>)
    requires g.Valid() && Balanced(g) && IsPath(g, p)
    ensures 0 <= PathSum(g, p)
  {
    if |p| > 1 {
      PathPrefix(g, p);
      assert 0 <= PathSum(g, p[..|p| - 1]) + g.delta[Last(p[..|p| - 1])].value;
    }
  }

  /** A recorded depth is the sum along every walk that arrives there. */
  ghost predicate IsEntryDepth(g: Cfg, entryDepth: map<nat, nat>)
    requires g.Valid()
  {
    && (forall b | b in entryDepth :: Reaches(g, b))
    && (forall p | IsPath(g, p) :: Last(p) in entryDepth && entryDepth[Last(p)] == PathSum(g, p))
  }

  method PropagateFrom(g: Cfg, i: nat, depth: seq<Option<int>>, ghost walks: seq<seq<nat>>)
    returns (ok: bool, depth': seq<Option<int>>, changed: bool, ghost walks': seq<seq<nat>>)
    requires g.Valid() && i < |depth| == |walks| == |g.delta| && WalksExplain(g, depth, walks)
    requires depth[i].Some? && g.Known(i)
    ensures !ok ==> !Balanced(g)
    ensures |depth'| == |walks'| == |g.delta| && WalksExplain(g, depth', walks')
    ensures forall b | 0 <= b < |depth| && depth[b].Some? :: depth'[b] == depth[b]
    ensures forall b | 0 <= b < |depth| && depth'[b].Some? :: depth[b].Some? || b in g.succ[i].value
    ensures if changed then |Undetermined(depth')| < |Undetermined(depth)| else depth' == depth
    ensures ok ==> Settled(g, depth', i)
  {
    depth', walks', changed, ok := depth, walks, false, false;
    var exitDepth := depth[i].value + g.delta[i].value;
    if exitDepth < 0 {
      NegativeExitUnbalances(g, walks[i]);
      return;
    }
    var next := g.succ[i].value;
    for k := 0 to |next|
      invariant |depth'| == |walks'| == |g.delta| && WalksExplain(g, depth', walks')
      invariant forall b | 0 <= b < |depth| && depth[b].Some? :: depth'[b] == depth[b]
      invariant forall b | 0 <= b < |depth| && depth'[b].Some? :: depth[b].Some? || b in next
      invariant if changed then |Undetermined(depth')| < |Undetermined(depth)| else depth' == depth
      invariant forall j | 0 <= j < k :: depth'[next[j]] == Some(exitDepth)
    {
      var c := next[k];
      assert g.Edge(i, c);
      ExtendPath(g, walks'[i], c);
      if depth'[c].None? {
        DeterminingShrinks(depth', c, exitDepth);
        depth' := depth'[c := Some(exitDepth)];
        walks' := walks'[c := walks'[i] + [c]];
        changed := true;
      } else if depth'[c].value != exitDepth {
        MeetingUnbalances(g, walks'[c], walks'[i] + [c]);
        return;
      }
    }
    ok := true;
  }

  /** Propagates depths along edges until nothing changes. */
  method DetermineDepths(g: Cfg, reachable: seq<bool>) returns (ok: bool, depth: seq<Option<int>>)
    requires g.Valid() && g.entry < |g.delta| == |reachable| && reachable[g.entry]
    requires forall b | 0 <= b < |reachable| && reachable[b] :: Closed(g, reachable, b)
    ensures ok ==> |depth| == |g.delta| && IsFixpoint(g, depth)
    ensures !ok ==> !Balanced(g)
  {
    var n := |g.delta|;
    depth := seq(n, _ => None)[g.entry := Some(0)];
    ghost var walks: seq<seq<nat>> := seq(n, _ => [])[g.entry := [g.entry]];
    var changed := true;
    while changed
      invariant |depth| == |walks| == n && depth[g.entry] == Some(0)
      invariant WalksExplain(g, depth, walks)
      invariant forall b | 0 <= b < n && depth[b].Some? :: reachable[b]
      invariant !changed ==> forall b | 0 <= b < n && depth[b].Some? :: Settled(g, depth, b)
      decreases |Undetermined(depth)|, changed
    {
      changed := false;
      ghost var start := depth;
      for i := 0 to n
        invariant |depth| == |walks| == n && depth[g.entry] == Some(0)
        invariant WalksExplain(g, depth, walks)
        invariant forall b | 0 <= b < n && depth[b].Some? :: reachable[b]
        invariant if changed then |Undetermined(depth)| < |Undetermined(start)| else depth == start
        invariant !changed ==> forall b | 0 <= b < i && depth[b].Some? :: Settled(g, depth, b)
      {
        if reachable[i] && depth[i].Some? {
          assert Closed(g, reachable, i);
          var settled, depth', progress, walks' := PropagateFrom(g, i, depth, walks);
          if !settled {
            return false, depth';
          }
          depth, walks, changed := depth', walks', changed || progress;
        }
      }
    }
    ok := true;
  }

  /** computeX87BlockDepths: the entry depth of every reachable block, or a
      refusal.  It answers exactly when the graph is balanced. */
  method ComputeBlockDepths(g: Cfg) returns (ok: bool, entryDepth: map<nat, nat>)
    requires g.Valid()
    ensures ok <==> g.entry < |g.delta| && Balanced(g)
    ensures ok ==> IsEntryDepth(g, entryDepth)
  {
    entryDepth := map[];
    if g.entry >= |g.delta| {
      return false, entryDepth;
    }
    var n := |g.delta|;
    var known, reachable := MarkReachable(g);
    if !known {
      return false, entryDepth;
    }
    var settled, depth := DetermineDepths(g, reachable);
    if !settled {
      return false, entryDepth;
    }
    FixpointIsBalanced(g, depth);
    forall b | 0 <= b < n && reachable[b]
      ensures depth[b].Some? && 0 <= depth[b].value
    {
      var p :| IsPath(g, p) && Last(p) == b;
      FixpointFollowsPath(g, depth, p);
      PathSumNonNegative(g, p);
    }
    for i := 0 to n
      invariant forall b | b in entryDepth :: b < i && reachable[b] && entryDepth[b] == depth[b].value
      invariant forall b | 0 <= b < i && reachable[b] :: b in entryDepth
    {
      if reachable[i] {
        entryDepth := entryDepth[i := depth[i].value];
      }
    }
    forall p | IsPath(g, p)
      ensures Last(p) in entryDepth && entryDepth[Last(p)] == PathSum(g, p)
    {
      FixpointFollowsPath(g, depth, p);
      ClosedMarksContainPaths(g, reachable, p);
    }
    ok := true;
  }
}
