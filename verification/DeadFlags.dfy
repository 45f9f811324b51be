/** Dead flag stores: the search for a read of a stored flag, what it finds, and
    what erasing the store changes. */
module DeadFlags {

  /** Instructions as one flag sees them.  A real call leaves a value of its own
      in the flag; everything else that neither loads nor stores it is Other. */
  datatype Instruction = Read | Write(v: int) | Call(leaves: int) | Other

  /** A block without successors leaves the function. */
  datatype Block = Block(code: seq<Instruction>, succs: seq<nat>)

  datatype Outcome = Found | Killed | Through

  predicate Valid(g: seq<Block>) {
    forall b, k :: 0 <= b < |g| && 0 <= k < |g[b].succs| ==> g[b].succs[k] < |g|
  }

  /** What the flag's value meets first from instruction i on. */
  function Scan(code: seq<Instruction>, i: nat): Outcome
    decreases |code| - i
  {
    if i >= |code| then Through
    else
      match code[i]
      case Read => Found
      case Write(_) => Killed
      case Call(_) => Killed
      case Other => Scan(code, i + 1)
  }

  // ----- live reads ------------------------------------------------------------

  /** A walk from instruction i of its first block to a read of the flag in its
      last block, with nothing in between that ends the flag's life. */
  predicate LivePath(g: seq<Block>, p: seq<nat>, i: nat)
    decreases |p|
  {
    p != [] && p[0] < |g|
    && if |p| == 1 then Scan(g[p[0]].code, i).Found?
       else Scan(g[p[0]].code, i).Through? && p[1] in g[p[0]].succs && LivePath(g, p[1..], 0)
  }

  ghost predicate LiveRead(g: seq<Block>, b: nat, i: nat) {
    exists p :: LivePath(g, p, i) && p[0] == b
  }

  /** A live read on a walk that does not come back to its first block. */
  ghost predicate LiveReadAway(g: seq<Block>, b: nat, i: nat) {
    exists p :: p != [] && p[0] == b && b !in p[1..] && LivePath(g, p, i)
  }

  /** A walk on which the flag's value survives up to the head of the last block. */
  predicate ThroughPath(g: seq<Block>, p: seq<nat>, i: nat)
    decreases |p|
  {
    p != [] && p[0] < |g|
    && (|p| == 1 || (Scan(g[p[0]].code, i).Through? && p[1] in g[p[0]].succs && ThroughPath(g, p[1..], 0)))
  }

  /** The value of the store can come back to the head of its own block. */
  ghost predicate ComesBack(g: seq<Block>, b: nat, i: nat) {
    exists p :: ThroughPath(g, p, i) && |p| > 1 && p[0] == b && p[|p| - 1] == b
  }

  lemma {:induction false} ExtendThrough(g: seq<Block>, p: seq<nat>, i: nat, c: nat)
    requires ThroughPath(g, p, i) && p[|p| - 1] < |g| && c < |g| && c in g[p[|p| - 1]].succs
    requires Scan(g[p[|p| - 1]].code, if |p| == 1 then i else 0).Through?
    ensures ThroughPath(g, p + [c], i)
    decreases |p|
  {
    if |p| > 1 {
      ExtendThrough(g, p[1..], 0, c);
      assert (p + [c])[1..] == p[1..] + [c];
    }
  }

  lemma {:induction false} FoundAtEnd(g: seq<Block>, p: seq<nat>, i: nat)
    requires ThroughPath(g, p, i) && p[|p| - 1] < |g| && Scan(g[p[|p| - 1]].code, if |p| == 1 then i else 0).Found?
    ensures LivePath(g, p, i)
    decreases |p|
  {
    if |p| > 1 { FoundAtEnd(g, p[1..], 0); }
  }

  lemma {:induction false} LiveIsThrough(g: seq<Block>, p: seq<nat>, i: nat)
    requires LivePath(g, p, i)
    ensures ThroughPath(g, p, i)
    decreases |p|
  {
    if |p| > 1 { LiveIsThrough(g, p[1..], 0); }
  }

  /** The part of a walk up to position k. */
  lemma {:induction false} ThroughPrefix(g: seq<Block>, p: seq<nat>, i: nat, k: nat)
    requires ThroughPath(g, p, i) && 0 < k <= |p|
    ensures ThroughPath(g, p[..k], i)
    decreases k
  {
    if k > 1 {
      ThroughPrefix(g, p[1..], 0, k - 1);
      assert p[..k][1..] == p[1..][..k - 1];
    }
  }

  // ----- the search ------------------------------------------------------------------

  method ScanBlock(code: seq<Instruction>, start: nat) returns (outcome: Outcome)
    ensures outcome == Scan(code, start)
  {
    var i := start;
    while i < |code|
      invariant start <= i
      invariant Scan(code, i) == Scan(code, start)
      decreases |code| - i
    {
      match code[i] {
        case Read => return Found;
        case Write(_) => return Killed;
        case Call(_) => return Killed;
        case Other =>
      }
      i := i + 1;
    }
    outcome := Through;
  }

  ghost function Unvisited(g: seq<Block>, visited: set<nat>): set<nat> {
    set b: nat | b < |g| && b !in visited
  }

  function StartOf(home: nat, at: nat, b: nat): nat {
    if b == home then at else 0
  }

  /** A visited block has no read in front, and if the value passes through it
      then its successors are visited or waiting. */
  predicate Explored(g: seq<Block>, home: nat, at: nat, visited: set<nat>, waiting: seq<nat>, b: nat)
    requires b < |g|
  {
    var outcome := Scan(g[b].code, StartOf(home, at, b));
    !outcome.Found? && (outcome.Through? ==> forall c :: c in g[b].succs ==> c in visited || c in waiting)
  }

  /** Some walk brings the value to the head of each waiting block, coming back
      to its home block at most at the end. */
  ghost predicate Brought(g: seq<Block>, home: nat, at: nat, c: nat) {
    exists p :: ThroughPath(g, p, at) && p[0] == home && |p| > 1 && p[|p| - 1] == c && home !in p[1..|p| - 1]
  }

  lemma BroughtOn(g: seq<Block>, home: nat, at: nat, b: nat, c: nat)
    requires b < |g| && c < |g| && c in g[b].succs && Scan(g[b].code, StartOf(home, at, b)).Through?
    requires b == home || Brought(g, home, at, b)
    ensures Brought(g, home, at, c)
  {
    if b == home {
      ExtendThrough(g, [home], at, c);
      assert [home] + [c] == [home, c];
    } else {
      var p :| ThroughPath(g, p, at) && p[0] == home && |p| > 1 && p[|p| - 1] == b && home !in p[1..|p| - 1];
      ExtendThrough(g, p, at, c);
      var q := p + [c];
      assert q[1..|q| - 1] == p[1..|p| - 1] + [b];
    }
  }

  lemma BroughtRead(g: seq<Block>, home: nat, at: nat, b: nat)
    requires b < |g| && Scan(g[b].code, StartOf(home, at, b)).Found?
    requires b == home || Brought(g, home, at, b)
    ensures LiveReadAway(g, home, at)
  {
    if b == home {
      assert LivePath(g, [home], at);
    } else {
      var p :| ThroughPath(g, p, at) && p[0] == home && |p| > 1 && p[|p| - 1] == b && home !in p[1..|p| - 1];
      FoundAtEnd(g, p, at);
      assert p[1..] == p[1..|p| - 1] + [b];
    }
  }

  /** Once nothing is waiting, no walk away from home meets a read. */
  lemma {:induction false} ExploredHasNoRead(g: seq<Block>, home: nat, at: nat, visited: set<nat>, p: seq<nat>)
    requires forall b :: b in visited ==> b < |g| && Explored(g, home, at, visited, [], b)
    requires p != [] && p[0] in visited && home !in p[1..]
    ensures !LivePath(g, p, StartOf(home, at, p[0]))
    decreases |p|
  {
    if LivePath(g, p, StartOf(home, at, p[0])) && |p| > 1 {
      assert Explored(g, home, at, visited, [], p[0]);
      assert p[1] in p[1..];
      ExploredHasNoRead(g, home, at, visited, p[1..]);
    }
  }

  /** Dropping a waiting block that has been visited. */
  lemma ExploredSame(g: seq<Block>, home: nat, at: nat, visited: set<nat>, before: seq<nat>, waiting: seq<nat>)
    requires forall b :: b in visited ==> b < |g| && Explored(g, home, at, visited, before, b)
    requires forall c :: c in before ==> c in waiting || c in visited
    ensures forall b :: b in visited ==> Explored(g, home, at, visited, waiting, b)
  {
    forall b | b in visited
      ensures Explored(g, home, at, visited, waiting, b)
    {
      assert Explored(g, home, at, visited, before, b);
    }
  }

  /** Visiting a block whose successors, if reached, are waiting. */
  lemma ExploredMore(g: seq<Block>, home: nat, at: nat, visited: set<nat>, before: seq<nat>, block: nat,
          waiting: seq<nat>)
    requires forall b :: b in visited ==> b < |g| && Explored(g, home, at, visited, before, b)
    requires block < |g| && forall c :: c in before ==> c in waiting || c == block
    requires !Scan(g[block].code, StartOf(home, at, block)).Found?
    requires Scan(g[block].code, StartOf(home, at, block)).Through? ==> forall c :: c in g[block].succs ==> c in waiting
    ensures forall b :: b in visited + {block} ==> Explored(g, home, at, visited + {block}, waiting, b)
  {
    forall b | b in visited
      ensures Explored(g, home, at, visited + {block}, waiting, b)
    {
      assert Explored(g, home, at, visited, before, b);
    }
  }

  predicate Blocks(worklist: seq<(nat, nat)>, waiting: seq<nat>) {
    |waiting| == |worklist| && forall k :: 0 <= k < |worklist| ==> worklist[k].0 == waiting[k]
  }

  predicate AtHeads(worklist: seq<(nat, nat)>) {
    forall k :: 0 <= k < |worklist| ==> worklist[k].1 == 0
  }

  method PushAll(worklist: seq<(nat, nat)>, succs: seq<nat>, ghost waiting: seq<nat>) returns (more: seq<(nat, nat)>)
    requires Blocks(worklist, waiting) && AtHeads(worklist)
    ensures Blocks(more, waiting + succs) && AtHeads(more)
  {
    more := worklist;
    assert waiting + succs[..0] == waiting;
    for k := 0 to |succs|
      invariant Blocks(more, waiting + succs[..k]) && AtHeads(more)
    {
      assert waiting + succs[..k + 1] == waiting + succs[..k] + [succs[k]];
      more := more + [(succs[k], 0)];
    }
    assert succs[..|succs|] == succs;
  }

  /** flagValueIsRead for the store at instruction store of block home.  It looks
      at every walk that does not come back to the store's own block. */
  method FlagValueIsRead(g: seq<Block>, home: nat, store: nat) returns (read: bool)
    requires Valid(g) && home < |g|
    ensures read <==> LiveReadAway(g, home, store + 1)
  {
    hide LivePath, ThroughPath, Brought, LiveReadAway, Explored, Scan;
    var at := store + 1;
    var visited: set<nat> := {};
    var worklist: seq<(nat, nat)> := [(home, at)];
    ghost var waiting: seq<nat> := [home];
    while worklist != []
      invariant Blocks(worklist, waiting)
      invariant visited == {} ==> worklist == [(home, at)]
      invariant visited != {} ==> home in visited && AtHeads(worklist)
      invariant forall c :: c in waiting ==> c < |g| && (c == home || Brought(g, home, at, c))
      invariant forall b :: b in visited ==> b < |g| && Explored(g, home, at, visited, waiting, b)
      decreases |Unvisited(g, visited)|, |worklist|
    {
      var (block, start) := worklist[|worklist| - 1];
      ghost var before := waiting;
      assert before[|before| - 1] == block && block in before;
      worklist := worklist[..|worklist| - 1];
      waiting := waiting[..|waiting| - 1];
      assert forall c :: c in before <==> c in waiting || c == block;
      if block in visited {
        ExploredSame(g, home, at, visited, before, waiting);
        continue;
      }
      assert Unvisited(g, visited) == Unvisited(g, visited + {block}) + {block};
      ghost var seen := visited;
      visited := visited + {block};
      assert start == StartOf(home, at, block);
      var outcome := ScanBlock(g[block].code, start);
      if outcome.Found? {
        BroughtRead(g, home, at, block);
        return true;
      }
      if outcome.Through? {
        var succs := g[block].succs;
        forall c | c in succs
          ensures c < |g| && Brought(g, home, at, c)
        {
          BroughtOn(g, home, at, block, c);
        }
        worklist := PushAll(worklist, succs, waiting);
        waiting := waiting + succs;
      }
      ExploredMore(g, home, at, seen, before, block, waiting);
    }
    NothingWaiting(g, home, at, visited);
    read := false;
  }

  lemma NothingWaiting(g: seq<Block>, home: nat, at: nat, visited: set<nat>)
    requires forall b :: b in visited ==> b < |g| && Explored(g, home, at, visited, [], b)
    requires home in visited
    ensures !LiveReadAway(g, home, at)
  {
    forall p | p != [] && p[0] == home && home !in p[1..]
      ensures !LivePath(g, p, at)
    {
      ExploredHasNoRead(g, home, at, visited, p);
    }
  }

  // ----- when the answer is right --------------------------------------------------------

  /** The search misses a read in exactly one situation: the block of the store
      reads the flag before it writes it, and the stored value comes back to the
      head of that block. */
  lemma SearchIsRightExactly(g: seq<Block>, home: nat, store: nat)
    requires Valid(g) && home < |g| && store < |g[home].code| && g[home].code[store].Write?
    ensures LiveRead(g, home, store + 1)
       <==> || LiveReadAway(g, home, store + 1)
            || (Scan(g[home].code, 0).Found? && ComesBack(g, home, store + 1))
  {
    var at := store + 1;
    if LiveRead(g, home, at) {
      var p :| LivePath(g, p, at) && p[0] == home;
      if home in p[1..] {
        FirstReturn(g, home, store, p);
      }
    }
    if Scan(g[home].code, 0).Found? && ComesBack(g, home, at) {
      var p :| ThroughPath(g, p, at) && |p| > 1 && p[0] == home && p[|p| - 1] == home;
      FoundAtEnd(g, p, at);
    }
  }

  /** The head of the store's block lets nothing through: it reaches the store. */
  lemma {:induction false} StoreStops(code: seq<Instruction>, i: nat, store: nat)
    requires i <= store < |code| && code[store].Write?
    ensures !Scan(code, i).Through?
    decreases store - i
  {
    if i < store { StoreStops(code, i + 1, store); }
  }

  lemma FirstReturn(g: seq<Block>, home: nat, store: nat, p: seq<nat>)
    requires home < |g| && store < |g[home].code| && g[home].code[store].Write?
    requires LivePath(g, p, store + 1) && p[0] == home && home in p[1..]
    ensures Scan(g[home].code, 0).Found? && ComesBack(g, home, store + 1)
  {
    var k :| 0 < k < |p| && p[k] == home;
    LiveIsThrough(g, p, store + 1);
    ThroughPrefix(g, p, store + 1, k + 1);
    StoreStops(g[home].code, 0, store);
    LiveAt(g, p, store + 1, k);
    var q := p[..k + 1];
    assert ThroughPath(g, q, store + 1) && |q| > 1 && q[0] == home && q[|q| - 1] == home;
  }

  /** Every block of a live walk is passed, except the last, which has the read. */
  lemma {:induction false} LiveAt(g: seq<Block>, p: seq<nat>, i: nat, k: nat)
    requires LivePath(g, p, i) && 0 < k < |p|
    ensures p[k] < |g|
    ensures if k == |p| - 1 then Scan(g[p[k]].code, 0).Found? else Scan(g[p[k]].code, 0).Through?
    decreases k
  {
    if k > 1 { LiveAt(g, p[1..], 0, k - 1); }
  }

  /** The situation exists: a one-block loop that reads the flag, then stores it. */
  lemma SearchMissesLoopRead()
    ensures var g := [Block([Read, Write(1)], [0])];
      && LiveRead(g, 0, 2)
      && !LiveReadAway(g, 0, 2)
  {
    var g := [Block([Read, Write(1)], [0])];
    assert Scan(g[0].code, 0).Found? && Scan(g[0].code, 2).Through?;
    assert [0, 0][1..] == [0];
    assert LivePath(g, [0], 0);
    assert LivePath(g, [0, 0], 2);
    forall p | LivePath(g, p, 2) && p[0] == 0
      ensures 0 in p[1..]
    {
      assert |p| > 1;
      assert p[1] in p[1..];
    }
  }

  // ----- erasing the store ---------------------------------------------------------------------

  predicate IsWalk(g: seq<Block>, p: seq<nat>) {
    && (forall k :: 0 <= k < |p| ==> p[k] < |g|)
    && (forall k :: 0 <= k < |p| - 1 ==> p[k + 1] in g[p[k]].succs)
  }

  /** The values of the flag that are read on a walk, from instruction i of its
      first block on.  erased names a store that has been removed. */
  function Reads(g: seq<Block>, p: seq<nat>, i: nat, flag: int, erased: set<(nat, nat)>): seq<int>
    requires IsWalk(g, p)
    decreases |p|, if p == [] then 0 else |g[p[0]].code| - i
  {
    if p == [] then []
    else if i >= |g[p[0]].code| then
      assert IsWalk(g, p[1..]) by { WalkTail(g, p); }
      Reads(g, p[1..], 0, flag, erased)
    else
      match g[p[0]].code[i]
      case Read => [flag] + Reads(g, p, i + 1, flag, erased)
      case Write(v) => Reads(g, p, i + 1, if (p[0], i) in erased then flag else v, erased)
      case Call(v) => Reads(g, p, i + 1, v, erased)
      case Other => Reads(g, p, i + 1, flag, erased)
  }

  lemma WalkTail(g: seq<Block>, p: seq<nat>)
    requires IsWalk(g, p) && p != []
    ensures IsWalk(g, p[1..])
  {
    forall k | 0 <= k < |p[1..]| - 1
      ensures p[1..][k + 1] in g[p[1..][k]].succs
    {
      assert p[k + 1 + 1] in g[p[k + 1]].succs;
    }
  }

  /** A read that is live further on is live here, unless something stops it. */
  lemma LiveStep(g: seq<Block>, b: nat, i: nat)
    requires b < |g|
    ensures i < |g[b].code| && g[b].code[i].Read? ==> LiveRead(g, b, i)
    ensures i < |g[b].code| && g[b].code[i].Other? && LiveRead(g, b, i + 1) ==> LiveRead(g, b, i)
    ensures forall c :: i >= |g[b].code| && c in g[b].succs && LiveRead(g, c, 0) ==> LiveRead(g, b, i)
  {
    if i < |g[b].code| && g[b].code[i].Read? {
      assert LivePath(g, [b], i);
    }
    if i < |g[b].code| && g[b].code[i].Other? && LiveRead(g, b, i + 1) {
      var p :| LivePath(g, p, i + 1) && p[0] == b;
      assert LivePath(g, p, i);
    }
    forall c | i >= |g[b].code| && c in g[b].succs && LiveRead(g, c, 0)
      ensures LiveRead(g, b, i)
    {
      var p :| LivePath(g, p, 0) && p[0] == c;
      assert ([b] + p)[1..] == p;
      assert LivePath(g, [b] + p, i);
    }
  }

  /** Two runs whose flags differ only where no read is live see the same reads,
      one with the store and one without it. */
  lemma {:induction false} ErasedRun(g: seq<Block>, home: nat, store: nat, p: seq<nat>, i: nat, flag: int, other: int)
    requires IsWalk(g, p) && home < |g| && store < |g[home].code| && g[home].code[store].Write?
    requires !LiveRead(g, home, store + 1)
    requires flag == other || (p != [] ==> !LiveRead(g, p[0], i))
    ensures Reads(g, p, i, flag, {}) == Reads(g, p, i, other, {(home, store)})
    decreases |p|, if p == [] then 0 else |g[p[0]].code| - i
  {
    hide LiveRead;
    if p != [] {
      var b := p[0];
      LiveStep(g, b, i);
      if i >= |g[b].code| {
        WalkTail(g, p);
        if |p| > 1 { assert p[0 + 1] in g[p[0]].succs; }
        ErasedRun(g, home, store, p[1..], 0, flag, other);
      } else {
        match g[b].code[i]
        case Read => ErasedRun(g, home, store, p, i + 1, flag, other);
        case Write(v) =>
          if b == home && i == store {
            ErasedRun(g, home, store, p, i + 1, v, other);
          } else {
            ErasedRun(g, home, store, p, i + 1, v, v);
          }
        case Call(v) => ErasedRun(g, home, store, p, i + 1, v, v);
        case Other => ErasedRun(g, home, store, p, i + 1, flag, other);
      }
    }
  }

  /** Erasing a store whose value no read can see changes no read on any run of
      the function, from any block and with any flag on entry. */
  lemma ErasingIsInvisible(g: seq<Block>, home: nat, store: nat, p: seq<nat>, flag: int)
    requires Valid(g) && home < |g| && store < |g[home].code| && g[home].code[store].Write? && IsWalk(g, p)
    requires !LiveReadAway(g, home, store + 1)
    requires !(Scan(g[home].code, 0).Found? && ComesBack(g, home, store + 1))
    ensures Reads(g, p, 0, flag, {}) == Reads(g, p, 0, flag, {(home, store)})
  {
    SearchIsRightExactly(g, home, store);
    ErasedRun(g, home, store, p, 0, flag, flag);
  }

  lemma {:induction false} LiveIsWalk(g: seq<Block>, p: seq<nat>, i: nat)
    requires LivePath(g, p, i)
    ensures IsWalk(g, p)
    decreases |p|
  {
    if |p| > 1 {
      LiveIsWalk(g, p[1..], 0);
      forall k | 0 <= k < |p|
        ensures p[k] < |g| && (k < |p| - 1 ==> p[k + 1] in g[p[k]].succs)
      {
        if 0 < k {
          assert p[1..][k - 1] == p[k];
          assert k < |p| - 1 ==> p[1..][k] == p[k + 1];
        }
      }
    }
  }

  /** On a live walk the value of the flag is the first thing read. */
  lemma {:induction false} LiveReadsFirst(g: seq<Block>, p: seq<nat>, i: nat, flag: int, erased: set<(nat, nat)>)
    requires LivePath(g, p, i) && IsWalk(g, p)
    ensures Reads(g, p, i, flag, erased) != [] && Reads(g, p, i, flag, erased)[0] == flag
    decreases |p|, |g[p[0]].code| - i
  {
    if i >= |g[p[0]].code| {
      WalkTail(g, p);
      LiveReadsFirst(g, p[1..], 0, flag, erased);
    } else if g[p[0]].code[i].Other? {
      LiveReadsFirst(g, p, i + 1, flag, erased);
    }
  }

  /** Conversely, where a read is live the erased store is missed: whenever the
      flag holds another value before the store, some run reads that instead. */
  lemma ErasingLiveIsVisible(g: seq<Block>, home: nat, store: nat, flag: int) returns (p: seq<nat>)
    requires home < |g| && store < |g[home].code| && g[home].code[store].Write?
    requires LiveRead(g, home, store + 1) && flag != g[home].code[store].v
    ensures IsWalk(g, p) && p != [] && p[0] == home
    ensures Reads(g, p, store, flag, {}) != Reads(g, p, store, flag, {(home, store)})
  {
    p :| LivePath(g, p, store + 1) && p[0] == home;
    LiveIsWalk(g, p, store + 1);
    var v := g[home].code[store].v;
    LiveReadsFirst(g, p, store + 1, v, {});
    LiveReadsFirst(g, p, store + 1, flag, {(home, store)});
    assert Reads(g, p, store, flag, {}) == Reads(g, p, store + 1, v, {});
  }
}
