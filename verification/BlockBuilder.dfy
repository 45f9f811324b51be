/** Cutting a decoded instruction list into basic blocks. */
module BlockBuilder {
  import opened Wrappers
  import opened NativeBlocks

  datatype FlowKind = NoFlow | ConditionalBranch | UnconditionalBranch | IndirectBranch | Trap | Return

  datatype Decoded = Decoded(address: nat, size: nat, flow: FlowKind, targets: seq<nat>, fallthrough: Option<nat>) {
    function End(): nat { address + size }

    predicate FallsTo(target: nat) {
      fallthrough == Some(target) && End() == target
    }
  }

  // ----- what the list must look like ---------------------------------------------

  /** Ascending, non-empty instructions that start inside the range. */
  predicate Listed(code: seq<Decoded>, rangeStart: nat, rangeEnd: nat) {
    && (forall i :: 0 <= i < |code| ==> code[i].size != 0 && rangeStart <= code[i].address < rangeEnd)
    && (forall i, j :: 0 <= i < j < |code| ==> code[i].address < code[j].address)
  }

  /** Instructions do not overlap. */
  predicate NonOverlapping(code: seq<Decoded>) {
    forall i, j :: 0 <= i < j < |code| ==> code[i].End() <= code[j].address
  }

  /** An instruction without a flow kind is followed by the next byte's instruction. */
  predicate Contiguous(code: seq<Decoded>) {
    forall i :: 0 <= i < |code| - 1 && code[i].flow.NoFlow? ==> code[i].End() == code[i + 1].address
  }

  // ----- where blocks begin ---------------------------------------------------------

  predicate IsTarget(code: seq<Decoded>, address: nat) {
    exists i :: 0 <= i < |code| && address in code[i].targets
  }

  /** The first instruction, a direct target, or the one after a flow instruction. */
  predicate IsLeader(code: seq<Decoded>, k: nat)
    requires k < |code|
  {
    k == 0 || !code[k - 1].flow.NoFlow? || IsTarget(code, code[k].address)
  }

  function WithAddress(addresses: seq<nat>, address: nat): seq<nat> {
    if address in addresses then addresses else addresses + [address]
  }

  /** The edges of a block that ends with an instruction; next is the following
      instruction in the list, if any. */
  function SuccessorsOf(last: Decoded, next: Option<nat>): seq<nat> {
    match last.flow
    case ConditionalBranch =>
      if last.fallthrough.Some? && last.FallsTo(last.fallthrough.value)
      then WithAddress(last.targets, last.fallthrough.value) else last.targets
    case UnconditionalBranch => last.targets
    case IndirectBranch => last.targets
    case Trap => []
    case Return => []
    case NoFlow => if next.Some? && last.FallsTo(next.value) then [next.value] else []
  }

  /** The first instruction index of each block. */
  predicate AreLeaders(code: seq<Decoded>, upTo: nat, leaders: seq<nat>)
    requires upTo <= |code|
  {
    && (forall j :: 0 <= j < |leaders| ==> leaders[j] < upTo && IsLeader(code, leaders[j]))
    && (forall j, l :: 0 <= j < l < |leaders| ==> leaders[j] < leaders[l])
    && (forall k :: 0 <= k < upTo && IsLeader(code, k) ==> k in leaders)
  }

  function GroupEnd(leaders: seq<nat>, j: nat, n: nat): nat
    requires j < |leaders|
  {
    if j + 1 < |leaders| then leaders[j + 1] else n
  }

  /** Block j holds the instructions from leader j up to the next leader. */
  predicate IsGroup(code: seq<Decoded>, rangeStart: nat, rangeEnd: nat, lo: nat, hi: nat, b: Block)
    requires lo < hi <= |code|
  {
    && b.start == (if lo == 0 then rangeStart else code[lo].address)
    && b.end == (if code[hi - 1].End() < rangeEnd then code[hi - 1].End() else rangeEnd)
    && b.successors == SuccessorsOf(code[hi - 1], if hi < |code| then Some(code[hi].address) else None)
  }

  predicate HasGroup(code: seq<Decoded>, rangeStart: nat, rangeEnd: nat, upTo: nat, leaders: seq<nat>, j: nat, b: Block)
    requires upTo <= |code| && j < |leaders|
  {
    && leaders[j] < GroupEnd(leaders, j, upTo) <= upTo
    && IsGroup(code, rangeStart, rangeEnd, leaders[j], GroupEnd(leaders, j, upTo), b)
  }

  /** The groups of the first upTo instructions. */
  predicate Built(code: seq<Decoded>, rangeStart: nat, rangeEnd: nat, upTo: nat, leaders: seq<nat>,
          blocks: seq<Block>) {
    && upTo <= |code| && AreLeaders(code, upTo, leaders) && |blocks| == |leaders|
    && forall j :: 0 <= j < |leaders| ==> HasGroup(code, rangeStart, rangeEnd, upTo, leaders, j, blocks[j])
  }

  /** The blocks partition the instructions, in order, at the leaders. */
  predicate Partition(code: seq<Decoded>, rangeStart: nat, rangeEnd: nat, leaders: seq<nat>, blocks: seq<Block>) {
    Built(code, rangeStart, rangeEnd, |code|, leaders, blocks)
  }

  // ----- the builder --------------------------------------------------------------------

  /** Instruction j makes a block start at the address. */
  predicate Marks(code: seq<Decoded>, j: nat, a: nat)
    requires j < |code|
  {
    || (a in code[j].targets && exists i :: 0 <= i < |code| && code[i].address == a)
    || (j + 1 < |code| && !code[j].flow.NoFlow? && a == code[j + 1].address)
  }

  lemma MarkedIsLeader(code: seq<Decoded>, rangeStart: nat, rangeEnd: nat, k: nat)
    requires Listed(code, rangeStart, rangeEnd) && 0 < k < |code|
    ensures (exists j :: 0 <= j < |code| && Marks(code, j, code[k].address)) <==> IsLeader(code, k)
    ensures code[k].address != rangeStart
  {
    assert code[0].address < code[k].address;
    if IsLeader(code, k) {
      if !code[k - 1].flow.NoFlow? {
        assert Marks(code, k - 1, code[k].address);
      } else {
        var i :| 0 <= i < |code| && code[k].address in code[i].targets;
        assert Marks(code, i, code[k].address);
      }
    }
    forall j | 0 <= j < |code| && Marks(code, j, code[k].address)
      ensures IsLeader(code, k)
    {
      if code[k].address in code[j].targets {
        assert IsTarget(code, code[k].address);
      }
    }
  }

  /** The other collected addresses: the range start, and the first instruction when
      it is a target.  Nothing but an instruction is collected besides. */
  predicate OnlyStarts(code: seq<Decoded>, rangeStart: nat, starts: set<nat>) {
    && rangeStart in starts
    && (code != [] ==>
          (code[0].address in starts <==> code[0].address == rangeStart || IsTarget(code, code[0].address)))
    && forall a :: a in starts && a != rangeStart ==> exists k :: 0 <= k < |code| && code[k].address == a
  }

  /** The first instruction is only ever marked by a branch to it. */
  lemma FirstMarked(code: seq<Decoded>, rangeStart: nat, rangeEnd: nat)
    requires Listed(code, rangeStart, rangeEnd)
    ensures code != [] ==>
              ((exists j :: 0 <= j < |code| && Marks(code, j, code[0].address)) <==> IsTarget(code, code[0].address))
  {
    if code != [] {
      forall j | 0 <= j < |code|
        ensures Marks(code, j, code[0].address) <==> code[0].address in code[j].targets
      {
        if j + 1 < |code| { assert code[0].address < code[j + 1].address; }
      }
      if IsTarget(code, code[0].address) {
        var j :| 0 <= j < |code| && code[0].address in code[j].targets;
        assert Marks(code, j, code[0].address);
      }
    }
  }

  /** The set of addresses at which a block starts. */
  method CollectBlockStarts(code: seq<Decoded>, rangeStart: nat, rangeEnd: nat) returns (starts: set<nat>)
    requires Listed(code, rangeStart, rangeEnd)
    ensures forall k :: 0 < k < |code| ==> (code[k].address in starts <==> IsLeader(code, k))
    ensures OnlyStarts(code, rangeStart, starts)
  {
    hide IsLeader, Listed, IsTarget;
    var addresses := set i | 0 <= i < |code| :: code[i].address;
    starts := {rangeStart};
    for i := 0 to |code|
      invariant forall a: nat :: a in starts <==> a == rangeStart || exists j :: 0 <= j < i && Marks(code, j, a)
    {
      ghost var before := starts;
      starts := starts + (set t | t in code[i].targets && t in addresses);
      if i + 1 != |code| && !code[i].flow.NoFlow? {
        starts := starts + {code[i + 1].address};
      }
      assert forall a: nat :: a in starts <==> a in before || Marks(code, i, a);
    }
    forall k | 0 < k < |code|
      ensures code[k].address in starts <==> IsLeader(code, k)
    {
      MarkedIsLeader(code, rangeStart, rangeEnd, k);
    }
    FirstMarked(code, rangeStart, rangeEnd);
  }

  /** The edges of the block that ends here, if it does. */
  method CollectSuccessors(instruction: Decoded, next: Option<nat>) returns (successors: seq<nat>)
    ensures successors == SuccessorsOf(instruction, next)
  {
    successors := [];
    if !instruction.flow.NoFlow? {
      if instruction.flow.ConditionalBranch? {
        successors := instruction.targets;
        if instruction.fallthrough.Some? && instruction.FallsTo(instruction.fallthrough.value) {
          successors := WithAddress(successors, instruction.fallthrough.value);
        }
      } else if instruction.flow.UnconditionalBranch? || instruction.flow.IndirectBranch? {
        successors := instruction.targets;
      }
    }
    if next.Some? && successors == [] && instruction.flow.NoFlow? && instruction.FallsTo(next.value) {
      successors := [next.value];
    }
  }

  method BuildDecodedBlocks(code: seq<Decoded>, rangeStart: nat, rangeEnd: nat)
    returns (blocks: seq<Block>)
    requires Listed(code, rangeStart, rangeEnd)
    ensures exists leaders :: Partition(code, rangeStart, rangeEnd, leaders, blocks)
  {
    hide IsLeader, SuccessorsOf, Built, Listed, IsGroup, OnlyStarts;
    blocks := [];
    NothingBuilt(code, rangeStart, rangeEnd);
    if code == [] {
      assert Partition(code, rangeStart, rangeEnd, [], []);
      return;
    }
    ghost var leaders: seq<nat> := [];
    var starts := CollectBlockStarts(code, rangeStart, rangeEnd);
    FirstLeads(code);
    var blockStart := rangeStart;
    ghost var lo := 0;
    for index := 0 to |code|
      invariant Built(code, rangeStart, rangeEnd, lo, leaders, blocks)
      invariant index < |code| ==> lo <= index && IsLeader(code, lo)
      invariant index == |code| ==> lo == |code|
      invariant forall k :: lo < k <= index && k < |code| ==> !IsLeader(code, k)
      invariant lo < |code| ==> blockStart == if lo == 0 then rangeStart else code[lo].address
    {
      var instruction := code[index];
      var isLast := index + 1 == |code|;
      var nextStartsBlock := !isLast && code[index + 1].address in starts;
      if !isLast && !instruction.flow.NoFlow? { AfterFlow(code, index + 1); }
      if isLast || nextStartsBlock || !instruction.flow.NoFlow? {
        blocks, leaders := CloseBlock(code, rangeStart, rangeEnd, lo, index, blockStart, blocks, leaders);
        if !isLast {
          blockStart := code[index + 1].address;
        }
        lo := index + 1;
      }
    }
    assert Partition(code, rangeStart, rangeEnd, leaders, blocks);
  }

  /** Adds the block that ends with instruction index. */
  method CloseBlock(code: seq<Decoded>, rangeStart: nat, rangeEnd: nat, ghost lo: nat, index: nat, blockStart: nat,
                    blocks: seq<Block>, ghost leaders: seq<nat>)
    returns (blocks': seq<Block>, ghost leaders': seq<nat>)
    requires Listed(code, rangeStart, rangeEnd) && Built(code, rangeStart, rangeEnd, lo, leaders, blocks)
    requires lo <= index < |code| && IsLeader(code, lo)
    requires forall k :: lo < k <= index ==> !IsLeader(code, k)
    requires blockStart == if lo == 0 then rangeStart else code[lo].address
    ensures Built(code, rangeStart, rangeEnd, index + 1, leaders', blocks')
  {
    hide IsLeader, SuccessorsOf, Built, Listed;
    blocks', leaders' := blocks, leaders;
    var instruction := code[index];
    var next := if index + 1 == |code| then None else Some(code[index + 1].address);
    var successors := CollectSuccessors(instruction, next);
    var end := if instruction.End() < rangeEnd then instruction.End() else rangeEnd;
    NewGroup(code, rangeStart, rangeEnd, lo, index, leaders, blocks, Block(blockStart, end, successors));
    if blockStart < end {
      blocks' := blocks + [Block(blockStart, end, successors)];
      leaders' := leaders + [lo];
    }
  }

  lemma AfterFlow(code: seq<Decoded>, k: nat)
    requires 0 < k < |code| && !code[k - 1].flow.NoFlow?
    ensures IsLeader(code, k)
  {
  }

  lemma FirstLeads(code: seq<Decoded>)
    requires code != []
    ensures IsLeader(code, 0)
  {
  }

  lemma NothingBuilt(code: seq<Decoded>, rangeStart: nat, rangeEnd: nat)
    ensures Built(code, rangeStart, rangeEnd, 0, [], [])
  {
  }

  lemma NewGroup(code: seq<Decoded>, rangeStart: nat, rangeEnd: nat, lo: nat, index: nat,
                 leaders: seq<nat>, blocks: seq<Block>, b: Block)
    requires Listed(code, rangeStart, rangeEnd) && Built(code, rangeStart, rangeEnd, lo, leaders, blocks)
    requires lo <= index < |code| && IsLeader(code, lo)
    requires forall k :: lo < k <= index ==> !IsLeader(code, k)
    requires b.start == if lo == 0 then rangeStart else code[lo].address
    requires b.end == if code[index].End() < rangeEnd then code[index].End() else rangeEnd
    requires b.successors
          == SuccessorsOf(code[index], if index + 1 == |code| then None else Some(code[index + 1].address))
    ensures b.start < b.end
    ensures Built(code, rangeStart, rangeEnd, index + 1, leaders + [lo], blocks + [b])
  {
    hide IsLeader, SuccessorsOf;
    assert lo == index || code[lo].address < code[index].address;
    assert IsGroup(code, rangeStart, rangeEnd, lo, index + 1, b);
    hide Listed, IsGroup;
    var leaders', blocks' := leaders + [lo], blocks + [b];
    forall j: nat | j < |leaders'|
      ensures HasGroup(code, rangeStart, rangeEnd, index + 1, leaders', j, blocks'[j])
    {
      if j < |leaders| { assert HasGroup(code, rangeStart, rangeEnd, lo, leaders, j, blocks[j]); }
    }
    hide HasGroup;
    forall k | 0 <= k < index + 1 && IsLeader(code, k)
      ensures k in leaders'
    {
      assert k < lo ==> k in leaders;
    }
  }

  // ----- what the partition means ------------------------------------------------------------

  lemma GroupAt(code: seq<Decoded>, rangeStart: nat, rangeEnd: nat, leaders: seq<nat>, blocks: seq<Block>, j: nat)
    requires Partition(code, rangeStart, rangeEnd, leaders, blocks) && j < |leaders|
    ensures |blocks| == |leaders| && leaders[j] < GroupEnd(leaders, j, |code|) <= |code|
    ensures IsGroup(code, rangeStart, rangeEnd, leaders[j], GroupEnd(leaders, j, |code|), blocks[j])
    ensures IsLeader(code, leaders[j])
  {
    hide IsGroup, IsLeader;
    assert HasGroup(code, rangeStart, rangeEnd, |code|, leaders, j, blocks[j]);
  }

  lemma GroupsAscend(code: seq<Decoded>, rangeStart: nat, rangeEnd: nat, leaders: seq<nat>, blocks: seq<Block>,
          j: nat, l: nat)
    requires Partition(code, rangeStart, rangeEnd, leaders, blocks) && j < l < |leaders|
    ensures leaders[j] < GroupEnd(leaders, j, |code|) <= leaders[l] < |code|
  {
    GroupAt(code, rangeStart, rangeEnd, leaders, blocks, j);
    hide IsGroup, IsLeader, HasGroup;
    if j + 1 < l { assert leaders[j + 1] < leaders[l]; }
  }

  lemma LeaderAt(code: seq<Decoded>, rangeStart: nat, rangeEnd: nat, leaders: seq<nat>, blocks: seq<Block>, k: nat)
    returns (j: nat)
    requires Partition(code, rangeStart, rangeEnd, leaders, blocks) && k < |code| && IsLeader(code, k)
    ensures j < |leaders| && leaders[j] == k
  {
    hide IsGroup, IsLeader, HasGroup;
    j :| 0 <= j < |leaders| && leaders[j] == k;
  }

  /** Only the last instruction of a block has a flow kind, and no instruction
      inside a block is a direct target. */
  lemma BlockInterior(code: seq<Decoded>, rangeStart: nat, rangeEnd: nat, leaders: seq<nat>,
          blocks: seq<Block>, j: nat, k: nat)
    requires Partition(code, rangeStart, rangeEnd, leaders, blocks) && j < |leaders|
    requires leaders[j] < k < GroupEnd(leaders, j, |code|)
    ensures code[k - 1].flow.NoFlow? && !IsTarget(code, code[k].address)
  {
    hide Partition, IsTarget;
    GroupAt(code, rangeStart, rangeEnd, leaders, blocks, j);
    if IsLeader(code, k) {
      var l := LeaderAt(code, rangeStart, rangeEnd, leaders, blocks, k);
      if l < j { GroupsAscend(code, rangeStart, rangeEnd, leaders, blocks, l, j); }
      if j < l { GroupsAscend(code, rangeStart, rangeEnd, leaders, blocks, j, l); }
    }
  }

  /** A block starts nowhere else than at the first instruction, behind an instruction
      with a flow kind, and at a direct target. */
  lemma BlockStartReason(code: seq<Decoded>, rangeStart: nat, rangeEnd: nat, leaders: seq<nat>,
          blocks: seq<Block>, j: nat)
    requires Partition(code, rangeStart, rangeEnd, leaders, blocks) && j < |leaders|
    ensures leaders[j] < |code|
    ensures leaders[j] == 0 || code[leaders[j] - 1].flow != NoFlow ||
            exists d :: d in code && code[leaders[j]].address in d.targets
  {
    GroupAt(code, rangeStart, rangeEnd, leaders, blocks, j);
    if IsTarget(code, code[leaders[j]].address) {
      var i :| 0 <= i < |code| && code[leaders[j]].address in code[i].targets;
      assert code[i] in code;
    }
  }

  /** Every instruction belongs to exactly one block. */
  lemma {:induction false} GroupOf(code: seq<Decoded>, rangeStart: nat, rangeEnd: nat, leaders: seq<nat>,
          blocks: seq<Block>, k: nat)
    returns (j: nat)
    requires Partition(code, rangeStart, rangeEnd, leaders, blocks) && k < |code|
    ensures j < |leaders| && leaders[j] <= k < GroupEnd(leaders, j, |code|)
    ensures forall l :: 0 <= l < |leaders| && leaders[l] <= k < GroupEnd(leaders, l, |code|) ==> l == j
    decreases k
  {
    hide Partition, IsTarget, IsGroup;
    if IsLeader(code, k) {
      j := LeaderAt(code, rangeStart, rangeEnd, leaders, blocks, k);
    } else {
      j := GroupOf(code, rangeStart, rangeEnd, leaders, blocks, k - 1);
      if j + 1 < |leaders| { GroupAt(code, rangeStart, rangeEnd, leaders, blocks, j + 1); }
    }
    GroupAt(code, rangeStart, rangeEnd, leaders, blocks, j);
    forall l: nat | l < |leaders| && leaders[l] <= k < GroupEnd(leaders, l, |code|)
      ensures l == j
    {
      if l < j {
        GroupsAscend(code, rangeStart, rangeEnd, leaders, blocks, l, j);
      } else if j < l {
        GroupsAscend(code, rangeStart, rangeEnd, leaders, blocks, j, l);
      }
    }
  }

  /** The blocks make a tidy function body: non-empty, disjoint, in range. */
  lemma BlocksAreTidy(code: seq<Decoded>, entry: nat, rangeStart: nat, rangeEnd: nat, leaders: seq<nat>,
          blocks: seq<Block>)
    requires Listed(code, rangeStart, rangeEnd) && NonOverlapping(code)
    requires Partition(code, rangeStart, rangeEnd, leaders, blocks)
    ensures Tidy(Function(entry, rangeStart, rangeEnd, blocks))
    ensures forall i, j :: 0 <= i < j < |blocks| ==> blocks[i].end <= blocks[j].start
  {
    hide Partition, Listed, NonOverlapping;
    forall j: nat | j < |blocks|
      ensures rangeStart <= blocks[j].start < blocks[j].end <= rangeEnd
    {
      BlockInRange(code, rangeStart, rangeEnd, leaders, blocks, j);
    }
    forall i: nat, j: nat | i < j < |blocks|
      ensures blocks[i].end <= blocks[j].start
    {
      BlocksAscend(code, rangeStart, rangeEnd, leaders, blocks, i, j);
    }
  }

  lemma BlockInRange(code: seq<Decoded>, rangeStart: nat, rangeEnd: nat, leaders: seq<nat>, blocks: seq<Block>, j: nat)
    requires Listed(code, rangeStart, rangeEnd) && Partition(code, rangeStart, rangeEnd, leaders, blocks)
    requires j < |blocks|
    ensures rangeStart <= blocks[j].start < blocks[j].end <= rangeEnd
  {
    hide IsLeader, SuccessorsOf;
    GroupAt(code, rangeStart, rangeEnd, leaders, blocks, j);
    hide Partition;
    var lo, hi := leaders[j], GroupEnd(leaders, j, |code|);
    assert lo == hi - 1 || code[lo].address < code[hi - 1].address;
  }

  lemma BlocksAscend(code: seq<Decoded>, rangeStart: nat, rangeEnd: nat, leaders: seq<nat>, blocks: seq<Block>,
          i: nat, j: nat)
    requires NonOverlapping(code) && Partition(code, rangeStart, rangeEnd, leaders, blocks) && i < j < |blocks|
    ensures blocks[i].end <= blocks[j].start
  {
    hide IsLeader, SuccessorsOf;
    GroupAt(code, rangeStart, rangeEnd, leaders, blocks, i);
    GroupAt(code, rangeStart, rangeEnd, leaders, blocks, j);
    GroupsAscend(code, rangeStart, rangeEnd, leaders, blocks, i, j);
    hide Partition;
    assert code[GroupEnd(leaders, i, |code|) - 1].End() <= code[leaders[j]].address;
  }

  /** A leader, such as a direct target that is an instruction, starts a block and is
      never strictly inside one, except the first instruction when the range starts
      before it. */
  lemma TargetsStartBlocks(code: seq<Decoded>, rangeStart: nat, rangeEnd: nat, leaders: seq<nat>,
          blocks: seq<Block>, k: nat)
    requires Listed(code, rangeStart, rangeEnd) && NonOverlapping(code)
    requires Partition(code, rangeStart, rangeEnd, leaders, blocks)
    requires k < |code| && IsLeader(code, k)
    ensures code[k].address in Starts(blocks) <==> 0 < k || code[0].address == rangeStart
    ensures StrictlyInside(blocks, code[k].address) <==> k == 0 && code[0].address != rangeStart
  {
    hide Partition, SuccessorsOf, IsTarget, NonOverlapping, IsLeader;
    var l := LeaderAt(code, rangeStart, rangeEnd, leaders, blocks, k);
    GroupAt(code, rangeStart, rangeEnd, leaders, blocks, l);
    BlocksAreTidy(code, 0, rangeStart, rangeEnd, leaders, blocks);
    LastNotBefore(code, rangeStart, rangeEnd, leaders, blocks, l, k);
    forall j: nat | j < |blocks| && j != l
      ensures code[k].address <= blocks[j].start || blocks[j].end <= code[k].address
    {
      if j < l {
        GroupsAscend(code, rangeStart, rangeEnd, leaders, blocks, j, l);
        BlocksAscend(code, rangeStart, rangeEnd, leaders, blocks, j, l);
      } else {
        BlocksAscend(code, rangeStart, rangeEnd, leaders, blocks, l, j);
      }
    }
    if 0 < k || code[0].address == rangeStart { assert blocks[l].start == code[k].address; }
  }

  predicate StrictlyInside(blocks: seq<Block>, a: nat) {
    exists j :: 0 <= j < |blocks| && blocks[j].start < a < blocks[j].end
  }

  lemma LastNotBefore(code: seq<Decoded>, rangeStart: nat, rangeEnd: nat, leaders: seq<nat>, blocks: seq<Block>,
          l: nat, k: nat)
    requires Listed(code, rangeStart, rangeEnd) && Partition(code, rangeStart, rangeEnd, leaders, blocks)
    requires l < |blocks| == |leaders| && leaders[l] == k < |code|
    ensures code[k].address < blocks[l].end
  {
    hide IsLeader, SuccessorsOf;
    GroupAt(code, rangeStart, rangeEnd, leaders, blocks, l);
    hide Partition;
    var hi := GroupEnd(leaders, l, |code|);
    assert k == hi - 1 || code[k].address < code[hi - 1].address;
  }

  /** A branch back to a first instruction that the range starts before: the one
      block begins at the range, the target lies inside it, and the edge dangles. */
  lemma LoopIntoGap(leaders: seq<nat>, blocks: seq<Block>)
    requires Partition(GAP_LOOP, 0, 8, leaders, blocks)
    ensures Listed(GAP_LOOP, 0, 8) && NonOverlapping(GAP_LOOP) && IsTarget(GAP_LOOP, 4)
    ensures blocks == [Block(0, 8, [4])] && StrictlyInside(blocks, 4) && 4 !in Starts(blocks)
  {
    assert 4 in GAP_LOOP[1].targets;
    assert IsLeader(GAP_LOOP, 0) && !IsLeader(GAP_LOOP, 1);
    var l := LeaderAt(GAP_LOOP, 0, 8, leaders, blocks, 0);
    assert forall j :: 0 < j < |leaders| ==> leaders[0] < leaders[j];
    GroupAt(GAP_LOOP, 0, 8, leaders, blocks, 0);
    assert blocks[0] == Block(0, 8, [4]);
    assert StrictlyInside(blocks, 4);
  }

  const GAP_LOOP := [
    Decoded(4, 2, NoFlow, [], Some(6)),
    Decoded(6, 2, UnconditionalBranch, [4], None)]

  /** The bytes of a block are the bytes of its instructions, after the gap that
      may precede the first instruction. */
  lemma BlockBytes(code: seq<Decoded>, rangeStart: nat, rangeEnd: nat, leaders: seq<nat>, blocks: seq<Block>,
          j: nat, a: nat)
    requires Listed(code, rangeStart, rangeEnd) && Contiguous(code)
    requires Partition(code, rangeStart, rangeEnd, leaders, blocks) && j < |blocks|
    ensures blocks[j].start <= a < blocks[j].end && code[leaders[j]].address <= a ==>
              exists k :: leaders[j] <= k < GroupEnd(leaders, j, |code|) && code[k].address <= a < code[k].End()
    ensures a < rangeEnd ==>
      forall k :: leaders[j] <= k < GroupEnd(leaders, j, |code|) && code[k].address <= a < code[k].End() ==>
                    blocks[j].start <= a < blocks[j].end
  {
    hide IsTarget, SuccessorsOf;
    GroupAt(code, rangeStart, rangeEnd, leaders, blocks, j);
    var lo, hi := leaders[j], GroupEnd(leaders, j, |code|);
    hide Partition, IsLeader;
    forall k | lo < k < hi
      ensures code[k - 1].End() == code[k].address
    {
      BlockInterior(code, rangeStart, rangeEnd, leaders, blocks, j, k);
    }
    if blocks[j].start <= a < blocks[j].end && code[lo].address <= a {
      var k := HolderOf(code, lo, hi, a);
    }
    forall k | lo <= k < hi && code[k].address <= a < code[k].End() && a < rangeEnd
      ensures blocks[j].start <= a < blocks[j].end
    {
      EndsAscend(code, lo, hi, k);
    }
  }

  lemma {:induction false} EndsAscend(code: seq<Decoded>, lo: nat, hi: nat, k: nat)
    requires lo <= k < hi <= |code| && forall i :: lo < i < hi ==> code[i - 1].End() == code[i].address
    ensures code[lo].address <= code[k].address && code[k].End() <= code[hi - 1].End()
    decreases hi - lo
  {
    if lo < k {
      assert code[lo + 1 - 1].End() == code[lo + 1].address;
      EndsAscend(code, lo + 1, hi, k);
    } else if k < hi - 1 {
      assert code[hi - 2].End() == code[hi - 1].address;
      EndsAscend(code, lo, hi - 1, k);
    }
  }

  lemma {:induction false} HolderOf(code: seq<Decoded>, lo: nat, hi: nat, a: nat) returns (k: nat)
    requires lo < hi <= |code| && (forall i :: lo < i < hi ==> code[i - 1].End() == code[i].address)
    requires code[lo].address <= a < code[hi - 1].End()
    ensures lo <= k < hi && code[k].address <= a < code[k].End()
    decreases hi - lo
  {
    if a < code[lo].End() {
      k := lo;
    } else {
      assert lo + 1 < hi;
      assert code[lo + 1 - 1].End() == code[lo + 1].address;
      k := HolderOf(code, lo + 1, hi, a);
    }
  }

  // ----- reachable instructions ---------------------------------------------------------------

  /** Where control goes from an instruction, inside the decoded code. */
  function Next(code: map<nat, Decoded>, a: nat): set<nat>
    requires a in code
  {
    (set t | t in code[a].targets && t in code)
    + (if code[a].fallthrough.Some? && code[a].FallsTo(code[a].fallthrough.value) && code[a].fallthrough.value in code
       then {code[a].fallthrough.value} else {})
  }

  predicate IsWalk(code: map<nat, Decoded>, entry: nat, p: seq<nat>) {
    && p != [] && p[0] == entry && entry in code
    && forall i :: 0 <= i < |p| - 1 ==> p[i] in code && p[i + 1] in Next(code, p[i])
  }

  ghost predicate Reaches(code: map<nat, Decoded>, entry: nat, a: nat) {
    exists p :: IsWalk(code, entry, p) && p[|p| - 1] == a
  }

  lemma ReachesNext(code: map<nat, Decoded>, entry: nat, a: nat, b: nat)
    requires Reaches(code, entry, a) && a in code && b in Next(code, a)
    ensures Reaches(code, entry, b)
  {
    var p :| IsWalk(code, entry, p) && p[|p| - 1] == a;
    assert IsWalk(code, entry, p + [b]);
  }

  /** A closed set that holds the entry holds every walk. */
  lemma {:induction false} ClosedHoldsWalks(code: map<nat, Decoded>, entry: nat, reachable: set<nat>, p: seq<nat>)
    requires IsWalk(code, entry, p) && entry in reachable
    requires forall a :: a in reachable ==> a in code && Next(code, a) <= reachable
    ensures p[|p| - 1] in reachable
    decreases |p|
  {
    hide Next;
    if |p| > 1 {
      var front := p[..|p| - 1];
      assert IsWalk(code, entry, front);
      ClosedHoldsWalks(code, entry, reachable, front);
    }
  }

  /** reachableInstructionStarts: exactly the instructions that control can reach
      from the entry by direct targets and fall-through. */
  method ReachableStarts(code: map<nat, Decoded>, entry: nat) returns (reachable: set<nat>)
    ensures forall a :: a in reachable <==> Reaches(code, entry, a)
  {
    hide Reaches, IsWalk, Next;
    reachable := {};
    var worklist: seq<nat> := [];
    if entry in code {
      worklist := [entry];
      EntryReaches(code, entry);
    }
    while worklist != []
      invariant entry in code ==> entry in reachable || entry in worklist
      invariant forall a :: a in worklist || a in reachable ==> a in code && Reaches(code, entry, a)
      invariant forall a, b :: a in reachable && b in Next(code, a) ==> b in reachable || b in worklist
      decreases code.Keys - reachable, |worklist|
    {
      var address := worklist[|worklist| - 1];
      ghost var before := worklist;
      worklist := worklist[..|worklist| - 1];
      assert forall a :: a in before <==> a in worklist || a == address;
      if address in reachable {
        continue;
      }
      reachable := reachable + {address};
      var more := CollectNext(code, address);
      forall b | b in more
        ensures b in code && Reaches(code, entry, b)
      {
        ReachesNext(code, entry, address, b);
        NextInCode(code, address, b);
      }
      worklist := worklist + more;
    }
    ReachedExactly(code, entry, reachable);
  }

  lemma EntryReaches(code: map<nat, Decoded>, entry: nat)
    requires entry in code
    ensures Reaches(code, entry, entry)
  {
    assert IsWalk(code, entry, [entry]);
  }

  lemma NextInCode(code: map<nat, Decoded>, a: nat, b: nat)
    requires a in code && b in Next(code, a)
    ensures b in code
  {
  }

  lemma ReachedExactly(code: map<nat, Decoded>, entry: nat, reachable: set<nat>)
    requires entry in code ==> entry in reachable
    requires forall a :: a in reachable ==> a in code && Reaches(code, entry, a)
    requires forall a, b :: a in reachable && b in Next(code, a) ==> b in reachable
    ensures forall a :: a in reachable <==> Reaches(code, entry, a)
  {
    hide Next;
    forall a | Reaches(code, entry, a)
      ensures a in reachable
    {
      var p :| IsWalk(code, entry, p) && p[|p| - 1] == a;
      ClosedHoldsWalks(code, entry, reachable, p);
    }
  }

  /** The addresses that one instruction puts on the worklist. */
  method CollectNext(code: map<nat, Decoded>, a: nat) returns (more: seq<nat>)
    requires a in code
    ensures forall b :: b in more <==> b in Next(code, a)
  {
    var instruction := code[a];
    more := [];
    for k := 0 to |instruction.targets|
      invariant forall b :: b in more <==> b in instruction.targets[..k] && b in code
    {
      assert instruction.targets[..k + 1] == instruction.targets[..k] + [instruction.targets[k]];
      if instruction.targets[k] in code {
        more := more + [instruction.targets[k]];
      }
    }
    assert instruction.targets[..|instruction.targets|] == instruction.targets;
    if instruction.fallthrough.Some? && instruction.FallsTo(instruction.fallthrough.value)
       && instruction.fallthrough.value in code {
      more := more + [instruction.fallthrough.value];
    }
  }

  // ----- edges and control flow -----------------------------------------------------------------

  /** Control can go from an instruction to an address: a direct target, or the
      recorded fall-through if it is the next byte. */
  predicate FlowsTo(d: Decoded, s: nat) {
    s in d.targets || (d.fallthrough == Some(s) && d.address + d.size == s)
  }

  /** As the decoder leaves them: only branches have targets, and only conditional
      branches and instructions without a flow kind fall through. */
  predicate Resolved(code: seq<Decoded>) {
    forall d :: d in code ==>
      && (d.targets != [] ==> d.flow.ConditionalBranch? || d.flow.UnconditionalBranch? || d.flow.IndirectBranch?)
      && (d.fallthrough.Some? ==> d.flow.ConditionalBranch? || d.flow.NoFlow?)
  }

  /** The map has the instructions of the list by address. */
  predicate Indexes(byAddress: map<nat, Decoded>, code: seq<Decoded>) {
    && (forall d :: d in code ==> d.address in byAddress && byAddress[d.address] == d)
    && (forall a :: a in byAddress ==> byAddress[a] in code && byAddress[a].address == a)
  }

  lemma NextIsFlow(byAddress: map<nat, Decoded>, a: nat, s: nat)
    requires a in byAddress && byAddress[a].address == a
    ensures s in Next(byAddress, a) <==> s in byAddress && FlowsTo(byAddress[a], s)
  {
  }

  lemma IndexOf(byAddress: map<nat, Decoded>, code: seq<Decoded>, s: nat) returns (i: nat)
    requires Indexes(byAddress, code) && s in byAddress
    ensures i < |code| && code[i].address == s && code[i] == byAddress[s]
  {
    i :| 0 <= i < |code| && code[i] == byAddress[s];
  }

  /** The instruction at the next byte is the next one of the list. */
  lemma AdjacentIsNext(code: seq<Decoded>, rangeStart: nat, rangeEnd: nat, k: nat, i: nat)
    requires Listed(code, rangeStart, rangeEnd) && NonOverlapping(code) && k < |code| && i < |code|
    requires code[k].address + code[k].size == code[i].address
    ensures i == k + 1
  {
    if k + 1 < |code| { assert code[k].End() <= code[k + 1].address; }
  }

  /** Which flow of its last instruction a block has as edges: none behind a trap or
      return, the targets of a branch, the contiguous fall-through of anything else,
      and both for a conditional branch. */
  lemma EdgesExactly(code: seq<Decoded>, byAddress: map<nat, Decoded>, rangeStart: nat, rangeEnd: nat,
                     leaders: seq<nat>, blocks: seq<Block>, j: nat, s: nat)
    requires Listed(code, rangeStart, rangeEnd) && NonOverlapping(code) && Indexes(byAddress, code)
    requires Partition(code, rangeStart, rangeEnd, leaders, blocks) && j < |leaders|
    ensures |blocks| == |leaders| && 0 < GroupEnd(leaders, j, |code|) <= |code|
    ensures var last := code[GroupEnd(leaders, j, |code|) - 1];
      var runsOn := last.fallthrough == Some(s) && last.address + last.size == s;
      && (last.flow.Trap? || last.flow.Return? ==> s !in blocks[j].successors)
      && (last.flow.UnconditionalBranch? || last.flow.IndirectBranch? ==>
            (s in blocks[j].successors <==> s in last.targets))
      && (last.flow.ConditionalBranch? ==> (s in blocks[j].successors <==> s in last.targets || runsOn))
      && (last.flow.NoFlow? ==> (s in blocks[j].successors <==> s in byAddress && runsOn))
  {
    hide IsTarget, IsLeader;
    GroupAt(code, rangeStart, rangeEnd, leaders, blocks, j);
    hide Partition;
    var hi := GroupEnd(leaders, j, |code|);
    var last := code[hi - 1];
    if s in byAddress && last.address + last.size == s {
      var i := IndexOf(byAddress, code, s);
      AdjacentIsNext(code, rangeStart, rangeEnd, hi - 1, i);
    }
    if hi < |code| { assert code[hi] in code; }
  }

  /** So the edges of a block are the flow of its last instruction: every target and
      contiguous fall-through that is in the list, and nothing that is not one. */
  lemma EdgesAreFlow(code: seq<Decoded>, byAddress: map<nat, Decoded>, rangeStart: nat, rangeEnd: nat,
                     leaders: seq<nat>, blocks: seq<Block>, j: nat, s: nat)
    requires Listed(code, rangeStart, rangeEnd) && NonOverlapping(code) && Resolved(code) && Indexes(byAddress, code)
    requires Partition(code, rangeStart, rangeEnd, leaders, blocks) && j < |leaders|
    ensures |blocks| == |leaders| && 0 < GroupEnd(leaders, j, |code|) <= |code|
    ensures var last := code[GroupEnd(leaders, j, |code|) - 1];
      && (s in blocks[j].successors ==> FlowsTo(last, s))
      && (s in byAddress && FlowsTo(last, s) ==> s in blocks[j].successors)
  {
    hide Partition, Listed, NonOverlapping;
    EdgesExactly(code, byAddress, rangeStart, rangeEnd, leaders, blocks, j, s);
    assert code[GroupEnd(leaders, j, |code|) - 1] in code;
  }

  /** Inside a block control only goes on to the next instruction of the list. */
  lemma InteriorFlow(code: seq<Decoded>, byAddress: map<nat, Decoded>, rangeStart: nat, rangeEnd: nat,
                     leaders: seq<nat>, blocks: seq<Block>, j: nat, k: nat, s: nat)
    requires Listed(code, rangeStart, rangeEnd) && NonOverlapping(code) && Resolved(code) && Indexes(byAddress, code)
    requires Partition(code, rangeStart, rangeEnd, leaders, blocks) && j < |leaders|
    requires leaders[j] <= k < GroupEnd(leaders, j, |code|) - 1
    ensures k + 1 < |code|
    ensures s in byAddress && FlowsTo(code[k], s) ==> s == code[k + 1].address
  {
    GroupAt(code, rangeStart, rangeEnd, leaders, blocks, j);
    BlockInterior(code, rangeStart, rangeEnd, leaders, blocks, j, k + 1);
    hide Partition, IsTarget, IsLeader, IsGroup;
    if s in byAddress && FlowsTo(code[k], s) {
      assert code[k] in code;
      var i := IndexOf(byAddress, code, s);
      AdjacentIsNext(code, rangeStart, rangeEnd, k, i);
    }
  }

  /** Where an edge leads is the first instruction of a block. */
  lemma FlowLeadsToLeader(code: seq<Decoded>, byAddress: map<nat, Decoded>, rangeStart: nat, rangeEnd: nat,
                          leaders: seq<nat>, blocks: seq<Block>, j: nat, s: nat) returns (l: nat)
    requires Listed(code, rangeStart, rangeEnd) && NonOverlapping(code) && Resolved(code) && Indexes(byAddress, code)
    requires Partition(code, rangeStart, rangeEnd, leaders, blocks) && j < |leaders| && s in byAddress
    requires 0 < GroupEnd(leaders, j, |code|) <= |code| && FlowsTo(code[GroupEnd(leaders, j, |code|) - 1], s)
    ensures l < |leaders| && leaders[l] < |code| && code[leaders[l]].address == s
  {
    var hi := GroupEnd(leaders, j, |code|);
    var i := IndexOf(byAddress, code, s);
    if s in code[hi - 1].targets {
      assert IsTarget(code, s);
    } else {
      AdjacentIsNext(code, rangeStart, rangeEnd, hi - 1, i);
      if j + 1 < |leaders| { GroupAt(code, rangeStart, rangeEnd, leaders, blocks, j + 1); }
    }
    hide Partition, IsTarget;
    l := LeaderAt(code, rangeStart, rangeEnd, leaders, blocks, i);
  }

  predicate GoesOn(code: seq<Decoded>, lo: nat, hi: nat, from: nat, to: nat) {
    exists k: nat :: lo <= k < hi - 1 && k + 1 < |code| && code[k].address == from && code[k + 1].address == to
  }

  /** One step of control, seen from the blocks: on to the next instruction of the
      same block, or along an edge to the first instruction of a block. */
  predicate BlockStep(code: seq<Decoded>, leaders: seq<nat>, blocks: seq<Block>, from: nat, to: nat, j: nat, l: nat) {
    && |leaders| == |blocks| && j < |leaders| && l < |leaders|
    && (|| (j == l && GoesOn(code, leaders[j], GroupEnd(leaders, j, |code|), from, to))
        || (to in blocks[j].successors && leaders[l] < |code| && code[leaders[l]].address == to))
  }

  /** The address is an instruction of block j. */
  predicate InBlock(code: seq<Decoded>, leaders: seq<nat>, a: nat, j: nat) {
    j < |leaders| && exists k :: leaders[j] <= k < GroupEnd(leaders, j, |code|) && k < |code| && code[k].address == a
  }

  lemma StepFollowsBlocks(code: seq<Decoded>, byAddress: map<nat, Decoded>, rangeStart: nat, rangeEnd: nat,
                          leaders: seq<nat>, blocks: seq<Block>, from: nat, to: nat, j: nat) returns (l: nat)
    requires Listed(code, rangeStart, rangeEnd) && NonOverlapping(code) && Resolved(code) && Indexes(byAddress, code)
    requires Partition(code, rangeStart, rangeEnd, leaders, blocks) && InBlock(code, leaders, from, j)
    requires from in byAddress && to in Next(byAddress, from)
    ensures BlockStep(code, leaders, blocks, from, to, j, l) && InBlock(code, leaders, to, l)
  {
    hide *;
    var k := PlaceInBlock(code, byAddress, rangeStart, rangeEnd, leaders, blocks, from, j);
    NextIsFlow(byAddress, from, to);
    if k < GroupEnd(leaders, j, |code|) - 1 {
      l := j;
      InteriorFlow(code, byAddress, rangeStart, rangeEnd, leaders, blocks, j, k, to);
      StepInside(code, leaders, blocks, from, to, j, k);
    } else {
      EdgesAreFlow(code, byAddress, rangeStart, rangeEnd, leaders, blocks, j, to);
      l := FlowLeadsToLeader(code, byAddress, rangeStart, rangeEnd, leaders, blocks, j, to);
      GroupAt(code, rangeStart, rangeEnd, leaders, blocks, l);
      StepAlongEdge(code, leaders, blocks, from, to, j, l);
    }
  }

  lemma PlaceInBlock(code: seq<Decoded>, byAddress: map<nat, Decoded>, rangeStart: nat, rangeEnd: nat,
                     leaders: seq<nat>, blocks: seq<Block>, a: nat, j: nat) returns (k: nat)
    requires Indexes(byAddress, code) && Partition(code, rangeStart, rangeEnd, leaders, blocks)
    requires InBlock(code, leaders, a, j)
    ensures |blocks| == |leaders| && j < |leaders| && leaders[j] <= k < GroupEnd(leaders, j, |code|) <= |code|
    ensures code[k].address == a && a in byAddress && byAddress[a] == code[k]
  {
    hide IsLeader, IsGroup;
    GroupAt(code, rangeStart, rangeEnd, leaders, blocks, j);
    hide Partition;
    k :| leaders[j] <= k < GroupEnd(leaders, j, |code|) && k < |code| && code[k].address == a;
    assert code[k] in code;
  }

  lemma StepInside(code: seq<Decoded>, leaders: seq<nat>, blocks: seq<Block>, from: nat, to: nat, j: nat, k: nat)
    requires |leaders| == |blocks| && j < |leaders| && leaders[j] <= k < GroupEnd(leaders, j, |code|) - 1
    requires k + 1 < |code| && code[k].address == from && code[k + 1].address == to
    ensures BlockStep(code, leaders, blocks, from, to, j, j) && InBlock(code, leaders, to, j)
  {
  }

  lemma StepAlongEdge(code: seq<Decoded>, leaders: seq<nat>, blocks: seq<Block>, from: nat, to: nat, j: nat, l: nat)
    requires |leaders| == |blocks| && j < |leaders| && l < |leaders| && to in blocks[j].successors
    requires leaders[l] < |code| && leaders[l] < GroupEnd(leaders, l, |code|) && code[leaders[l]].address == to
    ensures BlockStep(code, leaders, blocks, from, to, j, l) && InBlock(code, leaders, to, l)
  {
  }

  /** Every walk of control through the instructions is a walk through the blocks. */
  lemma {:induction false} WalksFollowBlocks(code: seq<Decoded>, byAddress: map<nat, Decoded>, rangeStart: nat,
                                             rangeEnd: nat, leaders: seq<nat>, blocks: seq<Block>, p: seq<nat>)
    returns (q: seq<nat>)
    requires Listed(code, rangeStart, rangeEnd) && NonOverlapping(code) && Resolved(code) && Indexes(byAddress, code)
    requires Partition(code, rangeStart, rangeEnd, leaders, blocks) && p != [] && IsWalk(byAddress, p[0], p)
    ensures |q| == |p|
    ensures forall i :: 0 <= i < |p| ==> InBlock(code, leaders, p[i], q[i])
    ensures forall i :: 0 <= i < |p| - 1 ==> BlockStep(code, leaders, blocks, p[i], p[i + 1], q[i], q[i + 1])
    decreases |p|
  {
    hide Listed, NonOverlapping, Resolved, Partition, Next, BlockStep;
    var n := |p| - 1;
    if n == 0 {
      var k := IndexOf(byAddress, code, p[0]);
      var j := GroupOf(code, rangeStart, rangeEnd, leaders, blocks, k);
      q := [j];
    } else {
      hide Indexes, InBlock;
      assert IsWalk(byAddress, p[0], p[..n]);
      q := WalksFollowBlocks(code, byAddress, rangeStart, rangeEnd, leaders, blocks, p[..n]);
      assert p[n - 1] in byAddress && p[n - 1 + 1] in Next(byAddress, p[n - 1]);
      var l := StepFollowsBlocks(code, byAddress, rangeStart, rangeEnd, leaders, blocks, p[n - 1], p[n], q[n - 1]);
      q := q + [l];
      forall i | 0 <= i < n
        ensures BlockStep(code, leaders, blocks, p[i], p[i + 1], q[i], q[i + 1])
      {
        if i < n - 1 { assert BlockStep(code, leaders, blocks, p[..n][i], p[..n][i + 1], q[i], q[i + 1]); }
      }
    }
  }
}
