/** The blocks of discovered functions and the operations that change them in
    place. */
module NativeBlocks {
  import opened Wrappers

  datatype Instruction = Instruction(size: nat, fallthrough: Option<nat>)

  /** Bytes start .. end - 1. */
  datatype Block = Block(start: nat, end: nat, successors: seq<nat>)

  datatype Function = Function(entry: nat, rangeStart: nat, rangeEnd: nat, blocks: seq<Block>)

  // ----- properties of a function ---------------------------------------------------

  predicate Apart(a: Block, b: Block) {
    a.end <= b.start || b.end <= a.start
  }

  predicate PairwiseApart(blocks: seq<Block>) {
    forall i, j :: 0 <= i < |blocks| && 0 <= j < |blocks| && i != j ==> Apart(blocks[i], blocks[j])
  }

  predicate NonEmpty(blocks: seq<Block>) {
    forall i :: 0 <= i < |blocks| ==> blocks[i].start < blocks[i].end
  }

  predicate InRange(f: Function) {
    forall i :: 0 <= i < |f.blocks| ==>
      f.rangeStart <= f.blocks[i].start < f.blocks[i].end <= f.rangeEnd
  }

  /** Non-empty, pairwise disjoint blocks inside the function's range. */
  predicate Tidy(f: Function) {
    InRange(f) && PairwiseApart(f.blocks)
  }

  function Starts(blocks: seq<Block>): set<nat> {
    set i | 0 <= i < |blocks| :: blocks[i].start
  }

  predicate Covers(blocks: seq<Block>, address: nat) {
    exists i :: 0 <= i < |blocks| && blocks[i].start <= address < blocks[i].end
  }

  /** Every successor is the start of a block. */
  predicate Closed(blocks: seq<Block>) {
    forall i, s :: 0 <= i < |blocks| && s in blocks[i].successors ==> s in Starts(blocks)
  }

  // ----- inserting a block -------------------------------------------------------------

  /** An instruction at or after start, and before target, falls through to it. */
  predicate FallsThroughTo(instructions: map<nat, Instruction>, start: nat, target: nat) {
    exists a | a in instructions ::
      start <= a < target && instructions[a].fallthrough == Some(target) && a + instructions[a].size == target
  }

  /** What is left of a block when another one starts at address. */
  function Truncated(b: Block, address: nat, instructions: map<nat, Instruction>): Block {
    if b.start < address < b.end then
      Block(b.start, address,
            if address in b.successors || FallsThroughTo(instructions, b.start, address) then [address] else [])
    else b
  }

  /** The first block in list order that starts inside the new one. */
  function FirstInside(blocks: seq<Block>, b: Block): Option<nat> {
    if blocks == [] then None
    else if b.start < blocks[0].start < b.end then Some(blocks[0].start)
    else FirstInside(blocks[1..], b)
  }

  lemma {:induction false} FirstInsideAt(blocks: seq<Block>, b: Block, k: nat)
    requires k <= |blocks|
    requires forall i :: 0 <= i < k ==> !(b.start < blocks[i].start < b.end)
    ensures FirstInside(blocks, b) == FirstInside(blocks[k..], b)
    decreases k
  {
    if k > 0 {
      FirstInsideAt(blocks[1..], b, k - 1);
      assert blocks[1..][k - 1..] == blocks[k..];
    }
  }

  /** The new block as it is stored: cut at the nearest block start inside it.
      A cut block keeps an edge to the cut only if it falls through to it, or if
      it listed that edge and no other block start came first. */
  predicate IsClipped(clipped: Block, b: Block, blocks: seq<Block>, instructions: map<nat, Instruction>) {
    && clipped.start == b.start < clipped.end <= b.end
    && (forall i :: 0 <= i < |blocks| ==> !(b.start < blocks[i].start < clipped.end))
    && (if clipped.end == b.end then clipped.successors == b.successors
        else
          && clipped.end in Starts(blocks)
          && clipped.successors ==
             if FallsThroughTo(instructions, b.start, clipped.end)
                || (FirstInside(blocks, b) == Some(clipped.end) && clipped.end in b.successors)
             then [clipped.end] else [])
  }

  /** Adds the missing successors of a block that is already there. */
  method MergeSuccessors(successors: seq<nat>, more: seq<nat>) returns (merged: seq<nat>, changed: bool)
    ensures successors <= merged && (forall s :: s in merged <==> s in successors || s in more)
    ensures changed <==> exists s :: s in more && s !in successors
    ensures !changed ==> merged == successors
  {
    merged, changed := successors, false;
    for k := 0 to |more|
      invariant successors <= merged && (forall s :: s in merged <==> s in successors || s in more[..k])
      invariant changed <==> exists s :: s in more[..k] && s !in successors
      invariant !changed ==> merged == successors
    {
      assert more[..k + 1] == more[..k] + [more[k]];
      if more[k] !in merged {
        assert more[k] in more[..k + 1] && more[k] !in successors;
        merged, changed := merged + [more[k]], true;
      }
    }
    assert more[..|more|] == more;
  }

  /** A block that starts where a stored one starts: equal ends merge the
      successors, an earlier end shortens the stored block. */
  function SameStart(existing: Block, b: Block, merged: seq<nat>): Block
    requires existing.start == b.start
  {
    if existing.end == b.end then Block(b.start, b.end, merged)
    else if b.end < existing.end then b
    else existing
  }

  lemma UnchangedMeeting(blocks: seq<Block>, b: Block, k: nat, merged: seq<nat>)
    requires k < |blocks| && blocks[k].start == b.start && b.end >= blocks[k].end
    requires b.end == blocks[k].end ==> merged == blocks[k].successors
    ensures blocks[k := SameStart(blocks[k], b, merged)] == blocks
  {
  }

  /** Block k, the first with b's start, met b; merged is the union of their
      successors, in which the old ones come first. */
  ghost predicate MetStart(blocks: seq<Block>, b: Block, result: seq<Block>, k: nat, merged: seq<nat>) {
    && k < |blocks| && blocks[k].start == b.start && (forall i :: 0 <= i < k ==> blocks[i].start != b.start)
    && blocks[k].successors <= merged
    && (forall s :: s in merged <==> s in blocks[k].successors || s in b.successors)
    && ((forall s :: s in b.successors ==> s in blocks[k].successors) ==> merged == blocks[k].successors)
    && result == blocks[k := SameStart(blocks[k], b, merged)]
  }

  /** b was stored as a new block, cut at the next block, and the block that
      held its start was cut there. */
  ghost predicate AddedBlock(blocks: seq<Block>, b: Block, instructions: map<nat, Instruction>, result: seq<Block>) {
    && |result| == |blocks| + 1
    && (forall i :: 0 <= i < |blocks| ==> result[i] == Truncated(blocks[i], b.start, instructions))
    && IsClipped(result[|blocks|], b, blocks, instructions)
  }

  ghost predicate Inserted(blocks: seq<Block>, b: Block, instructions: map<nat, Instruction>, result: seq<Block>) {
    if b.start in Starts(blocks) then exists k, merged :: MetStart(blocks, b, result, k, merged)
    else AddedBlock(blocks, b, instructions, result)
  }

  /** The block list of addBasicBlock. */
  method InsertBlock(blocks: seq<Block>, b: Block, instructions: map<nat, Instruction>)
    returns (result: seq<Block>, changed: bool)
    requires b.start < b.end
    ensures Inserted(blocks, b, instructions, result)
    ensures !changed ==> result == blocks
  {
    hide SameStart, FallsThroughTo;
    for k := 0 to |blocks|
      invariant forall i :: 0 <= i < k ==> blocks[i].start != b.start
    {
      if blocks[k].start == b.start {
        var merged, grown := MergeSuccessors(blocks[k].successors, b.successors);
        result := blocks[k := SameStart(blocks[k], b, merged)];
        changed := if blocks[k].end == b.end then grown else b.end < blocks[k].end;
        if !changed { UnchangedMeeting(blocks, b, k, merged); }
        assert MetStart(blocks, b, result, k, merged);
        return;
      }
    }
    result, changed := blocks, true;
    var clipped := b;
    for k := 0 to |blocks|
      invariant |result| == |blocks|
      invariant forall i :: 0 <= i < k ==> result[i] == Truncated(blocks[i], b.start, instructions)
      invariant forall i :: k <= i < |blocks| ==> result[i] == blocks[i]
      invariant clipped.start == b.start < clipped.end <= b.end
      invariant forall i :: 0 <= i < k ==> !(b.start < blocks[i].start < clipped.end)
      invariant clipped.end == b.end ==> clipped == b
      invariant clipped.end < b.end ==> clipped.end in Starts(blocks)
      invariant clipped.end < b.end ==>
                  && FirstInside(blocks, b).Some? && clipped.end <= FirstInside(blocks, b).value
                  && clipped.successors ==
                     if FallsThroughTo(instructions, b.start, clipped.end)
                        || (FirstInside(blocks, b) == Some(clipped.end) && clipped.end in b.successors)
                     then [clipped.end] else []
    {
      var existing := blocks[k];
      if existing.start < clipped.start && clipped.start < existing.end {
        result := result[k := Truncated(existing, clipped.start, instructions)];
      }
      if clipped.start < existing.start && existing.start < clipped.end {
        if clipped.end == b.end { FirstInsideAt(blocks, b, k); }
        var hadSuccessor := existing.start in clipped.successors;
        var edge := hadSuccessor || FallsThroughTo(instructions, clipped.start, existing.start);
        clipped := Block(clipped.start, existing.start, if edge then [existing.start] else []);
      }
    }
    result := result + [clipped];
  }

  // ----- what an insertion keeps ----------------------------------------------------------

  lemma TruncatedFacts(b: Block, address: nat, instructions: map<nat, Instruction>)
    requires b.start < b.end
    ensures var t := Truncated(b, address, instructions);
      && t.start == b.start < t.end <= b.end && !(t.start < address < t.end)
      && (t == b || (t.end == address && forall s :: s in t.successors ==> s == address))
  {
  }

  lemma InsertKeepsStarts(blocks: seq<Block>, b: Block, instructions: map<nat, Instruction>, result: seq<Block>)
    requires Inserted(blocks, b, instructions, result)
    ensures Starts(result) == Starts(blocks) + {b.start}
  {
    hide FallsThroughTo;
    if b.start in Starts(blocks) {
      var k: nat, merged :| MetStart(blocks, b, result, k, merged);
      assert forall i :: 0 <= i < |blocks| ==> result[i].start == blocks[i].start;
    } else {
      assert forall i :: 0 <= i < |blocks| ==> result[i].start == blocks[i].start;
      assert result[|blocks|].start == b.start;
    }
  }

  lemma InsertKeepsApart(blocks: seq<Block>, b: Block, instructions: map<nat, Instruction>, result: seq<Block>)
    requires Inserted(blocks, b, instructions, result) && b.start < b.end
    requires PairwiseApart(blocks) && NonEmpty(blocks)
    ensures PairwiseApart(result) && NonEmpty(result)
  {
    hide FallsThroughTo, Starts;
    if b.start in Starts(blocks) {
      var k: nat, merged :| MetStart(blocks, b, result, k, merged);
      forall i, j | 0 <= i < |result| && 0 <= j < |result| && i != j
        ensures Apart(result[i], result[j])
      {
        assert Apart(blocks[i], blocks[j]);
      }
    } else {
      AddedApart(blocks, b, instructions, result);
    }
  }

  lemma AddedApart(blocks: seq<Block>, b: Block, instructions: map<nat, Instruction>, result: seq<Block>)
    requires AddedBlock(blocks, b, instructions, result) && b.start !in Starts(blocks) && b.start < b.end
    requires PairwiseApart(blocks) && NonEmpty(blocks)
    ensures PairwiseApart(result) && NonEmpty(result)
  {
    var n := |blocks|;
    forall i | 0 <= i < n
      ensures result[i].start == blocks[i].start < result[i].end <= blocks[i].end
      ensures Apart(result[i], result[n]) && Apart(result[n], result[i])
    {
      TruncatedFacts(blocks[i], b.start, instructions);
      assert blocks[i].start in Starts(blocks);
    }
    forall i, j | 0 <= i < |result| && 0 <= j < |result| && i != j
      ensures Apart(result[i], result[j])
    {
      if i < n && j < n { assert Apart(blocks[i], blocks[j]); }
    }
  }

  // ----- edges ------------------------------------------------------------------------------

  /** An instruction in start .. target - 1 ends at target and runs on into it. */
  ghost predicate RunsInto(instructions: map<nat, Instruction>, start: nat, target: nat) {
    exists a: nat :: a in instructions && start <= a < target &&
      a + instructions[a].size == target && instructions[a].fallthrough == Some(target)
  }

  /** What an insertion does to the block that was at index i. */
  ghost predicate OldEdges(before: Block, b: Block, instructions: map<nat, Instruction>, after: Block) {
    if before.start == b.start then
      && (b.end < before.end ==> after == b)
      && (before.end < b.end ==> after == before)
      && (b.end == before.end ==>
            && after.start == b.start && after.end == b.end
            && forall s :: s in after.successors <==> s in before.successors || s in b.successors)
    else if before.start < b.start < before.end then
      && after.start == before.start && after.end == b.start
      && forall s :: s in after.successors <==>
           s == b.start && (s in before.successors || RunsInto(instructions, before.start, s))
    else after == before
  }

  /** What is stored of a block that starts where no other does: all of it, or, when
      blocks start inside it, the part before the nearest one. */
  ghost predicate NewEdges(blocks: seq<Block>, b: Block, instructions: map<nat, Instruction>, stored: Block) {
    if forall i :: 0 <= i < |blocks| ==> !(b.start < blocks[i].start < b.end) then stored == b
    else
      && stored.start == b.start
      && (exists i :: 0 <= i < |blocks| && blocks[i].start == stored.end && b.start < stored.end < b.end)
      && (forall i :: 0 <= i < |blocks| ==> !(b.start < blocks[i].start < stored.end))
      && forall s :: s in stored.successors <==>
           s == stored.end && (RunsInto(instructions, b.start, s) || (s in b.successors && ComesFirst(blocks, b, s)))
  }

  /** The first block of the list that starts inside b starts at s. */
  ghost predicate ComesFirst(blocks: seq<Block>, b: Block, s: nat) {
    exists i :: 0 <= i < |blocks| && blocks[i].start == s &&
      forall j :: 0 <= j < i ==> !(b.start < blocks[j].start < b.end)
  }

  /** Every edge after an insertion, block by block. */
  ghost predicate EdgeLaw(blocks: seq<Block>, b: Block, instructions: map<nat, Instruction>, result: seq<Block>) {
    && (forall i :: 0 <= i < |blocks| && i < |result| ==> OldEdges(blocks[i], b, instructions, result[i]))
    && (if b.start in Starts(blocks) then |result| == |blocks|
        else |result| == |blocks| + 1 && NewEdges(blocks, b, instructions, result[|blocks|]))
  }

  lemma RunsIntoIsFallThrough(instructions: map<nat, Instruction>, start: nat, target: nat)
    ensures RunsInto(instructions, start, target) <==> FallsThroughTo(instructions, start, target)
  {
  }

  lemma {:induction false} ComesFirstIsFirstInside(blocks: seq<Block>, b: Block, s: nat)
    requires b.start < s < b.end
    ensures ComesFirst(blocks, b, s) <==> FirstInside(blocks, b) == Some(s)
  {
    if ComesFirst(blocks, b, s) {
      var i :| 0 <= i < |blocks| && blocks[i].start == s &&
        forall j :: 0 <= j < i ==> !(b.start < blocks[j].start < b.end);
      FirstInsideAt(blocks, b, i);
    }
    if FirstInside(blocks, b) == Some(s) {
      var k := FirstInsideFrom(blocks, b);
    }
  }

  /** Where the first block inside b comes from. */
  lemma {:induction false} FirstInsideFrom(blocks: seq<Block>, b: Block) returns (k: nat)
    requires FirstInside(blocks, b).Some?
    ensures k < |blocks| && blocks[k].start == FirstInside(blocks, b).value && b.start < blocks[k].start < b.end
    ensures forall i :: 0 <= i < k ==> !(b.start < blocks[i].start < b.end)
  {
    if b.start < blocks[0].start < b.end {
      k := 0;
    } else {
      k := FirstInsideFrom(blocks[1..], b);
      k := k + 1;
      forall i | 0 <= i < k
        ensures !(b.start < blocks[i].start < b.end)
      {
        if 0 < i { assert blocks[i] == blocks[1..][i - 1]; }
      }
    }
  }

  /** The stored block has b's edges if an existing block was longer, the edges of both
      if they have the same extent, its own if it was shorter; a block that is cut
      keeps an edge to the cut if it listed it or code runs into it. */
  lemma InsertEdges(blocks: seq<Block>, b: Block, instructions: map<nat, Instruction>, result: seq<Block>)
    requires Inserted(blocks, b, instructions, result) && PairwiseApart(blocks) && NonEmpty(blocks)
    ensures EdgeLaw(blocks, b, instructions, result)
  {
    hide RunsInto, FallsThroughTo, FirstInside, ComesFirst;
    if b.start in Starts(blocks) {
      var k: nat, merged :| MetStart(blocks, b, result, k, merged);
      forall i | 0 <= i < |blocks|
        ensures OldEdges(blocks[i], b, instructions, result[i])
      {
        var one, met := blocks[i], blocks[k];
        assert i == k || Apart(one, met);
      }
    } else {
      forall i | 0 <= i < |blocks|
        ensures OldEdges(blocks[i], b, instructions, result[i])
      {
        assert blocks[i].start in Starts(blocks);
        RunsIntoIsFallThrough(instructions, blocks[i].start, b.start);
      }
      var stored := result[|blocks|];
      RunsIntoIsFallThrough(instructions, b.start, stored.end);
      if b.start < stored.end < b.end { ComesFirstIsFirstInside(blocks, b, stored.end); }
    }
  }

  /** In particular no edge of b is lost, unless blocks start inside it or a shorter
      one starts where it does. */
  lemma InsertKeepsEdges(blocks: seq<Block>, b: Block, instructions: map<nat, Instruction>, result: seq<Block>)
    requires Inserted(blocks, b, instructions, result) && PairwiseApart(blocks) && NonEmpty(blocks)
    requires forall i :: 0 <= i < |blocks| ==> !(b.start < blocks[i].start < b.end)
    requires forall i :: 0 <= i < |blocks| && blocks[i].start == b.start ==> b.end <= blocks[i].end
    ensures exists k :: 0 <= k < |result| && result[k].start == b.start && result[k].end == b.end &&
              forall s :: s in b.successors ==> s in result[k].successors
  {
    hide RunsInto, Inserted;
    InsertEdges(blocks, b, instructions, result);
    if b.start in Starts(blocks) {
      var k :| 0 <= k < |blocks| && blocks[k].start == b.start;
      assert OldEdges(blocks[k], b, instructions, result[k]);
    } else {
      assert result[|blocks|] == b;
    }
  }

  /** The block that holds b's first byte does not reach past b. */
  predicate ReachesPast(blocks: seq<Block>, b: Block) {
    exists i :: 0 <= i < |blocks| && blocks[i].start <= b.start && b.end < blocks[i].end
  }

  /** Insertion adds no byte outside the new block, and it loses bytes exactly
      when the block it starts in reaches past its end. */
  lemma InsertCovers(blocks: seq<Block>, b: Block, instructions: map<nat, Instruction>, result: seq<Block>)
    requires Inserted(blocks, b, instructions, result) && b.start < b.end && PairwiseApart(blocks) && NonEmpty(blocks)
    ensures forall a: nat :: Covers(result, a) ==> Covers(blocks, a) || b.start <= a < b.end
    ensures (forall a: nat :: Covers(blocks, a) ==> Covers(result, a)) <==> !ReachesPast(blocks, b)
  {
    hide Covers, Truncated;
    forall a: nat
      ensures Covers(result, a) ==> Covers(blocks, a) || b.start <= a < b.end
      ensures Covers(blocks, a) && !ReachesPast(blocks, b) ==> Covers(result, a)
    {
      if Covers(result, a) { InsertAddsOnlyItself(blocks, b, instructions, result, a); }
      if Covers(blocks, a) && !ReachesPast(blocks, b) { InsertKeepsByte(blocks, b, instructions, result, a); }
    }
    if ReachesPast(blocks, b) {
      var i :| 0 <= i < |blocks| && blocks[i].start <= b.start && b.end < blocks[i].end;
      assert Covers(blocks, b.end) by { CoveredBy(blocks, i, b.end); }
      InsertLosesByte(blocks, b, instructions, result, i);
    }
  }

  lemma CoveredBy(blocks: seq<Block>, i: nat, address: nat)
    requires i < |blocks| && blocks[i].start <= address < blocks[i].end
    ensures Covers(blocks, address)
  {
  }

  lemma InsertAddsOnlyItself(blocks: seq<Block>, b: Block, instructions: map<nat, Instruction>,
          result: seq<Block>, a: nat)
    requires Inserted(blocks, b, instructions, result) && b.start < b.end && NonEmpty(blocks) && Covers(result, a)
    ensures Covers(blocks, a) || b.start <= a < b.end
  {
    hide FallsThroughTo;
    var i :| 0 <= i < |result| && result[i].start <= a < result[i].end;
    if b.start in Starts(blocks) {
      var k: nat, merged :| MetStart(blocks, b, result, k, merged);
    } else if i < |blocks| {
      TruncatedFacts(blocks[i], b.start, instructions);
    }
  }

  lemma InsertKeepsByte(blocks: seq<Block>, b: Block, instructions: map<nat, Instruction>, result: seq<Block>, a: nat)
    requires Inserted(blocks, b, instructions, result) && b.start < b.end && PairwiseApart(blocks) && NonEmpty(blocks)
    requires Covers(blocks, a) && !ReachesPast(blocks, b)
    ensures Covers(result, a)
  {
    hide FallsThroughTo;
    var i :| 0 <= i < |blocks| && blocks[i].start <= a < blocks[i].end;
    if b.start in Starts(blocks) {
      var k: nat, merged :| MetStart(blocks, b, result, k, merged);
      assert blocks[i].end == result[i].end;
    } else {
      var n := |blocks|;
      if blocks[i].start < b.start <= a {
        assert result[n].end == b.end || result[n].end in Starts(blocks);
        assert forall j :: 0 <= j < n ==> Apart(blocks[i], blocks[j]) || i == j;
        CoveredBy(result, n, a);
      } else {
        CoveredBy(result, i, a);
      }
    }
  }

  lemma InsertLosesByte(blocks: seq<Block>, b: Block, instructions: map<nat, Instruction>, result: seq<Block>, i: nat)
    requires Inserted(blocks, b, instructions, result) && b.start < b.end && PairwiseApart(blocks) && NonEmpty(blocks)
    requires i < |blocks| && blocks[i].start <= b.start && b.end < blocks[i].end
    ensures !Covers(result, b.end)
  {
    hide FallsThroughTo;
    forall j | 0 <= j < |result|
      ensures !(result[j].start <= b.end < result[j].end)
    {
      if j < |blocks| && j != i { assert Apart(blocks[i], blocks[j]); }
      if b.start in Starts(blocks) {
        var k: nat, merged :| MetStart(blocks, b, result, k, merged);
        var holder, met := blocks[i], blocks[k];
        assert k == i || Apart(holder, met);
      } else if j < |blocks| {
        TruncatedFacts(blocks[j], b.start, instructions);
        assert blocks[i].start in Starts(blocks);
      }
    }
  }
}
