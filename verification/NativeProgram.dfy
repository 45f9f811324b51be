/** The program state that discovery mutates: functions with their blocks, and
    decoded instructions. */
module NativeProgram {
  import opened Wrappers
  import opened NativeBlocks

  function Min(a: nat, b: nat): nat { if a < b then a else b }
  function Max(a: nat, b: nat): nat { if a < b then b else a }

  datatype Mutation =
    | AddFunction(f: Function)
    | RemoveFunction(entry: nat)
    | AddBasicBlock(entry: nat, block: Block)
    | AddSuccessors(entry: nat, blockStart: nat, successors: seq<nat>)
    | RemoveInvalidSuccessors(entry: nat)
    | EnsureBlockStartsAt(entry: nat, address: nat)

  // ----- how a function may change ------------------------------------------------

  /** Blocks stay disjoint, starts stay starts, the range only grows. */
  ghost predicate Grows(f: Function, g: Function) {
    && g.entry == f.entry && g.rangeStart <= f.rangeStart && f.rangeEnd <= g.rangeEnd
    && (Tidy(f) ==> Tidy(g))
    && Starts(f.blocks) <= Starts(g.blocks)
  }

  /** The function after a block has been inserted. */
  ghost predicate BlockAdded(f: Function, b: Block, instructions: map<nat, Instruction>, g: Function) {
    && Inserted(f.blocks, b, instructions, g.blocks)
    && g.entry == f.entry
    && (if b.start in Starts(f.blocks) then g.rangeStart == f.rangeStart && g.rangeEnd == f.rangeEnd
        else
          && |g.blocks| == |f.blocks| + 1
          && g.rangeStart == Min(f.rangeStart, b.start)
          && g.rangeEnd == Max(f.rangeEnd, g.blocks[|f.blocks|].end))
  }

  lemma BlockAddedGrows(f: Function, b: Block, instructions: map<nat, Instruction>, g: Function)
    requires BlockAdded(f, b, instructions, g) && b.start < b.end
    ensures Grows(f, g)
  {
    hide FallsThroughTo, Starts, PairwiseApart;
    InsertKeepsStarts(f.blocks, b, instructions, g.blocks);
    if Tidy(f) {
      InsertKeepsApart(f.blocks, b, instructions, g.blocks);
      if b.start in Starts(f.blocks) {
        var k: nat, merged :| MetStart(f.blocks, b, g.blocks, k, merged);
      }
    }
  }

  /** A block whose edges lead to block starts leaves no edge dangling. */
  lemma BlockAddedClosed(f: Function, b: Block, instructions: map<nat, Instruction>, g: Function)
    requires BlockAdded(f, b, instructions, g) && b.start < b.end && Closed(f.blocks)
    requires forall s :: s in b.successors ==> s in Starts(f.blocks) || s == b.start
    ensures Closed(g.blocks)
  {
    hide FallsThroughTo, Starts;
    InsertKeepsStarts(f.blocks, b, instructions, g.blocks);
    forall i, s | 0 <= i < |g.blocks| && s in g.blocks[i].successors
      ensures s in Starts(g.blocks)
    {
      if b.start in Starts(f.blocks) {
        var k: nat, merged :| MetStart(f.blocks, b, g.blocks, k, merged);
        if i == k { assert s in merged; }
      } else if i < |f.blocks| {
        assert g.blocks[i] == Truncated(f.blocks[i], b.start, instructions);
      }
    }
  }

  // ----- replacing successors in place -----------------------------------------------

  /** Same blocks up to successors. */
  predicate SameExtents(blocks: seq<Block>, other: seq<Block>) {
    |blocks| == |other|
    && forall i :: 0 <= i < |blocks| ==> other[i].start == blocks[i].start && other[i].end == blocks[i].end
  }

  lemma SameExtentsGrows(f: Function, g: Function)
    requires g == f.(blocks := g.blocks) && SameExtents(f.blocks, g.blocks)
    ensures Grows(f, g) && Starts(g.blocks) == Starts(f.blocks)
  {
    assert forall i :: 0 <= i < |f.blocks| ==> f.blocks[i].start == g.blocks[i].start;
    if Tidy(f) {
      forall i, j | 0 <= i < |g.blocks| && 0 <= j < |g.blocks| && i != j
        ensures Apart(g.blocks[i], g.blocks[j])
      {
        assert Apart(f.blocks[i], f.blocks[j]);
      }
    }
  }

  function KeepStarts(successors: seq<nat>, starts: set<nat>): (kept: seq<nat>)
    ensures forall s :: s in kept <==> s in successors && s in starts
    ensures (forall s :: s in successors ==> s in starts) ==> kept == successors
  {
    if successors == [] then []
    else if successors[0] in starts then [successors[0]] + KeepStarts(successors[1..], starts)
    else KeepStarts(successors[1..], starts)
  }

  method RemoveDangling(blocks: seq<Block>) returns (result: seq<Block>)
    ensures SameExtents(blocks, result)
    ensures forall i :: 0 <= i < |blocks| ==> result[i].successors == KeepStarts(blocks[i].successors, Starts(blocks))
  {
    var starts := Starts(blocks);
    result := blocks;
    for k := 0 to |blocks|
      invariant SameExtents(blocks, result)
      invariant forall i :: 0 <= i < k ==> result[i].successors == KeepStarts(blocks[i].successors, starts)
      invariant forall i :: k <= i < |blocks| ==> result[i] == blocks[i]
    {
      result := result[k := result[k].(successors := KeepStarts(result[k].successors, starts))];
    }
  }

  /** The first block with the given start gains the missing successors. */
  method ExtendSuccessors(blocks: seq<Block>, start: nat, successors: seq<nat>)
    returns (result: seq<Block>, changed: bool)
    ensures SameExtents(blocks, result) && (!changed ==> result == blocks)
    ensures forall i :: 0 <= i < |blocks| ==>
              forall s :: s in result[i].successors ==> s in blocks[i].successors || s in successors
    ensures forall i :: 0 <= i < |blocks| ==> blocks[i].successors <= result[i].successors
    ensures start in Starts(blocks) ==>
              exists i :: 0 <= i < |blocks| && blocks[i].start == start
                          && forall s :: s in successors ==> s in result[i].successors
    ensures forall i :: 0 <= i < |blocks| && blocks[i].start != start ==> result[i] == blocks[i]
  {
    for k := 0 to |blocks|
      invariant forall i :: 0 <= i < k ==> blocks[i].start != start
    {
      if blocks[k].start == start {
        var merged, grown := MergeSuccessors(blocks[k].successors, successors);
        result, changed := blocks[k := blocks[k].(successors := merged)], grown;
        assert result[k].successors == merged;
        return;
      }
    }
    result, changed := blocks, false;
  }

  class ProgramState {
    var functions: map<nat, Function>
    var instructions: map<nat, Instruction>
    const executable: set<nat>

    constructor (executable: set<nat>, instructions: map<nat, Instruction>)
      ensures functions == map[] && this.instructions == instructions && this.executable == executable
    {
      this.functions, this.instructions, this.executable := map[], instructions, executable;
    }

    /** The blocks of every function are disjoint and in range. */
    ghost predicate AllTidy()
      reads this
    {
      forall e :: e in functions ==> Tidy(functions[e])
    }

    /** Nothing but the named function changed, and that one only grew. */
    twostate predicate OnlyGrew(entry: nat)
      reads this
    {
      && functions.Keys == old(functions).Keys && instructions == old(instructions)
      && (forall e :: e in functions && e != entry ==> functions[e] == old(functions)[e])
      && (entry in functions ==> Grows(old(functions)[entry], functions[entry]))
    }

    /** A function is refused for an invalid block range, not for overlapping
        blocks: only a function added with disjoint blocks starts tidy. */
    method AddFunction(f: Function) returns (ok: bool)
      modifies this`functions
      ensures ok <==> f.entry != 0 && f.rangeStart < f.rangeEnd && f.entry in executable
                      && f.entry !in old(functions) && InRange(f)
      ensures functions == if ok then old(functions)[f.entry := f] else old(functions)
      ensures old(AllTidy()) ==> (AllTidy() <==> ok ==> PairwiseApart(f.blocks))
    {
      if f.entry == 0 || f.rangeStart >= f.rangeEnd {
        return false;
      }
      if f.entry !in executable || f.entry in functions {
        return false;
      }
      for k := 0 to |f.blocks|
        invariant forall i :: 0 <= i < k ==>
                    f.rangeStart <= f.blocks[i].start < f.blocks[i].end <= f.rangeEnd
      {
        var block := f.blocks[k];
        if block.start < f.rangeStart || block.end > f.rangeEnd || block.start >= block.end {
          return false;
        }
      }
      functions := functions[f.entry := f];
      ok := true;
      assert functions[f.entry] == f;
    }

    method RemoveFunction(entry: nat) returns (ok: bool)
      modifies this`functions
      ensures ok <==> entry in old(functions)
      ensures functions == old(functions) - {entry}
    {
      ok := entry in functions;
      functions := functions - {entry};
    }

    method AddBasicBlock(entry: nat, block: Block) returns (changed: bool)
      modifies this`functions
      ensures entry in old(functions) && block.start < block.end ==>
                entry in functions && BlockAdded(old(functions)[entry], block, instructions, functions[entry])
      ensures !(entry in old(functions) && block.start < block.end) ==> !changed && functions == old(functions)
      ensures !changed ==> functions == old(functions)
      ensures OnlyGrew(entry)
      ensures entry in old(functions) && block.start < block.end && Tidy(old(functions)[entry]) ==>
                EdgeLaw(old(functions)[entry].blocks, block, instructions, functions[entry].blocks)
    {
      hide Inserted, Tidy, IsClipped, FallsThroughTo, PairwiseApart, EdgeLaw;
      if entry !in functions || block.start >= block.end {
        return false;
      }
      var f := functions[entry];
      var blocks, grown := InsertBlock(f.blocks, block, instructions);
      var g := f.(blocks := blocks);
      if |blocks| == |f.blocks| + 1 {
        g := g.(rangeStart := Min(f.rangeStart, block.start), rangeEnd := Max(f.rangeEnd, blocks[|f.blocks|].end));
      }
      InsertedLength(f.blocks, block, instructions, blocks);
      BlockAddedGrows(f, block, instructions, g);
      if Tidy(f) {
        TidyBlocks(f);
        InsertEdges(f.blocks, block, instructions, blocks);
      }
      if !grown { assert g == f; }
      changed := grown;
      functions := functions[entry := g];
    }

    method AddSuccessors(entry: nat, blockStart: nat, successors: seq<nat>) returns (changed: bool)
      modifies this`functions
      ensures OnlyGrew(entry) && (!changed ==> functions == old(functions))
      ensures entry in functions ==>
                var f, g := old(functions)[entry], functions[entry];
                && SameExtents(f.blocks, g.blocks) && (Closed(f.blocks) ==> Closed(g.blocks))
                && (forall i :: 0 <= i < |f.blocks| ==>
                      && f.blocks[i].successors <= g.blocks[i].successors
                      && forall s :: s in g.blocks[i].successors ==> s in f.blocks[i].successors || s in successors)
                && (forall i :: 0 <= i < |f.blocks| && f.blocks[i].start != blockStart ==> g.blocks[i] == f.blocks[i])
                && ((forall s :: s in successors ==> s in Starts(f.blocks)) && blockStart in Starts(f.blocks) ==>
                      exists i :: 0 <= i < |f.blocks| && f.blocks[i].start == blockStart
                                  && forall s :: s in successors ==> s in g.blocks[i].successors)
                && (!(forall s :: s in successors ==> s in Starts(f.blocks)) ==> g == f)
    {
      if entry !in functions {
        return false;
      }
      var f := functions[entry];
      var starts := Starts(f.blocks);
      SameExtentsGrows(f, f);
      for k := 0 to |successors|
        invariant forall j :: 0 <= j < k ==> successors[j] in starts
      {
        if successors[k] !in starts {
          return false;
        }
      }
      var blocks, grown := ExtendSuccessors(f.blocks, blockStart, successors);
      var g := f.(blocks := blocks);
      SameExtentsGrows(f, g);
      functions := functions[entry := g];
      if !grown { assert g == f; }
      changed := grown;
    }

    method RemoveInvalidSuccessors(entry: nat) returns (changed: bool)
      modifies this`functions
      ensures OnlyGrew(entry)
      ensures entry in functions ==>
                var f, g := old(functions)[entry], functions[entry];
                && Closed(g.blocks) && (Closed(f.blocks) ==> g == f) && SameExtents(f.blocks, g.blocks)
                && (forall i :: 0 <= i < |f.blocks| ==>
                      forall s :: s in g.blocks[i].successors <==> s in f.blocks[i].successors && s in Starts(f.blocks))
      ensures changed <==> functions != old(functions)
    {
      if entry !in functions {
        return false;
      }
      var f := functions[entry];
      var blocks := RemoveDangling(f.blocks);
      var g := f.(blocks := blocks);
      SameExtentsGrows(f, g);
      if Closed(f.blocks) {
        assert forall i :: 0 <= i < |f.blocks| ==> blocks[i] == f.blocks[i];
        assert blocks == f.blocks;
      }
      functions := functions[entry := g];
      changed := blocks != f.blocks;
    }

    /** The first block that holds the address. */
    method BlockContaining(f: Function, address: nat) returns (k: nat)
      ensures k <= |f.blocks| && (k < |f.blocks| <==> Covers(f.blocks, address))
      ensures k < |f.blocks| ==> f.blocks[k].start <= address < f.blocks[k].end
    {
      k := 0;
      while k < |f.blocks| && !(f.blocks[k].start <= address < f.blocks[k].end)
        invariant 0 <= k <= |f.blocks|
        invariant forall i :: 0 <= i < k ==> !(f.blocks[i].start <= address < f.blocks[i].end)
      {
        k := k + 1;
      }
    }

    /** Splits the block that holds the address, if there is one. */
    method EnsureBlockStartsAt(entry: nat, address: nat) returns (ok: bool)
      modifies this`functions
      ensures OnlyGrew(entry)
      ensures ok <==> entry in functions && address in Starts(functions[entry].blocks)
      ensures ok <==> entry in old(functions)
                      && (address in Starts(old(functions)[entry].blocks) ||
                          Covers(old(functions)[entry].blocks, address))
      ensures entry in functions && Closed(old(functions)[entry].blocks) ==> Closed(functions[entry].blocks)
      ensures entry in functions && Tidy(old(functions)[entry]) ==>
                forall a: nat :: Covers(functions[entry].blocks, a) <==> Covers(old(functions)[entry].blocks, a)
      ensures entry in functions && Tidy(old(functions)[entry]) && address !in Starts(old(functions)[entry].blocks) ==>
                forall b | b in old(functions)[entry].blocks && b.start < address < b.end ::
                  SplitEdges(b, address, instructions, functions[entry].blocks)
    {
      hide FallsThroughTo, Inserted, IsClipped, PairwiseApart, EdgeLaw, SplitEdges;
      if entry !in functions {
        return false;
      }
      var f := functions[entry];
      if address in Starts(f.blocks) {
        return true;
      }
      var k := BlockContaining(f, address);
      if k == |f.blocks| {
        return false;
      }
      var containing := f.blocks[k];
      assert containing.start in Starts(f.blocks);
      var block := Block(address, containing.end, containing.successors);
      var changed := AddBasicBlock(entry, block);
      var g := functions[entry];
      InsertKeepsStarts(f.blocks, block, instructions, g.blocks);
      if Closed(f.blocks) {
        BlockAddedClosed(f, block, instructions, g);
      }
      if Tidy(f) {
        SplitKeepsBytes(f, block, k, instructions, g);
        TidyBlocks(f);
        SplitFollowsEdgeLaw(f.blocks, k, address, instructions, g.blocks);
        OnlyHolder(f.blocks, k, address);
      }
      ok := address in Starts(g.blocks);
    }

    /** Functions that are not removed stay and only grow. */
    twostate predicate Kept(removed: set<nat>)
      reads this
    {
      && instructions == old(instructions)
      && forall e :: e in old(functions) && e !in removed ==> e in functions && Grows(old(functions)[e], functions[e])
    }

    method Apply(m: Mutation)
      modifies this`functions
      ensures Kept(Removed([m]))
      ensures old(AllTidy()) && AddsDisjoint(m) ==> AllTidy()
    {
      hide Tidy, PairwiseApart;
      forall f: Function
        ensures Grows(f, f)
      {
      }
      match m
      case AddFunction(f) => var _ := AddFunction(f);
      case RemoveFunction(e) => var _ := RemoveFunction(e);
      case AddBasicBlock(e, b) => var _ := AddBasicBlock(e, b);
      case AddSuccessors(e, start, successors) => var _ := AddSuccessors(e, start, successors);
      case RemoveInvalidSuccessors(e) => var _ := RemoveInvalidSuccessors(e);
      case EnsureBlockStartsAt(e, address) => var _ := EnsureBlockStartsAt(e, address);
    }

    /** Any run of mutations keeps every function tidy, as long as the functions
        it adds are; block starts never disappear and ranges never shrink. */
    method Run(ms: seq<Mutation>)
      modifies this`functions
      ensures Kept(Removed(ms))
      ensures old(AllTidy()) && (forall m :: m in ms ==> AddsDisjoint(m)) ==> AllTidy()
    {
      hide Tidy, Grows;
      forall f: Function
        ensures Grows(f, f)
      {
        GrowsSelf(f);
      }
      for k := 0 to |ms|
        invariant Kept(Removed(ms[..k]))
        invariant old(AllTidy()) && (forall m :: m in ms ==> AddsDisjoint(m)) ==> AllTidy()
      {
        ghost var before := functions;
        assert ms[k] in ms;
        RemovedMore(ms, k);
        Apply(ms[k]);
        forall e | e in old(functions) && e !in Removed(ms[..k + 1])
          ensures e in functions && Grows(old(functions)[e], functions[e])
        {
          GrowsThrough(old(functions)[e], before[e], functions[e]);
        }
      }
      assert ms[..|ms|] == ms;
    }
  }

  predicate AddsDisjoint(m: Mutation) {
    m.AddFunction? ==> PairwiseApart(m.f.blocks)
  }

  function Removed(ms: seq<Mutation>): set<nat> {
    set m | m in ms && m.RemoveFunction? :: m.entry
  }

  lemma RemovedMore(ms: seq<Mutation>, k: nat)
    requires k < |ms|
    ensures Removed(ms[..k + 1]) == Removed(ms[..k]) + Removed([ms[k]])
  {
    assert ms[..k + 1] == ms[..k] + [ms[k]];
    assert forall m :: m in ms[..k + 1] <==> m in ms[..k] || m in [ms[k]];
  }

  lemma GrowsSelf(f: Function)
    ensures Grows(f, f)
  {
  }

  lemma GrowsThrough(f: Function, g: Function, h: Function)
    requires Grows(f, g) && Grows(g, h)
    ensures Grows(f, h)
  {
  }

  lemma OnlyHolder(blocks: seq<Block>, k: nat, address: nat)
    requires PairwiseApart(blocks) && k < |blocks| && blocks[k].start <= address < blocks[k].end
    ensures forall i :: 0 <= i < |blocks| && blocks[i].start < address < blocks[i].end ==> i == k
  {
    forall i | 0 <= i < |blocks| && blocks[i].start < address < blocks[i].end
      ensures i == k
    {
      var one, whole := blocks[i], blocks[k];
      assert i == k || Apart(one, whole);
    }
  }

  lemma TidyBlocks(f: Function)
    requires Tidy(f)
    ensures PairwiseApart(f.blocks) && NonEmpty(f.blocks)
  {
  }

  /** A block that is split in two: the first part has an edge to the second one if it
      listed it or code runs into it, the second part keeps all edges. */
  ghost predicate SplitEdges(whole: Block, address: nat, instructions: map<nat, Instruction>, blocks: seq<Block>) {
    && Block(address, whole.end, whole.successors) in blocks
    && exists i :: 0 <= i < |blocks| && blocks[i].start == whole.start && blocks[i].end == address &&
         forall s :: s in blocks[i].successors <==>
           s == address && (s in whole.successors || RunsInto(instructions, whole.start, s))
  }

  lemma SplitFollowsEdgeLaw(blocks: seq<Block>, k: nat, address: nat, instructions: map<nat, Instruction>,
                            result: seq<Block>)
    requires PairwiseApart(blocks) && NonEmpty(blocks) && k < |blocks|
    requires blocks[k].start < address < blocks[k].end && address !in Starts(blocks)
    requires EdgeLaw(blocks, Block(address, blocks[k].end, blocks[k].successors), instructions, result)
    ensures SplitEdges(blocks[k], address, instructions, result)
  {
    hide RunsInto, ComesFirst, Starts;
    var b := Block(address, blocks[k].end, blocks[k].successors);
    forall i | 0 <= i < |blocks|
      ensures !(b.start < blocks[i].start < b.end)
    {
      var one, whole := blocks[i], blocks[k];
      assert i == k || Apart(one, whole);
    }
    assert result[|blocks|] == b;
    assert OldEdges(blocks[k], b, instructions, result[k]);
  }

  lemma InsertedLength(blocks: seq<Block>, b: Block, instructions: map<nat, Instruction>, result: seq<Block>)
    requires Inserted(blocks, b, instructions, result)
    ensures |result| == if b.start in Starts(blocks) then |blocks| else |blocks| + 1
  {
    if b.start in Starts(blocks) {
      var k: nat, merged :| MetStart(blocks, b, result, k, merged);
    }
  }

  /** Splitting a block at one of its addresses covers the same bytes. */
  lemma SplitKeepsBytes(f: Function, b: Block, k: nat, instructions: map<nat, Instruction>, g: Function)
    requires Tidy(f) && k < |f.blocks| && f.blocks[k].start < b.start < b.end == f.blocks[k].end
    requires BlockAdded(f, b, instructions, g)
    ensures forall a: nat :: Covers(g.blocks, a) <==> Covers(f.blocks, a)
  {
    hide FallsThroughTo, Inserted;
    InsertCovers(f.blocks, b, instructions, g.blocks);
    forall i | 0 <= i < |f.blocks| && f.blocks[i].start <= b.start
      ensures f.blocks[i].end <= b.end
    {
      var one, other := f.blocks[i], f.blocks[k];
      assert i == k || Apart(one, other);
    }
  }
}
