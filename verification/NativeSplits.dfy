/** Splitting the blocks of one function at many addresses: what the order of the
    splits decides, and when it decides nothing. */
module NativeSplits {
  import opened Wrappers
  import opened NativeBlocks

  predicate Distinct(order: seq<nat>) {
    forall i, j :: 0 <= i < j < |order| ==> order[i] != order[j]
  }

  /** Every cut lies strictly inside a block. */
  predicate CutsInside(blocks: seq<Block>, cuts: seq<nat>) {
    forall c :: c in cuts ==> exists o :: 0 <= o < |blocks| && blocks[o].start < c < blocks[o].end
  }

  /** The cut c was made before every larger cut of its block. */
  predicate Foremost(order: seq<nat>, c: nat, limit: nat) {
    exists i :: 0 <= i < |order| && order[i] == c && forall j :: 0 <= j < i ==> !(c < order[j] < limit)
  }

  /** The edges of a piece of o that runs from one cut to another: the last piece
      keeps the block's successors; another one flows into the next piece if an
      instruction does, or if the block listed that edge and made the cut first. */
  function PieceEdges(o: Block, order: seq<nat>, from: nat, to: nat, instructions: map<nat, Instruction>): seq<nat> {
    if to == o.end then o.successors
    else if FallsThroughTo(instructions, from, to) || (to in o.successors && Foremost(order, to, o.end)) then [to]
    else []
  }

  predicate IsPiece(o: Block, order: seq<nat>, instructions: map<nat, Instruction>, piece: Block) {
    && o.start <= piece.start < piece.end <= o.end
    && (piece.end == o.end || piece.end in order)
    && (forall c :: c in order ==> !(piece.start < c < piece.end))
    && piece.successors == PieceEdges(o, order, piece.start, piece.end, instructions)
  }

  ghost predicate HasOrigin(blocks: seq<Block>, order: seq<nat>, instructions: map<nat, Instruction>, piece: Block) {
    exists o :: 0 <= o < |blocks| && IsPiece(blocks[o], order, instructions, piece)
  }

  /** The pieces of the blocks after cutting at the addresses of order, one after
      the other: first what is left of the blocks, then a piece for each cut. */
  ghost predicate IsSplit(blocks: seq<Block>, order: seq<nat>, instructions: map<nat, Instruction>,
                          pieces: seq<Block>) {
    && |pieces| == |blocks| + |order|
    && (forall k :: 0 <= k < |blocks| ==> pieces[k].start == blocks[k].start)
    && (forall k :: |blocks| <= k < |pieces| ==> pieces[k].start == order[k - |blocks|])
    && (forall k :: 0 <= k < |pieces| ==> HasOrigin(blocks, order, instructions, pieces[k]))
  }

  // ----- one cut -------------------------------------------------------------------

  lemma SameBlock(blocks: seq<Block>, o: nat, p: nat, x: nat)
    requires PairwiseApart(blocks) && o < |blocks| && p < |blocks|
    requires blocks[o].start <= x < blocks[o].end && blocks[p].start <= x < blocks[p].end
    ensures o == p
  {
    var one, other := blocks[o], blocks[p];
    assert o == p || Apart(one, other);
  }

  lemma StartIsNotInside(blocks: seq<Block>, o: nat, p: nat)
    requires PairwiseApart(blocks) && NonEmpty(blocks) && o < |blocks| && p < |blocks|
    ensures !(blocks[o].start < blocks[p].start < blocks[o].end)
  {
    if blocks[o].start < blocks[p].start < blocks[o].end {
      SameBlock(blocks, o, p, blocks[p].start);
    }
  }

  /** The list order of the pieces is the order of the cuts: the first piece start
      inside a new block is its nearest one just when that cut was made first. */
  lemma FirstInsideIsForemost(blocks: seq<Block>, order: seq<nat>, pieces: seq<Block>, o: nat, b: Block, c: nat)
    requires PairwiseApart(blocks) && NonEmpty(blocks) && Distinct(order)
    requires |pieces| == |blocks| + |order|
    requires forall k :: 0 <= k < |blocks| ==> pieces[k].start == blocks[k].start
    requires forall k :: |blocks| <= k < |pieces| ==> pieces[k].start == order[k - |blocks|]
    requires o < |blocks| && blocks[o].start < b.start < c < b.end == blocks[o].end
    requires c in order && forall d :: d in order ==> !(b.start < d < c)
    ensures FirstInside(pieces, b) == Some(c) <==> Foremost(order, c, b.end)
  {
    var n := |blocks|;
    var i: nat :| i < |order| && order[i] == c;
    assert pieces[n + i].start == c;
    forall k: nat | k < n
      ensures !(b.start < pieces[k].start < b.end)
    {
      StartIsNotInside(blocks, o, k);
    }
    hide PairwiseApart, NonEmpty, FirstInside;
    if FirstInside(pieces, b).None? {
      NoneInside(pieces, b, n + i);
      assert false;
    } else {
      var k := FirstInsideFrom(pieces, b);
      FirstOfCuts(order, b, c, i, n, k, pieces);
    }
  }

  lemma FirstOfCuts(order: seq<nat>, b: Block, c: nat, i: nat, n: nat, k: nat, pieces: seq<Block>)
    requires Distinct(order) && |pieces| == n + |order| && i < |order| && order[i] == c
    requires forall j :: n <= j < |pieces| ==> pieces[j].start == order[j - n]
    requires b.start < c < b.end && forall d :: d in order ==> !(b.start < d < c)
    requires n <= k < |pieces| && b.start < pieces[k].start < b.end
    requires forall j :: 0 <= j < k ==> !(b.start < pieces[j].start < b.end)
    ensures pieces[k].start == c <==> Foremost(order, c, b.end)
  {
    assert pieces[n + i].start == c && k <= n + i;
    var l := k - n;
    assert order[l] == pieces[k].start && order[l] in order;
    if l == i {
      forall j: nat | j < i
        ensures !(c < order[j] < b.end)
      {
        assert pieces[n + j].start == order[j];
      }
    } else {
      assert order[l] != c;
    }
  }

  lemma {:induction false} NoneInside(blocks: seq<Block>, b: Block, k: nat)
    requires FirstInside(blocks, b).None? && k < |blocks|
    ensures !(b.start < blocks[k].start < b.end)
  {
    if 0 < k {
      assert blocks[k] == blocks[1..][k - 1];
      NoneInside(blocks[1..], b, k - 1);
    }
  }

  /** A later cut does not change which of the earlier cuts came first. */
  lemma ForemostStays(order: seq<nat>, x: nat, c: nat, limit: nat)
    requires c in order && x !in order
    ensures Foremost(order + [x], c, limit) <==> Foremost(order, c, limit)
  {
    var more := order + [x];
    if Foremost(more, c, limit) {
      var i :| 0 <= i < |more| && more[i] == c && forall j :: 0 <= j < i ==> !(c < more[j] < limit);
      assert i < |order| && order[i] == c;
      assert forall j :: 0 <= j < i ==> more[j] == order[j];
    }
    if Foremost(order, c, limit) {
      var i :| 0 <= i < |order| && order[i] == c && forall j :: 0 <= j < i ==> !(c < order[j] < limit);
      assert more[i] == c && forall j :: 0 <= j < i ==> more[j] == order[j];
    }
  }

  lemma ForemostNew(order: seq<nat>, x: nat, limit: nat)
    requires x !in order
    ensures Foremost(order + [x], x, limit) <==> forall c :: c in order ==> !(x < c < limit)
  {
    var more := order + [x];
    assert more[|order|] == x;
    if Foremost(more, x, limit) {
      var i :| 0 <= i < |more| && more[i] == x && forall j :: 0 <= j < i ==> !(x < more[j] < limit);
      assert i == |order|;
      assert forall j :: 0 <= j < |order| ==> more[j] == order[j];
    } else if forall c :: c in order ==> !(x < c < limit) {
      assert forall j :: 0 <= j < |order| ==> more[j] == order[j] && order[j] in order;
    }
  }

  /** The block a piece comes from. */
  lemma OriginOf(blocks: seq<Block>, order: seq<nat>, instructions: map<nat, Instruction>, pieces: seq<Block>, k: nat)
    returns (o: nat)
    requires IsSplit(blocks, order, instructions, pieces) && k < |pieces|
    ensures o < |blocks| && IsPiece(blocks[o], order, instructions, pieces[k])
  {
    assert HasOrigin(blocks, order, instructions, pieces[k]);
    o :| 0 <= o < |blocks| && IsPiece(blocks[o], order, instructions, pieces[k]);
  }

  /** A piece that was there before, after a fresh cut. */
  lemma OldPiece(o: Block, order: seq<nat>, x: nat, piece: Block, instructions: map<nat, Instruction>)
    requires x !in order && IsPiece(o, order, instructions, piece)
    ensures IsPiece(o, order + [x], instructions, Truncated(piece, x, instructions))
  {
    hide FallsThroughTo, Foremost;
    if piece.start < x < piece.end {
      ForemostNew(order, x, o.end);
      if piece.end != o.end { assert x < piece.end < o.end; }
    } else if piece.end != o.end {
      ForemostStays(order, x, piece.end, o.end);
    }
  }

  /** The piece of the uncut block that a fresh cut produces. */
  lemma FreshPiece(blocks: seq<Block>, order: seq<nat>, pieces: seq<Block>, o: nat, b: Block,
                   instructions: map<nat, Instruction>, clipped: Block)
    requires PairwiseApart(blocks) && NonEmpty(blocks) && Distinct(order)
    requires IsSplit(blocks, order, instructions, pieces)
    requires o < |blocks| && blocks[o].start < b.start < b.end == blocks[o].end
    requires b.successors == blocks[o].successors && b.start !in order && IsClipped(clipped, b, pieces, instructions)
    ensures IsPiece(blocks[o], order + [b.start], instructions, clipped)
  {
    hide FallsThroughTo, Foremost, FirstInside, HasOrigin;
    forall c | c in order
      ensures !(b.start < c < clipped.end)
    {
      var i :| 0 <= i < |order| && order[i] == c;
      assert pieces[|blocks| + i].start == c;
    }
    if clipped.end != b.end {
      var k :| 0 <= k < |pieces| && pieces[k].start == clipped.end;
      if k < |blocks| { StartIsNotInside(blocks, o, k); }
      assert clipped.end in order;
      FirstInsideIsForemost(blocks, order, pieces, o, b, clipped.end);
      ForemostStays(order, b.start, clipped.end, b.end);
    }
  }

  lemma FreshCut(blocks: seq<Block>, order: seq<nat>, pieces: seq<Block>, o: nat, b: Block,
                 instructions: map<nat, Instruction>, result: seq<Block>)
    requires PairwiseApart(blocks) && NonEmpty(blocks) && Distinct(order)
    requires IsSplit(blocks, order, instructions, pieces)
    requires o < |blocks| && blocks[o].start < b.start < b.end == blocks[o].end
    requires b.successors == blocks[o].successors && b.start !in order
    requires AddedBlock(pieces, b, instructions, result)
    ensures IsSplit(blocks, order + [b.start], instructions, result)
  {
    hide FallsThroughTo, IsPiece, PairwiseApart, NonEmpty, IsClipped, Distinct, HasOrigin, Truncated;
    var n := |pieces|;
    forall k: nat | k < |result|
      ensures HasOrigin(blocks, order + [b.start], instructions, result[k])
    {
      CutOrigin(blocks, order, pieces, o, b, instructions, result, k);
    }
    ClippedStart(result[n], b, pieces, instructions);
    forall k: nat | k < n
      ensures result[k].start == pieces[k].start
    {
      TruncatedStart(pieces[k], b.start, instructions);
    }
  }

  lemma TruncatedStart(b: Block, address: nat, instructions: map<nat, Instruction>)
    ensures Truncated(b, address, instructions).start == b.start
  {
  }

  lemma CutOrigin(blocks: seq<Block>, order: seq<nat>, pieces: seq<Block>, o: nat, b: Block,
                  instructions: map<nat, Instruction>, result: seq<Block>, k: nat)
    requires PairwiseApart(blocks) && NonEmpty(blocks) && Distinct(order)
    requires IsSplit(blocks, order, instructions, pieces)
    requires o < |blocks| && blocks[o].start < b.start < b.end == blocks[o].end
    requires b.successors == blocks[o].successors && b.start !in order
    requires AddedBlock(pieces, b, instructions, result) && k < |result|
    ensures HasOrigin(blocks, order + [b.start], instructions, result[k])
  {
    hide IsPiece, PairwiseApart, NonEmpty, IsClipped, Distinct, IsSplit, Truncated;
    if k == |pieces| {
      FreshPiece(blocks, order, pieces, o, b, instructions, result[k]);
    } else {
      var p := OriginOf(blocks, order, instructions, pieces, k);
      OldPiece(blocks[p], order, b.start, pieces[k], instructions);
    }
  }

  lemma ClippedStart(clipped: Block, b: Block, blocks: seq<Block>, instructions: map<nat, Instruction>)
    requires IsClipped(clipped, b, blocks, instructions)
    ensures clipped.start == b.start
  {
  }

  /** Cutting again where a piece already starts changes nothing. */
  lemma CutTwice(blocks: seq<Block>, order: seq<nat>, pieces: seq<Block>, o: nat, b: Block,
                 instructions: map<nat, Instruction>, result: seq<Block>)
    requires PairwiseApart(blocks) && IsSplit(blocks, order, instructions, pieces)
    requires o < |blocks| && blocks[o].start < b.start < b.end == blocks[o].end
    requires b.successors == blocks[o].successors && b.start in Starts(pieces)
    requires Inserted(pieces, b, instructions, result)
    ensures result == pieces
  {
    hide Starts, FallsThroughTo, Foremost;
    var k: nat, merged :| MetStart(pieces, b, result, k, merged);
    hide IsSplit;
    var p := OriginOf(blocks, order, instructions, pieces, k);
    SameBlock(blocks, o, p, b.start);
  }

  // ----- all cuts ----------------------------------------------------------------------

  /** appendSplitBlockAt: the block that a request adds, built from the snapshot. */
  method SplitBlockAt(blocks: seq<Block>, address: nat) returns (b: Option<Block>, ghost o: nat)
    ensures b.Some? <==> address !in Starts(blocks) && Covers(blocks, address)
    ensures b.Some? ==> o < |blocks| && blocks[o].start < address < blocks[o].end
                        && b == Some(Block(address, blocks[o].end, blocks[o].successors))
  {
    o := 0;
    if address in Starts(blocks) {
      return None, 0;
    }
    for k := 0 to |blocks|
      invariant forall i :: 0 <= i < k ==> !(blocks[i].start <= address < blocks[i].end)
    {
      if blocks[k].start <= address < blocks[k].end {
        assert blocks[k].start in Starts(blocks);
        return Some(Block(address, blocks[k].end, blocks[k].successors)), k;
      }
    }
    b := None;
  }

  /** The requests that fall strictly inside a block, in the order of their first
      appearance. */
  function FirstRequests(blocks: seq<Block>, requests: seq<nat>): (order: seq<nat>)
    ensures Distinct(order)
    ensures forall a :: a in order <==> a in requests && a !in Starts(blocks) && Covers(blocks, a)
  {
    if requests == [] then []
    else
      var front, a := FirstRequests(blocks, requests[..|requests| - 1]), requests[|requests| - 1];
      if a !in Starts(blocks) && Covers(blocks, a) && a !in front then front + [a] else front
  }

  /** Collects a block for every request from the snapshot, then adds them one
      after the other, as the normalizer does. */
  method SplitAll(blocks: seq<Block>, requests: seq<nat>, instructions: map<nat, Instruction>)
    returns (pieces: seq<Block>)
    requires PairwiseApart(blocks) && NonEmpty(blocks)
    ensures IsSplit(blocks, FirstRequests(blocks, requests), instructions, pieces)
  {
    hide FallsThroughTo, IsPiece, Inserted, IsSplit, FirstRequests;
    pieces := blocks;
    Uncut(blocks, instructions);
    for k := 0 to |requests|
      invariant IsSplit(blocks, FirstRequests(blocks, requests[..k]), instructions, pieces)
    {
      pieces := SplitOne(blocks, requests, k, instructions, pieces);
    }
    assert requests[..|requests|] == requests;
  }

  method SplitOne(blocks: seq<Block>, requests: seq<nat>, k: nat, instructions: map<nat, Instruction>,
          pieces: seq<Block>)
    returns (result: seq<Block>)
    requires PairwiseApart(blocks) && NonEmpty(blocks) && k < |requests|
    requires IsSplit(blocks, FirstRequests(blocks, requests[..k]), instructions, pieces)
    ensures IsSplit(blocks, FirstRequests(blocks, requests[..k + 1]), instructions, result)
  {
    hide Covers, IsSplit, PairwiseApart, NonEmpty, FirstRequests, Starts;
    ghost var order := FirstRequests(blocks, requests[..k]);
    OneMoreRequest(blocks, requests, k);
    var b, o := SplitBlockAt(blocks, requests[k]);
    result := pieces;
    if b.Some? {
      var changed;
      result, changed := InsertBlock(pieces, b.value, instructions);
      SplitStarts(blocks, order, instructions, pieces);
      if b.value.start in Starts(pieces) {
        CutTwice(blocks, order, pieces, o, b.value, instructions, result);
      } else {
        FreshCut(blocks, order, pieces, o, b.value, instructions, result);
      }
    }
  }

  lemma SplitStarts(blocks: seq<Block>, order: seq<nat>, instructions: map<nat, Instruction>, pieces: seq<Block>)
    requires IsSplit(blocks, order, instructions, pieces)
    ensures forall a :: a in Starts(pieces) <==> a in Starts(blocks) || a in order
  {
    hide HasOrigin;
    forall a | a in order
      ensures a in Starts(pieces)
    {
      var i :| 0 <= i < |order| && order[i] == a;
      assert pieces[|blocks| + i].start == a;
    }
    forall a | a in Starts(blocks)
      ensures a in Starts(pieces)
    {
      var i :| 0 <= i < |blocks| && blocks[i].start == a;
      assert pieces[i].start == a;
    }
  }

  lemma OneMoreRequest(blocks: seq<Block>, requests: seq<nat>, k: nat)
    requires k < |requests|
    ensures var order, a := FirstRequests(blocks, requests[..k]), requests[k];
      FirstRequests(blocks, requests[..k + 1])
      == if a !in Starts(blocks) && Covers(blocks, a) && a !in order then order + [a] else order
  {
    assert requests[..k + 1][..k] == requests[..k];
  }

  lemma Uncut(blocks: seq<Block>, instructions: map<nat, Instruction>)
    requires NonEmpty(blocks)
    ensures FirstRequests(blocks, []) == [] && IsSplit(blocks, [], instructions, blocks)
  {
    forall k | 0 <= k < |blocks|
      ensures HasOrigin(blocks, [], instructions, blocks[k])
    {
      assert IsPiece(blocks[k], [], instructions, blocks[k]);
    }
  }

  // ----- the same cuts in another order --------------------------------------------------

  ghost predicate SameCuts(one: seq<nat>, other: seq<nat>) {
    forall c :: c in one <==> c in other
  }

  ghost predicate SameBlocks(one: seq<Block>, other: seq<Block>) {
    forall b :: b in one <==> b in other
  }

  /** p is the cut or the block start just before the cut c. */
  predicate JustBefore(o: Block, cuts: seq<nat>, p: nat, c: nat) {
    o.start <= p < c < o.end && (p == o.start || p in cuts) && forall d :: d in cuts ==> !(p < d < c)
  }

  /** The block lists the cut c as a successor, c is not its last cut, and nothing
      falls through to c from the cut before: its edge is up to the order. */
  predicate Unsettled(o: Block, cuts: seq<nat>, instructions: map<nat, Instruction>, p: nat, c: nat) {
    && c in cuts && JustBefore(o, cuts, p, c) && c in o.successors && !FallsThroughTo(instructions, p, c)
    && exists d :: d in cuts && c < d < o.end
  }

  ghost predicate Settled(blocks: seq<Block>, cuts: seq<nat>, instructions: map<nat, Instruction>) {
    forall o, p: nat, c: nat :: 0 <= o < |blocks| ==> !Unsettled(blocks[o], cuts, instructions, p, c)
  }

  ghost predicate OrderOf(cuts: seq<nat>, order: seq<nat>) {
    Distinct(order) && SameCuts(cuts, order)
  }

  /** Any two orders of the cuts end in the same blocks with the same edges. */
  ghost predicate OrderFree(blocks: seq<Block>, cuts: seq<nat>, instructions: map<nat, Instruction>) {
    forall one, other, p, q | OrderOf(cuts, one) && OrderOf(cuts, other) ::
      IsSplit(blocks, one, instructions, p) && IsSplit(blocks, other, instructions, q) ==> SameBlocks(p, q)
  }

  /** The piece that starts at a block start or at a cut. */
  lemma PieceAt(blocks: seq<Block>, order: seq<nat>, instructions: map<nat, Instruction>, pieces: seq<Block>,
                o: nat, p: nat) returns (k: nat)
    requires PairwiseApart(blocks) && IsSplit(blocks, order, instructions, pieces)
    requires o < |blocks| && blocks[o].start <= p < blocks[o].end && (p == blocks[o].start || p in order)
    ensures k < |pieces| && pieces[k].start == p && IsPiece(blocks[o], order, instructions, pieces[k])
  {
    if p == blocks[o].start {
      k := o;
    } else {
      var i :| 0 <= i < |order| && order[i] == p;
      k := |blocks| + i;
    }
    var q := OriginOf(blocks, order, instructions, pieces, k);
    hide IsSplit, PieceEdges;
    SameBlock(blocks, o, q, p);
  }

  /** A piece starts where its block does or at a cut. */
  lemma PieceStart(blocks: seq<Block>, order: seq<nat>, instructions: map<nat, Instruction>, pieces: seq<Block>, k: nat)
    returns (o: nat)
    requires PairwiseApart(blocks) && NonEmpty(blocks) && IsSplit(blocks, order, instructions, pieces) && k < |pieces|
    ensures o < |blocks| && IsPiece(blocks[o], order, instructions, pieces[k])
    ensures pieces[k].start == blocks[o].start || pieces[k].start in order
  {
    o := OriginOf(blocks, order, instructions, pieces, k);
    if k < |blocks| {
      SameBlock(blocks, o, k, pieces[k].start);
    }
  }

  lemma CutsAgree(o: Block, one: seq<nat>, other: seq<nat>, instructions: map<nat, Instruction>, a: Block, b: Block)
    requires SameCuts(one, other) && IsPiece(o, one, instructions, a) && IsPiece(o, other, instructions, b)
    requires a.start == b.start && (a.start == o.start || a.start in one)
    requires one == other || forall p: nat, c: nat :: !Unsettled(o, one, instructions, p, c)
    ensures a == b
  {
    hide FallsThroughTo, Foremost;
    assert a.end == b.end;
    if a.end != o.end && one != other {
      assert !Unsettled(o, one, instructions, a.start, a.end);
      assert JustBefore(o, one, a.start, a.end);
      if forall d :: d in one ==> !(a.end < d < o.end) {
        LastIsForemost(one, a.end, o.end);
        LastIsForemost(other, a.end, o.end);
      }
    }
  }

  lemma LastIsForemost(order: seq<nat>, c: nat, limit: nat)
    requires c in order && forall d :: d in order ==> !(c < d < limit)
    ensures Foremost(order, c, limit)
  {
    var i :| 0 <= i < |order| && order[i] == c;
    assert forall j :: 0 <= j < i ==> order[j] in order;
  }

  /** The pieces are determined by the blocks and the order of the cuts; where every
      edge is settled, by the set of the cuts alone. */
  lemma SplitIsUnique(blocks: seq<Block>, one: seq<nat>, other: seq<nat>, instructions: map<nat, Instruction>,
                      p: seq<Block>, q: seq<Block>)
    requires PairwiseApart(blocks) && NonEmpty(blocks) && SameCuts(one, other)
    requires one == other || Settled(blocks, one, instructions)
    requires IsSplit(blocks, one, instructions, p) && IsSplit(blocks, other, instructions, q)
    ensures SameBlocks(p, q)
  {
    forall b
      ensures b in p <==> b in q
    {
      if b in p { PieceCarriesOver(blocks, one, other, instructions, p, q, b); }
      if b in q {
        SettledForBoth(blocks, one, other, instructions);
        PieceCarriesOver(blocks, other, one, instructions, q, p, b);
      }
    }
  }

  lemma SettledForBoth(blocks: seq<Block>, one: seq<nat>, other: seq<nat>, instructions: map<nat, Instruction>)
    requires SameCuts(one, other)
    ensures Settled(blocks, one, instructions) ==> Settled(blocks, other, instructions)
  {
    hide FallsThroughTo;
    if Settled(blocks, one, instructions) {
      forall o, p: nat, c: nat | 0 <= o < |blocks|
        ensures !Unsettled(blocks[o], other, instructions, p, c)
      {
        assert !Unsettled(blocks[o], one, instructions, p, c);
      }
    }
  }

  lemma PieceCarriesOver(blocks: seq<Block>, one: seq<nat>, other: seq<nat>, instructions: map<nat, Instruction>,
                         p: seq<Block>, q: seq<Block>, b: Block)
    requires PairwiseApart(blocks) && NonEmpty(blocks) && SameCuts(one, other)
    requires one == other || Settled(blocks, one, instructions)
    requires IsSplit(blocks, one, instructions, p) && IsSplit(blocks, other, instructions, q) && b in p
    ensures b in q
  {
    hide IsSplit, PieceEdges, Unsettled, PairwiseApart, NonEmpty;
    var i :| 0 <= i < |p| && p[i] == b;
    var o := PieceStart(blocks, one, instructions, p, i);
    var j := PieceAt(blocks, other, instructions, q, o, b.start);
    CutsAgree(blocks[o], one, other, instructions, b, q[j]);
  }

  /** The least cut above an address of a block, or the block's end. */
  lemma {:induction false} NextCut(o: Block, cuts: seq<nat>, p: nat) returns (c: nat)
    requires p < o.end
    ensures p < c <= o.end && (c == o.end || c in cuts) && forall d :: d in cuts ==> !(p < d < c)
    decreases o.end - p
  {
    if p + 1 == o.end || p + 1 in cuts { c := p + 1; } else { c := NextCut(o, cuts, p + 1); }
  }

  /** The piece that starts at the start of a block or at a cut of it. */
  lemma PieceFrom(blocks: seq<Block>, order: seq<nat>, instructions: map<nat, Instruction>, o: nat, p: nat)
    returns (piece: Block)
    requires o < |blocks| && blocks[o].start <= p < blocks[o].end
    ensures piece.start == p && HasOrigin(blocks, order, instructions, piece)
  {
    hide PieceEdges;
    var c := NextCut(blocks[o], order, p);
    piece := Block(p, c, PieceEdges(blocks[o], order, p, c, instructions));
    assert IsPiece(blocks[o], order, instructions, piece);
  }

  /** Every order of cuts has its pieces. */
  lemma SplitExists(blocks: seq<Block>, order: seq<nat>, instructions: map<nat, Instruction>)
    returns (pieces: seq<Block>)
    requires NonEmpty(blocks) && CutsInside(blocks, order)
    ensures IsSplit(blocks, order, instructions, pieces)
  {
    hide HasOrigin;
    pieces := [];
    for k := 0 to |blocks| + |order|
      invariant |pieces| == k
      invariant forall i :: 0 <= i < k && i < |blocks| ==> pieces[i].start == blocks[i].start
      invariant forall i :: |blocks| <= i < k ==> pieces[i].start == order[i - |blocks|]
      invariant forall i :: 0 <= i < k ==> HasOrigin(blocks, order, instructions, pieces[i])
    {
      var o: nat, p := k, 0;
      if k < |blocks| {
        p := blocks[k].start;
      } else {
        p := order[k - |blocks|];
        assert p in order;
        o :| o < |blocks| && blocks[o].start < p < blocks[o].end;
      }
      var piece := PieceFrom(blocks, order, instructions, o, p);
      pieces := pieces + [piece];
    }
  }

  /** The same cuts with one of them first. */
  ghost function Leading(c: nat, cuts: seq<nat>): (order: seq<nat>)
    requires Distinct(cuts) && c in cuts
    ensures OrderOf(cuts, order) && order != [] && order[0] == c
  {
    var i :| 0 <= i < |cuts| && cuts[i] == c;
    [c] + cuts[..i] + cuts[i + 1..]
  }

  /** An unsettled edge is there when its cut comes first, and not when a larger cut
      of the block does. */
  lemma UnsettledDiffers(blocks: seq<Block>, cuts: seq<nat>, instructions: map<nat, Instruction>, o: nat, p: nat,
                         c: nat)
    requires PairwiseApart(blocks) && NonEmpty(blocks) && Distinct(cuts) && CutsInside(blocks, cuts)
    requires o < |blocks| && Unsettled(blocks[o], cuts, instructions, p, c)
    ensures !OrderFree(blocks, cuts, instructions)
  {
    hide FallsThroughTo, Foremost, IsSplit;
    var d: nat :| d in cuts && c < d < blocks[o].end;
    var one, other := Leading(c, cuts), Leading(d, cuts);
    var f := SplitExists(blocks, one, instructions);
    var g := SplitExists(blocks, other, instructions);
    var i := PieceAt(blocks, one, instructions, f, o, p);
    var j := PieceAt(blocks, other, instructions, g, o, p);
    LeadingIsForemost(one, c, blocks[o].end);
    LeadingBlocks(other, c, blocks[o].end);
    assert f[i] == Block(p, c, [c]) && g[j] == Block(p, c, []);
    if SameBlocks(f, g) {
      assert f[i] in g;
      var l :| 0 <= l < |g| && g[l] == f[i];
      OnePieceAt(blocks, other, instructions, g, j, l);
    }
  }

  lemma LeadingIsForemost(order: seq<nat>, c: nat, limit: nat)
    requires order != [] && order[0] == c
    ensures Foremost(order, c, limit)
  {
  }

  lemma LeadingBlocks(order: seq<nat>, c: nat, limit: nat)
    requires order != [] && c < order[0] < limit
    ensures !Foremost(order, c, limit)
  {
  }

  /** No two pieces start at the same address. */
  lemma OnePieceAt(blocks: seq<Block>, order: seq<nat>, instructions: map<nat, Instruction>, pieces: seq<Block>,
                   j: nat, l: nat)
    requires PairwiseApart(blocks) && NonEmpty(blocks) && Distinct(order) && CutsInside(blocks, order)
    requires IsSplit(blocks, order, instructions, pieces)
    requires j < |pieces| && l < |pieces| && pieces[j].start == pieces[l].start
    ensures j == l
  {
    hide HasOrigin;
    if j < |blocks| && l < |blocks| {
      SameBlock(blocks, j, l, blocks[j].start);
    } else if j < |blocks| || l < |blocks| {
      var s, c := if j < |blocks| then j else l, if j < |blocks| then l else j;
      assert order[c - |blocks|] in order;
      var o :| 0 <= o < |blocks| && blocks[o].start < order[c - |blocks|] < blocks[o].end;
      StartIsNotInside(blocks, o, s);
    }
  }

  /** The order of the cuts makes no difference exactly when each cut that its block
      lists as a successor, other than the last cut of the block, is fallen into
      from the cut or the block start before it. */
  lemma OrderFreeExactly(blocks: seq<Block>, cuts: seq<nat>, instructions: map<nat, Instruction>)
    requires PairwiseApart(blocks) && NonEmpty(blocks) && Distinct(cuts) && CutsInside(blocks, cuts)
    ensures OrderFree(blocks, cuts, instructions) <==> Settled(blocks, cuts, instructions)
  {
    hide IsSplit, Unsettled, PairwiseApart, NonEmpty, CutsInside, Distinct;
    if Settled(blocks, cuts, instructions) {
      forall one, other, p, q | OrderOf(cuts, one) && OrderOf(cuts, other) &&
                                IsSplit(blocks, one, instructions, p) && IsSplit(blocks, other, instructions, q)
        ensures SameBlocks(p, q)
      {
        SettledForBoth(blocks, cuts, one, instructions);
        SplitIsUnique(blocks, one, other, instructions, p, q);
      }
    } else {
      var o, p: nat, c: nat :| 0 <= o < |blocks| && Unsettled(blocks[o], cuts, instructions, p, c);
      UnsettledDiffers(blocks, cuts, instructions, o, p, c);
    }
  }

  /** Any two orders of requests that settle every edge give the same blocks. */
  method SplitInTwoOrders(blocks: seq<Block>, requests: seq<nat>, reordered: seq<nat>,
                          instructions: map<nat, Instruction>)
    returns (one: seq<Block>, other: seq<Block>)
    requires PairwiseApart(blocks) && NonEmpty(blocks)
    requires forall a :: a in requests <==> a in reordered
    requires Settled(blocks, FirstRequests(blocks, requests), instructions)
    ensures SameBlocks(one, other)
  {
    hide Settled, IsSplit, Covers, PairwiseApart, NonEmpty, SameBlocks, FirstRequests;
    one := SplitAll(blocks, requests, instructions);
    other := SplitAll(blocks, reordered, instructions);
    SplitIsUnique(blocks, FirstRequests(blocks, requests), FirstRequests(blocks, reordered), instructions, one, other);
  }

  // ----- what every split keeps ------------------------------------------------------------

  /** Some instruction of the block falls through to the cut, and no cut lies
      inside that instruction. */
  predicate FallsInto(o: Block, cuts: seq<nat>, c: nat, instructions: map<nat, Instruction>) {
    exists a | a in instructions ::
      && o.start <= a < c && instructions[a].fallthrough == Some(c) && a + instructions[a].size == c
      && forall d :: d in cuts ==> !(a < d < c)
  }

  predicate FallthroughCuts(blocks: seq<Block>, cuts: seq<nat>, instructions: map<nat, Instruction>) {
    forall o, c :: 0 <= o < |blocks| && c in cuts && blocks[o].start < c < blocks[o].end ==>
      FallsInto(blocks[o], cuts, c, instructions)
  }

  lemma FallsFromJustBefore(o: Block, cuts: seq<nat>, p: nat, c: nat, instructions: map<nat, Instruction>)
    requires JustBefore(o, cuts, p, c) && FallsInto(o, cuts, c, instructions)
    ensures FallsThroughTo(instructions, p, c)
  {
    var a :| a in instructions && o.start <= a < c && instructions[a].fallthrough == Some(c) &&
             a + instructions[a].size == c && forall d :: d in cuts ==> !(a < d < c);
    assert p <= a;
  }

  /** Where code falls through to every cut, all edges are settled and every piece
      but the last of a block flows into the next piece. */
  lemma FallthroughSettles(blocks: seq<Block>, order: seq<nat>, instructions: map<nat, Instruction>,
                           pieces: seq<Block>, k: nat)
    requires PairwiseApart(blocks) && NonEmpty(blocks) && FallthroughCuts(blocks, order, instructions)
    requires IsSplit(blocks, order, instructions, pieces) && k < |pieces|
    ensures Settled(blocks, order, instructions)
    ensures exists o :: 0 <= o < |blocks| && blocks[o].start <= pieces[k].start < pieces[k].end <= blocks[o].end &&
              pieces[k].successors == if pieces[k].end == blocks[o].end then blocks[o].successors else [pieces[k].end]
  {
    hide FallsThroughTo, Foremost, FallsInto;
    forall o, p: nat, c: nat | 0 <= o < |blocks|
      ensures !Unsettled(blocks[o], order, instructions, p, c)
    {
      if c in order && JustBefore(blocks[o], order, p, c) {
        FallsFromJustBefore(blocks[o], order, p, c, instructions);
      }
    }
    var o := PieceStart(blocks, order, instructions, pieces, k);
    if pieces[k].end != blocks[o].end {
      FallsFromJustBefore(blocks[o], order, pieces[k].start, pieces[k].end, instructions);
    }
  }

  /** The last cut at or before an address of a block, or the block's start. */
  lemma {:induction false} NearestCut(o: Block, cuts: seq<nat>, a: nat) returns (c: nat)
    requires o.start <= a
    ensures o.start <= c <= a && (c == o.start || c in cuts)
    ensures forall d :: d in cuts ==> !(c < d <= a)
    decreases a
  {
    if a == o.start || a in cuts { c := a; } else { c := NearestCut(o, cuts, a - 1); }
  }

  /** Splitting neither loses nor adds a byte. */
  lemma SplitCovers(blocks: seq<Block>, order: seq<nat>, instructions: map<nat, Instruction>, pieces: seq<Block>,
                    a: nat)
    requires PairwiseApart(blocks) && IsSplit(blocks, order, instructions, pieces)
    ensures Covers(pieces, a) <==> Covers(blocks, a)
  {
    hide PairwiseApart, PieceEdges, IsSplit;
    if Covers(pieces, a) {
      var k :| 0 <= k < |pieces| && pieces[k].start <= a < pieces[k].end;
      var o := OriginOf(blocks, order, instructions, pieces, k);
    }
    if Covers(blocks, a) {
      var o :| 0 <= o < |blocks| && blocks[o].start <= a < blocks[o].end;
      var c := NearestCut(blocks[o], order, a);
      var k := PieceAt(blocks, order, instructions, pieces, o, c);
      assert pieces[k].start <= a < pieces[k].end;
    }
  }

  /** Without the fall-through condition the order does matter: a block that
      lists its own middle as a successor keeps that edge only if it is the
      first address at which the block is split. */
  lemma OrderMattersWithoutFallthrough(a: seq<Block>, ab: seq<Block>, b: seq<Block>, ba: seq<Block>)
    requires Inserted([Block(0, 10, [4])], Block(4, 10, [4]), map[], a) && Inserted(a, Block(8, 10, [4]), map[], ab)
    requires Inserted([Block(0, 10, [4])], Block(8, 10, [4]), map[], b) && Inserted(b, Block(4, 10, [4]), map[], ba)
    ensures ab[0] == Block(0, 4, [4]) && ba[0] == Block(0, 4, [])
  {
    hide IsClipped;
    var whole := Block(0, 10, [4]);
    InsertKeepsStarts([whole], Block(4, 10, [4]), map[], a);
    InsertKeepsStarts([whole], Block(8, 10, [4]), map[], b);
    assert forall s :: s in Starts([whole]) ==> s == 0;
    assert a[0] == Block(0, 4, [4]) && b[0] == Block(0, 8, []);
  }
}
