/** Merging overlapping registers into storage units. */
module RegisterUnits {

  datatype RegisterInfo = RegisterInfo(space: string, offset: nat, size: nat)

  datatype Unit = Unit(space: string, offset: nat, size: nat)

  const WORD32 := 0x1_0000_0000
  const WORD64 := 0x1_0000_0000_0000_0000

  function End(r: RegisterInfo): nat {
    r.offset + r.size
  }

  predicate Usable(r: RegisterInfo) {
    r.space != "" && r.size != 0
  }

  /** No register wraps the 64-bit offset space, and the registers of a space
      span less than 2^32 bytes, so that a merged size fits its 32-bit field. */
  predicate Fits(registers: seq<RegisterInfo>) {
    && (forall r | r in registers :: End(r) < WORD64)
    && (forall a, b | a in registers && b in registers && a.space == b.space :: End(b) - a.offset < WORD32)
  }

  /** The source's 64-bit comparison. */
  predicate Overlaps(offset: nat, size: nat, otherOffset: nat, otherSize: nat) {
    && offset < (otherOffset + otherSize) % WORD64
    && otherOffset < (offset + size) % WORD64
  }

  // ----- connectedness ---------------------------------------------------------

  predicate Touch(a: RegisterInfo, b: RegisterInfo) {
    a.space == b.space && a.offset < End(b) && b.offset < End(a)
  }

  predicate IsChain(registers: seq<RegisterInfo>, c: seq<RegisterInfo>) {
    && c != []
    && (forall i :: 0 <= i < |c| ==> c[i] in registers && Usable(c[i]))
    && (forall i :: 0 <= i < |c| - 1 ==> Touch(c[i], c[i + 1]))
  }

  /** Some chain of pairwise overlapping registers leads from a to b. */
  ghost predicate Connected(registers: seq<RegisterInfo>, a: RegisterInfo, b: RegisterInfo) {
    exists c :: IsChain(registers, c) && c[0] == a && c[|c| - 1] == b
  }

  lemma ConnectedSelf(registers: seq<RegisterInfo>, a: RegisterInfo)
    requires a in registers && Usable(a)
    ensures Connected(registers, a, a)
  {
    assert IsChain(registers, [a]);
  }

  lemma ConnectedStep(registers: seq<RegisterInfo>, a: RegisterInfo, b: RegisterInfo, c: RegisterInfo)
    requires Connected(registers, a, b) && c in registers && Usable(c) && Touch(b, c)
    ensures Connected(registers, a, c)
  {
    var p :| IsChain(registers, p) && p[0] == a && p[|p| - 1] == b;
    assert IsChain(registers, p + [c]);
  }

  lemma ConnectedBothWays(registers: seq<RegisterInfo>, a: RegisterInfo, b: RegisterInfo)
    requires Connected(registers, a, b)
    ensures Connected(registers, b, a)
  {
    var p :| IsChain(registers, p) && p[0] == a && p[|p| - 1] == b;
    var q := seq(|p|, i requires 0 <= i < |p| => p[|p| - 1 - i]);
    forall i | 0 <= i < |q| - 1
      ensures Touch(q[i], q[i + 1])
    {
      assert Touch(p[|p| - 2 - i], p[|p| - 2 - i + 1]);
    }
    assert IsChain(registers, q);
  }

  lemma ConnectedThrough(registers: seq<RegisterInfo>, a: RegisterInfo, b: RegisterInfo, c: RegisterInfo)
    requires Connected(registers, a, b) && Connected(registers, b, c)
    ensures Connected(registers, a, c)
  {
    var p :| IsChain(registers, p) && p[0] == a && p[|p| - 1] == b;
    var q :| IsChain(registers, q) && q[0] == b && q[|q| - 1] == c;
    var r := p + q[1..];
    forall i | 0 <= i < |r| - 1
      ensures Touch(r[i], r[i + 1])
    {
      if i < |p| - 1 {
        assert Touch(p[i], p[i + 1]);
      } else {
        assert Touch(q[i - |p| + 1], q[i - |p| + 2]);
        assert i == |p| - 1 ==> r[i] == q[0];
      }
    }
    assert IsChain(registers, r);
  }

  lemma ConnectedIn(registers: seq<RegisterInfo>, more: seq<RegisterInfo>, a: RegisterInfo, b: RegisterInfo)
    requires Connected(registers, a, b) && (forall r | r in registers && Usable(r) :: r in more)
    ensures Connected(more, a, b)
  {
    var p :| IsChain(registers, p) && p[0] == a && p[|p| - 1] == b;
    assert IsChain(more, p);
  }

  // ----- what the units are --------------------------------------------------------

  predicate Inside(r: RegisterInfo, u: Unit) {
    r.space == u.space && u.offset <= r.offset && End(r) <= u.offset + u.size
  }

  predicate Apart(u: Unit, v: Unit) {
    u.space != v.space || u.offset + u.size <= v.offset || v.offset + v.size <= u.offset
  }

  predicate Disjoint(units: seq<Unit>) {
    && (forall u :: 0 <= u < |units| ==> units[u].size != 0 && units[u].space != "")
    && (forall u, v :: 0 <= u < |units| && 0 <= v < |units| && u != v ==> Apart(units[u], units[v]))
  }

  /** The unit starts with one of the registers and ends with one of them. */
  ghost predicate Spanned(registers: seq<RegisterInfo>, u: Unit) {
    exists first, last ::
      && first in registers && Usable(first) && Inside(first, u) && first.offset == u.offset
      && last in registers && Usable(last) && Inside(last, u) && End(last) == u.offset + u.size
  }

  /** The units are the connected components of overlap among the usable
      registers, each spanning exactly its registers. */
  ghost predicate Components(registers: seq<RegisterInfo>, units: seq<Unit>) {
    && Disjoint(units)
    && (forall u | u in units :: Spanned(registers, u))
    && (forall r | r in registers && Usable(r) :: exists u :: 0 <= u < |units| && Inside(r, units[u]))
    && (forall a, b, u, v |
          && a in registers && b in registers && Usable(a) && Usable(b)
          && 0 <= u < |units| && 0 <= v < |units| && Inside(a, units[u]) && Inside(b, units[v]) ::
          u == v <==> Connected(registers, a, b))
  }

  /** A chain never leaves a unit. */
  lemma {:induction false} ChainStaysInside(registers: seq<RegisterInfo>, units: seq<Unit>,
          c: seq<RegisterInfo>, u: nat)
    requires Disjoint(units) && IsChain(registers, c) && u < |units| && Inside(c[0], units[u])
    requires forall r | r in registers && Usable(r) :: exists v :: 0 <= v < |units| && Inside(r, units[v])
    ensures Inside(c[|c| - 1], units[u])
    decreases |c|
  {
    if |c| > 1 {
      assert Touch(c[0], c[1]);
      var v :| 0 <= v < |units| && Inside(c[1], units[v]);
      var here, there := units[u], units[v];
      assert u == v || Apart(here, there);
      var rest := c[1..];
      assert IsChain(registers, rest) by {
        assert forall i :: 0 <= i < |rest| ==> rest[i] == c[i + 1];
      }
      ChainStaysInside(registers, units, rest, u);
    }
  }

  lemma ConnectedStaysInside(registers: seq<RegisterInfo>, units: seq<Unit>, a: RegisterInfo, b: RegisterInfo, u: nat)
    requires Disjoint(units) && Connected(registers, a, b) && u < |units| && Inside(a, units[u])
    requires forall r | r in registers && Usable(r) :: exists v :: 0 <= v < |units| && Inside(r, units[v])
    ensures Inside(b, units[u])
  {
    var c :| IsChain(registers, c) && c[0] == a && c[|c| - 1] == b;
    ChainStaysInside(registers, units, c, u);
  }

  lemma InsideOneUnit(units: seq<Unit>, r: RegisterInfo, u: nat, v: nat)
    requires Disjoint(units) && r.size != 0 && u < |units| && v < |units|
    requires Inside(r, units[u]) && Inside(r, units[v])
    ensures u == v
  {
    var here, there := units[u], units[v];
    assert u == v || Apart(here, there);
  }

  // ----- sorting ---------------------------------------------------------------------

  predicate StringLe(a: string, b: string) {
    a == [] || (b != [] && (a[0] < b[0] || (a[0] == b[0] && StringLe(a[1..], b[1..]))))
  }

  lemma StringOrder(a: string, b: string)
    ensures StringLe(a, b) || StringLe(b, a)
    ensures StringLe(a, b) && StringLe(b, a) ==> a == b
  {
    if a != [] && b != [] {
      StringOrder(a[1..], b[1..]);
      assert a == [a[0]] + a[1..] && b == [b[0]] + b[1..];
    }
  }

  lemma StringLeTransitive(a: string, b: string, c: string)
    requires StringLe(a, b) && StringLe(b, c)
    ensures StringLe(a, c)
  {
    if a != [] && a[0] == b[0] == c[0] { StringLeTransitive(a[1..], b[1..], c[1..]); }
  }

  /** Space, then offset, then the larger register first. */
  predicate Precedes(a: RegisterInfo, b: RegisterInfo) {
    if a.space != b.space then StringLe(a.space, b.space)
    else if a.offset != b.offset then a.offset < b.offset
    else a.size >= b.size
  }

  lemma PrecedesIsTotal(a: RegisterInfo, b: RegisterInfo)
    ensures Precedes(a, b) || Precedes(b, a)
  {
    StringOrder(a.space, b.space);
  }

  lemma PrecedesIsTransitive(a: RegisterInfo, b: RegisterInfo, c: RegisterInfo)
    requires Precedes(a, b) && Precedes(b, c)
    ensures Precedes(a, c)
  {
    if a.space != b.space && b.space != c.space {
      StringLeTransitive(a.space, b.space, c.space);
      StringOrder(a.space, b.space);
    }
  }

  predicate Sorted(s: seq<RegisterInfo>) {
    forall i, j :: 0 <= i < j < |s| ==> Precedes(s[i], s[j])
  }

  method InsertSorted(r: RegisterInfo, s: seq<RegisterInfo>) returns (t: seq<RegisterInfo>)
    requires Sorted(s)
    ensures Sorted(t) && multiset(t) == multiset(s) + multiset{r}
  {
    hide Precedes, Sorted;
    var i := |s|;
    while 0 < i && !Precedes(s[i - 1], r)
      invariant 0 <= i <= |s|
      invariant forall j :: i <= j < |s| ==> Precedes(r, s[j])
    {
      PrecedesIsTotal(s[i - 1], r);
      i := i - 1;
    }
    t := s[..i] + [r] + s[i..];
    InsertedSorted(s, i, r);
    assert s == s[..i] + s[i..];
  }

  lemma InsertedSorted(s: seq<RegisterInfo>, i: nat, r: RegisterInfo)
    requires Sorted(s) && i <= |s| && (0 < i ==> Precedes(s[i - 1], r))
    requires forall j :: i <= j < |s| ==> Precedes(r, s[j])
    ensures Sorted(s[..i] + [r] + s[i..])
  {
    hide Precedes;
    forall j | 0 <= j < i
      ensures Precedes(s[j], r)
    {
      if j < i - 1 { PrecedesIsTransitive(s[j], s[i - 1], r); }
    }
    var t := s[..i] + [r] + s[i..];
    assert forall j :: 0 <= j < |t| ==> t[j] == if j < i then s[j] else if j == i then r else s[j - 1];
  }

  /** Drops the unusable registers and sorts the rest. */
  method SortUsable(registers: seq<RegisterInfo>) returns (s: seq<RegisterInfo>)
    ensures Sorted(s)
    ensures forall r :: multiset(s)[r] == if Usable(r) then multiset(registers)[r] else 0
  {
    s := [];
    for k := 0 to |registers|
      invariant Sorted(s)
      invariant forall r :: multiset(s)[r] == if Usable(r) then multiset(registers[..k])[r] else 0
    {
      assert registers[..k + 1] == registers[..k] + [registers[k]];
      if Usable(registers[k]) {
        s := InsertSorted(registers[k], s);
      }
    }
    assert registers[..|registers|] == registers;
  }

  // ----- merging ------------------------------------------------------------------------

  /** The unit that a register of the sorted list meets, if any. */
  predicate Meets(u: Unit, r: RegisterInfo) {
    u.space == r.space && Overlaps(u.offset, u.size, r.offset, r.size)
  }

  function MergedUnit(u: Unit, r: RegisterInfo): Unit {
    var unitEnd, registerEnd := (u.offset + u.size) % WORD64, (r.offset + r.size) % WORD64;
    var end := if unitEnd < registerEnd then registerEnd else unitEnd;
    var offset := if r.offset < u.offset then r.offset else u.offset;
    Unit(u.space, offset, (end - offset) % WORD32)
  }

  /** What is known after the first k registers: owner maps a register to its
      unit, first and last name a register at each end of a unit. */
  ghost predicate Merged(s: seq<RegisterInfo>, k: nat, units: seq<Unit>, owner: seq<nat>, first: seq<nat>,
          last: seq<nat>)
    requires k <= |s|
  {
    && Disjoint(units) && |owner| == k && |first| == |last| == |units|
    && (forall i :: 0 <= i < k ==> owner[i] < |units| && Inside(s[i], units[owner[i]]))
    && (forall u :: 0 <= u < |units| ==> first[u] < k && last[u] < k && owner[first[u]] == u && owner[last[u]] == u)
    && (forall u :: 0 <= u < |units| ==> s[first[u]].offset == units[u].offset)
    && (forall u :: 0 <= u < |units| ==> End(s[last[u]]) == units[u].offset + units[u].size)
    && (forall i :: 0 <= i < k ==> Connected(s, s[i], s[last[owner[i]]]))
  }

  /** The registers at the ends of a unit, and where register k lies. */
  lemma UnitEnds(s: seq<RegisterInfo>, k: nat, units: seq<Unit>, owner: seq<nat>, first: seq<nat>,
          last: seq<nat>, u: nat)
    requires Sorted(s) && k < |s| && Merged(s, k, units, owner, first, last) && u < |units|
    ensures |first| == |last| == |units| && |owner| == k
    ensures units[u].size != 0 && first[u] < k && last[u] < k && owner[first[u]] == u && owner[last[u]] == u
    ensures s[first[u]] in s && s[last[u]] in s && s[k] in s
    ensures Inside(s[first[u]], units[u]) && Inside(s[last[u]], units[u])
    ensures s[first[u]].offset == units[u].offset && End(s[last[u]]) == units[u].offset + units[u].size
    ensures units[u].space == s[k].space ==> units[u].offset <= s[k].offset && s[last[u]].offset <= s[k].offset
  {
    hide Connected, StringLe;
    assert Inside(s[first[u]], units[owner[first[u]]]) && Inside(s[last[u]], units[owner[last[u]]]);
    assert Precedes(s[first[u]], s[k]) && Precedes(s[last[u]], s[k]);
  }

  lemma FitsPair(s: seq<RegisterInfo>, a: RegisterInfo, b: RegisterInfo)
    requires Fits(s) && a in s && b in s
    ensures End(a) < WORD64 && End(b) < WORD64
    ensures a.space == b.space ==> End(b) - a.offset < WORD32
  {
  }

  /** Register k meets the units that it truly overlaps. */
  lemma MeetsIsTouching(s: seq<RegisterInfo>, k: nat, units: seq<Unit>, owner: seq<nat>, first: seq<nat>,
          last: seq<nat>, u: nat)
    requires Sorted(s) && Fits(s) && k < |s| && Merged(s, k, units, owner, first, last) && u < |units|
    ensures Meets(units[u], s[k]) <==>
              units[u].space == s[k].space && s[k].offset < units[u].offset + units[u].size &&
              units[u].offset < End(s[k])
    ensures units[u].offset + units[u].size < WORD64 && End(s[k]) < WORD64
    ensures units[u].space == s[k].space ==> units[u].offset <= s[k].offset
  {
    hide Sorted, Fits, Merged, Overlaps;
    UnitEnds(s, k, units, owner, first, last, u);
    FitsPair(s, s[k], s[last[u]]);
    OverlapsWithoutWrap(units[u].offset, units[u].size, s[k].offset, s[k].size);
  }

  lemma OverlapsWithoutWrap(offset: nat, size: nat, otherOffset: nat, otherSize: nat)
    requires offset + size < WORD64 && otherOffset + otherSize < WORD64
    ensures Overlaps(offset, size, otherOffset, otherSize)
       <==> offset < otherOffset + otherSize && otherOffset < offset + size
  {
  }

  lemma MergedWithoutWrap(u: Unit, r: RegisterInfo)
    requires u.offset + u.size < WORD64 && End(r) < WORD64 && u.offset <= r.offset
    requires u.size < WORD32 && End(r) - u.offset < WORD32
    ensures MergedUnit(u, r)
         == Unit(u.space, u.offset, (if u.offset + u.size < End(r) then End(r) else u.offset + u.size) - u.offset)
  {
  }

  lemma MergedDisjoint(s: seq<RegisterInfo>, k: nat, units: seq<Unit>, owner: seq<nat>, first: seq<nat>, last: seq<nat>)
    requires k <= |s| && Merged(s, k, units, owner, first, last)
    ensures Disjoint(units)
  {
  }

  lemma DisjointPair(units: seq<Unit>, u: nat, v: nat)
    requires Disjoint(units) && u < |units| && v < |units| && u != v
    ensures Apart(units[u], units[v])
  {
  }

  /** Growing the unit that register k meets to cover the register. */
  lemma GrownUnit(s: seq<RegisterInfo>, k: nat, units: seq<Unit>, owner: seq<nat>, first: seq<nat>,
          last: seq<nat>, u: nat)
    requires Sorted(s) && Fits(s) && k < |s| && Merged(s, k, units, owner, first, last)
    requires Usable(s[k]) && u < |units| && Meets(units[u], s[k])
    ensures var grown, end := MergedUnit(units[u], s[k]), units[u].offset + units[u].size;
      && grown.space == units[u].space && grown.offset == units[u].offset
      && grown.offset + grown.size == (if end < End(s[k]) then End(s[k]) else end)
      && Inside(s[k], grown)
  {
    hide Sorted, Fits, Merged, Meets, MergedUnit;
    MeetsIsTouching(s, k, units, owner, first, last, u);
    UnitEnds(s, k, units, owner, first, last, u);
    FitsPair(s, s[first[u]], s[k]);
    FitsPair(s, s[first[u]], s[last[u]]);
    MergedWithoutWrap(units[u], s[k]);
  }

  /** It is the only one that the register meets, so the units stay apart. */
  lemma GrownStaysApart(s: seq<RegisterInfo>, k: nat, units: seq<Unit>, owner: seq<nat>, first: seq<nat>,
          last: seq<nat>, u: nat)
    requires Sorted(s) && Fits(s) && k < |s| && Merged(s, k, units, owner, first, last)
    requires Usable(s[k]) && u < |units| && Meets(units[u], s[k])
    ensures Disjoint(units[u := MergedUnit(units[u], s[k])])
  {
    hide Sorted, Fits, Merged, MergedUnit, Meets;
    MeetsIsTouching(s, k, units, owner, first, last, u);
    GrownUnit(s, k, units, owner, first, last, u);
    MergedDisjoint(s, k, units, owner, first, last);
    var grown := MergedUnit(units[u], s[k]);
    forall v | 0 <= v < |units| && v != u
      ensures Apart(grown, units[v]) && Apart(units[v], grown)
    {
      UnitEnds(s, k, units, owner, first, last, v);
      DisjointPair(units, u, v);
    }
  }

  /** The last register of a unit touches a new register that meets the unit. */
  lemma LastTouches(s: seq<RegisterInfo>, k: nat, units: seq<Unit>, owner: seq<nat>, first: seq<nat>,
          last: seq<nat>, u: nat)
    requires Sorted(s) && Fits(s) && k < |s| && Merged(s, k, units, owner, first, last)
    requires Usable(s[k]) && u < |units| && Meets(units[u], s[k])
    ensures Touch(s[last[u]], s[k]) && Touch(s[k], s[last[u]])
  {
    hide Sorted, Fits, Merged, Meets;
    MeetsIsTouching(s, k, units, owner, first, last, u);
    UnitEnds(s, k, units, owner, first, last, u);
  }

  lemma MergeKeeps(s: seq<RegisterInfo>, k: nat, units: seq<Unit>, owner: seq<nat>, first: seq<nat>,
          last: seq<nat>, u: nat)
    requires Sorted(s) && Fits(s) && k < |s| && Merged(s, k, units, owner, first, last)
    requires (forall r | r in s :: Usable(r)) && u < |units| && Meets(units[u], s[k])
    ensures var longer := units[u].offset + units[u].size < End(s[k]);
      Merged(s, k + 1, units[u := MergedUnit(units[u], s[k])], owner + [u], first,
             if longer then last[u := k] else last)
  {
    hide Sorted, Fits, MergedUnit, Meets, Connected, Disjoint, Touch;
    GrownUnit(s, k, units, owner, first, last, u);
    GrownStaysApart(s, k, units, owner, first, last, u);
    LastTouches(s, k, units, owner, first, last, u);
    var grown := MergedUnit(units[u], s[k]);
    var units', owner' := units[u := grown], owner + [u];
    var longer := units[u].offset + units[u].size < End(s[k]);
    var last' := if longer then last[u := k] else last;
    forall i | 0 <= i < k + 1
      ensures owner'[i] < |units'| && Inside(s[i], units'[owner'[i]])
    {
      if i < k { assert Inside(s[i], units[owner[i]]); }
    }
    forall i | 0 <= i < k + 1
      ensures Connected(s, s[i], s[last'[owner'[i]]])
    {
      if i == k {
        ConnectedSelf(s, s[k]);
        if !longer {
          UnitEnds(s, k, units, owner, first, last, u);
          ConnectedStep(s, s[k], s[k], s[last[u]]);
        }
      } else if owner[i] == u && longer {
        ConnectedStep(s, s[i], s[last[u]], s[k]);
      }
    }
  }

  lemma NewUnitKeeps(s: seq<RegisterInfo>, k: nat, units: seq<Unit>, owner: seq<nat>, first: seq<nat>, last: seq<nat>)
    requires Sorted(s) && Fits(s) && k < |s| && Merged(s, k, units, owner, first, last)
    requires Usable(s[k]) && forall u :: 0 <= u < |units| ==> !Meets(units[u], s[k])
    ensures Merged(s, k + 1, units + [Unit(s[k].space, s[k].offset, s[k].size)], owner + [|units|], first + [k],
                   last + [k])
  {
    hide Sorted, Fits, Meets, Connected;
    var added := Unit(s[k].space, s[k].offset, s[k].size);
    forall u | 0 <= u < |units|
      ensures Apart(units[u], added) && Apart(added, units[u])
    {
      MeetsIsTouching(s, k, units, owner, first, last, u);
    }
    ConnectedSelf(s, s[k]);
  }

  method FirstMeeting(units: seq<Unit>, r: RegisterInfo) returns (u: nat)
    ensures u <= |units|
    ensures forall v :: 0 <= v < u ==> !Meets(units[v], r)
    ensures u < |units| ==> Meets(units[u], r)
  {
    u := 0;
    while u < |units| && !Meets(units[u], r)
      invariant 0 <= u <= |units|
      invariant forall v :: 0 <= v < u ==> !Meets(units[v], r)
    {
      u := u + 1;
    }
  }

  /** Register k joins the first unit it meets, or starts a unit of its own. */
  method MergeOne(s: seq<RegisterInfo>, k: nat, units: seq<Unit>, ghost owner: seq<nat>, ghost first: seq<nat>,
          ghost last: seq<nat>)
    returns (units': seq<Unit>, ghost owner': seq<nat>, ghost first': seq<nat>, ghost last': seq<nat>)
    requires Sorted(s) && Fits(s) && (forall r | r in s :: Usable(r)) && k < |s|
    requires Merged(s, k, units, owner, first, last)
    ensures Merged(s, k + 1, units', owner', first', last')
  {
    hide Sorted, Fits, Merged, Meets, MergedUnit, End;
    var u := FirstMeeting(units, s[k]);
    if u < |units| {
      UnitEnds(s, k, units, owner, first, last, u);
      MergeKeeps(s, k, units, owner, first, last, u);
      units', owner', first' := units[u := MergedUnit(units[u], s[k])], owner + [u], first;
      last' := if units[u].offset + units[u].size < End(s[k]) then last[u := k] else last;
    } else {
      NewUnitKeeps(s, k, units, owner, first, last);
      units' := units + [Unit(s[k].space, s[k].offset, s[k].size)];
      owner', first', last' := owner + [|units|], first + [k], last + [k];
    }
  }

  /** Merging the sorted registers one by one. */
  method MergeRegisters(s: seq<RegisterInfo>) returns (units: seq<Unit>)
    requires Sorted(s) && Fits(s) && forall r | r in s :: Usable(r)
    ensures Components(s, units)
  {
    units := [];
    ghost var owner: seq<nat>, first: seq<nat>, last: seq<nat> := [], [], [];
    assert Merged(s, 0, units, owner, first, last);
    hide Sorted, Fits, Merged, Components;
    for k := 0 to |s|
      invariant Merged(s, k, units, owner, first, last)
    {
      units, owner, first, last := MergeOne(s, k, units, owner, first, last);
    }
    MergedAreComponents(s, units, owner, first, last);
  }

  lemma OwnerFacts(s: seq<RegisterInfo>, units: seq<Unit>, owner: seq<nat>, first: seq<nat>, last: seq<nat>,
          r: RegisterInfo)
    returns (u: nat)
    requires Merged(s, |s|, units, owner, first, last) && r in s
    ensures u < |units| == |last| && Inside(r, units[u]) && Disjoint(units)
    ensures last[u] < |s| && Connected(s, r, s[last[u]])
  {
    hide Connected, Disjoint;
    var i :| 0 <= i < |s| && s[i] == r;
    u := owner[i];
  }

  lemma MergedAreSpanned(s: seq<RegisterInfo>, units: seq<Unit>, owner: seq<nat>, first: seq<nat>,
          last: seq<nat>, u: nat)
    requires Merged(s, |s|, units, owner, first, last) && (forall r | r in s :: Usable(r)) && u < |units|
    ensures Spanned(s, units[u])
  {
    hide Connected, Disjoint;
    assert Inside(s[first[u]], units[owner[first[u]]]) && Inside(s[last[u]], units[owner[last[u]]]);
  }

  lemma MergedSameUnit(s: seq<RegisterInfo>, units: seq<Unit>, owner: seq<nat>, first: seq<nat>, last: seq<nat>,
                       a: RegisterInfo, b: RegisterInfo, u: nat, v: nat)
    requires Merged(s, |s|, units, owner, first, last) && (forall r | r in s :: Usable(r)) && a in s && b in s
    requires u < |units| && v < |units| && Inside(a, units[u]) && Inside(b, units[v])
    requires forall r | r in s && Usable(r) :: exists u :: 0 <= u < |units| && Inside(r, units[u])
    ensures u == v <==> Connected(s, a, b)
  {
    hide Connected, Disjoint, Merged, Inside;
    var au := OwnerFacts(s, units, owner, first, last, a);
    var bu := OwnerFacts(s, units, owner, first, last, b);
    InsideOneUnit(units, a, u, au);
    InsideOneUnit(units, b, v, bu);
    if u == v {
      ConnectedBothWays(s, b, s[last[u]]);
      ConnectedThrough(s, a, s[last[u]], b);
    }
    if Connected(s, a, b) {
      ConnectedStaysInside(s, units, a, b, u);
      InsideOneUnit(units, b, u, v);
    }
  }

  lemma MergedAreComponents(s: seq<RegisterInfo>, units: seq<Unit>, owner: seq<nat>, first: seq<nat>, last: seq<nat>)
    requires Merged(s, |s|, units, owner, first, last) && forall r | r in s :: Usable(r)
    ensures Components(s, units)
  {
    hide Connected, Disjoint, Merged, Inside, Spanned;
    MergedDisjoint(s, |s|, units, owner, first, last);
    forall w | w in units
      ensures Spanned(s, w)
    {
      var u :| 0 <= u < |units| && units[u] == w;
      MergedAreSpanned(s, units, owner, first, last, u);
    }
    forall r | r in s && Usable(r)
      ensures exists u :: 0 <= u < |units| && Inside(r, units[u])
    {
      var u := OwnerFacts(s, units, owner, first, last, r);
    }
    forall a, b, u, v | a in s && b in s && Usable(a) && Usable(b)
        && 0 <= u < |units| && 0 <= v < |units| && Inside(a, units[u]) && Inside(b, units[v])
      ensures u == v <==> Connected(s, a, b)
    {
      MergedSameUnit(s, units, owner, first, last, a, b, u, v);
    }
  }

  lemma InBoth(a: seq<RegisterInfo>, b: seq<RegisterInfo>)
    requires forall r :: multiset(b)[r] == if Usable(r) then multiset(a)[r] else 0
    ensures forall r :: r in b <==> r in a && Usable(r)
  {
    forall r
      ensures r in b <==> r in a && Usable(r)
    {
      assert r in b <==> multiset(b)[r] > 0;
      assert r in a <==> multiset(a)[r] > 0;
    }
  }

  /** Components only depends on which usable registers there are. */
  lemma ComponentsOfUsable(a: seq<RegisterInfo>, b: seq<RegisterInfo>, units: seq<Unit>)
    requires forall r :: r in b <==> r in a && Usable(r)
    requires Components(b, units)
    ensures Components(a, units)
  {
    hide Connected, Disjoint, Inside, Usable;
    forall x, y
      ensures Connected(a, x, y) <==> Connected(b, x, y)
    {
      if Connected(a, x, y) { ConnectedIn(a, b, x, y); }
      if Connected(b, x, y) { ConnectedIn(b, a, x, y); }
    }
    forall u | u in units
      ensures Spanned(a, u)
    {
      assert Spanned(b, u);
    }
  }

  /** The constructor's units, for any list of registers. */
  method BuildUnits(registers: seq<RegisterInfo>) returns (units: seq<Unit>)
    requires Fits(registers)
    ensures Components(registers, units)
  {
    hide Connected, Disjoint, Precedes, Components;
    var s := SortUsable(registers);
    InBoth(registers, s);
    units := MergeRegisters(s);
    ComponentsOfUsable(registers, s, units);
  }

  lemma UnitCovered(registers: seq<RegisterInfo>, units: seq<Unit>, others: seq<Unit>, w: Unit) returns (v: nat)
    requires Components(registers, units) && Components(registers, others) && w in units
    ensures v < |others| && others[v].space == w.space
    ensures others[v].offset <= w.offset && w.offset + w.size <= others[v].offset + others[v].size
    ensures exists r :: r in registers && Usable(r) && Inside(r, w) && Inside(r, others[v])
  {
    hide Connected, Disjoint;
    assert Spanned(registers, w);
    var first, last :|
      && first in registers && Usable(first) && Inside(first, w) && first.offset == w.offset
      && last in registers && Usable(last) && Inside(last, w) && End(last) == w.offset + w.size;
    var u :| 0 <= u < |units| && units[u] == w;
    assert Connected(registers, first, last);
    v :| 0 <= v < |others| && Inside(first, others[v]);
    var x :| 0 <= x < |others| && Inside(last, others[x]);
    assert v == x;
  }

  /** The units are determined by the registers, whatever their order. */
  lemma ComponentsUnique(registers: seq<RegisterInfo>, units: seq<Unit>, others: seq<Unit>, w: Unit)
    requires Components(registers, units) && Components(registers, others) && w in units
    ensures w in others
  {
    hide Connected, Spanned;
    var v := UnitCovered(registers, units, others, w);
    var x := UnitCovered(registers, others, units, others[v]);
    var r :| r in registers && Usable(r) && Inside(r, w) && Inside(r, others[v]);
    var u :| 0 <= u < |units| && units[u] == w;
    assert Inside(r, units[x]);
    InsideOneUnit(units, r, u, x);
    assert others[v] == w;
  }

  // ----- the units, byte by byte ----------------------------------------------------------

  predicate HasByte(r: RegisterInfo, space: string, x: nat) {
    r.space == space != "" && r.offset <= x < r.offset + r.size
  }

  predicate UnitByte(u: Unit, space: string, x: nat) {
    u.space == space && u.offset <= x < u.offset + u.size
  }

  /** A chain that starts at or before x and ends after x + 1 has a register with
      both bytes: where two registers meet, they overlap. */
  lemma {:induction false} ChainCrosses(registers: seq<RegisterInfo>, c: seq<RegisterInfo>, x: nat)
    returns (r: RegisterInfo)
    requires IsChain(registers, c) && c[0].offset <= x && x + 1 < End(c[|c| - 1])
    ensures r in registers && HasByte(r, c[0].space, x) && HasByte(r, c[0].space, x + 1)
    decreases |c|
  {
    if x + 1 < End(c[0]) {
      r := c[0];
    } else {
      assert Touch(c[0], c[1]);
      var rest := c[1..];
      assert forall i :: 0 <= i < |rest| ==> rest[i] == c[i + 1];
      r := ChainCrosses(registers, rest, x);
    }
  }

  /** A register that is more than nothing lies in one unit and meets no other. */
  lemma RegisterHasUnit(registers: seq<RegisterInfo>, units: seq<Unit>, r: RegisterInfo) returns (u: nat)
    requires Components(registers, units) && r in registers && r.space != "" && r.size != 0
    ensures u < |units|
    ensures forall x :: HasByte(r, r.space, x) ==> UnitByte(units[u], r.space, x)
    ensures forall v, x :: 0 <= v < |units| && v != u && HasByte(r, r.space, x) ==> !UnitByte(units[v], r.space, x)
  {
    hide Connected, Spanned;
    u :| 0 <= u < |units| && Inside(r, units[u]);
    forall v, x | 0 <= v < |units| && v != u && HasByte(r, r.space, x)
      ensures !UnitByte(units[v], r.space, x)
    {
      assert Apart(units[u], units[v]);
    }
  }

  /** Two bytes next to each other in a unit belong to one register. */
  lemma UnitHoldsTogether(registers: seq<RegisterInfo>, units: seq<Unit>, w: Unit, x: nat) returns (r: RegisterInfo)
    requires Components(registers, units) && w in units && UnitByte(w, w.space, x) && UnitByte(w, w.space, x + 1)
    ensures r in registers && HasByte(r, w.space, x) && HasByte(r, w.space, x + 1)
  {
    hide Disjoint;
    assert Spanned(registers, w);
    var first, last :|
      && first in registers && Usable(first) && Inside(first, w) && first.offset == w.offset
      && last in registers && Usable(last) && Inside(last, w) && End(last) == w.offset + w.size;
    var u :| 0 <= u < |units| && units[u] == w;
    assert Connected(registers, first, last);
    var c :| IsChain(registers, c) && c[0] == first && c[|c| - 1] == last;
    r := ChainCrosses(registers, c, x);
  }

  /** Every byte of a unit belongs to a register. */
  lemma UnitByteHasRegister(registers: seq<RegisterInfo>, units: seq<Unit>, w: Unit, x: nat)
    returns (r: RegisterInfo)
    requires Components(registers, units) && w in units && UnitByte(w, w.space, x)
    ensures r in registers && HasByte(r, w.space, x)
  {
    if x + 1 < w.offset + w.size {
      r := UnitHoldsTogether(registers, units, w, x);
    } else {
      hide Connected, Disjoint;
      assert Spanned(registers, w);
      r :| r in registers && Usable(r) && Inside(r, w) && End(r) == w.offset + w.size;
    }
  }

  /** One register has both bytes. */
  ghost predicate Held(registers: seq<RegisterInfo>, space: string, x: nat, y: nat) {
    exists r :: r in registers && HasByte(r, space, x) && HasByte(r, space, y)
  }

  /** One unit has both bytes. */
  ghost predicate Together(units: seq<Unit>, space: string, x: nat, y: nat) {
    exists u :: 0 <= u < |units| && UnitByte(units[u], space, x) && UnitByte(units[u], space, y)
  }

  /** The units in terms of bytes alone: a byte is in some unit exactly if a register
      has it, never in two, and two bytes next to each other are in one unit exactly
      if some register has both. */
  lemma UnitsOfBytes(registers: seq<RegisterInfo>, units: seq<Unit>, space: string, x: nat)
    requires Components(registers, units)
    ensures Together(units, space, x, x) <==> Held(registers, space, x, x)
    ensures Together(units, space, x, x + 1) <==> Held(registers, space, x, x + 1)
    ensures forall u: nat, v: nat | u < |units| && v < |units| ::
              UnitByte(units[u], space, x) && UnitByte(units[v], space, x) ==> u == v
  {
    hide Connected, Spanned;
    assert Disjoint(units);
    forall u: nat, v: nat | u < |units| && v < |units|
      ensures UnitByte(units[u], space, x) && UnitByte(units[v], space, x) ==> u == v
    {
      var one, other := units[u], units[v];
      assert u == v || Apart(one, other);
    }
    hide Components, Disjoint;
    if Held(registers, space, x, x) {
      var r :| r in registers && HasByte(r, space, x);
      var u := RegisterHasUnit(registers, units, r);
      assert UnitByte(units[u], space, x);
    }
    if Held(registers, space, x, x + 1) {
      var r :| r in registers && HasByte(r, space, x) && HasByte(r, space, x + 1);
      var u := RegisterHasUnit(registers, units, r);
      assert UnitByte(units[u], space, x) && UnitByte(units[u], space, x + 1);
    }
    if Together(units, space, x, x) {
      var u :| 0 <= u < |units| && UnitByte(units[u], space, x);
      var r := UnitByteHasRegister(registers, units, units[u], x);
    }
    if Together(units, space, x, x + 1) {
      var u :| 0 <= u < |units| && UnitByte(units[u], space, x) && UnitByte(units[u], space, x + 1);
      var r := UnitHoldsTogether(registers, units, units[u], x);
    }
  }
}
