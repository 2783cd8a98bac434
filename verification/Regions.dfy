/** The region table of a virtual-memory pool: first-fit allocation that keeps the table a tiling of
    the pool's address range. */
module Regions {
  import opened PhysicalMemory
  import opened FramePools

  const MAX_REGIONS: nat := 341

  datatype Region = Region(base: Word, size: Word, available: bool) {
    predicate Holds(a: nat) {
      base <= a < base + size
    }

    /** `base + size` in 32-bit arithmetic: 0 for a region that ends at 4 GB. */
    function End(): Word {
      (base + size) % 0x1_0000_0000
    }

    /** The test that is_legitimate makes of a slot. */
    predicate Answers(a: nat) {
      base <= a < End() && !available
    }

    predicate Fits(need: nat) {
      available && size >= need
    }
  }

  const EMPTY := Region(0, 0, false)

  /** Slots `0..last` of the table are regions; the rest are spare. */
  datatype RegionTable = RegionTable(regions: seq<Region>, last: nat) {
    ghost predicate Shaped() {
      |regions| == MAX_REGIONS && last < MAX_REGIONS
    }
  }

  /** The requested size rounded up to whole pages, in 32-bit arithmetic. */
  function RoundUp(size: Word): Word {
    if size % 4096 > 0 then (size / 4096 + 1) * 4096 % 0x1_0000_0000 else size
  }

  /** The least region before `last` that is available and large enough. */
  function FirstFit(t: RegionTable, need: Word, from: nat): (r: Option<nat>)
    requires t.Shaped() && from <= t.last
    ensures r.Some? ==> from <= r.value < t.last && t.regions[r.value].Fits(need)
    ensures forall i | from <= i < (if r.Some? then r.value else t.last) :: !t.regions[i].Fits(need)
    decreases t.last - from
  {
    if from == t.last then None
    else if t.regions[from].Fits(need) then Some(from)
    else FirstFit(t, need, from + 1)
  }

  /** `regions[j] = regions[j-1]` for `j` from `m` down to `i + 1`. */
  function ShiftRight(r: seq<Region>, i: nat, m: nat): (r': seq<Region>)
    requires i <= m < |r|
    ensures |r'| == |r|
  {
    r[..i + 1] + r[i..m] + r[m + 1..]
  }

  /** Region `i` cut to `need` bytes and taken. */
  function Take(t: RegionTable, i: nat, need: Word): seq<Region>
    requires t.Shaped() && i <= t.last
  {
    t.regions[i := t.regions[i].(size := need, available := false)]
  }

  /** The whole of region `i` taken: all that a full table allows. */
  function TakeWhole(t: RegionTable, i: nat): RegionTable
    requires t.Shaped() && i <= t.last
  {
    t.(regions := t.regions[i := t.regions[i].(available := false)])
  }

  /** Region `i` cut in two, the regions after it moved up one slot. */
  function Split(t: RegionTable, i: nat, need: Word): RegionTable
    requires t.Shaped() && i < t.last < MAX_REGIONS - 1 && need <= t.regions[i].size
  {
    var r := ShiftRight(Take(t, i, need), i, t.last + 1);
    RegionTable(r[i + 1 := Region(Take(t, i, need)[i].End(), t.regions[i].size - need, true)], t.last + 1)
  }

  /** The last region cut in two; its rest, perhaps empty, becomes the new last region. */
  function SplitLast(t: RegionTable, need: Word): RegionTable
    requires t.Shaped() && t.last < MAX_REGIONS - 1 && need <= t.regions[t.last].size
  {
    var r := Take(t, t.last, need);
    RegionTable(r[t.last + 1 := Region(r[t.last].End(), t.regions[t.last].size - need, true)], t.last + 1)
  }

  /** What the last region can give when none before it fits. */
  function AllocateLast(t: RegionTable, need: Word): (nat, RegionTable)
    requires t.Shaped()
  {
    if t.regions[t.last].Fits(need) then
      (t.regions[t.last].base, if t.last < MAX_REGIONS - 1 then SplitLast(t, need) else TakeWhole(t, t.last))
    else (0, t)
  }

  /** The address returned (0 for none) and the table afterwards. */
  function Allocate(t: RegionTable, need: Word): (r: (nat, RegionTable))
    requires t.Shaped()
    ensures r.1.Shaped()
  {
    match FirstFit(t, need, 0)
    case None => AllocateLast(t, need)
    case Some(i) =>
      (t.regions[i].base,
       if t.last == MAX_REGIONS - 1 then TakeWhole(t, i)
       else if t.regions[i].size > need then Split(t, i, need)
       else RegionTable(Take(t, i, need), t.last))
  }

  /** The split as coded: the shift starts at slot `last`, whose region it overwrites, and the new
      base is computed from the slot that ends up there; the guard looks at `i`, not at `last`. */
  function AllocateAsCoded(t: RegionTable, need: Word): (nat, RegionTable)
    requires t.Shaped()
  {
    match FirstFit(t, need, 0)
    case None => AllocateLast(t, need)
    case Some(i) =>
      (t.regions[i].base,
       if t.regions[i].size > need then
         var r := ShiftRight(Take(t, i, need), i, t.last);
         RegionTable(r[i + 1 := Region(r[t.last].End(), t.regions[i].size - need, true)], t.last + 1)
       else RegionTable(Take(t, i, need), t.last))
  }

  /** The least region before `last` that starts at `start`. */
  function Find(t: RegionTable, start: nat, from: nat): (r: Option<nat>)
    requires t.Shaped() && from <= t.last
    ensures r.Some? ==> from <= r.value < t.last && t.regions[r.value].base == start
    ensures forall i | from <= i < (if r.Some? then r.value else t.last) :: t.regions[i].base != start
    decreases t.last - from
  {
    if from == t.last then None
    else if t.regions[from].base == start then Some(from)
    else Find(t, start, from + 1)
  }

  function Release(t: RegionTable, start: nat): (t': RegionTable)
    requires t.Shaped()
    ensures t'.Shaped()
  {
    match Find(t, start, 0)
    case None => t
    case Some(i) => t.(regions := t.regions[i := t.regions[i].(available := true)])
  }

  /** The table scan of is_legitimate, over every slot. */
  predicate Legitimate(r: seq<Region>, a: nat) {
    exists i | 0 <= i < |r| :: r[i].Answers(a)
  }

  // ----- tiling -----

  /** The pool's range: whole pages, not starting at 0, inside the 32-bit address space. */
  datatype Range = Range(base: Word, size: Word) {
    predicate Valid() {
      0 < base && base + size <= 0x1_0000_0000 && base % 4096 == 0 && size % 4096 == 0
    }

    /** The range ends below 4 GB, so that no end of a region wraps. */
    predicate EndsBelow() {
      base + size < 0x1_0000_0000
    }
  }

  /** Each region is followed immediately by the next. */
  ghost predicate Adjacent(r: seq<Region>, last: nat)
    requires last < |r|
  {
    forall i | 0 <= i < last :: r[i + 1].base == r[i].base + r[i].size
  }

  ghost predicate WholePages(r: seq<Region>, last: nat)
    requires last < |r|
  {
    forall i | 0 <= i <= last :: r[i].base % 4096 == 0 && r[i].size % 4096 == 0
  }

  ghost predicate SpareEmpty(r: seq<Region>, last: nat) {
    forall i | last < i < |r| :: r[i] == EMPTY
  }

  /** Regions `0..last` cover the range in address order, without gap or overlap, in whole pages. */
  ghost predicate Covers(t: RegionTable, p: Range) {
    && t.Shaped() && p.Valid()
    && t.regions[0].base == p.base
    && t.regions[t.last].base + t.regions[t.last].size == p.base + p.size
    && Adjacent(t.regions, t.last)
    && WholePages(t.regions, t.last)
  }

  /** They do, and the spare slots are empty. */
  ghost predicate Tiles(t: RegionTable, p: Range) {
    Covers(t, p) && SpareEmpty(t.regions, t.last)
  }

  /** Address `a` lies in a region that is allocated. */
  ghost predicate Live(t: RegionTable, a: nat)
    requires t.Shaped()
  {
    exists i | 0 <= i <= t.last :: t.regions[i].Holds(a) && !t.regions[i].available
  }

  function Initial(p: Range): RegionTable {
    RegionTable([Region(p.base, p.size, true)] + seq(MAX_REGIONS - 1, _ => EMPTY), 0)
  }

  lemma InitialTiles(p: Range)
    requires p.Valid()
    ensures Tiles(Initial(p), p) && forall a: nat :: !Live(Initial(p), a)
  {
  }

  lemma {:induction false} InOrder(t: RegionTable, p: Range, i: nat, j: nat)
    requires Covers(t, p) && i < j <= t.last
    ensures t.regions[i].base + t.regions[i].size <= t.regions[j].base
    decreases j
  {
    if i + 1 < j { InOrder(t, p, i, j - 1); }
  }

  /** Every region lies in the range. */
  lemma InRange(t: RegionTable, p: Range, i: nat)
    requires Covers(t, p) && i <= t.last
    ensures p.base <= t.regions[i].base && t.regions[i].base + t.regions[i].size <= p.base + p.size
  {
    if 0 < i { InOrder(t, p, 0, i); }
    if i < t.last { InOrder(t, p, i, t.last); }
  }

  /** No address lies in two regions. */
  lemma AtMostOneRegion(t: RegionTable, p: Range, i: nat, j: nat, a: nat)
    requires Covers(t, p) && i <= t.last && j <= t.last && t.regions[i].Holds(a) && t.regions[j].Holds(a)
    ensures i == j
  {
    if i < j { InOrder(t, p, i, j); }
    if j < i { InOrder(t, p, j, i); }
  }

  /** Every address of the range lies in a region. */
  lemma {:induction false} SomeRegion(t: RegionTable, p: Range, a: nat, n: nat) returns (i: nat)
    requires Covers(t, p) && n <= t.last && p.base <= a < t.regions[n].base + t.regions[n].size
    ensures i <= n && t.regions[i].Holds(a)
    decreases n
  {
    if t.regions[n].base <= a {
      i := n;
    } else {
      i := SomeRegion(t, p, a, n - 1);
    }
  }

  // ----- the legitimacy test -----

  /** The scan answers exactly for the addresses in allocated regions. */
  ghost predicate Sound(t: RegionTable)
    requires t.Shaped()
  {
    forall a: nat :: Legitimate(t.regions, a) <==> Live(t, a)
  }

  /** A spare slot `s` that the scan may pass over: available, or empty, or inside the range and clear
      of every available region. */
  ghost predicate Harmless(t: RegionTable, p: Range, s: Region)
    requires t.Shaped()
  {
    || s.available || s.End() <= s.base
    || (&& p.base <= s.base && s.End() <= p.base + p.size
        && forall k | 0 <= k <= t.last && t.regions[k].available && t.regions[k].size > 0 ::
             s.End() <= t.regions[k].base || t.regions[k].base + t.regions[k].size <= s.base)
  }

  /** A region's end wraps only at 4 GB, and then it is the last. */
  lemma EndOf(t: RegionTable, p: Range, i: nat)
    requires Covers(t, p) && i <= t.last
    ensures var r := t.regions[i];
      r.End() == if i == t.last && !p.EndsBelow() then 0 else r.base + r.size
  {
    if i < t.last { assert t.regions[i + 1].base == t.regions[i].base + t.regions[i].size; }
  }

  /** The exact condition for the scan of every slot to be right: the pool ends below 4 GB or its last
      region is available, and every spare slot is harmless. */
  lemma ScanExactly(t: RegionTable, p: Range)
    requires Covers(t, p)
    ensures Sound(t) <==>
      && (p.EndsBelow() || t.regions[t.last].available)
      && forall i | t.last < i < MAX_REGIONS :: Harmless(t, p, t.regions[i])
  {
    hide Covers, Harmless, Live, Region.End;
    assert t.Shaped() by { CoversShaped(t, p); }
    if (p.EndsBelow() || t.regions[t.last].available)
      && forall i | t.last < i < MAX_REGIONS :: Harmless(t, p, t.regions[i]) {
      forall a: nat ensures Legitimate(t.regions, a) <==> Live(t, a) {
        if Legitimate(t.regions, a) {
          var i :| 0 <= i < |t.regions| && t.regions[i].Answers(a);
          AnsweredIsLive(t, p, i, a);
        }
        if Live(t, a) { LiveIsAnswered(t, p, a); }
      }
    }
    if Sound(t) {
      if !p.EndsBelow() && !t.regions[t.last].available { TopNotAnswered(t, p); }
      forall i | t.last < i < MAX_REGIONS ensures Harmless(t, p, t.regions[i]) {
        SoundSlotHarmless(t, p, i);
      }
    }
  }

  lemma CoversShaped(t: RegionTable, p: Range)
    requires Covers(t, p)
    ensures t.Shaped()
  {
  }

  lemma AnsweredIsLive(t: RegionTable, p: Range, i: nat, a: nat)
    requires Covers(t, p) && i < MAX_REGIONS && t.regions[i].Answers(a)
    requires i > t.last ==> Harmless(t, p, t.regions[i])
    ensures Live(t, a)
  {
    hide Region.End;
    if i <= t.last {
      EndOf(t, p, i);
      assert t.regions[i].Holds(a);
    } else {
      var k := SomeRegion(t, p, a, t.last);
      assert t.regions[k].Holds(a);
    }
  }

  lemma LiveIsAnswered(t: RegionTable, p: Range, a: nat)
    requires Covers(t, p) && Live(t, a) && (p.EndsBelow() || t.regions[t.last].available)
    ensures Legitimate(t.regions, a)
  {
    hide Region.End;
    var i :| 0 <= i <= t.last && t.regions[i].Holds(a) && !t.regions[i].available;
    EndOf(t, p, i);
    assert t.regions[i].Answers(a);
  }

  /** Allocated up to 4 GB, the last byte is missed: no 32-bit end lies beyond it. */
  lemma TopNotAnswered(t: RegionTable, p: Range)
    requires Covers(t, p) && !p.EndsBelow() && !t.regions[t.last].available
    ensures !Sound(t)
  {
    assert t.regions[t.last].Holds(0xFFFF_FFFF);
    assert Live(t, 0xFFFF_FFFF) && !Legitimate(t.regions, 0xFFFF_FFFF);
  }

  lemma SoundSlotHarmless(t: RegionTable, p: Range, i: nat)
    requires Covers(t, p) && Sound(t) && t.last < i < MAX_REGIONS
    ensures Harmless(t, p, t.regions[i])
  {
    hide Region.End, Covers, Live;
    assert t.Shaped() by { CoversShaped(t, p); }
    var s := t.regions[i];
    if !s.available && s.base < s.End() {
      forall a: nat | s.base <= a < s.End() ensures Live(t, a) {
        assert t.regions[i].Answers(a);
      }
      LiveInRange(t, p, s.base);
      LiveInRange(t, p, s.End() - 1);
      forall k | 0 <= k <= t.last && t.regions[k].available && t.regions[k].size > 0
        ensures s.End() <= t.regions[k].base || t.regions[k].base + t.regions[k].size <= s.base
      {
        var a := if s.base < t.regions[k].base then t.regions[k].base else s.base;
        if a < s.End() && t.regions[k].Holds(a) { LiveNotAvailable(t, p, a, k); }
      }
    }
  }

  lemma LiveInRange(t: RegionTable, p: Range, a: nat)
    requires Covers(t, p) && Live(t, a)
    ensures p.base <= a < p.base + p.size
  {
    var i :| 0 <= i <= t.last && t.regions[i].Holds(a) && !t.regions[i].available;
    InRange(t, p, i);
  }

  lemma LiveNotAvailable(t: RegionTable, p: Range, a: nat, k: nat)
    requires Covers(t, p) && Live(t, a) && k <= t.last && t.regions[k].Holds(a)
    ensures !t.regions[k].available
  {
    var i :| 0 <= i <= t.last && t.regions[i].Holds(a) && !t.regions[i].available;
    AtMostOneRegion(t, p, i, k, a);
  }

  // ----- allocation -----

  /** The regions of a table after `i` was cut to `need` bytes and the rest put after it. */
  lemma SplitAt(t: RegionTable, i: nat, need: Word, k: nat)
    requires t.Shaped() && i < t.last < MAX_REGIONS - 1 && need <= t.regions[i].size && k < MAX_REGIONS
    ensures Split(t, i, need).regions[k] ==
      if k < i then t.regions[k]
      else if k == i then Region(t.regions[i].base, need, false)
      else if k == i + 1 then Region(Region(t.regions[i].base, need, false).End(), t.regions[i].size - need, true)
      else if k <= t.last + 1 then t.regions[k - 1]
      else t.regions[k]
  {
  }

  /** `t'` is `t` with region `i` cut to `need` bytes and the rest put after it. */
  ghost predicate CutAt(t: RegionTable, t': RegionTable, i: nat, need: Word) {
    && t.Shaped() && t'.Shaped() && i < t.last && t'.last == t.last + 1 && need <= t.regions[i].size
    && (forall k | 0 <= k < i :: t'.regions[k] == t.regions[k])
    && t'.regions[i] == Region(t.regions[i].base, need, false)
    && t'.regions[i + 1].base == t.regions[i].base + need
    && t'.regions[i + 1].size == t.regions[i].size - need
    && (forall k | i + 1 < k <= t'.last :: t'.regions[k] == t.regions[k - 1])
    && (forall k | t'.last < k < MAX_REGIONS :: t'.regions[k] == t.regions[k])
  }

  lemma SplitCuts(t: RegionTable, p: Range, i: nat, need: Word)
    requires Covers(t, p) && i < t.last < MAX_REGIONS - 1 && need <= t.regions[i].size
    ensures CutAt(t, Split(t, i, need), i, need)
  {
    hide Split, Region.End;
    SplitShape(t, i, need);
    assert t.regions[i + 1].base == t.regions[i].base + t.regions[i].size;
    CutEnd(t.regions[i].base, need);
    SplitAt(t, i, need, i);
    SplitAt(t, i, need, i + 1);
    SplitElsewhere(t, i, need);
  }

  lemma SplitElsewhere(t: RegionTable, i: nat, need: Word)
    requires t.Shaped() && i < t.last < MAX_REGIONS - 1 && need <= t.regions[i].size
    ensures Split(t, i, need).Shaped()
    ensures forall k | 0 <= k < i :: Split(t, i, need).regions[k] == t.regions[k]
    ensures forall k | i + 1 < k <= t.last + 1 :: Split(t, i, need).regions[k] == t.regions[k - 1]
    ensures forall k | t.last + 1 < k < MAX_REGIONS :: Split(t, i, need).regions[k] == t.regions[k]
  {
    hide Split, Region.End;
    SplitShape(t, i, need);
    forall k | 0 <= k < i ensures Split(t, i, need).regions[k] == t.regions[k] {
      SplitAt(t, i, need, k);
    }
    forall k | i + 1 < k <= t.last + 1 ensures Split(t, i, need).regions[k] == t.regions[k - 1] {
      SplitAt(t, i, need, k);
    }
    forall k | t.last + 1 < k < MAX_REGIONS ensures Split(t, i, need).regions[k] == t.regions[k] {
      SplitAt(t, i, need, k);
    }
  }

  lemma CutCovers(t: RegionTable, t': RegionTable, p: Range, i: nat, need: Word)
    requires Covers(t, p) && CutAt(t, t', i, need) && need % 4096 == 0
    ensures Covers(t', p)
  {
    hide Adjacent, WholePages;
    CutAdjacent(t, t', i, need);
    CutWholePages(t, t', i, need);
    assert t'.regions[t'.last].base + t'.regions[t'.last].size == p.base + p.size;
  }

  lemma CutAdjacent(t: RegionTable, t': RegionTable, i: nat, need: Word)
    requires CutAt(t, t', i, need) && Adjacent(t.regions, t.last)
    ensures Adjacent(t'.regions, t'.last)
  {
    forall k | 0 <= k < t'.last
      ensures t'.regions[k + 1].base == t'.regions[k].base + t'.regions[k].size
    {
      if k < i {
        assert t.regions[k + 1].base == t.regions[k].base + t.regions[k].size;
      } else if k > i {
        assert t.regions[k].base == t.regions[k - 1].base + t.regions[k - 1].size;
      }
    }
  }

  lemma CutWholePages(t: RegionTable, t': RegionTable, i: nat, need: Word)
    requires CutAt(t, t', i, need) && WholePages(t.regions, t.last) && need % 4096 == 0
    ensures WholePages(t'.regions, t'.last)
  {
    forall k | 0 <= k <= t'.last
      ensures t'.regions[k].base % 4096 == 0 && t'.regions[k].size % 4096 == 0
    {
      if k < i {
        assert t'.regions[k] == t.regions[k];
      } else if k > i + 1 {
        assert t'.regions[k] == t.regions[k - 1];
      }
    }
  }

  lemma CutEnd(base: Word, size: Word)
    ensures base + size < 0x1_0000_0000 ==> Region(base, size, false).End() == base + size
  {
  }

  lemma SplitShape(t: RegionTable, i: nat, need: Word)
    requires t.Shaped() && i < t.last < MAX_REGIONS - 1 && need <= t.regions[i].size
    ensures Split(t, i, need).Shaped() && Split(t, i, need).last == t.last + 1
  {
  }

  lemma SplitLive(t: RegionTable, i: nat, need: Word, a: nat)
    requires t.Shaped() && i < t.last < MAX_REGIONS - 1 && need <= t.regions[i].size && t.regions[i].available
    ensures Split(t, i, need).Shaped()
    ensures Live(Split(t, i, need), a) <==>
      Live(t, a) || t.regions[i].base <= a < t.regions[i].base + need
  {
    var t' := Split(t, i, need);
    SplitShape(t, i, need);
    hide Split;
    if Live(t, a) {
      var k :| 0 <= k <= t.last && t.regions[k].Holds(a) && !t.regions[k].available;
      SplitAt(t, i, need, if k < i then k else k + 1);
      assert t'.regions[if k < i then k else k + 1] == t.regions[k];
    }
    SplitAt(t, i, need, i);
    if Live(t', a) {
      var k :| 0 <= k <= t'.last && t'.regions[k].Holds(a) && !t'.regions[k].available;
      SplitAt(t, i, need, k);
      if k != i {
        assert t.regions[if k < i then k else k - 1] == t'.regions[k];
      }
    }
  }

  /** How much a successful request is given. */
  function Granted(t: RegionTable, need: Word): nat
    requires t.Shaped()
  {
    if t.last < MAX_REGIONS - 1 then need
    else match FirstFit(t, need, 0)
      case Some(i) => t.regions[i].size
      case None => t.regions[t.last].size
  }

  /** Region `i` can serve the request, and none before it can. */
  ghost predicate FirstThatFits(t: RegionTable, need: Word, i: nat) {
    t.Shaped() && i <= t.last && t.regions[i].Fits(need) && forall j | 0 <= j < i :: !t.regions[j].Fits(need)
  }

  /** The request takes the whole of the last region, and that ends at 4 GB: the base of the empty
      region after it wraps to 0. */
  ghost predicate TakesTop(t: RegionTable, p: Range, need: Word)
    requires t.Shaped()
  {
    && FirstFit(t, need, 0).None? && t.regions[t.last].Fits(need) && t.last < MAX_REGIONS - 1
    && need == t.regions[t.last].size && !p.EndsBelow()
  }

  /** An allocation keeps the cover exactly when it does not take the whole top of a pool that ends at
      4 GB; spare slots beyond the new last region stay as they were. */
  lemma AllocateCovers(t: RegionTable, p: Range, need: Word)
    requires Covers(t, p) && need % 4096 == 0
    ensures Covers(Allocate(t, need).1, p) <==> !TakesTop(t, p, need)
    ensures t.last <= Allocate(t, need).1.last
    ensures forall k | Allocate(t, need).1.last < k < MAX_REGIONS :: Allocate(t, need).1.regions[k] == t.regions[k]
  {
    hide Split, SplitLast, Covers;
    CoversShaped(t, p);
    var fit := FirstFit(t, need, 0);
    var i := if fit.Some? then fit.value else t.last;
    if t.regions[i].Fits(need) {
      if t.last == MAX_REGIONS - 1 {
        TakenCovers(t, p, i, t.regions[i].size);
      } else if i == t.last {
        SplitLastCovers(t, p, need);
      } else if t.regions[i].size > need {
        SplitCuts(t, p, i, need);
        CutCovers(t, Split(t, i, need), p, i, need);
      } else {
        TakenCovers(t, p, i, need);
      }
    }
  }

  lemma TakenCovers(t: RegionTable, p: Range, i: nat, need: Word)
    requires Covers(t, p) && i <= t.last && need == t.regions[i].size
    ensures Covers(RegionTable(Take(t, i, need), t.last), p)
  {
  }

  lemma SplitLastCovers(t: RegionTable, p: Range, need: Word)
    requires Covers(t, p) && t.last < MAX_REGIONS - 1 && need <= t.regions[t.last].size && need % 4096 == 0
    ensures SplitLast(t, need).Shaped() && SplitLast(t, need).last == t.last + 1
    ensures forall k | t.last + 1 < k < MAX_REGIONS :: SplitLast(t, need).regions[k] == t.regions[k]
    ensures Covers(SplitLast(t, need), p) <==> !(need == t.regions[t.last].size && !p.EndsBelow())
  {
    hide Covers, SplitLast;
    CoversShaped(t, p);
    SplitLastParts(t, p, need);
    if need == t.regions[t.last].size && !p.EndsBelow() {
      WrappedLast(t, SplitLast(t, need), p);
    } else {
      LastCutCovers(t, SplitLast(t, need), p, need);
    }
  }

  lemma SplitLastParts(t: RegionTable, p: Range, need: Word)
    requires Covers(t, p) && t.last < MAX_REGIONS - 1 && need <= t.regions[t.last].size
    ensures var t', l := SplitLast(t, need), t.regions[t.last];
      && t'.Shaped() && t'.last == t.last + 1
      && (forall k | 0 <= k < MAX_REGIONS && k != t.last && k != t.last + 1 :: t'.regions[k] == t.regions[k])
      && t'.regions[t.last] == Region(l.base, need, false) && t'.regions[t.last + 1].size == l.size - need
      && t'.regions[t.last + 1].base == (if need == l.size && !p.EndsBelow() then 0 else l.base + need)
  {
    hide Region.End;
    CutEnd(t.regions[t.last].base, need);
    WrappedEnd(t.regions[t.last].base, need);
  }

  lemma WrappedLast(t: RegionTable, t': RegionTable, p: Range)
    requires Covers(t, p) && t'.Shaped() && t'.regions[t'.last].base == 0 && t'.regions[t'.last].size == 0
    ensures !Covers(t', p)
  {
  }

  lemma LastCutCovers(t: RegionTable, t': RegionTable, p: Range, need: Word)
    requires Covers(t, p) && t'.Shaped() && t'.last == t.last + 1 && need % 4096 == 0 && need <= t.regions[t.last].size
    requires forall k | 0 <= k < t.last :: t'.regions[k] == t.regions[k]
    requires t'.regions[t.last] == Region(t.regions[t.last].base, need, false)
    requires t'.regions[t.last + 1].base == t.regions[t.last].base + need
    requires t'.regions[t.last + 1].size == t.regions[t.last].size - need
    ensures Covers(t', p)
  {
    hide Adjacent, WholePages;
    LastCutAdjacent(t, t', need);
    LastCutPages(t, t', need);
    assert t.last > 0 ==> t'.regions[0] == t.regions[0];
  }

  lemma LastCutAdjacent(t: RegionTable, t': RegionTable, need: Word)
    requires t.Shaped() && t'.Shaped() && t'.last == t.last + 1 && Adjacent(t.regions, t.last)
    requires forall k | 0 <= k < t.last :: t'.regions[k] == t.regions[k]
    requires t'.regions[t.last] == Region(t.regions[t.last].base, need, false)
    requires t'.regions[t.last + 1].base == t.regions[t.last].base + need
    ensures Adjacent(t'.regions, t'.last)
  {
    forall k | 0 <= k < t'.last
      ensures t'.regions[k + 1].base == t'.regions[k].base + t'.regions[k].size
    {
      if k < t.last { assert t.regions[k + 1].base == t.regions[k].base + t.regions[k].size; }
    }
  }

  lemma LastCutPages(t: RegionTable, t': RegionTable, need: Word)
    requires t.Shaped() && t'.Shaped() && t'.last == t.last + 1 && WholePages(t.regions, t.last)
    requires need % 4096 == 0 && need <= t.regions[t.last].size
    requires forall k | 0 <= k < t.last :: t'.regions[k] == t.regions[k]
    requires t'.regions[t.last] == Region(t.regions[t.last].base, need, false)
    requires t'.regions[t.last + 1].base == t.regions[t.last].base + need
    requires t'.regions[t.last + 1].size == t.regions[t.last].size - need
    ensures WholePages(t'.regions, t'.last)
  {
    forall k | 0 <= k <= t'.last
      ensures t'.regions[k].base % 4096 == 0 && t'.regions[k].size % 4096 == 0
    {
      if k < t.last { assert t'.regions[k] == t.regions[k]; }
    }
  }

  lemma WrappedEnd(base: Word, size: Word)
    ensures base + size == 0x1_0000_0000 ==> Region(base, size, false).End() == 0
  {
  }

  lemma AllocateTiles(t: RegionTable, p: Range, need: Word)
    requires Tiles(t, p) && need % 4096 == 0
    ensures Tiles(Allocate(t, need).1, p) <==> !TakesTop(t, p, need)
  {
    hide Covers, Allocate, TakesTop;
    CoversShaped(t, p);
    AllocateCovers(t, p, need);
    assert Allocate(t, need).1.Shaped();
  }

  /** First fit is sound and complete. The result is 0 exactly when no single available region is
      large enough; otherwise it is a page address in the range, at which at least `need` bytes,
      allocated to no one before, become live; and nothing else becomes live or stops being so. */
  lemma AllocateTheorem(t: RegionTable, p: Range, need: Word)
    requires Covers(t, p) && need % 4096 == 0
    ensures var (a, t') := Allocate(t, need);
      && (Covers(t', p) <==> !TakesTop(t, p, need))
      && (a == 0 <==> forall i | 0 <= i <= t.last :: !t.regions[i].Fits(need))
      && (a == 0 ==> t' == t)
      && (a != 0 ==>
            && a % 4096 == 0 && p.base <= a && a + Granted(t, need) <= p.base + p.size
            && Granted(t, need) >= need
            && (exists i: nat :: FirstThatFits(t, need, i) && a == t.regions[i].base
                  && Granted(t, need) == if t.last < 340 then need else t.regions[i].size)
            && (forall x: nat | a <= x < a + Granted(t, need) :: !Live(t, x))
            && (forall x: nat :: Live(t', x) <==> Live(t, x) || a <= x < a + Granted(t, need)))
  {
    hide Split, TakesTop;
    AllocateCovers(t, p, need);
    var fit := FirstFit(t, need, 0);
    var i := if fit.Some? then fit.value else t.last;
    InRange(t, p, i);
    if t.regions[i].Fits(need) {
      assert FirstThatFits(t, need, i);
      forall x: nat | t.regions[i].Holds(x)
        ensures !Live(t, x)
      {
        if Live(t, x) {
          var j :| 0 <= j <= t.last && t.regions[j].Holds(x) && !t.regions[j].available;
          AtMostOneRegion(t, p, i, j, x);
        }
      }
      forall x: nat
        ensures Live(Allocate(t, need).1, x) <==>
          Live(t, x) || t.regions[i].base <= x < t.regions[i].base + Granted(t, need)
      {
        AllocateLive(t, need, i, x);
      }
    }
  }

  lemma AllocateLive(t: RegionTable, need: Word, i: nat, x: nat)
    requires t.Shaped() && i <= t.last && t.regions[i].Fits(need)
    requires i == match FirstFit(t, need, 0) case Some(k) => k case None => t.last
    ensures Allocate(t, need).1.Shaped()
    ensures Live(Allocate(t, need).1, x) <==>
      Live(t, x) || t.regions[i].base <= x < t.regions[i].base + Granted(t, need)
  {
    hide Split;
    if i < t.last && t.last < MAX_REGIONS - 1 && t.regions[i].size > need {
      SplitLive(t, i, need, x);
    } else {
      ReplacedLive(t, Allocate(t, need).1, i, x);
    }
  }

  /** Region `i`, available before, is taken (and any new region after the old last one is free). */
  lemma ReplacedLive(t: RegionTable, t': RegionTable, i: nat, x: nat)
    requires t.Shaped() && t'.Shaped() && i <= t.last <= t'.last <= t.last + 1
    requires t.regions[i].available && !t'.regions[i].available
    requires forall k | 0 <= k <= t.last && k != i :: t'.regions[k] == t.regions[k]
    requires t'.last > t.last ==> t'.regions[t'.last].available
    ensures Live(t', x) <==> Live(t, x) || t'.regions[i].Holds(x)
  {
    if Live(t, x) {
      var k :| 0 <= k <= t.last && t.regions[k].Holds(x) && !t.regions[k].available;
      assert t'.regions[k] == t.regions[k];
    }
    if Live(t', x) {
      var k :| 0 <= k <= t'.last && t'.regions[k].Holds(x) && !t'.regions[k].available;
      if k != i { assert t'.regions[k] == t.regions[k]; }
    }
  }

  /** As coded, cutting a region that is reused always loses the last region: the result tiles the
      range exactly when the region reused needs no cut (and the top of a pool that ends at 4 GB is not
      taken whole, which fails as intended too). */
  lemma AsCodedTiles(t: RegionTable, p: Range, need: Word)
    requires Tiles(t, p) && need % 4096 == 0
    ensures var cut := FirstFit(t, need, 0).Some? && t.regions[FirstFit(t, need, 0).value].size > need;
      && (Tiles(AllocateAsCoded(t, need).1, p) <==> !cut && !TakesTop(t, p, need))
      && (!cut ==> AllocateAsCoded(t, need) == Allocate(t, need))
      && (AllocateAsCoded(t, need).1.last == MAX_REGIONS <==> cut && t.last == MAX_REGIONS - 1)
  {
    hide Split;
    var fit := FirstFit(t, need, 0);
    if fit.Some? && t.regions[fit.value].size > need {
      var t' := AllocateAsCoded(t, need).1;
      if t'.last < MAX_REGIONS {
        assert t'.regions[t'.last] == t.regions[t.last + 1] == EMPTY;
      }
    } else {
      AllocateTiles(t, p, need);
    }
  }

  /** Address `x` lies in an allocated region, in whichever slot. */
  ghost predicate HeldIn(r: seq<Region>, x: nat) {
    exists k | 0 <= k < |r| :: r[k].Holds(x) && !r[k].available
  }

  /** What a cut as coded does. The address is the intended one, and so are the bytes taken there; but
      every address of the last region stops being held, and the rest of the cut is put down at the base
      that region had, unless the region cut was the one before it. */
  lemma AsCodedCut(t: RegionTable, p: Range, need: Word)
    requires Tiles(t, p)
    ensures AllocateAsCoded(t, need).0 == Allocate(t, need).0
    ensures FirstFit(t, need, 0).Some? && t.regions[FirstFit(t, need, 0).value].size > need ==>
      var (a, t'), i := AllocateAsCoded(t, need), FirstFit(t, need, 0).value;
      && |t'.regions| == 341 && t'.last == t.last + 1
      && t'.regions[i + 1].size == t.regions[i].size - need && t'.regions[i + 1].available
      && t'.regions[i + 1].base == (if i + 1 == t.last then a + need else t.regions[t.last].base)
      && forall x: nat ::
           HeldIn(t'.regions, x) <==> a <= x < a + need || (Live(t, x) && !t.regions[t.last].Holds(x))
  {
    hide Split, SplitLast, Region.End;
    var fit := FirstFit(t, need, 0);
    if fit.Some? && t.regions[fit.value].size > need {
      var i := fit.value;
      AsCodedSlots(t, p, need, i);
      var t' := AllocateAsCoded(t, need).1;
      forall x: nat
        ensures HeldIn(t'.regions, x) <==>
          t.regions[i].base <= x < t.regions[i].base + need || (Live(t, x) && !t.regions[t.last].Holds(x))
      {
        AsCodedHeld(t, t', p, need, i, x);
      }
    }
  }

  /** The table slot by slot after a cut as coded. */
  ghost predicate CutAsCoded(t: RegionTable, t': RegionTable, need: Word, i: nat)
    requires t.Shaped() && i < t.last && need <= t.regions[i].size
  {
    && |t'.regions| == MAX_REGIONS && t'.last == t.last + 1
    && (forall k | 0 <= k < i :: t'.regions[k] == t.regions[k])
    && t'.regions[i] == Region(t.regions[i].base, need, false)
    && t'.regions[i + 1].size == t.regions[i].size - need && t'.regions[i + 1].available
    && (forall k | i + 1 < k <= t.last :: t'.regions[k] == t.regions[k - 1])
    && (forall k | t.last < k < MAX_REGIONS :: t'.regions[k] == t.regions[k])
  }

  function SlotAsCoded(t: RegionTable, need: Word, i: nat, k: nat): Region
    requires t.Shaped() && i < t.last && need <= t.regions[i].size && k < MAX_REGIONS
  {
    var before := if i + 1 == t.last then Region(t.regions[i].base, need, false) else t.regions[t.last - 1];
    if k < i then t.regions[k]
    else if k == i then Region(t.regions[i].base, need, false)
    else if k == i + 1 then Region(before.End(), t.regions[i].size - need, true)
    else if k <= t.last then t.regions[k - 1]
    else t.regions[k]
  }

  lemma AsCodedSlot(t: RegionTable, need: Word, i: nat, k: nat)
    requires t.Shaped() && FirstFit(t, need, 0) == Some(i) && t.regions[i].size > need && k < MAX_REGIONS
    ensures var (a, t') := AllocateAsCoded(t, need);
      && a == t.regions[i].base && t'.last == t.last + 1 && |t'.regions| == MAX_REGIONS
      && t'.regions[k] == SlotAsCoded(t, need, i, k)
  {
    hide FirstFit, Region.End;
  }

  lemma AsCodedSlots(t: RegionTable, p: Range, need: Word, i: nat)
    requires Covers(t, p) && FirstFit(t, need, 0) == Some(i) && t.regions[i].size > need
    ensures var (a, t') := AllocateAsCoded(t, need);
      && a == t.regions[i].base && CutAsCoded(t, t', need, i)
      && t'.regions[i + 1].base == if i + 1 == t.last then a + need else t.regions[t.last].base
  {
    hide FirstFit, AllocateAsCoded, Adjacent, WholePages, Region.End;
    var t' := AllocateAsCoded(t, need).1;
    AsCodedSlot(t, need, i, i);
    forall k: nat | k < MAX_REGIONS ensures t'.regions[k] == SlotAsCoded(t, need, i, k) {
      AsCodedSlot(t, need, i, k);
    }
    EndOf(t, p, t.last - 1);
    LastEnds(t, p);
    InOrder(t, p, i, t.last);
    CutEnd(t.regions[i].base, need);
  }

  lemma LastEnds(t: RegionTable, p: Range)
    requires Covers(t, p) && t.last > 0
    ensures t.regions[t.last - 1].base + t.regions[t.last - 1].size == t.regions[t.last].base
  {
  }

  lemma AsCodedHeld(t: RegionTable, t': RegionTable, p: Range, need: Word, i: nat, x: nat)
    requires Tiles(t, p) && i < t.last && need <= t.regions[i].size && t.regions[i].available
    requires CutAsCoded(t, t', need, i)
    ensures HeldIn(t'.regions, x) <==>
      t.regions[i].base <= x < t.regions[i].base + need || (Live(t, x) && !t.regions[t.last].Holds(x))
  {
    hide Adjacent, WholePages;
    if HeldIn(t'.regions, x) { AsCodedHeldBefore(t, t', p, need, i, x); }
    if t.regions[i].base <= x < t.regions[i].base + need {
      assert t'.regions[i].Holds(x);
    }
    if Live(t, x) && !t.regions[t.last].Holds(x) {
      var j :| 0 <= j <= t.last && t.regions[j].Holds(x) && !t.regions[j].available;
      assert t'.regions[if j < i then j else j + 1] == t.regions[j];
    }
  }

  lemma AsCodedHeldBefore(t: RegionTable, t': RegionTable, p: Range, need: Word, i: nat, x: nat)
    requires Tiles(t, p) && i < t.last && need <= t.regions[i].size && t.regions[i].available
    requires CutAsCoded(t, t', need, i) && HeldIn(t'.regions, x)
    ensures t.regions[i].base <= x < t.regions[i].base + need || (Live(t, x) && !t.regions[t.last].Holds(x))
  {
    hide Adjacent, WholePages;
    var k :| 0 <= k < |t'.regions| && t'.regions[k].Holds(x) && !t'.regions[k].available;
    if k != i {
      var j := if k < i then k else k - 1;
      assert k <= t.last && t'.regions[k] == t.regions[j];
      if t.regions[t.last].Holds(x) { AtMostOneRegion(t, p, j, t.last, x); }
    }
  }

  // ----- the 32-bit request -----

  /** Rounding loses the request exactly when it is within a page of 4 GB: it then wraps to 0. */
  lemma RoundUpCovers(size: Word)
    ensures RoundUp(size) % 4096 == 0
    ensures RoundUp(size) >= size <==> size <= 0xFFFF_F000
    ensures size <= 0xFFFF_F000 ==> RoundUp(size) < size + 4096
    ensures size > 0xFFFF_F000 ==> RoundUp(size) == 0
  {
  }

  // ----- release -----

  lemma ReleaseTiles(t: RegionTable, p: Range, start: nat)
    requires Tiles(t, p)
    ensures Tiles(Release(t, start), p)
  {
  }

  /** Release ends exactly the region found at its start address. */
  lemma ReleaseTheorem(t: RegionTable, p: Range, start: nat, x: nat)
    requires Tiles(t, p)
    ensures Tiles(Release(t, start), p)
    ensures Live(Release(t, start), x) <==>
      Live(t, x) && !(Find(t, start, 0).Some? && t.regions[Find(t, start, 0).value].Holds(x))
  {
    ReleaseTiles(t, p, start);
    var t' := Release(t, start);
    if Find(t, start, 0).Some? {
      var i := Find(t, start, 0).value;
      if Live(t, x) && !t.regions[i].Holds(x) {
        var k :| 0 <= k <= t.last && t.regions[k].Holds(x) && !t.regions[k].available;
        assert t'.regions[k] == t.regions[k];
      }
      if Live(t', x) {
        var k :| 0 <= k <= t.last && t'.regions[k].Holds(x) && !t'.regions[k].available;
        assert t.regions[k] == t'.regions[k];
        if t.regions[i].Holds(x) { AtMostOneRegion(t, p, i, k, x); }
      }
    }
  }

  /** Every region but the last has bytes: so it has been since boot if no request was for none. */
  ghost predicate NonEmpty(t: RegionTable)
    requires t.Shaped()
  {
    forall i | 0 <= i < t.last :: t.regions[i].size > 0
  }

  lemma NonEmptyKept(t: RegionTable, p: Range, need: Word, start: nat)
    requires Tiles(t, p) && NonEmpty(t) && need > 0 && need % 4096 == 0
    ensures Allocate(t, need).1.Shaped() && NonEmpty(Allocate(t, need).1)
    ensures Release(t, start).Shaped() && NonEmpty(Release(t, start))
  {
    hide Split;
    var fit := FirstFit(t, need, 0);
    if fit.Some? && t.last < MAX_REGIONS - 1 && t.regions[fit.value].size > need {
      SplitShape(t, fit.value, need);
      forall k: nat | k <= t.last
        ensures Split(t, fit.value, need).regions[k].size > 0
      {
        SplitAt(t, fit.value, need, k);
      }
    }
  }

  /** In which slot an allocation is recorded. */
  function Chosen(t: RegionTable, need: Word): nat
    requires t.Shaped()
  {
    match FirstFit(t, need, 0) case Some(i) => i case None => t.last
  }

  lemma ChosenSlot(t: RegionTable, p: Range, need: Word)
    requires Tiles(t, p) && need % 4096 == 0 && Allocate(t, need).0 != 0
    ensures var t' := Allocate(t, need).1; var i := Chosen(t, need);
      && i <= t'.last && i <= t.last
      && t'.regions[i] == Region(Allocate(t, need).0, Granted(t, need), false)
      && (i < t'.last <==> t.last < MAX_REGIONS - 1 || FirstFit(t, need, 0).Some?)
      && t.regions[i].base == t'.regions[i].base
      && (forall k | 0 <= k < i :: t'.regions[k] == t.regions[k])
  {
    hide Split;
    var i := Chosen(t, need);
    if i < t.last < MAX_REGIONS - 1 && t.regions[i].size > need {
      SplitCuts(t, p, i, need);
    }
  }

  /** Releasing the address of a new allocation finds that allocation, and so undoes it, exactly
      when it was not made in the last slot of a full table: release never looks at the last slot. */
  lemma ReleaseUndoesAllocate(t: RegionTable, p: Range, need: Word)
    requires Tiles(t, p) && NonEmpty(t) && need > 0 && need % 4096 == 0 && Allocate(t, need).0 != 0
    ensures var (a, t') := Allocate(t, need);
      (forall x: nat :: Live(Release(t', a), x) <==> Live(t, x))
        <==> t.last < MAX_REGIONS - 1 || FirstFit(t, need, 0).Some?
  {
    hide Allocate, Release, Live, Tiles, Covers, Granted, Region.Holds;
    TilesShaped(t, p);
    var (a, t') := Allocate(t, need);
    var i := Chosen(t, need);
    AllocateTheorem(t, p, need);
    ChosenSlot(t, p, need);
    FindsChosen(t, t', p, a, i);
    if TakesTop(t, p, need) {
      TopReleased(t, p, need);
    } else {
      AllocateTiles(t, p, need);
      forall x: nat
        ensures Live(Release(t', a), x) <==> if i < t'.last then Live(t, x) else Live(t', x)
      {
        ReleaseTheorem(t', p, a, x);
        HoldsIs(t'.regions[i], x);
      }
      if i == t'.last {
        HoldsIs(t'.regions[i], a);
        assert Live(t', a);
      }
    }
  }

  lemma HoldsIs(r: Region, x: nat)
    ensures r.Holds(x) <==> r.base <= x < r.base + r.size
  {
  }

  /** The address of region `i` is found where it was chosen, unless that is the last slot. */
  lemma FindsChosen(t: RegionTable, t': RegionTable, p: Range, a: nat, i: nat)
    requires Covers(t, p) && NonEmpty(t) && i <= t.last && t'.Shaped() && i <= t'.last
    requires t.regions[i].base == a == t'.regions[i].base && forall k | 0 <= k < i :: t'.regions[k] == t.regions[k]
    ensures Find(t', a, 0) == if i < t'.last then Some(i) else None
  {
    forall k: nat | k < i
      ensures t.regions[k].base != a
    {
      InOrder(t, p, k, i);
    }
  }

  /** The top of a pool that ends at 4 GB, taken whole and released: nothing is live that was not. */
  lemma TopReleased(t: RegionTable, p: Range, need: Word)
    requires Tiles(t, p) && NonEmpty(t) && need > 0 && TakesTop(t, p, need) && Allocate(t, need).1.Shaped()
    requires Find(Allocate(t, need).1, Allocate(t, need).0, 0) == Some(t.last)
    ensures forall x: nat :: Live(Release(Allocate(t, need).1, Allocate(t, need).0), x) <==> Live(t, x)
  {
    var t'' := Release(Allocate(t, need).1, Allocate(t, need).0);
    assert t''.last == t.last + 1 && t''.regions[t''.last].available;
    assert forall k | 0 <= k <= t.last :: t''.regions[k] == t.regions[k];
    forall x: nat ensures Live(t'', x) <==> Live(t, x) {
      if Live(t, x) {
        var k :| 0 <= k <= t.last && t.regions[k].Holds(x) && !t.regions[k].available;
        assert t''.regions[k] == t.regions[k];
      }
      if Live(t'', x) {
        var k :| 0 <= k <= t''.last && t''.regions[k].Holds(x) && !t''.regions[k].available;
        assert t''.regions[k] == t.regions[k];
      }
    }
  }

  // ----- runs -----

  datatype RegionOp = Request(size: Word) | GiveUp(start: nat)

  function RegionStep(t: RegionTable, op: RegionOp): RegionTable
    requires t.Shaped()
  {
    match op
    case Request(size) => Allocate(t, RoundUp(size)).1
    case GiveUp(start) => Release(t, start)
  }

  /** What one step changes: a request makes live the bytes it is given, from the address it returns, and a
      release ends those of the region found; every other address is as live as before. */
  lemma StepLives(t: RegionTable, p: Range, op: RegionOp, x: nat)
    requires Tiles(t, p) && t.Shaped()
    ensures op.Request? ==>
      var a := Allocate(t, RoundUp(op.size)).0;
      Live(RegionStep(t, op), x) <==> Live(t, x) || (a != 0 && a <= x < a + Granted(t, RoundUp(op.size)))
    ensures op.GiveUp? ==>
      var i := Find(t, op.start, 0);
      Live(RegionStep(t, op), x) <==> Live(t, x) && !(i.Some? && t.regions[i.value].Holds(x))
  {
    hide Allocate, Release, Live, Granted, RoundUp, Covers;
    match op
    case Request(size) =>
      RoundUpCovers(size);
      AllocateTheorem(t, p, RoundUp(size));
    case GiveUp(start) =>
      ReleaseTheorem(t, p, start, x);
  }

  ghost predicate TilesThroughout(t: RegionTable, p: Range, ops: seq<RegionOp>)
    decreases |ops|
  {
    && Tiles(t, p)
    && (ops != [] ==> TilesThroughout(RegionStep(t, ops[0]), p, ops[1..]))
  }

  /** After any run of requests and releases, at every point of it, the regions of a pool that ends
      below 4 GB tile the range. */
  lemma {:induction false} RunsTile(t: RegionTable, p: Range, ops: seq<RegionOp>)
    requires Tiles(t, p) && p.EndsBelow()
    ensures TilesThroughout(t, p, ops)
    decreases |ops|
  {
    hide Tiles, Allocate, Release;
    if ops != [] {
      assert t.Shaped() by { TilesShaped(t, p); }
      match ops[0] {
        case Request(size) => RoundUpCovers(size); AllocateTiles(t, p, RoundUp(size));
        case GiveUp(start) => ReleaseTiles(t, p, start);
      }
      RunsTile(RegionStep(t, ops[0]), p, ops[1..]);
    }
  }

  lemma TilesShaped(t: RegionTable, p: Range)
    requires Tiles(t, p)
    ensures t.Shaped() && Covers(t, p)
  {
  }

  /** Every run on a fresh pool tiles it exactly when the pool ends below 4 GB. */
  lemma RunsTileExactly(p: Range)
    requires p.Valid()
    ensures (forall ops :: TilesThroughout(Initial(p), p, ops)) <==> p.EndsBelow()
  {
    hide *;
    InitialTiles(p);
    if p.EndsBelow() {
      forall ops ensures TilesThroughout(Initial(p), p, ops) {
        RunsTile(Initial(p), p, ops);
      }
    } else {
      WholePoolFails(p, [Request(p.size)]);
    }
  }

  lemma WholePoolFails(p: Range, ops: seq<RegionOp>)
    requires p.Valid() && !p.EndsBelow() && ops == [Request(p.size)]
    ensures !TilesThroughout(Initial(p), p, ops)
  {
    hide Tiles, Covers, Allocate, TakesTop, Initial, RoundUp;
    InitialTiles(p);
    WholePool(p);
    AllocateTiles(Initial(p), p, p.size);
    assert !Tiles(RegionStep(Initial(p), ops[0]), p);
    assert !TilesThroughout(RegionStep(Initial(p), ops[0]), p, ops[1..]);
  }

  lemma WholePool(p: Range)
    requires p.Valid() && !p.EndsBelow()
    ensures Initial(p).Shaped() && RoundUp(p.size) == p.size && TakesTop(Initial(p), p, p.size)
  {
  }

  // ----- uninitialised slots -----

  /** Every spare slot is available, or holds no address in 32-bit arithmetic. */
  ghost predicate SpareQuiet(r: seq<Region>, last: nat) {
    forall i | last < i < |r| :: r[i].available || r[i].End() <= r[i].base
  }

  ghost predicate SoundThroughout(t: RegionTable, ops: seq<RegionOp>)
    requires t.Shaped()
    decreases |ops|
  {
    Sound(t) && (ops != [] ==> SoundThroughout(RegionStep(t, ops[0]), ops[1..]))
  }

  lemma {:induction false} QuietRunsSound(t: RegionTable, p: Range, ops: seq<RegionOp>)
    requires Covers(t, p) && p.EndsBelow() && SpareQuiet(t.regions, t.last)
    ensures SoundThroughout(t, ops)
    decreases |ops|
  {
    hide Covers, Allocate, Release, SpareQuiet, Sound, TakesTop;
    CoversShaped(t, p);
    QuietSound(t, p);
    if ops != [] {
      QuietStep(t, p, ops[0]);
      QuietRunsSound(RegionStep(t, ops[0]), p, ops[1..]);
    }
  }

  lemma QuietSound(t: RegionTable, p: Range)
    requires Covers(t, p) && p.EndsBelow() && SpareQuiet(t.regions, t.last)
    ensures Sound(t)
  {
    hide Sound, Region.End;
    ScanExactly(t, p);
  }

  lemma QuietStep(t: RegionTable, p: Range, op: RegionOp)
    requires Covers(t, p) && p.EndsBelow() && SpareQuiet(t.regions, t.last)
    ensures Covers(RegionStep(t, op), p) && SpareQuiet(RegionStep(t, op).regions, RegionStep(t, op).last)
  {
    hide Covers, Allocate, Region.End;
    CoversShaped(t, p);
    match op
    case Request(size) =>
      RoundUpCovers(size);
      AllocateCovers(t, p, RoundUp(size));
    case GiveUp(start) =>
      ReleaseCovers(t, p, start);
  }

  lemma ReleaseCovers(t: RegionTable, p: Range, start: nat)
    requires Covers(t, p)
    ensures Covers(Release(t, start), p)
  {
  }

  /** A new pool over slots that hold whatever memory held: the legitimacy test is right, now and at
      every point of every run, exactly when every spare slot is available or holds no address. */
  lemma StaleSlotsExactly(r: seq<Region>, p: Range)
    requires |r| == MAX_REGIONS && p.Valid() && p.EndsBelow() && r[0] == Region(p.base, p.size, true)
    ensures Sound(RegionTable(r, 0)) <==> SpareQuiet(r, 0)
    ensures (forall ops :: SoundThroughout(RegionTable(r, 0), ops)) <==> SpareQuiet(r, 0)
  {
    hide Sound, Region.End;
    var t := RegionTable(r, 0);
    ScanExactly(t, p);
    if Sound(t) {
      forall i | 0 < i < MAX_REGIONS ensures r[i].available || r[i].End() <= r[i].base {
        assert Harmless(t, p, t.regions[i]);
      }
    }
    if SpareQuiet(r, 0) {
      forall ops ensures SoundThroughout(t, ops) { QuietRunsSound(t, p, ops); }
    } else {
      assert !SoundThroughout(t, []);
    }
  }
}
