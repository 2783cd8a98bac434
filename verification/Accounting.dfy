/** No frame serves two purposes, and none is lost: the frames in use are exactly the hole, the
    directory, the first table, and one frame for each present table and page entry. */
module Accounting {
  import opened PhysicalMemory
  import opened FramePools
  import opened Paging
  import opened Translation

  /** The places an ordinary entry can stand: directory slot `d`, or entry `t` of its table. */
  datatype Place = TablePlace(d: nat) | PagePlace(d: nat, t: nat)

  /** The frame that a present entry names; None for an absent one. */
  function Names(s: Ram, pd: nat, x: Place): Option<nat>
    requires pd < FRAMES
  {
    match x
    case TablePlace(d) => if Ordinary(d) && HasTable(s, pd, d) then Some(TableOf(s, pd, d)) else None
    case PagePlace(d, t) => if Ordinary(d) && t < 1024 then Lookup(s, pd, d, t) else None
  }

  ghost function PresentTables(s: Ram, pd: nat): set<Place>
    requires pd < FRAMES
  {
    set d: nat | d < 1024 && Names(s, pd, TablePlace(d)).Some? :: TablePlace(d)
  }

  ghost function PresentPages(s: Ram, pd: nat): set<Place>
    requires pd < FRAMES
  {
    set d: nat, t: nat | d < 1024 && t < 1024 && Names(s, pd, PagePlace(d, t)).Some? :: PagePlace(d, t)
  }

  function RoleOfPlace(x: Place): Role {
    match x
    case TablePlace(d) => Table(d)
    case PagePlace(d, t) => Page(d, t)
  }

  lemma NamedFrameOwned(s: Ram, p: Pool, pd: nat, owner: Owners, x: Place)
    requires WellFormed(s, p, pd, owner) && Names(s, pd, x).Some?
    ensures var f := Names(s, pd, x).value;
      f in owner && owner[f] == RoleOfPlace(x) && InProcessPool(f) && !InHole(f)
      && f != pd && f != TableOf(s, pd, 0) && f in UsedFrames(s, p)
  {
    hide Lookup, UsedFrames, EntryAt, IdentityMap, TablesOwned, PagesOwned;
    match x {
      case TablePlace(d) => OrdinaryTable(s, p, pd, owner, d);
      case PagePlace(d, t) => MappedFrameIsOwned(s, p, pd, owner, d, t);
    }
  }

  /** No two present entries name the same frame. */
  lemma FramesAreExclusive(s: Ram, p: Pool, pd: nat, owner: Owners, x: Place, y: Place)
    requires WellFormed(s, p, pd, owner)
    requires Names(s, pd, x).Some? && Names(s, pd, y) == Names(s, pd, x)
    ensures x == y
  {
    hide Names, WellFormed, UsedFrames;
    NamedFrameOwned(s, p, pd, owner, x);
    NamedFrameOwned(s, p, pd, owner, y);
  }

  /** Every frame owned as a table or page is named by its entry. */
  lemma OwnedFrameNamed(s: Ram, p: Pool, pd: nat, owner: Owners, f: nat)
    requires WellFormed(s, p, pd, owner) && f in owner && (owner[f].Table? || owner[f].Page?)
    ensures var x := if owner[f].Table? then TablePlace(owner[f].d) else PagePlace(owner[f].d, owner[f].t);
      Names(s, pd, x) == Some(f) && x in PresentTables(s, pd) + PresentPages(s, pd)
  {
    hide UsedFrames, EntryAt, IdentityMap, SelfMap, FixedRoles, HoleOwned, Present, FrameOf, BitmapBelow;
    assert InProcessPool(f);
    EntryParts(f, 7);
    if owner[f].Page? {
      assert EntryAt(s, TableOf(s, pd, owner[f].d), owner[f].t) == 4096 * f + 7;
    }
  }

  ghost function NamedFrames(s: Ram, pd: nat, xs: set<Place>): set<nat>
    requires pd < FRAMES
  {
    set x | x in xs && Names(s, pd, x).Some? :: Names(s, pd, x).value
  }

  lemma {:induction false} OneFrameEach(s: Ram, p: Pool, pd: nat, owner: Owners, xs: set<Place>)
    requires WellFormed(s, p, pd, owner)
    requires forall x | x in xs :: Names(s, pd, x).Some?
    ensures |NamedFrames(s, pd, xs)| == |xs|
    decreases |xs|
  {
    hide WellFormed, Names, EntryAt, UsedFrames;
    RootsInPool(s, p, pd, owner);
    if xs == {} {
      assert NamedFrames(s, pd, xs) == {};
    } else {
      var x :| x in xs;
      var f := Names(s, pd, x).value;
      OneFrameEach(s, p, pd, owner, xs - {x});
      assert NamedFrames(s, pd, xs) == NamedFrames(s, pd, xs - {x}) + {f};
      if f in NamedFrames(s, pd, xs - {x}) {
        var y :| y in xs - {x} && Names(s, pd, y) == Some(f);
        FramesAreExclusive(s, p, pd, owner, x, y);
      }
    }
  }

  lemma RootsInPool(s: Ram, p: Pool, pd: nat, owner: Owners)
    requires WellFormed(s, p, pd, owner)
    ensures InProcessPool(pd) && InProcessPool(TableOf(s, pd, 0)) && pd != TableOf(s, pd, 0)
    ensures !InHole(pd) && !InHole(TableOf(s, pd, 0)) && BitmapBelow(p)
  {
    hide UsedFrames, EntryAt, IdentityMap, SelfMap, TablesOwned, PagesOwned;
    assert owner[pd] == Directory && owner[TableOf(s, pd, 0)] == FirstTable;
  }

  lemma HoleCount(n: nat)
    requires n <= HOLE_SIZE
    ensures |set f: nat | f < HOLE_START + n && InHole(f)| == n
    decreases n
  {
    var h := set f: nat | f < HOLE_START + n && InHole(f);
    if n == 0 {
      assert h == {};
    } else {
      HoleCount(n - 1);
      assert h == (set f: nat | f < HOLE_START + (n - 1) && InHole(f)) + {HOLE_START + n - 1};
    }
  }

  /** The frames in use, by what they are for. */
  lemma UsedFramesPartition(s: Ram, p: Pool, pd: nat, owner: Owners)
    requires WellFormed(s, p, pd, owner)
    ensures UsedFrames(s, p) == HoleFrames() + {pd, TableOf(s, pd, 0)}
      + NamedFrames(s, pd, PresentTables(s, pd) + PresentPages(s, pd))
  {
    hide UsedFrames, EntryAt, IdentityMap, SelfMap, TablesOwned, PagesOwned, Names;
    RootsInPool(s, p, pd, owner);
    var named := NamedFrames(s, pd, PresentTables(s, pd) + PresentPages(s, pd));
    forall f: nat
      ensures f in owner <==> f in HoleFrames() + {pd, TableOf(s, pd, 0)} + named
    {
      if f in owner && (owner[f].Table? || owner[f].Page?) {
        OwnedFrameNamed(s, p, pd, owner, f);
      }
      if f in named {
        var x :| Names(s, pd, x) == Some(f);
        NamedFrameOwned(s, p, pd, owner, x);
      }
    }
  }

  /** Accounting: used process frames = hole + directory + first table + tables + pages. */
  lemma FramesAddUp(s: Ram, p: Pool, pd: nat, owner: Owners)
    requires WellFormed(s, p, pd, owner)
    ensures |UsedFrames(s, p)| == HOLE_SIZE + 2 + |PresentTables(s, pd)| + |PresentPages(s, pd)|
  {
    hide WellFormed, Names, UsedFrames, TableOf, EntryAt;
    UsedFramesPartition(s, p, pd, owner);
    RootsInPool(s, p, pd, owner);
    var tables, pages := PresentTables(s, pd), PresentPages(s, pd);
    var named := NamedFrames(s, pd, tables + pages);
    OneFrameEach(s, p, pd, owner, tables + pages);
    assert tables !! pages;
    forall f | f in named
      ensures f !in HoleFrames() + {pd, TableOf(s, pd, 0)}
    {
      var x :| Names(s, pd, x) == Some(f);
      NamedFrameOwned(s, p, pd, owner, x);
    }
    HoleCount(HOLE_SIZE);
    SumOfParts(HoleFrames(), pd, TableOf(s, pd, 0), named);
  }

  lemma SumOfParts(hole: set<nat>, a: nat, b: nat, named: set<nat>)
    requires a != b && a !in hole && b !in hole && named !! hole + {a, b}
    ensures |hole + {a, b} + named| == |hole| + 2 + |named|
  {
    assert |hole + {a, b}| == |hole| + |{a, b}|;
  }

  /** No frame named twice, and the frames in use add up. */
  ghost predicate Consistent(s: Ram, p: Pool, pd: nat)
    requires p.Fits() && pd < FRAMES
  {
    && (forall x: Place, y: Place :: Names(s, pd, x).Some? && Names(s, pd, x) == Names(s, pd, y) ==> x == y)
    && |UsedFrames(s, p)| == HOLE_SIZE + 2 + |PresentTables(s, pd)| + |PresentPages(s, pd)|
  }

  lemma WellFormedIsConsistent(s: Ram, p: Pool, pd: nat, owner: Owners)
    requires WellFormed(s, p, pd, owner)
    ensures p.Fits() && pd < FRAMES && Consistent(s, p, pd)
  {
    hide WellFormed, Names, UsedFrames, PresentTables, PresentPages;
    RootsInPool(s, p, pd, owner);
    FramesAddUp(s, p, pd, owner);
    forall x: Place, y: Place | Names(s, pd, x).Some? && Names(s, pd, x) == Names(s, pd, y)
      ensures x == y
    {
      FramesAreExclusive(s, p, pd, owner, y, x);
    }
  }

  /** A used frame of the pool, outside the hole, that nothing names: no assignment of owners
      makes such a state well formed. */
  lemma LeakedFrame(s: Ram, p: Pool, pd: nat, f: nat)
    requires p.Fits() && pd < FRAMES
    requires f in UsedFrames(s, p) && !InHole(f) && f != pd && f != TableOf(s, pd, 0)
    requires forall x: Place :: Names(s, pd, x) != Some(f)
    ensures forall owner: Owners :: !WellFormed(s, p, pd, owner)
  {
    forall owner: Owners
      ensures !WellFormed(s, p, pd, owner)
    {
      if WellFormed(s, p, pd, owner) {
        hide UsedFrames, EntryAt, IdentityMap, SelfMap, TablesOwned, PagesOwned, Names;
        assert f in owner && (owner[f].Table? || owner[f].Page?);
        OwnedFrameNamed(s, p, pd, owner, f);
      }
    }
  }

  // ----- a frame that becomes a table as it is -----

  /** The pages that the words of frame `f` would map as table `d`. */
  ghost function StalePages(s: Ram, d: nat, f: nat): set<Place>
    requires f < FRAMES
  {
    set k: nat | k < 1024 && Present(EntryAt(s, f, k)) :: PagePlace(d, k)
  }

  lemma LinkedPlaces(s: Ram, s': Ram, p: Pool, pd: nat, owner: Owners, d: nat, f: nat)
    requires WellFormed(s, p, pd, owner) && Ordinary(d) && pd < FRAMES && !HasTable(s, pd, d)
    requires InProcessPool(f) && f !in owner && Linked(s, s', pd, d, f)
    ensures PresentTables(s', pd) == PresentTables(s, pd) + {TablePlace(d)}
    ensures PresentPages(s', pd) == PresentPages(s, pd) + StalePages(s', d, f)
    ensures TablePlace(d) !in PresentTables(s, pd) && PresentPages(s, pd) !! StalePages(s', d, f)
  {
    hide WellFormed, EntryAt, UsedFrames, Lookup, HasTable, TableOf, Linked;
    forall k: nat | Ordinary(k)
      ensures k != d ==> Names(s', pd, TablePlace(k)) == Names(s, pd, TablePlace(k))
      ensures Names(s, pd, TablePlace(d)).None? && Names(s', pd, TablePlace(d)).Some?
    {
      LinkedTable(s, s', p, pd, owner, d, f, k);
    }
    forall k: nat, t: nat | Ordinary(k) && t < 1024
      ensures Lookup(s', pd, k, t).Some? <==> if k == d then Present(EntryAt(s', f, t)) else Lookup(s, pd, k, t).Some?
      ensures Lookup(s, pd, d, t).None?
    {
      LinkedLookup(s, s', p, pd, owner, d, f, k, t);
      LinkedLookup(s, s', p, pd, owner, d, f, d, t);
    }
  }

  lemma LinkedTable(s: Ram, s': Ram, p: Pool, pd: nat, owner: Owners, d: nat, f: nat, k: nat)
    requires WellFormed(s, p, pd, owner) && Ordinary(d) && pd < FRAMES && !HasTable(s, pd, d)
    requires InProcessPool(f) && f !in owner && Linked(s, s', pd, d, f) && Ordinary(k)
    ensures HasTable(s', pd, d)
    ensures k != d ==> HasTable(s', pd, k) == HasTable(s, pd, k) && TableOf(s', pd, k) == TableOf(s, pd, k)
  {
    hide WellFormed, EntryAt, UsedFrames;
    RootsInPool(s, p, pd, owner);
    DirectoryRole(s, p, pd, owner);
    if k != d { assert EntryAt(s', pd, k) == EntryAt(s, pd, k); }
  }

  lemma LinkedLookup(s: Ram, s': Ram, p: Pool, pd: nat, owner: Owners, d: nat, f: nat, k: nat, t: nat)
    requires WellFormed(s, p, pd, owner) && Ordinary(d) && pd < FRAMES && !HasTable(s, pd, d)
    requires InProcessPool(f) && f !in owner && Linked(s, s', pd, d, f) && Ordinary(k) && t < 1024
    ensures if k == d then Lookup(s, pd, d, t).None? && (Lookup(s', pd, d, t).Some? <==> Present(EntryAt(s', f, t)))
            else Lookup(s', pd, k, t) == Lookup(s, pd, k, t)
  {
    hide WellFormed, EntryAt, UsedFrames, Present, FrameOf;
    RootsInPool(s, p, pd, owner);
    DirectoryRole(s, p, pd, owner);
    if k != d {
      assert EntryAt(s', pd, k) == EntryAt(s, pd, k);
      if HasTable(s, pd, k) { OrdinaryTable(s, p, pd, owner, k); }
    }
  }

  /** A free frame entered as it is, while the marks of the frames `given` are cleared: frames stay
      exclusive and add up exactly when no word of the frame is a present entry and none of `given` was in
      use. Then, and only then, some assignment of owners makes the state well formed. */
  lemma LinkedExactly(s: Ram, s': Ram, p: Pool, pd: nat, owner: Owners, d: nat, f: nat, given: set<nat>)
    requires WellFormed(s, p, pd, owner) && p.Fits() && Ordinary(d) && pd < FRAMES && !HasTable(s, pd, d)
    requires InProcessPool(f) && f !in owner && Linked(s, s', pd, d, f)
    requires f !in UsedFrames(s, p) && UsedFrames(s', p) == UsedFrames(s, p) + {f} - given
    ensures Consistent(s', p, pd) <==> Blank(s', f) && given !! UsedFrames(s, p) + {f}
    ensures (exists owner': Owners :: WellFormed(s', p, pd, owner')) <==> Consistent(s', p, pd)
  {
    hide WellFormed, EntryAt, UsedFrames, Linked, Consistent, PresentTables, PresentPages, HasTable;
    if Blank(s', f) && given !! UsedFrames(s, p) + {f} {
      assert UsedFrames(s', p) == UsedFrames(s, p) + {f};
      NewTableKeeps(s, s', p, pd, owner, d, f);
      WellFormedIsConsistent(s', p, pd, owner[f := Table(d)]);
    } else {
      LinkedMiscounts(s, s', p, pd, owner, d, f, given);
    }
    forall owner': Owners | WellFormed(s', p, pd, owner') ensures Consistent(s', p, pd) {
      WellFormedIsConsistent(s', p, pd, owner');
    }
  }

  lemma LinkedMiscounts(s: Ram, s': Ram, p: Pool, pd: nat, owner: Owners, d: nat, f: nat, given: set<nat>)
    requires WellFormed(s, p, pd, owner) && p.Fits() && Ordinary(d) && pd < FRAMES && !HasTable(s, pd, d)
    requires InProcessPool(f) && f !in owner && Linked(s, s', pd, d, f)
    requires f !in UsedFrames(s, p) && UsedFrames(s', p) == UsedFrames(s, p) + {f} - given
    requires !(Blank(s', f) && given !! UsedFrames(s, p) + {f})
    ensures !Consistent(s', p, pd)
  {
    hide WellFormed, UsedFrames, Linked, PresentTables, PresentPages, HasTable;
    FramesAddUp(s, p, pd, owner);
    LinkedPlaces(s, s', p, pd, owner, d, f);
    var all_ := UsedFrames(s, p) + {f};
    assert |all_| == |UsedFrames(s, p)| + 1;
    assert |all_ - given| == |all_| - |all_ * given| by { assert all_ == (all_ - given) + all_ * given; }
    assert |PresentPages(s', pd)| == |PresentPages(s, pd)| + |StalePages(s', d, f)|;
    if !Blank(s', f) {
      var k: nat :| k < 1024 && Present(EntryAt(s', f, k));
      assert PagePlace(d, k) in StalePages(s', d, f);
    }
  }
}
