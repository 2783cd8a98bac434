/** Runs of creations and deletions. */
module FileRuns {
  import opened PhysicalMemory
  import opened DiskBlocks
  import opened FileIndex

  datatype Op = Create(id: Word) | Delete(id: Word)

  ghost function Step(s: Index, op: Op): (s': Index)
    requires Agree(s)
    ensures Agree(s') && s'.size == s.size
  {
    AgreeInBounds(s);
    match op
    case Create(id) => (CreateKeeps(s, id); Created(s, id))
    case Delete(id) => (DeleteKeeps(s, id); Deleted(s, id))
  }

  ghost function After(s: Index, ops: seq<Op>): (s': Index)
    requires Agree(s)
    ensures Agree(s') && s'.size == s.size
  {
    if ops == [] then s else Step(After(s, ops[..|ops| - 1]), ops[|ops| - 1])
  }

  /** Format leaves the first `size` blocks blank; the empty index agrees with them. */
  lemma FormattedAgrees(disk: seq<Block>, size: nat)
    requires size <= |disk| && forall b | 0 <= b < size :: disk[b] == Zeros(512)
    ensures Agree(Index(disk, [], size))
  {
    forall b | 0 <= b < size ensures !Taken(disk[b]) {
      assert AvailabilityOf(disk[b]) == 0;
    }
  }

  /** From any agreeing state: after any run a fresh mount finds the files of the index, each once. */
  lemma RunThenMount(s: Index, ops: seq<Op>)
    requires Agree(s)
    ensures var s' := After(s, ops);
      s.size <= |s'.disk| && multiset(Scan(s'.disk, s.size)) == multiset(s'.files)
  {
    hide After;
    AgreeInBounds(After(s, ops));
    MountRebuilds(After(s, ops));
  }

  /** A file no step of the run deletes stays in the index, on its block, with the same header and data. */
  lemma {:induction false} FileSurvives(s: Index, ops: seq<Op>, e: Entry)
    requires Agree(s) && e in s.files && Delete(e.id) !in ops
    ensures var s' := After(s, ops);
      e in s'.files && e.block < |s.disk| && e.block < |s'.disk| && s'.disk[e.block] == s.disk[e.block]
  {
    hide Agree, Step;
    AgreeInBounds(s);
    if ops != [] {
      var k := |ops| - 1;
      FileSurvives(s, ops[..k], e);
      var r := After(s, ops[..k]);
      StepSpares(r, ops[k], e);
    }
  }

  lemma StepSpares(s: Index, op: Op, e: Entry)
    requires Agree(s) && e in s.files && op != Delete(e.id)
    ensures var s' := Step(s, op);
      e in s'.files && e.block < |s.disk| && e.block < |s'.disk| && s'.disk[e.block] == s.disk[e.block]
  {
    hide Taken, IdOf, Position, NewFile, FreedFile, Without, Listed;
    AgreeInBounds(s);
    match op
    case Create(id) =>
    case Delete(id) =>
      var p := Position(s.files, id);
      if p < |s.files| {
        WithoutHolds(s.files, p);
        SameBlockSameEntry(s.files, e, p);
      }
  }

  function Ids(files: seq<Entry>): set<Word> {
    set e | e in files :: e.id
  }

  /** The simple form: a bounded set of ids. */
  function IdsAfter(ids: set<Word>, size: nat, ops: seq<Op>): set<Word> {
    if ops == [] then ids
    else
      var was := IdsAfter(ids, size, ops[..|ops| - 1]);
      match ops[|ops| - 1]
      case Create(id) => if |was| < size then was + {id} else was
      case Delete(id) => was - {id}
  }

  lemma {:induction false} IdsCount(files: seq<Entry>)
    requires Distinct(files)
    ensures |Ids(files)| == |files|
  {
    if files != [] {
      var k := |files| - 1;
      IdsCount(files[..k]);
      assert files == files[..k] + [files[k]];
      assert Ids(files) == Ids(files[..k]) + {files[k].id} by {
        forall e | e in files[..k] ensures e in files { }
      }
      assert files[k].id !in Ids(files[..k]);
    }
  }

  lemma StepIds(s: Index, op: Op)
    requires Agree(s)
    ensures Ids(Step(s, op).files) == IdsAfter(Ids(s.files), s.size, [op])
  {
    hide Taken, IdOf, NewFile, FreedFile, Listed, Without, FirstFree;
    AgreeInBounds(s);
    AgreeCounts(s);
    IdsCount(s.files);
    assert [op][..0] == [];
    assert IdsAfter(Ids(s.files), s.size, []) == Ids(s.files);
    match op
    case Create(id) =>
      CreatedIds(s, id);
    case Delete(id) =>
      DeletedIds(s, id);
  }

  lemma HasIsIn(s: Index, id: Word)
    ensures Has(s, id) <==> id in Ids(s.files)
  {
    var p := Position(s.files, id);
    if p < |s.files| { assert s.files[p] in s.files; }
  }

  lemma CreatedIds(s: Index, id: Word)
    requires Agree(s)
    ensures s.size <= |s.disk|
    ensures Ids(Created(s, id).files) == if |s.files| < s.size then Ids(s.files) + {id} else Ids(s.files)
  {
    hide Taken, IdOf, NewFile, FreedFile, Listed, Position, Agree, Has;
    AgreeInBounds(s);
    AgreeCounts(s);
    HasIsIn(s, id);
    var f := FirstFree(s.disk, s.size);
    assert Ids(s.files + [Entry(id, f)]) == Ids(s.files) + {id} by {
      assert Entry(id, f) in s.files + [Entry(id, f)];
    }
  }

  lemma DeletedIds(s: Index, id: Word)
    requires Agree(s)
    ensures forall e | e in s.files :: e.block < |s.disk|
    ensures Ids(Deleted(s, id).files) == Ids(s.files) - {id}
  {
    hide Taken, IdOf, NewFile, FreedFile, Listed, Position, Without;
    AgreeInBounds(s);
    HasIsIn(s, id);
    var p := Position(s.files, id);
    if p < |s.files| {
      WithoutHolds(s.files, p);
      forall e | e in s.files && e != s.files[p] ensures e.id != id { }
    }
  }

  /** The index refines a set of at most `size` ids: over any run it holds exactly the ids the set holds. */
  lemma {:induction false} RunRefinesIdSet(s: Index, ops: seq<Op>)
    requires Agree(s)
    ensures Ids(After(s, ops).files) == IdsAfter(Ids(s.files), s.size, ops)
  {
    hide Step;
    if ops != [] {
      var k := |ops| - 1;
      RunRefinesIdSet(s, ops[..k]);
      StepIds(After(s, ops[..k]), ops[k]);
      assert [ops[k]][..0] == [];
    }
  }

  /** As written too, deletion takes exactly that id out of the index. */
  lemma DeletedAsCodedIds(s: Index, id: Word)
    requires Agree(s)
    ensures forall e | e in s.files :: e.block < |s.disk|
    ensures Ids(DeletedAsCoded(s, id).files) == Ids(s.files) - {id}
  {
    hide Taken, IdOf, FreedFile, Position, Agree;
    AgreeInBounds(s);
    DeletedIds(s, id);
    assert DeletedAsCoded(s, id).files == Deleted(s, id).files;
  }

  /** The block AllocateBlock as written hands out on a disk of |disk| blocks: it reads one block
      behind the number it counts. */
  function AllocatedAsCoded(disk: seq<Block>): int {
    var f := FirstFree(disk, |disk|);
    if f == |disk| then -1 else if f == 0 then 0 else f + 1
  }

  /** CreateFile over the allocator as written. With the disk's last block the only free one, the block
      handed out is one past the disk, and what is written there is lost. */
  function CreatedAsCoded(s: Index, id: Word): Index {
    var r := AllocatedAsCoded(s.disk);
    if Has(s, id) || r < 0 then s
    else s.(
      disk := if r < |s.disk| then s.disk[r := NewFile(s.disk[r], id)] else s.disk,
      files := s.files + [Entry(id, r)])
  }

  /** What a creation over that allocator does: block 0 if it is free, and otherwise the block after the
      first free one, whoever it belongs to, is written over with an empty file of that id, and the entry
      is added; a known id, or a disk with no free block, changes nothing. */
  lemma CreateAsCodedDoes(s: Index, id: Word)
    ensures var r := AllocatedAsCoded(s.disk);
      && (r == -1 <==> forall b | 0 <= b < |s.disk| :: Taken(s.disk[b]))
      && (r == 0 <==> s.disk != [] && !Taken(s.disk[0]))
      && (r > 0 ==> 1 < r <= |s.disk| && !Taken(s.disk[r - 1]) && forall b | 0 <= b < r - 1 :: Taken(s.disk[b]))
    ensures var r, s' := AllocatedAsCoded(s.disk), CreatedAsCoded(s, id);
      if r == -1 || Has(s, id) then s' == s
      else
        && s'.files == s.files + [Entry(id, r)] && s'.size == s.size && |s'.disk| == |s.disk|
        && (forall b | 0 <= b < |s.disk| && b != r :: s'.disk[b] == s.disk[b])
        && (r < |s.disk| ==>
              Taken(s'.disk[r]) && IdOf(s'.disk[r]) == id && DataOf(s'.disk[r]) == Zeros(504))
  {
    hide Taken, IdOf, DataOf, NewFile, Position;
    var r := AllocatedAsCoded(s.disk);
    if 0 <= r < |s.disk| { NewFileParts(s.disk[r], id); }
  }

  /** With the allocator as written, a creation keeps index and disk in agreement exactly when block 0,
      or the block after the first free one, is free, and the block handed out lies in the file system. */
  lemma CreateAsCodedAgreesExactly(s: Index, id: Word)
    requires Agree(s) && !Has(s, id) && AllocatedAsCoded(s.disk) >= 0
    ensures var f, r := FirstFree(s.disk, |s.disk|), AllocatedAsCoded(s.disk);
      Agree(CreatedAsCoded(s, id)) <==> r < s.size && (f == 0 || !Taken(s.disk[f + 1]))
  {
    hide Taken, IdOf, NewFile, Position;
    var r := AllocatedAsCoded(s.disk);
    var new_ := Entry(id, r);
    var s' := CreatedAsCoded(s, id);
    assert s'.files[|s.files|] == new_ && new_ in s'.files;
    if r >= s.size {
      assert !Listed(new_, s'.disk, s'.size);
    } else {
      var block := NewFile(s.disk[r], id);
      assert s' == s.(disk := s.disk[r := block], files := s.files + [new_]);
      NewFileParts(s.disk[r], id);
      if Taken(s.disk[r]) {
        var e := Entry(IdOf(s.disk[r]), r);
        assert Listed(e, s.disk, s.size);
        var i :| 0 <= i < |s.files| && s.files[i] == e;
        assert s'.files[i].block == s'.files[|s.files|].block;
      } else {
        PlaceKeeps(s, new_, block);
      }
    }
  }

  /** As written, once block 0 is used the same block is handed out again and again, whatever header
      its owner gives it. */
  lemma AsCodedRepeatsExactly(disk: seq<Block>, header: Block)
    requires 0 <= AllocatedAsCoded(disk) < |disk| && Taken(header)
    ensures var r := AllocatedAsCoded(disk);
      AllocatedAsCoded(disk[r := header]) == r <==> Taken(disk[0])
  {
    hide Taken;
    var f, r := FirstFree(disk, |disk|), AllocatedAsCoded(disk);
    var disk' := disk[r := header];
    var f' := FirstFree(disk', |disk'|);
    if f > 0 {
      assert f' == f by {
        assert !Taken(disk'[f]);
      }
    } else {
      assert Taken(disk'[0]);
      assert f' != 0;
    }
  }
}
