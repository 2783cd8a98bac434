/** The file index in memory, against the headers on the disk. */
module FileIndex {
  import opened PhysicalMemory
  import opened DiskBlocks

  /** What the index remembers of a file. */
  datatype Entry = Entry(id: Word, block: nat)

  /** A disk of which the first `size` blocks are the file system's, and the index over it. */
  datatype Index = Index(disk: seq<Block>, files: seq<Entry>, size: nat)

  /** The used blocks below `n`, in the order Mount finds them. */
  function Scan(disk: seq<Block>, n: nat): (es: seq<Entry>)
    requires n <= |disk|
    ensures |es| <= n && (|es| == n <==> forall b | 0 <= b < n :: Taken(disk[b]))
  {
    if n == 0 then []
    else if Taken(disk[n - 1]) then Scan(disk, n - 1) + [Entry(IdOf(disk[n - 1]), n - 1)]
    else Scan(disk, n - 1)
  }

  /** Block `e.block` lies below `n`, is used, and carries the id of `e`. */
  predicate Listed(e: Entry, disk: seq<Block>, n: nat) {
    e.block < n <= |disk| && Taken(disk[e.block]) && IdOf(disk[e.block]) == e.id
  }

  ghost predicate Distinct(files: seq<Entry>) {
    forall i, j | 0 <= i < j < |files| :: files[i].id != files[j].id && files[i].block != files[j].block
  }

  /** The index holds exactly the (id, block) pairs whose headers are used; no id or block twice. */
  ghost predicate Agree(s: Index) {
    && s.size <= |s.disk|
    && Distinct(s.files)
    && forall e :: e in s.files <==> Listed(e, s.disk, s.size)
  }

  lemma {:induction false} ScanIsListed(disk: seq<Block>, n: nat)
    requires n <= |disk|
    ensures forall e :: e in Scan(disk, n) <==> Listed(e, disk, n)
    ensures forall i, j | 0 <= i < j < |Scan(disk, n)| :: Scan(disk, n)[i].block < Scan(disk, n)[j].block
  {
    hide Taken, IdOf;
    if n > 0 {
      ScanIsListed(disk, n - 1);
      var rest := Scan(disk, n - 1);
      forall i | 0 <= i < |rest| ensures rest[i].block < n - 1 {
        assert rest[i] in rest;
      }
      forall e ensures e in Scan(disk, n) <==> Listed(e, disk, n) {
        if Taken(disk[n - 1]) { assert e in Scan(disk, n) <==> e in rest || e == Entry(IdOf(disk[n - 1]), n - 1); }
      }
    }
  }

  /** In bytes: a mount finds block `b` exactly when the second word of its header is 0xFFFF, low byte
      first, and takes the first word as the id. */
  lemma MountFinds(disk: seq<Block>, n: nat, b: nat)
    requires b < n <= |disk|
    ensures var h := disk[b];
      (exists id: Word :: Entry(id, b) in Scan(disk, n)) <==> h[4..8] == [0xFF, 0xFF, 0, 0]
    ensures forall id: Word | Entry(id, b) in Scan(disk, n) ::
      var h := disk[b]; id == h[0] + 0x100 * (h[1] as int) + 0x1_0000 * (h[2] as int) + 0x100_0000 * (h[3] as int)
  {
    hide Taken, IdOf, Scan;
    ScanIsListed(disk, n);
    HeaderBytes(disk[b]);
    assert Taken(disk[b]) ==> Entry(IdOf(disk[b]), b) in Scan(disk, n);
  }

  lemma {:induction false} CountOfDistinct(files: seq<Entry>, e: Entry)
    requires Distinct(files)
    ensures multiset(files)[e] == if e in files then 1 else 0
  {
    if files != [] {
      var k := |files| - 1;
      CountOfDistinct(files[..k], e);
      assert files == files[..k] + [files[k]];
      assert files[k] !in files[..k];
    }
  }

  /** A fresh mount of a disk finds the files an agreeing index holds, each once. */
  lemma MountRebuilds(s: Index)
    requires Agree(s)
    ensures Agree(s.(files := Scan(s.disk, s.size)))
    ensures multiset(Scan(s.disk, s.size)) == multiset(s.files)
  {
    hide Taken, IdOf, Listed, Scan;
    var found := Scan(s.disk, s.size);
    ScanIsListed(s.disk, s.size);
    forall i, j | 0 <= i < j < |found| ensures found[i].id != found[j].id && found[i].block != found[j].block {
      assert found[i] in s.files && found[j] in s.files by {
        assert found[i] in found && found[j] in found;
      }
      var a :| 0 <= a < |s.files| && s.files[a] == found[i];
      var b :| 0 <= b < |s.files| && s.files[b] == found[j];
      assert a != b;
    }
    forall e ensures multiset(found)[e] == multiset(s.files)[e] {
      CountOfDistinct(found, e);
      CountOfDistinct(s.files, e);
    }
  }

  /** The least free block below `n`, or `n` when all of them are used. */
  function FirstFree(disk: seq<Block>, n: nat): (f: nat)
    requires n <= |disk|
    ensures f <= n && (f < n ==> !Taken(disk[f]))
    ensures forall b | 0 <= b < f :: Taken(disk[b])
  {
    if n == 0 then 0
    else
      var f := FirstFree(disk, n - 1);
      if f < n - 1 || !Taken(disk[n - 1]) then f else n
  }

  /** Where `id` stands in the index, or `|files|` when it is not there. */
  function Position(files: seq<Entry>, id: Word): (p: nat)
    ensures p <= |files| && (p < |files| ==> files[p].id == id)
    ensures forall i | 0 <= i < p :: files[i].id != id
  {
    if files == [] then 0
    else
      var p := Position(files[..|files| - 1], id);
      if p < |files| - 1 || files[|files| - 1].id == id then p else |files|
  }

  predicate Has(s: Index, id: Word) {
    Position(s.files, id) < |s.files|
  }

  /** The block of a new, empty file. */
  function NewFile(b: Block, id: Word): Block {
    WithId(WithAvailability(Erased(WithAvailability(b, USED)), USED), id)
  }

  function FreedFile(b: Block): Block {
    WithAvailability(Erased(b), FREE)
  }

  lemma NewFileParts(b: Block, id: Word)
    ensures Taken(NewFile(b, id)) && IdOf(NewFile(b, id)) == id && DataOf(NewFile(b, id)) == Zeros(DATA_SIZE)
    ensures !Taken(FreedFile(b)) && DataOf(FreedFile(b)) == Zeros(DATA_SIZE)
  {
    hide WithId, WithAvailability, WithData, IdOf, AvailabilityOf, DataOf;
    HeaderParts(b, USED);
    HeaderParts(Erased(WithAvailability(b, USED)), USED);
    HeaderParts(WithAvailability(Erased(WithAvailability(b, USED)), USED), id);
    HeaderParts(Erased(b), FREE);
    var c := WithAvailability(b, USED);
    assert DataOf(c)[..0] + Zeros(DATA_SIZE) + DataOf(c)[DATA_SIZE..] == Zeros(DATA_SIZE);
    assert DataOf(b)[..0] + Zeros(DATA_SIZE) + DataOf(b)[DATA_SIZE..] == Zeros(DATA_SIZE);
  }

  /** CreateFile: refused for an id already there or a full file system. */
  function Created(s: Index, id: Word): Index
    requires s.size <= |s.disk|
  {
    var f := FirstFree(s.disk, s.size);
    if Has(s, id) || f == s.size then s
    else s.(disk := s.disk[f := NewFile(s.disk[f], id)], files := s.files + [Entry(id, f)])
  }

  function Without(files: seq<Entry>, p: nat): seq<Entry>
    requires p < |files|
  {
    files[..p] + files[p + 1..]
  }

  lemma WithoutParts(files: seq<Entry>, p: nat)
    requires p < |files|
    ensures |Without(files, p)| == |files| - 1
    ensures forall k: nat | k < |files| - 1 :: Without(files, p)[k] == files[if k < p then k else k + 1]
  {
  }

  lemma OnlyAtPosition(files: seq<Entry>, id: Word)
    requires Distinct(files)
    ensures forall i: nat | i < |files| :: files[i].id == id <==> i == Position(files, id)
  {
  }

  /** DeleteFile as intended: the entry goes and its block is freed. */
  function Deleted(s: Index, id: Word): Index
    requires forall e | e in s.files :: e.block < |s.disk|
  {
    var p := Position(s.files, id);
    if p == |s.files| then s
    else
      var b := s.files[p].block;
      s.(disk := s.disk[b := FreedFile(s.disk[b])], files := Without(s.files, p))
  }

  /** DeleteFile as written: the entry goes, but its block is freed only when another entry follows it. */
  function DeletedAsCoded(s: Index, id: Word): Index
    requires forall e | e in s.files :: e.block < |s.disk|
  {
    var p := Position(s.files, id);
    if p == |s.files| then s
    else
      var b := s.files[p].block;
      var disk := if p < |s.files| - 1 then s.disk[b := FreedFile(s.disk[b])] else s.disk;
      s.(disk := disk, files := Without(s.files, p))
  }

  lemma AgreeInBounds(s: Index)
    requires Agree(s)
    ensures s.size <= |s.disk|
    ensures forall e | e in s.files :: e.block < s.size && Taken(s.disk[e.block])
  {
  }

  lemma CreateKeeps(s: Index, id: Word)
    requires Agree(s)
    ensures Agree(Created(s, id))
  {
    hide Taken, IdOf, NewFile, Position;
    var f := FirstFree(s.disk, s.size);
    if !Has(s, id) && f < s.size {
      var block := NewFile(s.disk[f], id);
      NewFileParts(s.disk[f], id);
      var s' := Created(s, id);
      PlaceKeeps(s, Entry(id, f), block);
      assert s' == s.(disk := s.disk[f := block], files := s.files + [Entry(id, f)]);
    }
  }

  /** A used block written over a free one, and its entry added. */
  lemma PlaceKeeps(s: Index, new_: Entry, block: Block)
    requires Agree(s) && new_.block < s.size && !Taken(s.disk[new_.block]) && Taken(block) && IdOf(block) == new_.id
    requires forall i | 0 <= i < |s.files| :: s.files[i].id != new_.id
    ensures Agree(s.(disk := s.disk[new_.block := block], files := s.files + [new_]))
  {
    hide Taken, IdOf;
    var s' := s.(disk := s.disk[new_.block := block], files := s.files + [new_]);
    forall i | 0 <= i < |s.files| ensures s.files[i].block != new_.block {
      assert s.files[i] in s.files;
    }
    forall e ensures e in s'.files <==> Listed(e, s'.disk, s'.size) {
      assert e in s'.files <==> e in s.files || e == new_;
      if e.block == new_.block { assert !Listed(e, s.disk, s.size); }
    }
  }

  lemma DeleteKeeps(s: Index, id: Word)
    requires Agree(s)
    ensures forall e | e in s.files :: e.block < |s.disk|
    ensures Agree(Deleted(s, id))
  {
    hide Taken, IdOf, FreedFile, Position;
    AgreeInBounds(s);
    var p := Position(s.files, id);
    if p < |s.files| {
      var b := s.files[p].block;
      NewFileParts(s.disk[b], 0);
      RemoveKeeps(s, p, FreedFile(s.disk[b]));
    }
  }

  /** Deleting takes out the one entry of that id, the others keeping their order; its block is free
      afterwards, its data erased, and no other block changes. An unknown id changes nothing. */
  lemma DeleteFrees(s: Index, id: Word)
    requires Agree(s)
    ensures forall e | e in s.files :: e.block < |s.disk|
    ensures var s' := Deleted(s, id);
      if forall e | e in s.files :: e.id != id then s' == s
      else exists i: nat | i < |s.files| ::
        && s.files[i].id == id && s'.size == s.size
        && s'.files == s.files[..i] + s.files[i + 1..]
        && var b := s.files[i].block;
        && |s'.disk| == |s.disk| && s'.disk == s.disk[b := s'.disk[b]]
        && !Taken(s'.disk[b]) && DataOf(s'.disk[b]) == Zeros(504)
  {
    hide Taken, FreedFile, Position, Distinct, Listed, DataOf;
    AgreeInBounds(s);
    var p := Position(s.files, id);
    if p < |s.files| {
      assert s.files[p] in s.files;
      NewFileParts(s.disk[s.files[p].block], 0);
    }
  }

  lemma WithoutHolds(files: seq<Entry>, p: nat)
    requires p < |files| && Distinct(files)
    ensures Distinct(Without(files, p))
    ensures forall e :: e in Without(files, p) <==> e in files && e != files[p]
  {
    var rest := Without(files, p);
    forall e ensures e in rest <==> e in files && e != files[p] {
      if e in files && e != files[p] {
        var i :| 0 <= i < |files| && files[i] == e;
        assert rest[if i < p then i else i - 1] == e;
      }
      if e in rest {
        var k :| 0 <= k < |rest| && rest[k] == e;
        var i := if k < p then k else k + 1;
        assert files[i] == e && i != p;
      }
    }
  }

  lemma RemoveKeeps(s: Index, p: nat, block: Block)
    requires Agree(s) && p < |s.files| && s.files[p].block < |s.disk| && !Taken(block)
    ensures Agree(s.(disk := s.disk[s.files[p].block := block], files := Without(s.files, p)))
  {
    hide Taken, IdOf, Without, Distinct;
    var b := s.files[p].block;
    var s' := s.(disk := s.disk[b := block], files := Without(s.files, p));
    WithoutHolds(s.files, p);
    forall e ensures e in s'.files <==> Listed(e, s'.disk, s'.size) {
      if e in s.files { SameBlockSameEntry(s.files, e, p); }
      assert s.files[p] in s.files;
    }
  }

  lemma SameBlockSameEntry(files: seq<Entry>, e: Entry, p: nat)
    requires Distinct(files) && p < |files| && e in files
    ensures e.block == files[p].block ==> e == files[p]
  {
    var i :| 0 <= i < |files| && files[i] == e;
  }

  /** An agreeing index holds one file for each used block, so it has room for `size` of them. */
  lemma AgreeCounts(s: Index)
    requires Agree(s)
    ensures |s.files| <= s.size
    ensures |s.files| == s.size <==> FirstFree(s.disk, s.size) == s.size
  {
    hide Taken, Agree, Distinct, Listed, Position;
    AgreeInBounds(s);
    MountRebuilds(s);
    assert |multiset(s.files)| == |s.files|;
    assert |multiset(Scan(s.disk, s.size))| == |Scan(s.disk, s.size)|;
  }

  /** Creating succeeds exactly for a new id while there are fewer files than blocks; the new file is on
      the first free block, empty, its header says so, and no other block changes. */
  lemma CreateSucceedsExactly(s: Index, id: Word)
    requires Agree(s)
    ensures var s' := Created(s, id);
      if Has(s, id) || |s.files| == s.size then s' == s
      else
        && |s.files| < s.size && s'.size == s.size && |s'.files| == |s.files| + 1 && s'.files[..|s.files|] == s.files
        && var e := s'.files[|s.files|];
        && e.id == id && e.block < s.size && !Taken(s.disk[e.block])
        && (forall b | 0 <= b < e.block :: Taken(s.disk[b]))
        && Taken(s'.disk[e.block]) && IdOf(s'.disk[e.block]) == id
        && DataOf(s'.disk[e.block]) == Zeros(DATA_SIZE)
        && s'.disk == s.disk[e.block := s'.disk[e.block]]
  {
    hide Taken, NewFile, Distinct, Listed, Position, DataOf, IdOf;
    AgreeCounts(s);
    var f := FirstFree(s.disk, s.size);
    if f < s.size { NewFileParts(s.disk[f], id); }
  }

  lemma PositionInFront(files: seq<Entry>, e: Entry)
    requires Position(files, e.id) == |files|
    ensures Position(files + [e], e.id) == |files|
  {
    assert (files + [e])[..|files|] == files;
  }

  lemma CreatedParts(s: Index, id: Word)
    requires Agree(s) && !Has(s, id) && |s.files| < s.size
    ensures s.size <= |s.disk| && FirstFree(s.disk, s.size) < s.size
    ensures var f := FirstFree(s.disk, s.size);
      Created(s, id) == s.(disk := s.disk[f := NewFile(s.disk[f], id)], files := s.files + [Entry(id, f)])
    ensures var f := FirstFree(s.disk, s.size); Position(s.files + [Entry(id, f)], id) == |s.files|
  {
    hide Taken, NewFile, Position, Listed, Distinct;
    AgreeCounts(s);
    PositionInFront(s.files, Entry(id, FirstFree(s.disk, s.size)));
  }

  /** Deleting a file just created restores the index, and the disk but for the freed block. */
  lemma DeleteUndoesCreate(s: Index, id: Word)
    requires Agree(s) && !Has(s, id) && |s.files| < s.size
    ensures s.size <= |s.disk| && Agree(Created(s, id))
    ensures forall e | e in Created(s, id).files :: e.block < |Created(s, id).disk|
    ensures var f, s'' := FirstFree(s.disk, s.size), Deleted(Created(s, id), id);
      f < s.size && s''.files == s.files && |s''.disk| == |s.disk| && s''.disk == s.disk[f := s''.disk[f]]
    ensures !Taken(Deleted(Created(s, id), id).disk[FirstFree(s.disk, s.size)])
  {
    hide Taken, IdOf, NewFile, FreedFile, Position, Agree, FirstFree, Created, Has;
    CreatedParts(s, id);
    CreateKeeps(s, id);
    AgreeInBounds(Created(s, id));
    var f := FirstFree(s.disk, s.size);
    var block := NewFile(s.disk[f], id);
    assert Without(s.files + [Entry(id, f)], |s.files|) == s.files;
    NewFileParts(block, 0);
    assert Deleted(Created(s, id), id).disk == s.disk[f := block][f := FreedFile(block)];
  }

  /** As written, deleting keeps index and disk in agreement exactly when the file is not the last of
      the index, and then does what it is for; deleting the last one drops its entry but leaves the disk as
      it was, the block still used, so that the next mount brings the file back. */
  lemma DeleteAsCodedAgreesExactly(s: Index, id: Word)
    requires Agree(s) && Has(s, id)
    ensures forall e | e in s.files :: e.block < |s.disk|
    ensures Agree(DeletedAsCoded(s, id)) <==> Position(s.files, id) < |s.files| - 1
    ensures Position(s.files, id) < |s.files| - 1 ==> DeletedAsCoded(s, id) == Deleted(s, id)
    ensures Position(s.files, id) == |s.files| - 1 ==>
      var s' := DeletedAsCoded(s, id);
      s' == s.(files := s.files[..|s.files| - 1])
      && s.size <= |s'.disk| && multiset(Scan(s'.disk, s.size)) == multiset(s.files)
  {
    hide Taken, IdOf, FreedFile, Position, Distinct, Listed, Scan;
    AgreeInBounds(s);
    DeleteKeeps(s, id);
    var p := Position(s.files, id);
    if p == |s.files| - 1 {
      var gone := s.files[p];
      assert Without(s.files, p) == s.files[..p];
      WithoutHolds(s.files, p);
      assert gone in s.files && Listed(gone, s.disk, s.size);
      MountRebuilds(s);
    }
  }
}
