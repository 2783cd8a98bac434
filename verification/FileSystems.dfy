/** The file system: index, disk and the one block buffer between them. */
module FileSystems {
  import opened PhysicalMemory
  import opened DiskBlocks
  import opened FileContents
  import opened FileIndex
  import FileRuns

  class FileSystem {
    const volume: Volume
    var size: nat
    var files: seq<Entry>

    ghost predicate Valid()
      reads this
    {
      volume.Valid() && size <= SYSTEM_BLOCKS
    }

    /** The disk and the index over it, as one value. */
    ghost function State(): Index
      reads this, volume.disk
    {
      Index(volume.disk[..], files, size)
    }

    constructor (volume: Volume)
      requires volume.Valid()
      ensures Valid() && this.volume == volume && files == [] && size == 0
    {
      this.volume, this.size, this.files := volume, 0, [];
    }

    /** Blanks as many whole blocks as `bytes` hold, up to the whole disk. */
    method Format(bytes: nat)
      requires Valid()
      modifies this`size, volume.buffer, volume.disk
      ensures Valid() && size == if bytes / 512 <= 20480 then bytes / 512 else 20480
      ensures forall b | 0 <= b < SYSTEM_BLOCKS ::
        volume.disk[b] == if b < size then Zeros(512) else old(volume.disk[b])
    {
      var k := 0;
      while k < 512
        modifies volume.buffer
        invariant k <= 512 && forall c | 0 <= c < k :: volume.buffer[c] == 0
      {
        volume.buffer[k] := 0;
        k := k + 1;
      }
      size := bytes / 512;
      if size > SYSTEM_BLOCKS { size := SYSTEM_BLOCKS; }
      assert volume.buffer[..] == Zeros(512);
      var i := 0;
      while i < size
        invariant i <= size <= SYSTEM_BLOCKS && volume.buffer[..] == Zeros(512)
        invariant size == if bytes / 512 <= SYSTEM_BLOCKS then bytes / 512 else SYSTEM_BLOCKS
        invariant forall b | 0 <= b < SYSTEM_BLOCKS ::
          volume.disk[b] == if b < i then Zeros(512) else old(volume.disk[b])
      {
        ghost var was, blank: Block := volume.disk[..], volume.buffer[..];
        volume.WriteBlock(i);
        assert forall b | 0 <= b < SYSTEM_BLOCKS :: volume.disk[b] == was[i := blank][b];
        i := i + 1;
      }
    }

    /** Rebuilds the index from the headers. */
    method Mount()
      requires Valid()
      modifies this`files, volume.buffer
      ensures Valid() && files == Scan(volume.disk[..], size)
    {
      hide Taken, IdOf, AvailabilityOf;
      files := [];
      var i := 0;
      while i < size
        invariant Valid() && i <= size && files == Scan(volume.disk[..], i)
      {
        volume.ReadBlock(i);
        if Taken(volume.buffer[..]) {
          AddFile(Entry(IdOf(volume.buffer[..]), i));
        }
        i := i + 1;
      }
    }

    /** Appends one entry to the list of files. */
    method AddFile(e: Entry)
      modifies this`files
      ensures files == old(files) + [e]
    {
      var longer := new Entry[|files| + 1](_ => e);
      var i := 0;
      while i < |files|
        invariant i <= |files| && files == old(files) && longer[..i] == files[..i]
        invariant longer[|files|] == e
      {
        longer[i] := files[i];
        i := i + 1;
      }
      files := longer[..];
    }

    /** Finds the first entry for `id` among the first `size` of the list. */
    method LookupFile(id: Word) returns (found: bool, e: Entry)
      ensures found <==> Position(files, id) < |files| && Position(files, id) < size
      ensures found ==> e == files[Position(files, id)]
    {
      found, e := false, Entry(0, 0);
      var i := 0;
      while i < |files| && i < size
        invariant i <= |files| && i <= size && forall k | 0 <= k < i :: files[k].id != id
      {
        if files[i].id == id {
          found, e := true, files[i];
          return;
        }
        i := i + 1;
      }
    }

    /** Marks the least free block as used; -1 when there is none. */
    method AllocateBlock() returns (block: int)
      requires Valid()
      modifies volume.buffer, volume.disk
      ensures var f := FirstFree(old(volume.disk[..]), size);
        if f == size then block == -1 && volume.disk[..] == old(volume.disk[..])
        else
          && block == f
          && volume.disk[..] == old(volume.disk[..])[f := WithAvailability(old(volume.disk[f]), USED)]
    {
      hide IdOf, AvailabilityOf, Taken, WithWord;
      var k := 0;
      while k < size
        invariant k <= size && volume.disk[..] == old(volume.disk[..])
        invariant forall b | 0 <= b < k :: Taken(volume.disk[..][b])
      {
        volume.ReadBlock(k);
        if !Taken(volume.buffer[..]) {
          volume.PutWord(4, USED);
          volume.WriteBlock(k);
          return k;
        }
        assert Taken(volume.disk[..][k]);
        k := k + 1;
      }
      block := -1;
    }

    /** AllocateBlock as written. When the only free block is the disk's last, it goes on to the block
        beyond the disk; no transfer takes place there, and no block changes. */
    method AllocateBlockAsCoded() returns (block: int)
      requires Valid()
      modifies volume.buffer, volume.disk
      ensures block == FileRuns.AllocatedAsCoded(old(volume.disk[..])) && -1 <= block <= SYSTEM_BLOCKS
      ensures volume.disk[..] == if block == -1 || block == SYSTEM_BLOCKS then old(volume.disk[..])
        else old(volume.disk[..])[block := WithAvailability(old(volume.disk[..])[block], USED)]
    {
      hide IdOf, AvailabilityOf, Taken, WithWord;
      block := 0;
      volume.ReadBlock(0);
      ghost var disk := volume.disk[..];
      while Taken(volume.buffer[..])
        invariant 0 <= block <= SYSTEM_BLOCKS && volume.disk[..] == disk
        invariant volume.buffer[..] == disk[if block == 0 then 0 else block - 1]
        invariant forall b | 0 <= b < block - 1 :: Taken(disk[b])
        invariant block > 1 ==> Taken(disk[0])
        invariant block == 1 ==> Taken(disk[0])
        decreases SYSTEM_BLOCKS - block
      {
        if block == SYSTEM_BLOCKS {
          return -1;
        }
        volume.ReadBlock(block);
        block := block + 1;
      }
      if block < SYSTEM_BLOCKS {
        volume.ReadBlock(block);
        volume.PutWord(4, USED);
        volume.WriteBlock(block);
      }
    }

    method FreeBlock(k: nat)
      requires Valid() && k < SYSTEM_BLOCKS
      modifies volume.buffer, volume.disk
      ensures volume.disk[..] == old(volume.disk[..])[k := WithAvailability(old(volume.disk[k]), FREE)]
    {
      volume.ReadBlock(k);
      volume.PutWord(4, FREE);
      volume.WriteBlock(k);
    }

    /** Creates the file `id`; false when it exists already or no block is free. */
    method CreateFile(id: Word) returns (created: bool)
      requires Valid() && |files| <= size
      modifies this`files, volume.buffer, volume.disk
      ensures Valid() && State() == Created(old(State()), id)
      ensures created <==> State() != old(State())
    {
      hide IdOf, AvailabilityOf, Taken, WithWord, DataOf, WithData;
      var found, _ := LookupFile(id);
      if found {
        return false;
      }
      ghost var disk := volume.disk[..];
      var k := AllocateBlock();
      if k == -1 {
        return false;
      }
      var file := new File(volume, id, k);
      file.Rewrite();
      volume.ReadBlock(k);
      volume.PutWord(4, USED);
      volume.PutWord(0, id);
      volume.WriteBlock(k);
      AddFile(Entry(id, k));
      created := true;
      assert volume.disk[..] == disk[k := NewFile(disk[k], id)];
    }

    /** Deletes the file `id` and frees its block; false when there is none. */
    method DeleteFile(id: Word) returns (found: bool)
      requires Valid() && |files| <= size && Distinct(files)
      requires forall e | e in files :: e.block < SYSTEM_BLOCKS
      modifies this`files, volume.buffer, volume.disk
      ensures Valid() && State() == Deleted(old(State()), id)
      ensures found <==> old(Has(State(), id))
    {
      hide IdOf, AvailabilityOf, WithWord, DataOf, WithData, FreedFile, Without, Distinct, Position;
      ghost var p, was, disk := Position(files, id), files, volume.disk[..];
      var e: Entry;
      found, e := LookupFile(id);
      if !found {
        return;
      }
      WithoutParts(was, p);
      OnlyAtPosition(was, id);
      var kept := new Entry[|files| - 1](_ => e);
      var i, j := 0, 0;
      while i < |files|
        invariant i <= |files| && files == was && Valid() && j == if i <= p then i else i - 1
        invariant kept[..j] == Without(was, p)[..j]
        invariant volume.disk[..] == if i <= p then disk else disk[was[p].block := FreedFile(disk[was[p].block])]
      {
        if files[i].id == id {
          EraseAndFree(files[i]);
        } else {
          kept[j] := files[i];
          j := j + 1;
        }
        i := i + 1;
      }
      files := kept[..];
    }

    /** Erases the data of a file and marks its block free. */
    method EraseAndFree(e: Entry)
      requires Valid() && e.block < SYSTEM_BLOCKS
      modifies volume.buffer, volume.disk
      ensures volume.disk[..] == old(volume.disk[..])[e.block := FreedFile(old(volume.disk[..])[e.block])]
    {
      hide IdOf, AvailabilityOf, WithWord, DataOf, WithData;
      ghost var disk := volume.disk[..];
      var file := new File(volume, e.id, e.block);
      file.Rewrite();
      FreeBlock(e.block);
      assert volume.disk[..] == disk[e.block := FreedFile(disk[e.block])];
    }

    /** DeleteFile as written: the copy stops one entry early, so that the last entry is dropped without
        being compared; and the answer is false whether the file was there or not. */
    method DeleteFileAsCoded(id: Word) returns (found: bool)
      requires Valid() && |files| <= size && Distinct(files)
      requires forall e | e in files :: e.block < SYSTEM_BLOCKS
      modifies this`files, volume.buffer, volume.disk
      ensures Valid() && State() == DeletedAsCoded(old(State()), id) && !found
    {
      hide IdOf, AvailabilityOf, WithWord, DataOf, WithData, FreedFile, Without, Distinct, Position;
      ghost var p, was, disk := Position(files, id), files, volume.disk[..];
      var known, e := LookupFile(id);
      found := false;
      if !known {
        return;
      }
      WithoutParts(was, p);
      OnlyAtPosition(was, id);
      var kept := new Entry[|files| - 1](_ => e);
      var i, j := 0, 0;
      while i < |files| - 1
        invariant i <= |files| - 1 && files == was && Valid() && j == if i <= p then i else i + 1
        invariant kept[..i] == Without(was, p)[..i]
        invariant volume.disk[..] == if i <= p then disk else disk[was[p].block := FreedFile(disk[was[p].block])]
      {
        if files[i].id == id {
          EraseAndFree(files[i]);
          j := j + 1;
        }
        kept[i] := files[j];
        j := j + 1;
        i := i + 1;
      }
      files := kept[..];
    }
  }
}
