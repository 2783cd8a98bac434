/** Reading and writing a file through the shared block buffer. */
module FileContents {
  import opened PhysicalMemory
  import opened DiskBlocks

  class File {
    const volume: Volume
    const fileId: Word
    const blockNum: nat
    var currentPosition: nat

    ghost predicate Valid()
      reads this
    {
      volume.Valid() && blockNum < SYSTEM_BLOCKS && currentPosition <= DATA_SIZE
    }

    constructor (volume: Volume, fileId: Word, blockNum: nat)
      requires volume.Valid() && blockNum < SYSTEM_BLOCKS
      ensures Valid() && this.volume == volume && this.fileId == fileId && this.blockNum == blockNum
      ensures currentPosition == 0
    {
      this.volume, this.fileId, this.blockNum := volume, fileId, blockNum;
      currentPosition := 0;
    }

    ghost function OnDisk(): Block
      requires Valid()
      reads this, volume.disk
    {
      volume.disk[blockNum]
    }

    /** Copies up to `n` bytes from the current position; the number copied is returned, and falls
        short of `n` only at the end of the block. */
    method Read(n: nat, buf: array<Byte>) returns (r: nat)
      requires Valid() && n <= buf.Length && buf != volume.buffer
      modifies this`currentPosition, volume.buffer, buf
      ensures Valid() && r == (if n <= DATA_SIZE - old(currentPosition) then n else DATA_SIZE - old(currentPosition))
      ensures currentPosition == old(currentPosition) + r
      ensures buf[..] == DataOf(OnDisk())[old(currentPosition)..currentPosition] + old(buf[..])[r..]
    {
      hide IdOf, AvailabilityOf, DataOf, WithData;
      var count := n;
      ghost var from, was, block := currentPosition, buf[..], OnDisk();
      while count > 0 && currentPosition != DATA_SIZE
        invariant Valid() && OnDisk() == block && from <= currentPosition && count == n - (currentPosition - from)
        invariant currentPosition - from <= n && (currentPosition == from || count == 0 || currentPosition == DATA_SIZE)
        invariant forall j | 0 <= j < buf.Length ::
          buf[j] == if j < currentPosition - from then block[8 + from + j] else was[j]
        decreases DATA_SIZE - currentPosition
      {
        volume.ReadBlock(blockNum);
        count := CopyOut(count, buf);
      }
      r := n - count;
      CopiedIs(block, from, r, was, buf[..]);
    }

    /** The inner loop of Read: one byte at a time until the block or the request ends. */
    method CopyOut(count: nat, buf: array<Byte>) returns (left: nat)
      requires Valid() && 0 < count <= buf.Length && buf != volume.buffer && currentPosition < DATA_SIZE
      modifies this`currentPosition, buf
      ensures Valid() && old(currentPosition) < currentPosition && currentPosition - old(currentPosition) <= count
      ensures left == count - (currentPosition - old(currentPosition))
      ensures left == 0 || currentPosition == DATA_SIZE
      ensures forall j | 0 <= j < buf.Length ::
        buf[j] == if j < currentPosition - old(currentPosition) then volume.buffer[8 + old(currentPosition) + j]
                  else old(buf[j])
    {
      left := count;
      ghost var from := currentPosition;
      while currentPosition < DATA_SIZE && left != 0
        invariant Valid() && from <= currentPosition && left == count - (currentPosition - from)
        invariant currentPosition - from <= count
        invariant forall j | 0 <= j < buf.Length ::
          buf[j] == if j < currentPosition - from then volume.buffer[8 + from + j] else old(buf[j])
        decreases left
      {
        buf[count - left] := volume.buffer[8 + currentPosition];
        currentPosition := currentPosition + 1;
        left := left - 1;
      }
    }

    /** Copies `n` bytes into the buffered block from the current position, and writes the block back
        only if they all fitted. A request for no bytes loads nothing and writes back whatever the
        buffer held: it leaves the disk alone exactly when that is the file's own block. */
    method Write(n: nat, buf: array<Byte>)
      requires Valid() && n <= buf.Length && buf != volume.buffer
      modifies this`currentPosition, volume.buffer, volume.disk
      ensures Valid()
      ensures var pos, block := old(currentPosition), old(OnDisk());
        if n == 0 then
          currentPosition == pos && volume.disk[..] == old(volume.disk[..])[blockNum := old(volume.buffer[..])]
        else if n <= DATA_SIZE - pos then
          && currentPosition == pos + n
          && volume.disk[..] == old(volume.disk[..])[blockNum := WithData(block, pos, old(buf[..n]))]
        else
          currentPosition == DATA_SIZE && volume.disk[..] == old(volume.disk[..])
      ensures n == 0 ==> (volume.disk[..] == old(volume.disk[..]) <==> old(volume.buffer[..]) == old(OnDisk()))
    {
      hide IdOf, AvailabilityOf, DataOf;
      var count := n;
      ghost var from, block, bytes := currentPosition, OnDisk(), buf[..n];
      ghost var stale: Block := volume.buffer[..];
      while count > 0 && currentPosition != DATA_SIZE
        invariant Valid() && from <= currentPosition && count == n - (currentPosition - from)
        invariant currentPosition - from <= n && OnDisk() == block && volume.disk[..] == old(volume.disk[..])
        invariant n == 0 ==> volume.buffer[..] == stale
        invariant currentPosition == from || count == 0 || currentPosition == DATA_SIZE
        invariant from < currentPosition ==> volume.buffer[..] == WithData(block, from, bytes[..currentPosition - from])
        decreases DATA_SIZE - currentPosition
      {
        volume.ReadBlock(blockNum);
        assert volume.buffer[..] == WithData(block, from, bytes[..0]);
        count := CopyIn(count, buf, from, block);
      }
      if count == 0 {
        volume.WriteBlock(blockNum);
        assert n > 0 ==> bytes[..n] == bytes;
        assert n == 0 ==> volume.disk[..][blockNum] == stale && old(volume.disk[..])[blockNum] == block;
      }
    }

    /** The inner loop of Write: one byte at a time until the block or the request ends. */
    method CopyIn(count: nat, buf: array<Byte>, ghost from: nat, ghost block: Block) returns (left: nat)
      requires Valid() && count <= buf.Length && buf != volume.buffer
      requires currentPosition == from && 0 < count && from < DATA_SIZE && volume.buffer[..] == block
      modifies this`currentPosition, volume.buffer
      ensures Valid() && from < currentPosition && currentPosition - from <= count
      ensures left == count - (currentPosition - from)
      ensures left == 0 || currentPosition == DATA_SIZE
      ensures volume.buffer[..] == WithData(block, from, buf[..currentPosition - from])
    {
      hide IdOf, AvailabilityOf, DataOf, WithData;
      WithDataNone(block, from);
      assert buf[..0] == [];
      left := count;
      while currentPosition < DATA_SIZE && left != 0
        invariant Valid() && from <= currentPosition && left == count - (currentPosition - from)
        invariant currentPosition - from <= count
        invariant volume.buffer[..] == WithData(block, from, buf[..currentPosition - from])
        decreases left
      {
        WithDataStep(block, from, buf[..currentPosition - from], buf[currentPosition - from]);
        volume.buffer[8 + currentPosition] := buf[count - left];
        assert buf[..currentPosition - from + 1] == buf[..currentPosition - from] + [buf[currentPosition - from]];
        currentPosition := currentPosition + 1;
        left := left - 1;
      }
    }

    method Reset()
      modifies this`currentPosition
      ensures currentPosition == 0
    {
      currentPosition := 0;
    }

    /** Erases the file's data and goes back to its beginning. */
    method Rewrite()
      requires Valid()
      modifies this`currentPosition, volume.buffer, volume.disk
      ensures Valid() && currentPosition == 0
      ensures volume.disk[..] == old(volume.disk[..])[blockNum := Erased(old(OnDisk()))]
    {
      hide IdOf, AvailabilityOf, DataOf;
      ghost var block := OnDisk();
      volume.ReadBlock(blockNum);
      var i := 0;
      while i < DATA_SIZE
        invariant i <= DATA_SIZE && volume.disk[..] == old(volume.disk[..])
        invariant volume.buffer[..] == WithData(block, 0, Zeros(i))
      {
        volume.buffer[8 + i] := 0;
        i := i + 1;
      }
      volume.WriteBlock(blockNum);
      Reset();
    }

    method EoF() returns (atEnd: bool)
      ensures atEnd <==> currentPosition == 504
    {
      atEnd := currentPosition == DATA_SIZE;
    }
  }

  lemma CopiedIs(b: Block, from: nat, r: nat, was: seq<Byte>, now: seq<Byte>)
    requires from + r <= DATA_SIZE && |now| == |was| && r <= |was|
    requires forall j | 0 <= j < |was| :: now[j] == if j < r then b[8 + from + j] else was[j]
    ensures now == DataOf(b)[from..from + r] + was[r..]
  {
  }

  lemma WithDataStep(b: Block, pos: nat, data: seq<Byte>, v: Byte)
    requires pos + |data| < DATA_SIZE
    ensures WithData(b, pos, data)[8 + pos + |data| := v] == WithData(b, pos, data + [v])
  {
  }

  lemma WithDataNone(b: Block, pos: nat)
    requires pos <= DATA_SIZE
    ensures WithData(b, pos, []) == b
  {
  }

  /** A write that fits, then reset, then read of as many bytes as lie before its end: the bytes
      written come back at their positions, the rest of the file as it was. */
  method WriteThenRead(f: File, n: nat, src: array<Byte>, dst: array<Byte>)
    requires f.Valid() && 0 < n <= src.Length && n <= DATA_SIZE - f.currentPosition
    requires f.currentPosition + n <= dst.Length
    requires src != f.volume.buffer && dst != f.volume.buffer && src != dst
    modifies f`currentPosition, f.volume.buffer, f.volume.disk, dst
    ensures dst[old(f.currentPosition)..old(f.currentPosition) + n] == old(src[..n])
    ensures dst[..old(f.currentPosition)] == old(DataOf(f.OnDisk()))[..old(f.currentPosition)]
    ensures forall k | 0 <= k < SYSTEM_BLOCKS && k != f.blockNum :: f.volume.disk[k] == old(f.volume.disk[k])
    ensures f.Valid() && IdOf(f.OnDisk()) == old(IdOf(f.OnDisk()))
    ensures AvailabilityOf(f.OnDisk()) == old(AvailabilityOf(f.OnDisk()))
  {
    hide IdOf, AvailabilityOf;
    ghost var pos, block, bytes := f.currentPosition, f.OnDisk(), src[..n];
    var length := f.currentPosition + n;
    f.Write(n, src);
    assert f.volume.disk[..][f.blockNum] == WithData(block, pos, bytes);
    f.Reset();
    var r := f.Read(length, dst);
    assert DataOf(f.OnDisk())[..pos + n] == DataOf(block)[..pos] + bytes;
    assert dst[..pos + n] == DataOf(f.OnDisk())[..pos + n];
    assert forall k | 0 <= k < SYSTEM_BLOCKS && k != f.blockNum :: f.volume.disk[k] == f.volume.disk[..][k];
  }
}
