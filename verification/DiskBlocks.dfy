/** A disk block that holds one file: an 8-byte header and 504 bytes of data. */
module DiskBlocks {
  import opened PhysicalMemory

  const SYSTEM_BLOCKS: nat := 20480
  const DATA_SIZE: nat := 504
  const USED: Word := 0xFFFF
  const FREE: Word := 0

  type Block = b: seq<Byte> | |b| == 512 ghost witness seq(512, _ => 0)

  /** The word at byte `o` of a block, low byte first. */
  function WordAt(b: Block, o: nat): Word
    requires o + 4 <= 512
  {
    Pack(b[o], b[o + 1], b[o + 2], b[o + 3])
  }

  function WithWord(b: Block, o: nat, w: Word): Block
    requires o + 4 <= 512
  {
    b[o := ByteOf(w, 0)][o + 1 := ByteOf(w, 1)][o + 2 := ByteOf(w, 2)][o + 3 := ByteOf(w, 3)]
  }

  lemma BytesOfWord(w: Word)
    ensures Pack(ByteOf(w, 0), ByteOf(w, 1), ByteOf(w, 2), ByteOf(w, 3)) == w
  {
    assert w == w % 256 + 256 * (w / 256);
    assert w / 256 == w / 256 % 256 + 256 * (w / 256 / 256);
    assert w / 256 / 256 == w / 256 / 256 % 256 + 256 * (w / 256 / 256 / 256);
  }

  function IdOf(b: Block): Word {
    WordAt(b, 0)
  }

  function AvailabilityOf(b: Block): Word {
    WordAt(b, 4)
  }

  function DataOf(b: Block): (d: seq<Byte>)
    ensures |d| == DATA_SIZE
  {
    b[8..]
  }

  predicate Taken(b: Block) {
    AvailabilityOf(b) == USED
  }

  function WithAvailability(b: Block, a: Word): Block {
    WithWord(b, 4, a)
  }

  function WithId(b: Block, id: Word): Block {
    WithWord(b, 0, id)
  }

  /** `data` written over the file's data from position `pos`. */
  function WithData(b: Block, pos: nat, data: seq<Byte>): (b': Block)
    requires pos + |data| <= DATA_SIZE
    ensures IdOf(b') == IdOf(b) && AvailabilityOf(b') == AvailabilityOf(b)
    ensures DataOf(b') == DataOf(b)[..pos] + data + DataOf(b)[pos + |data|..]
  {
    b[..8 + pos] + data + b[8 + pos + |data|..]
  }

  function Zeros(n: nat): seq<Byte> {
    seq(n, _ => 0)
  }

  function Erased(b: Block): Block {
    WithData(b, 0, Zeros(DATA_SIZE))
  }

  lemma HeaderParts(b: Block, w: Word)
    ensures IdOf(WithId(b, w)) == w && AvailabilityOf(WithId(b, w)) == AvailabilityOf(b)
    ensures AvailabilityOf(WithAvailability(b, w)) == w && IdOf(WithAvailability(b, w)) == IdOf(b)
    ensures DataOf(WithId(b, w)) == DataOf(b) && DataOf(WithAvailability(b, w)) == DataOf(b)
  {
    hide Pack, ByteOf;
    BytesOfWord(w);
  }

  /** The header in bytes. */
  lemma HeaderBytes(b: Block)
    ensures Taken(b) <==> b[4..8] == [0xFF, 0xFF, 0, 0]
    ensures DataOf(b) == b[8..]
    ensures IdOf(b) == b[0] + 0x100 * (b[1] as int) + 0x1_0000 * (b[2] as int) + 0x100_0000 * (b[3] as int)
  {
    assert b[4..8] == [b[4], b[5], b[6], b[7]];
    assert AvailabilityOf(b) == b[4] + 0x100 * (b[5] as int) + 0x1_0000 * (b[6] as int) + 0x100_0000 * (b[7] as int);
  }

  /** Memory between the file system and the disk: all blocks, and the one shared buffer. */
  class Volume {
    const disk: array<Block>
    const buffer: array<Byte>

    constructor (disk: array<Block>, buffer: array<Byte>)
      ensures this.disk == disk && this.buffer == buffer
    {
      this.disk, this.buffer := disk, buffer;
    }

    ghost predicate Valid() {
      disk.Length == SYSTEM_BLOCKS && buffer.Length == 512
    }

    /** The disk fills the buffer. */
    method ReadBlock(k: nat)
      requires Valid() && k < SYSTEM_BLOCKS
      modifies buffer
      ensures buffer[..] == disk[k]
    {
      var i := 0;
      while i < 512
        invariant i <= 512 && buffer[..i] == disk[k][..i]
      {
        buffer[i] := disk[k][i];
        i := i + 1;
      }
    }

    /** Stores a header word in the buffer. */
    method PutWord(o: nat, w: Word)
      requires Valid() && o + 4 <= 512
      modifies buffer
      ensures buffer[..] == WithWord(old(buffer[..]), o, w)
    {
      buffer[o] := ByteOf(w, 0);
      buffer[o + 1] := ByteOf(w, 1);
      buffer[o + 2] := ByteOf(w, 2);
      buffer[o + 3] := ByteOf(w, 3);
    }

    method WriteBlock(k: nat)
      requires Valid() && k < SYSTEM_BLOCKS
      modifies disk
      ensures disk[..] == old(disk[..])[k := buffer[..]]
    {
      disk[k] := buffer[..];
    }
  }
}
