/** Flat physical memory: 32 MB of little-endian words, with byte access on top.
    Frame `f` is the 1024 words from word `1024 * f`. */
module PhysicalMemory {
  const RAM_WORDS: nat := 0x80_0000
  const RAM_BYTES: nat := 0x200_0000
  const FRAMES: nat := 8192

  type Word = x: int | 0 <= x < 0x1_0000_0000
  type Byte = x: int | 0 <= x < 256
  type Ram = s: seq<Word> | |s| == RAM_WORDS ghost witness seq(RAM_WORDS, _ => 0)

  function ByteOf(w: Word, c: nat): Byte
    requires c < 4
  {
    if c == 0 then w % 256
    else if c == 1 then w / 256 % 256
    else if c == 2 then w / 256 / 256 % 256
    else w / 256 / 256 / 256
  }

  function Pack(b0: Byte, b1: Byte, b2: Byte, b3: Byte): (w: Word)
    ensures ByteOf(w, 0) == b0 && ByteOf(w, 1) == b1 && ByteOf(w, 2) == b2 && ByteOf(w, 3) == b3
  {
    var w2 := b2 + 256 * b3;
    var w1 := b1 + 256 * w2;
    var w := b0 + 256 * w1;
    assert w % 256 == b0 && w / 256 == w1;
    assert w1 % 256 == b1 && w1 / 256 == w2;
    assert w2 % 256 == b2 && w2 / 256 == b3;
    w
  }

  function WithByte(w: Word, c: nat, v: Byte): (w': Word)
    requires c < 4
    ensures forall c' | 0 <= c' < 4 :: ByteOf(w', c') == if c' == c then v else ByteOf(w, c')
  {
    Pack(if c == 0 then v else ByteOf(w, 0),
         if c == 1 then v else ByteOf(w, 1),
         if c == 2 then v else ByteOf(w, 2),
         if c == 3 then v else ByteOf(w, 3))
  }

  function LoadByte(s: Ram, k: nat): Byte
    requires k < RAM_BYTES
  {
    ByteOf(s[k / 4], k % 4)
  }

  function StoreByte(s: Ram, k: nat, v: Byte): (s': Ram)
    requires k < RAM_BYTES
    ensures forall k' | 0 <= k' < RAM_BYTES :: LoadByte(s', k') == if k' == k then v else LoadByte(s, k')
    ensures forall w | 0 <= w < RAM_WORDS && w != k / 4 :: s'[w] == s[w]
  {
    s[k / 4 := WithByte(s[k / 4], k % 4, v)]
  }
}
