/** Disk blocks as the kernel sees them: BSIZE bytes, read either byte by byte
    or as little-endian 32-bit words. */
module Blocks {
  const BSIZE: nat := 512
  const WORDS: nat := 128
  const U32: nat := 0x1_0000_0000
  const MAXOPBLOCKS: nat := 10   // blocks that one operation may log

  type byte = x: int | 0 <= x < 256
  type u32 = x: int | 0 <= x < U32
  type Bytes = s: seq<byte> | |s| == BSIZE witness seq(BSIZE, i => 0)
  datatype Block = Block(bytes: Bytes)
  type Disk = seq<Block>

  /** What a blocking read comes to: it is about to sleep, returns -1, or returns these bytes. */
  datatype ReadResult = Waits | Failed | Got(bytes: seq<byte>)

  /** memset(data, 0, BSIZE) */
  function ZeroBlock(): Block {
    Block(seq(BSIZE, i => 0))
  }

  /** ((uint*)data)[i] */
  function GetWord(b: Block, i: nat): u32
    requires i < WORDS
  {
    FromBytes(b.bytes[4*i], b.bytes[4*i+1], b.bytes[4*i+2], b.bytes[4*i+3])
  }

  function FromBytes(b0: byte, b1: byte, b2: byte, b3: byte): u32 {
    b0 as int + 0x100 * b1 as int + 0x1_0000 * b2 as int + 0x100_0000 * b3 as int
  }

  /** ((uint*)data)[i] = w */
  function PutWord(b: Block, i: nat, w: u32): Block
    requires i < WORDS
  {
    Block(b.bytes[4*i := w % 0x100][4*i+1 := w / 0x100 % 0x100]
          [4*i+2 := w / 0x1_0000 % 0x100][4*i+3 := w / 0x100_0000])
  }

  /** A stored word reads back, and storing it disturbs no other word. */
  lemma GetPutWord(b: Block, i: nat, w: u32, j: nat)
    requires i < WORDS && j < WORDS
    ensures GetWord(PutWord(b, i, w), j) == if i == j then w else GetWord(b, j)
  {
    if i == j {
      LittleEndian(w);
    }
  }

  lemma LittleEndian(w: u32)
    ensures FromBytes(w % 0x100, w / 0x100 % 0x100, w / 0x1_0000 % 0x100, w / 0x100_0000) == w
  {
    var a, b := w / 0x100, w / 0x1_0000;
    assert b == a / 0x100;
    assert w / 0x100_0000 == b / 0x100;
  }

  /** A 32-bit counter that is incremented counts modulo 2^32. */
  lemma NextWord(x: nat)
    ensures (x % U32 + 1) % U32 == (x + 1) % U32
  {
  }

  /** A ring whose length divides 2^32 (here 512 or 128) is indexed alike by a counter and by its low word. */
  lemma SlotOf(x: nat, ring: nat)
    requires ring == 512 || ring == 128
    ensures x % U32 % ring == x % ring
  {
    var q, r := x / 0x1_0000_0000, x % 0x1_0000_0000;
    if ring == 512 {
      Multiple512(q * 0x80_0000, r);
    } else {
      Multiple128(q * 0x200_0000, r);
    }
  }

  lemma Multiple512(a: nat, r: nat)
    ensures (512 * a + r) % 512 == r % 512
  {
  }

  lemma Multiple128(a: nat, r: nat)
    ensures (128 * a + r) % 128 == r % 128
  {
  }

  /** Counters less than a ring apart have different slots. */
  lemma Slots(a: nat, b: nat, ring: nat)
    requires (ring == 512 || ring == 128) && a < b < a + ring
    ensures a % ring != b % ring
  {
  }

  lemma ZeroWord(i: nat)
    requires i < WORDS
    ensures GetWord(ZeroBlock(), i) == 0
  {
  }
}
