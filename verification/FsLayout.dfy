/** On-disk format of xv6/fs.h: bitmap bits, inode records and the superblock. */
module FsLayout {
  import opened Blocks

  const NDIRECT: nat := 12
  const NINDIRECT: nat := 128
  const MAXFILE: nat := 140
  const NADDRS: nat := 13
  const BPB: nat := 4096
  const IPB: nat := 8
  const INODEWORDS: nat := 16

  type u16 = x: int | 0 <= x < 0x1_0000
  type Addrs = s: seq<u32> | |s| == NADDRS witness seq(NADDRS, i => 0)

  datatype Inode = Inode(kind: u16, major: u16, minor: u16, nlink: u16, size: u32, addrs: Addrs)

  /** The fields that reading, writing and truncating a file leave alone. */
  predicate SameKind(a: Inode, b: Inode) {
    a.kind == b.kind && a.major == b.major && a.minor == b.minor && a.nlink == b.nlink
  }

  /** boot | super | log | inode blocks | bitmap | data */
  datatype Super = Super(size: nat, ninodes: nat, inodestart: nat, bmapstart: nat, datastart: nat) {
    ghost predicate Ok() {
      && 0 < inodestart && inodestart + ninodes / IPB + 1 <= bmapstart
      && bmapstart + size / BPB + 1 <= datastart <= size < U32
    }

    function IBlock(i: nat): nat {
      i / IPB + inodestart
    }

    function BBlock(b: nat): nat {
      b / BPB + bmapstart
    }
  }

  // ---------------------------------------------------------------- bits

  /** x & 1 << k */
  predicate HasBit(x: nat, k: nat) {
    if k == 0 then x % 2 == 1 else HasBit(x / 2, k - 1)
  }

  /** x | 1 << k, or x & ~(1 << k) when v is 0 */
  function WithBit(x: nat, k: nat, v: nat): nat
    requires v < 2
  {
    if k == 0 then x / 2 * 2 + v else 2 * WithBit(x / 2, k - 1, v) + x % 2
  }

  function Pow2(n: nat): nat {
    if n == 0 then 1 else 2 * Pow2(n - 1)
  }

  lemma {:induction false} WithBitFits(x: nat, k: nat, v: nat, n: nat)
    requires v < 2 && x < Pow2(n) && k < n
    ensures WithBit(x, k, v) < Pow2(n)
  {
    var p := Pow2(n - 1);
    assert Pow2(n) == 2 * p;
    Halves(x, p);
    if k > 0 {
      WithBitFits(x / 2, k - 1, v, n - 1);
    }
  }

  lemma Halves(x: nat, p: nat)
    requires x < 2 * p
    ensures x / 2 < p
  {
  }

  /** Setting or clearing one bit changes that bit only. */
  lemma {:induction false} WithBitAt(x: nat, k: nat, v: nat, j: nat)
    requires v < 2
    ensures HasBit(WithBit(x, k, v), j) <==> if j == k then v == 1 else HasBit(x, j)
  {
    if k > 0 && j > 0 {
      WithBitAt(x / 2, k - 1, v, j - 1);
    }
  }

  function ByteWithBit(x: byte, k: nat, v: nat): byte
    requires k < 8 && v < 2
  {
    assert Pow2(8) == 256;
    WithBitFits(x, k, v, 8);
    WithBit(x, k, v)
  }

  predicate BitAt(b: Block, i: nat)
    requires i < BPB
  {
    HasBit(b.bytes[i / 8], i % 8)
  }

  function PutBit(b: Block, i: nat, v: nat): Block
    requires i < BPB && v < 2
  {
    Block(b.bytes[i / 8 := ByteWithBit(b.bytes[i / 8], i % 8, v)])
  }

  lemma PutBitAt(b: Block, i: nat, v: nat, j: nat)
    requires i < BPB && j < BPB && v < 2
    ensures BitAt(PutBit(b, i, v), j) <==> if i == j then v == 1 else BitAt(b, j)
  {
    hide HasBit, WithBit;
    if i / 8 == j / 8 {
      WithBitAt(b.bytes[i / 8], i % 8, v, j % 8);
    }
  }

  // ---------------------------------------------------------------- inodes

  function PutWords(b: Block, at: nat, ws: seq<u32>, k: nat): Block
    requires k <= |ws| && at + |ws| <= WORDS
  {
    if k == 0 then b else PutWord(PutWords(b, at, ws, k - 1), at + k - 1, ws[k - 1])
  }

  lemma {:induction false} PutWordsAt(b: Block, at: nat, ws: seq<u32>, k: nat, j: nat)
    requires k <= |ws| && at + |ws| <= WORDS && j < WORDS
    ensures GetWord(PutWords(b, at, ws, k), j) == if at <= j < at + k then ws[j - at] else GetWord(b, j)
  {
    hide GetWord, PutWord;
    if k != 0 {
      PutWordsAt(b, at, ws, k - 1, j);
      GetPutWord(PutWords(b, at, ws, k - 1), at + k - 1, ws[k - 1], j);
    }
  }

  function InodeWords(n: Inode): (ws: seq<u32>)
    ensures |ws| == INODEWORDS
  {
    [Pack(n.kind, n.major), Pack(n.minor, n.nlink), n.size] + n.addrs
  }

  /** Two 16-bit fields side by side. */
  function Pack(lo: u16, hi: u16): u32 {
    lo as int + 0x1_0000 * hi as int
  }

  function Lo(w: u32): u16 { w % 0x1_0000 }

  function Hi(w: u32): u16 { w / 0x1_0000 }

  function GetAddrs(b: Block, w: nat): Addrs
    requires w + NADDRS <= WORDS
  {
    [GetWord(b, w), GetWord(b, w + 1), GetWord(b, w + 2), GetWord(b, w + 3), GetWord(b, w + 4),
     GetWord(b, w + 5), GetWord(b, w + 6), GetWord(b, w + 7), GetWord(b, w + 8), GetWord(b, w + 9),
     GetWord(b, w + 10), GetWord(b, w + 11), GetWord(b, w + 12)]
  }

  /** *((struct dinode*)data + slot) */
  function GetInode(b: Block, slot: nat): Inode
    requires slot < IPB
  {
    var w := slot * INODEWORDS;
    Inode(Lo(GetWord(b, w)), Hi(GetWord(b, w)), Lo(GetWord(b, w + 1)), Hi(GetWord(b, w + 1)),
          GetWord(b, w + 2), GetAddrs(b, w + 3))
  }

  function PutInode(b: Block, slot: nat, n: Inode): Block
    requires slot < IPB
  {
    PutWords(b, slot * INODEWORDS, InodeWords(n), INODEWORDS)
  }

  lemma PackUnpack(lo: u16, hi: u16)
    ensures Lo(Pack(lo, hi)) == lo && Hi(Pack(lo, hi)) == hi
  {
  }

  lemma InodeWordsAt(n: Inode)
    ensures var ws := InodeWords(n);
      && ws[0] == Pack(n.kind, n.major) && ws[1] == Pack(n.minor, n.nlink)
      && ws[2] == n.size && forall k :: 3 <= k < INODEWORDS ==> ws[k] == n.addrs[k - 3]
  {
  }

  /** A stored inode reads back, and its block neighbours are undisturbed. */
  lemma GetPutInode(b: Block, slot: nat, n: Inode, t: nat)
    requires slot < IPB && t < IPB
    ensures GetInode(PutInode(b, slot, n), t) == if slot == t then n else GetInode(b, t)
  {
    hide GetWord, PutWord, PutWords, Pack, Lo, Hi, InodeWords;
    var r, ws, w := PutInode(b, slot, n), InodeWords(n), t * INODEWORDS;
    forall j: nat | w <= j < w + INODEWORDS
      ensures GetWord(r, j) == if slot == t then ws[j - w] else GetWord(b, j)
    {
      PutWordsAt(b, slot * INODEWORDS, ws, INODEWORDS, j);
    }
    InodeWordsAt(n);
    PackUnpack(n.kind, n.major);
    PackUnpack(n.minor, n.nlink);
    assert slot == t ==> GetAddrs(r, w + 3) == n.addrs;
  }

  /** n little-endian bytes at `at`. */
  function Little(b: Block, at: nat, n: nat): nat
    requires at + n <= BSIZE
    decreases n
  {
    if n == 0 then 0 else b.bytes[at] as int + 256 * Little(b, at + 1, n - 1)
  }

  lemma WordIsLittle(b: Block, w: nat)
    requires w < WORDS
    ensures GetWord(b, w) == Little(b, 4 * w, 4)
    ensures Lo(GetWord(b, w)) == Little(b, 4 * w, 2) && Hi(GetWord(b, w)) == Little(b, 4 * w + 2, 2)
  {
    var at := 4 * w;
    var b0: nat, b1: nat, b2: nat, b3: nat := b.bytes[at], b.bytes[at + 1], b.bytes[at + 2], b.bytes[at + 3];
    LittleTwo(b, 4 * w);
    LittleTwo(b, 4 * w + 2);
    assert Little(b, 4 * w, 4) == b0 + 256 * Little(b, 4 * w + 1, 3);
    assert Little(b, 4 * w + 1, 3) == b1 + 256 * Little(b, 4 * w + 2, 2);
    Split16(b0 + 256 * b1, b2 + 256 * b3);
  }

  lemma LittleTwo(b: Block, at: nat)
    requires at + 2 <= BSIZE
    ensures Little(b, at, 2) == b.bytes[at] as int + 256 * b.bytes[at + 1] as int
  {
    assert Little(b, at + 1, 1) == b.bytes[at + 1] as int + 256 * Little(b, at + 2, 0);
  }

  lemma Split16(low: nat, high: nat)
    requires low < 0x1_0000
    ensures (low + 0x1_0000 * high) % 0x1_0000 == low && (low + 0x1_0000 * high) / 0x1_0000 == high
  {
  }

  /** struct dinode, byte by byte: type, major, minor and nlink in two bytes each, size in four, and thirteen block
      addresses of four bytes, 64 bytes in all. */
  lemma DinodeBytes(b: Block, slot: nat)
    requires slot < IPB
    ensures var n, at := GetInode(b, slot), 64 * slot;
      && n.kind == Little(b, at, 2) && n.major == Little(b, at + 2, 2) && n.minor == Little(b, at + 4, 2)
      && n.nlink == Little(b, at + 6, 2) && n.size == Little(b, at + 8, 4)
      && forall k :: 0 <= k < NADDRS ==> n.addrs[k] == Little(b, at + 12 + 4 * k, 4)
  {
    hide GetWord, Lo, Hi, Little;
    var w := slot * INODEWORDS;
    WordIsLittle(b, w);
    WordIsLittle(b, w + 1);
    WordIsLittle(b, w + 2);
    forall k | 0 <= k < NADDRS ensures GetInode(b, slot).addrs[k] == Little(b, 64 * slot + 12 + 4 * k, 4) {
      WordIsLittle(b, w + 3 + k);
    }
  }

  lemma {:induction false} HasBitIs(x: nat, k: nat)
    ensures Pow2(k) > 0 && (HasBit(x, k) <==> x / Pow2(k) % 2 == 1)
  {
    if k > 0 {
      HasBitIs(x / 2, k - 1);
      HalfThen(x, Pow2(k - 1));
    }
  }

  lemma HalfThen(x: nat, p: nat)
    requires p > 0
    ensures x / (2 * p) == x / 2 / p
  {
    var q := x / 2 / p;
    var r := x / 2 % p;
    assert x / 2 == q * p + r;
    assert x == 2 * (q * p) + (2 * r + x % 2);
    Quotient(x, q, 2 * p, 2 * r + x % 2);
  }

  lemma Quotient(x: nat, q: nat, d: nat, r: nat)
    requires d > 0 && r < d && x == d * q + r
    ensures x / d == q
  {
    var p := x / d;
    assert x == d * p + x % d;
    if p < q {
      Times(d, p + 1, q);
    } else if q < p {
      Times(d, q + 1, p);
    }
  }

  lemma Times(d: nat, a: nat, b: nat)
    requires a <= b
    ensures d * a <= d * b
  {
  }

  /** Bit i of the bitmap is bit i % 8 of byte i / 8. */
  lemma BitmapBits(b: Block, i: nat)
    requires i < BPB
    ensures Pow2(i % 8) > 0 && (BitAt(b, i) <==> b.bytes[i / 8] as int / Pow2(i % 8) % 2 == 1)
  {
    HasBitIs(b.bytes[i / 8], i % 8);
  }
}
