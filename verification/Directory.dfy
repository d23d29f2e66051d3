/** Directories of xv6/fs.c as byte strings: what dirlookup finds, and what dirlink's new entry does to all later
    lookups. */
module Directory {
  import opened Commons
  import opened Blocks
  import opened FsLayout
  import opened FsFile

  const DIRSIZ: nat := 14
  const ENTRY: nat := 16
  const T_DIR: u16 := 1

  /** bzero or strncpy: the name, cut or padded with NULs. */
  function Padded(name: seq<byte>): (r: seq<byte>)
    ensures |r| == DIRSIZ
  {
    seq(DIRSIZ, i requires 0 <= i < DIRSIZ => if i < |name| then name[i] else 0)
  }

  /** struct dirent, with its inode number in two bytes */
  function Dirent(inum: nat, name: seq<byte>): (r: seq<byte>)
    ensures |r| == ENTRY
  {
    [inum % 256, inum / 256 % 256] + Padded(name)
  }

  /** A name as a C string: the bytes before its NUL. */
  predicate NulFree(name: seq<byte>) {
    forall i :: 0 <= i < |name| ==> name[i] != 0
  }

  /** What of a name a directory keeps. */
  function Cut(name: seq<byte>): seq<byte> { name[..Min(DIRSIZ, |name|)] }

  // ---------------------------------------------------------------- reading

  function InumAt(bytes: seq<byte>, off: nat): nat
    requires off + ENTRY <= |bytes|
  {
    var low: nat, high: nat := bytes[off], bytes[off + 1];
    low + 256 * high
  }

  function CharAt(s: seq<byte>, i: nat): byte { if i < |s| then s[i] else 0 }

  /** strncmp(s, t, DIRSIZ) == 0, from byte i on */
  predicate NameEq(s: seq<byte>, t: seq<byte>, i: nat)
    requires i <= DIRSIZ
    decreases DIRSIZ - i
  {
    if i == DIRSIZ then true
    else if CharAt(s, i) == 0 || CharAt(s, i) != CharAt(t, i) then CharAt(s, i) == CharAt(t, i)
    else NameEq(s, t, i + 1)
  }

  datatype Lookup = Found(inum: nat, off: nat) | Missing | Panics

  /** dirlookup's loop from offset off on; a last entry that is not whole is a panic. */
  function Scan(bytes: seq<byte>, name: seq<byte>, off: nat): Lookup
    decreases |bytes| - off
  {
    if off >= |bytes| then Missing
    else if off + ENTRY > |bytes| then Panics
    else if InumAt(bytes, off) != 0 && NameEq(name, bytes[off + 2..off + ENTRY], 0) then Found(InumAt(bytes, off), off)
    else Scan(bytes, name, off + ENTRY)
  }

  /** There is an entry in use at off whose name is this one, as far as directories keep names. */
  ghost predicate Named(bytes: seq<byte>, name: seq<byte>, off: nat) {
    && off % ENTRY == 0 && off + ENTRY <= |bytes| && InumAt(bytes, off) != 0
    && bytes[off + 2..off + ENTRY] == Padded(name)
  }

  /** Entries hold names as strncpy writes them: nothing but NULs behind the first NUL. */
  ghost predicate Tidy(bytes: seq<byte>) {
    forall off: nat :: off % ENTRY == 0 && off + ENTRY <= |bytes| ==> TidyAt(bytes, off)
  }

  ghost predicate TidyAt(bytes: seq<byte>, off: nat)
    requires off + ENTRY <= |bytes|
  {
    forall i, j :: off + 2 <= i < j < off + ENTRY && bytes[i] == 0 ==> bytes[j] == 0
  }

  lemma {:induction false} NameEqFrom(s: seq<byte>, t: seq<byte>, i: nat)
    requires NulFree(s) && |t| == DIRSIZ && i <= DIRSIZ && i <= |s|
    requires forall j, k :: 0 <= j < k < DIRSIZ && t[j] == 0 ==> t[k] == 0
    requires t[..i] == s[..i]
    ensures NameEq(s, t, i) <==> t == Padded(s)
    decreases DIRSIZ - i
  {
    if i < DIRSIZ && i < |s| && s[i] == t[i] {
      assert t[..i + 1] == t[..i] + [t[i]] && s[..i + 1] == s[..i] + [s[i]];
      NameEqFrom(s, t, i + 1);
    } else if i < DIRSIZ {
      assert Padded(s)[i] == CharAt(s, i);
      if i == |s| && t[i] == 0 {
        forall k | 0 <= k < DIRSIZ ensures t[k] == Padded(s)[k] { if k < i { assert t[k] == t[..i][k] == s[..i][k]; } }
      }
    } else {
      forall k | 0 <= k < DIRSIZ ensures t[k] == Padded(s)[k] { assert t[k] == t[..i][k] == s[..i][k]; }
    }
  }

  /** namecmp compares what the directory keeps. */
  lemma NameEqIs(bytes: seq<byte>, name: seq<byte>, off: nat)
    requires Tidy(bytes) && NulFree(name) && off % ENTRY == 0 && off + ENTRY <= |bytes|
    ensures NameEq(name, bytes[off + 2..off + ENTRY], 0) <==> bytes[off + 2..off + ENTRY] == Padded(name)
  {
    var t := bytes[off + 2..off + ENTRY];
    assert TidyAt(bytes, off);
    forall j, k | 0 <= j < k < DIRSIZ && t[j] == 0 ensures t[k] == 0 {
      assert t[j] == bytes[off + 2 + j] && t[k] == bytes[off + 2 + k];
    }
    NameEqFrom(name, t, 0);
  }

  /** Two names are one to a directory exactly when their first DIRSIZ bytes are the same. */
  lemma PaddedSame(a: seq<byte>, b: seq<byte>)
    requires NulFree(a) && NulFree(b)
    ensures Padded(a) == Padded(b) <==> Cut(a) == Cut(b)
  {
    if Padded(a) == Padded(b) {
      forall i | 0 <= i < DIRSIZ ensures CharAt(a, i) == CharAt(b, i) {
        assert Padded(a)[i] == CharAt(a, i) && Padded(b)[i] == CharAt(b, i);
      }
      var n, m := |Cut(a)|, |Cut(b)|;
      assert (forall i: nat :: i < n ==> CharAt(a, i) != 0) && forall i: nat :: i < m ==> CharAt(b, i) != 0;
      assert (n < DIRSIZ ==> CharAt(a, n) == 0) && (m < DIRSIZ ==> CharAt(b, m) == 0);
      forall i | 0 <= i < n ensures Cut(a)[i] == Cut(b)[i] { assert CharAt(a, i) == a[i] && CharAt(b, i) == b[i]; }
    } else if Cut(a) == Cut(b) {
      forall i | 0 <= i < DIRSIZ ensures Padded(a)[i] == Padded(b)[i] {
        assert i < |Cut(a)| ==> Cut(a)[i] == a[i] && Cut(b)[i] == b[i];
      }
    }
  }

  /** dirlookup finds the first entry in use with that name; it misses exactly when there is none; in a directory
      of whole entries it never panics. */
  lemma {:induction false} ScanFrom(bytes: seq<byte>, name: seq<byte>, off: nat)
    requires Tidy(bytes) && NulFree(name) && off % ENTRY == 0
    ensures match Scan(bytes, name, off)
      case Found(inum, o) =>
        Named(bytes, name, o) && off <= o && inum == InumAt(bytes, o) && forall p: nat :: off <= p < o ==>
          !Named(bytes, name, p)
      case Missing => forall p: nat :: off <= p ==> !Named(bytes, name, p)
      case Panics => |bytes| % ENTRY != 0 && forall p: nat :: off <= p ==> !Named(bytes, name, p)
    decreases |bytes| - off
  {
    if off < |bytes| && off + ENTRY <= |bytes| {
      NameEqIs(bytes, name, off);
      if !Named(bytes, name, off) {
        ScanFrom(bytes, name, off + ENTRY);
        forall p: nat | off <= p < off + ENTRY ensures !Named(bytes, name, p) { Aligned(off, p); }
      }
    } else if off < |bytes| {
      Ragged(|bytes|, off);
    }
  }

  lemma Aligned(off: nat, p: nat)
    requires off % ENTRY == 0 && off <= p < off + ENTRY
    ensures p % ENTRY == 0 ==> p == off
  {
  }

  lemma Ragged(n: nat, off: nat)
    requires off % ENTRY == 0 && off < n < off + ENTRY
    ensures n % ENTRY != 0
  {
  }

  /** The first entry in use with the name decides the lookup. */
  lemma ScanFinds(bytes: seq<byte>, name: seq<byte>, off: nat)
    requires Tidy(bytes) && NulFree(name) && Named(bytes, name, off)
    requires forall p: nat :: p < off ==> !Named(bytes, name, p)
    ensures Scan(bytes, name, 0) == Found(InumAt(bytes, off), off)
  {
    ScanFrom(bytes, name, 0);
  }

  // ---------------------------------------------------------------- writing

  /** Where dirlink puts the entry: the first one not in use, or the end. */
  function FirstEmpty(bytes: seq<byte>, off: nat): (r: nat)
    requires off <= |bytes| && off % ENTRY == 0 && |bytes| % ENTRY == 0
    ensures off <= r <= |bytes| && r % ENTRY == 0
    ensures r < |bytes| ==> r + ENTRY <= |bytes| && InumAt(bytes, r) == 0
    decreases |bytes| - off
  {
    if off == |bytes| || InumAt(bytes, off) == 0 then off else FirstEmpty(bytes, off + ENTRY)
  }

  ghost function Linked(bytes: seq<byte>, off: nat, inum: nat, name: seq<byte>): (r: seq<byte>)
    requires off <= |bytes| && (off < |bytes| ==> off + ENTRY <= |bytes|)
    ensures |r| == Max(|bytes|, off + ENTRY)
    ensures forall i :: 0 <= i < |r| ==>
      r[i] == if off <= i < off + ENTRY then Dirent(inum, name)[i - off] else bytes[i]
  {
    Splice(bytes, off, Dirent(inum, name))
  }

  lemma LinkedTidy(bytes: seq<byte>, off: nat, inum: nat, name: seq<byte>)
    requires Tidy(bytes) && NulFree(name) && |bytes| % ENTRY == 0 && off % ENTRY == 0 && off <= |bytes|
    ensures off < |bytes| ==> off + ENTRY <= |bytes|
    ensures Tidy(Linked(bytes, off, inum, name))
  {
    hide Linked, Dirent;
    WholeEntry(|bytes|, off);
    var r := Linked(bytes, off, inum, name);
    forall o: nat | o % ENTRY == 0 && o + ENTRY <= |r| ensures TidyAt(r, o) {
      if o == off {
        forall i | off + 2 <= i < off + ENTRY ensures r[i] == CharAt(name, i - off - 2) {
          DirentName(inum, name, i - off);
        }
      } else {
        Disjoint(o, off);
        assert TidyAt(bytes, o);
      }
    }
  }

  lemma WholeEntry(n: nat, off: nat)
    requires n % ENTRY == 0 && off % ENTRY == 0
    ensures off < n ==> off + ENTRY <= n
  {
  }

  lemma Disjoint(a: nat, b: nat)
    requires a % ENTRY == 0 && b % ENTRY == 0 && a != b
    ensures a + ENTRY <= b || b + ENTRY <= a
  {
  }

  lemma DirentName(inum: nat, name: seq<byte>, i: nat)
    requires 2 <= i < ENTRY
    ensures Dirent(inum, name)[i] == CharAt(name, i - 2)
  {
  }

  lemma DirentFields(inum: nat, name: seq<byte>)
    ensures InumAt(Dirent(inum, name), 0) == inum % 0x1_0000 && Dirent(inum, name)[2..ENTRY] == Padded(name)
  {
  }

  /** The entries of the new directory: the new one, and the old ones as they were. */
  lemma LinkedNamed(bytes: seq<byte>, off: nat, inum: nat, name: seq<byte>, other: seq<byte>, p: nat)
    requires |bytes| % ENTRY == 0 && off % ENTRY == 0 && off <= |bytes| && (off < |bytes| ==> off + ENTRY <= |bytes|)
    requires off < |bytes| ==> InumAt(bytes, off) == 0
    ensures var r := Linked(bytes, off, inum, name);
      && (p == off ==> (Named(r, other, p) <==> inum % 0x1_0000 != 0 && Padded(other) == Padded(name)))
      && (p == off && p + ENTRY <= |r| ==> InumAt(r, p) == inum % 0x1_0000)
      && (p != off ==> (Named(r, other, p) <==> Named(bytes, other, p)))
      && (p != off && Named(bytes, other, p) ==> InumAtOf(r, p) == InumAtOf(bytes, p))
      && !Named(bytes, other, off)
  {
    hide Linked, Dirent, Padded;
    var r := Linked(bytes, off, inum, name);
    DirentFields(inum, name);
    if p == off {
      assert r[off + 2..off + ENTRY] == Dirent(inum, name)[2..ENTRY];
    } else if p % ENTRY == 0 && p + ENTRY <= |r| {
      Disjoint(p, off);
      assert p + ENTRY <= |bytes|;
      assert r[p + 2..p + ENTRY] == bytes[p + 2..p + ENTRY];
    }
  }

  /** dirlink, then dirlookup: the new name is found with its inode, cut to 16 bits, and every other lookup is as
      it was before. */
  lemma LinkThenLookup(bytes: seq<byte>, inum: nat, name: seq<byte>, other: seq<byte>)
    requires Tidy(bytes) && NulFree(name) && NulFree(other) && |bytes| % ENTRY == 0
    requires Scan(bytes, name, 0) == Missing && inum % 0x1_0000 != 0
    ensures var off := FirstEmpty(bytes, 0);
      && (off < |bytes| ==> off + ENTRY <= |bytes|)
      && Scan(Linked(bytes, off, inum, name), other, 0) ==
         if Cut(other) == Cut(name) then Found(inum % 0x1_0000, off) else Scan(bytes, other, 0)
  {
    hide Linked, Scan, Named, Tidy, FirstEmpty;
    var off := FirstEmpty(bytes, 0);
    var r := Linked(bytes, off, inum, name);
    LinkedTidy(bytes, off, inum, name);
    PaddedSame(other, name);
    ScanFrom(bytes, name, 0);
    ScanFrom(bytes, other, 0);
    ScanFrom(r, other, 0);
    forall p: nat
      ensures p != off ==> (Named(r, other, p) <==> Named(bytes, other, p))
      ensures p != off && Named(bytes, other, p) ==> InumAtOf(r, p) == InumAtOf(bytes, p)
      ensures !Named(bytes, other, off)
      ensures Named(r, other, off) <==> Padded(other) == Padded(name)
    {
      LinkedNamed(bytes, off, inum, name, other, p);
      LinkedNamed(bytes, off, inum, name, other, off);
    }
    if Cut(other) == Cut(name) {
      forall p: nat ensures !Named(bytes, other, p) { SameNamed(bytes, name, other, p); }
      LinkedNamed(bytes, off, inum, name, other, off);
    }
    LinkedLength(|bytes|, off);
  }

  function InumAtOf(bytes: seq<byte>, p: nat): nat {
    if p + ENTRY <= |bytes| then InumAt(bytes, p) else 0
  }

  lemma LinkedLength(n: nat, off: nat)
    requires n % ENTRY == 0 && off % ENTRY == 0 && off <= n
    ensures Max(n, off + ENTRY) % ENTRY == 0
  {
  }

  lemma SameNamed(bytes: seq<byte>, a: seq<byte>, b: seq<byte>, p: nat)
    requires Padded(a) == Padded(b)
    ensures Named(bytes, a, p) == Named(bytes, b, p)
  {
  }
}
