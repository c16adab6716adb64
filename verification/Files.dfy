/** Block ownership and file contents of src/kernel/filesys.c, on values.

    An image is the device as the buffer cache shows it, with the inode table. A place is anything that can hold a
    block address: a direct slot, an indirect slot, or an entry of an indirect block. */
module Files {
  import opened Blocks
  import opened Bitmap

  const NDIRECT: nat := 12
  const NINDIRECT: nat := 256
  const MAXFILE: nat := NDIRECT + NINDIRECT

  datatype Inode = Inode(size: nat, addrs: seq<nat>)   // addrs: NDIRECT direct addresses and the indirect one

  datatype Image = Image(bitmapStart: nat, dataStart: nat, disk: Disk, inodes: seq<Inode>)

  datatype Place = Direct(f: nat, n: nat) | Indirect(f: nat) | Entry(f: nat, n: nat)

  predicate ValidPlace(img: Image, p: Place) {
    && p.f < |img.inodes|
    && match p
       case Direct(_, n) => n < NDIRECT
       case Indirect(_) => true
       case Entry(_, n) => n < NINDIRECT
  }

  /** Block numbers fit a word, inode records are whole, and one bitmap region covers the device. */
  predicate Shape(img: Image) {
    && (forall f :: 0 <= f < |img.inodes| ==> |img.inodes[f].addrs| == NDIRECT + 1)
    && 0 < img.dataStart <= |img.disk| < 0x8000_0000
    && img.bitmapStart + (|img.disk| - 1) / BITS < img.dataStart
  }

  /** The address stored at a place, 0 if none. */
  function Addr(img: Image, p: Place): (a: nat)
    requires Shape(img) && ValidPlace(img, p)
  {
    match p
    case Direct(f, n) => img.inodes[f].addrs[n]
    case Indirect(f) => img.inodes[f].addrs[NDIRECT]
    case Entry(f, n) =>
      var ind := img.inodes[f].addrs[NDIRECT];
      if ind == 0 || ind >= |img.disk| then 0 else GetWord(img.disk[ind], n)
  }

  function BitmapBlock(img: Image, b: nat): nat {
    img.bitmapStart + b / BITS
  }

  predicate Marked(img: Image, b: nat)
    requires Shape(img) && b < |img.disk|
  {
    Bit(img.disk[BitmapBlock(img, b)], b % BITS)
  }

  /** No block is held by two places; held blocks are marked data blocks; metadata is marked. */
  ghost predicate Owned(img: Image) {
    && Shape(img)
    && (forall p, q :: ValidPlace(img, p) && ValidPlace(img, q) && Addr(img, p) == Addr(img, q) != 0 ==> p == q)
    && (forall p :: ValidPlace(img, p) && Addr(img, p) != 0 ==>
          img.dataStart <= Addr(img, p) < |img.disk| && Marked(img, Addr(img, p)))
    && (forall b :: 0 <= b < img.dataStart ==> Marked(img, b))
  }

  /** A marked data block that no place holds. */
  ghost predicate Leaked(img: Image, b: nat)
    requires Shape(img)
  {
    img.dataStart <= b < |img.disk| && Marked(img, b) && forall p :: ValidPlace(img, p) ==> Addr(img, p) != b
  }

  /** The same places, with only place x's address changed to b. */
  ghost predicate Reassigned(img: Image, img': Image, x: Place, b: nat)
    requires Shape(img) && Shape(img')
  {
    && img'.bitmapStart == img.bitmapStart && img'.dataStart == img.dataStart
    && |img'.disk| == |img.disk| && |img'.inodes| == |img.inodes|
    && ValidPlace(img, x)
    && forall p {:trigger Addr(img', p)} :: ValidPlace(img, p) ==> Addr(img', p) == if p == x then b else Addr(img, p)
  }

  ghost predicate SameMarks(img: Image, img': Image)
    requires Shape(img) && Shape(img')
  {
    |img.disk| == |img'.disk| && forall b :: 0 <= b < |img.disk| ==> Marked(img', b) == Marked(img, b)
  }

  /** Giving a leaked block to an empty place keeps ownership, and the block is no longer leaked. */
  lemma AssignOwned(img: Image, img': Image, x: Place, b: nat)
    requires Owned(img) && Shape(img') && ValidPlace(img, x) && Addr(img, x) == 0 && Leaked(img, b)
    requires Reassigned(img, img', x, b) && SameMarks(img, img')
    ensures Owned(img') && forall c :: Leaked(img', c) <==> Leaked(img, c) && c != b
  {
    assert forall p :: ValidPlace(img', p) <==> ValidPlace(img, p);
    forall c ensures Leaked(img', c) <==> Leaked(img, c) && c != b {
      assert Addr(img', x) == b;
      if Leaked(img', c) {
        forall p | ValidPlace(img, p) ensures Addr(img, p) != c {
          assert ValidPlace(img', p);
        }
      }
    }
  }

  // ---------------------------------------------------------------- allocation

  /** Mark b and zero it. */
  function Allocated(img: Image, b: nat): (img': Image)
    requires Shape(img) && b < |img.disk|
    ensures Shape(img')
  {
    var bm := BitmapBlock(img, b);
    assert b / BITS <= (|img.disk| - 1) / BITS;
    img.(disk := img.disk[bm := PutBit(img.disk[bm], b % BITS, true)][b := ZeroBlock()])
  }

  lemma SplitIndex(b: nat, c: nat)
    requires b / BITS == c / BITS && b % BITS == c % BITS
    ensures b == c
  {
  }

  lemma AllocatedMarks(img: Image, b: nat)
    requires Shape(img) && img.dataStart <= b < |img.disk|
    ensures forall c :: 0 <= c < |img.disk| ==> Marked(Allocated(img, b), c) == (Marked(img, c) || c == b)
  {
    var img' := Allocated(img, b);
    forall c | 0 <= c < |img.disk| ensures Marked(img', c) == (Marked(img, c) || c == b) {
      assert c / BITS <= (|img.disk| - 1) / BITS;
      if c / BITS == b / BITS && c % BITS == b % BITS {
        SplitIndex(b, c);
      }
    }
  }

  /** An unmarked data block is held by no place; marking and zeroing it changes no address. */
  lemma AllocatedOwned(img: Image, b: nat)
    requires Owned(img) && b < |img.disk| && !Marked(img, b)
    ensures b >= img.dataStart
    ensures var img' := Allocated(img, b);
            && Owned(img') && Leaked(img', b)
            && (forall p :: ValidPlace(img, p) ==> Addr(img', p) == Addr(img, p))
            && (forall c :: Leaked(img', c) <==> Leaked(img, c) || c == b)
  {
    var img' := Allocated(img, b);
    AllocatedMarks(img, b);
    forall p | ValidPlace(img, p) ensures Addr(img', p) == Addr(img, p) != b {
      if p.Entry? {
        assert ValidPlace(img, Indirect(p.f));
        assert Addr(img, Indirect(p.f)) != b;
        assert b / BITS <= (|img.disk| - 1) / BITS;
      }
    }
    assert forall p :: ValidPlace(img', p) <==> ValidPlace(img, p);
  }

  /** Clear the mark of b. */
  function Freed(img: Image, b: nat): (img': Image)
    requires Shape(img) && b < |img.disk|
    ensures Shape(img')
  {
    var bm := BitmapBlock(img, b);
    assert b / BITS <= (|img.disk| - 1) / BITS;
    img.(disk := img.disk[bm := PutBit(img.disk[bm], b % BITS, false)])
  }

  /** Freeing a block that no place holds keeps ownership and changes no address. */
  lemma FreedOwned(img: Image, b: nat)
    requires Owned(img) && Leaked(img, b)
    ensures var img' := Freed(img, b);
            && Owned(img') && !Marked(img', b)
            && (forall p :: ValidPlace(img, p) ==> Addr(img', p) == Addr(img, p))
            && (forall c :: Leaked(img', c) <==> Leaked(img, c) && c != b)
  {
    var img' := Freed(img, b);
    forall c | 0 <= c < |img.disk| ensures Marked(img', c) == (Marked(img, c) && c != b) {
      assert c / BITS <= (|img.disk| - 1) / BITS;
      if c / BITS == b / BITS && c % BITS == b % BITS {
        SplitIndex(b, c);
      }
    }
    forall p | ValidPlace(img, p) ensures Addr(img', p) == Addr(img, p) {
      if p.Entry? {
        assert ValidPlace(img, Indirect(p.f));
        assert b / BITS <= (|img.disk| - 1) / BITS;
      }
    }
    assert forall p :: ValidPlace(img', p) <==> ValidPlace(img, p);
  }

  // ---------------------------------------------------------------- storing an address

  function WithAddr(img: Image, f: nat, n: nat, b: nat): (img': Image)
    requires Shape(img) && f < |img.inodes| && n <= NDIRECT
    ensures Shape(img')
  {
    img.(inodes := img.inodes[f := img.inodes[f].(addrs := img.inodes[f].addrs[n := b])])
  }

  lemma WithDirect(img: Image, f: nat, n: nat, b: nat)
    requires Shape(img) && f < |img.inodes| && n < NDIRECT
    ensures Reassigned(img, WithAddr(img, f, n, b), Direct(f, n), b) && SameMarks(img, WithAddr(img, f, n, b))
  {
  }

  /** A zeroed block becomes the indirect block: no entry appears. */
  lemma WithIndirect(img: Image, f: nat, b: nat)
    requires Shape(img) && f < |img.inodes| && 0 < b < |img.disk| && img.disk[b] == ZeroBlock()
    requires img.inodes[f].addrs[NDIRECT] == 0
    ensures Reassigned(img, WithAddr(img, f, NDIRECT, b), Indirect(f), b) &&
            SameMarks(img, WithAddr(img, f, NDIRECT, b))
  {
    var img' := WithAddr(img, f, NDIRECT, b);
    forall p | ValidPlace(img, p) ensures Addr(img', p) == if p == Indirect(f) then b else Addr(img, p) {
      if p.Entry? && p.f == f {
        ZeroWords(p.n);
      }
    }
  }

  function WithEntry(img: Image, f: nat, n: nat, b: Word): (img': Image)
    requires Shape(img) && f < |img.inodes| && n < NINDIRECT && img.inodes[f].addrs[NDIRECT] < |img.disk|
    ensures Shape(img')
  {
    var ind := img.inodes[f].addrs[NDIRECT];
    img.(disk := img.disk[ind := PutWord(img.disk[ind], n, b)])
  }

  lemma WithEntryAssigns(img: Image, f: nat, n: nat, b: Word)
    requires Owned(img) && f < |img.inodes| && n < NINDIRECT && img.inodes[f].addrs[NDIRECT] != 0
    ensures img.inodes[f].addrs[NDIRECT] < |img.disk|
    ensures Reassigned(img, WithEntry(img, f, n, b), Entry(f, n), b) && SameMarks(img, WithEntry(img, f, n, b))
  {
    var ind := Addr(img, Indirect(f));
    assert ValidPlace(img, Indirect(f));
    var img' := WithEntry(img, f, n, b);
    forall p | ValidPlace(img, p) ensures Addr(img', p) == if p == Entry(f, n) then b else Addr(img, p) {
      if p.Entry? {
        assert ValidPlace(img, Indirect(p.f));
        assert Addr(img, Indirect(p.f)) == ind ==> p.f == f;
        PutGet(img.disk[ind], n, b, p.n);
      }
    }
    forall c | 0 <= c < |img.disk| ensures Marked(img', c) == Marked(img, c) {
      assert c / BITS <= (|img.disk| - 1) / BITS;
    }
  }

  // ---------------------------------------------------------------- file contents

  function PlaceOf(f: nat, n: nat): Place {
    if n < NDIRECT then Direct(f, n) else Entry(f, n - NDIRECT)
  }

  /** The block address of the file's n-th block, 0 for a hole. */
  function MapAddr(img: Image, f: nat, n: nat): nat
    requires Shape(img) && f < |img.inodes| && n < MAXFILE
  {
    Addr(img, PlaceOf(f, n))
  }

  /** Byte i of a file's blocks; holes read as zero. */
  function FileByte(img: Image, f: nat, i: nat): Byte
    requires Shape(img) && f < |img.inodes| && i < MAXFILE * BLOCK_SIZE
  {
    var a := MapAddr(img, f, i / BLOCK_SIZE);
    if a == 0 || a >= |img.disk| then 0 else img.disk[a][i % BLOCK_SIZE]
  }

  /** The file as a byte sequence. */
  function Contents(img: Image, f: nat): (s: seq<Byte>)
    requires Shape(img) && f < |img.inodes| && img.inodes[f].size <= MAXFILE * BLOCK_SIZE
  {
    seq(img.inodes[f].size, i requires 0 <= i < img.inodes[f].size => FileByte(img, f, i))
  }

  /** Every block below the file's size is mapped. */
  ghost predicate HoleFree(img: Image, f: nat)
    requires Shape(img) && f < |img.inodes| && img.inodes[f].size <= MAXFILE * BLOCK_SIZE
  {
    forall n :: 0 <= n < MAXFILE && n * BLOCK_SIZE < img.inodes[f].size ==> MapAddr(img, f, n) != 0
  }

  /** The blocks a file maps are exactly those below its size. */
  ghost predicate Exact(img: Image, f: nat)
    requires Shape(img) && f < |img.inodes|
  {
    forall n :: 0 <= n < MAXFILE ==> (MapAddr(img, f, n) != 0 <==> n * BLOCK_SIZE < img.inodes[f].size)
  }

  /** No byte of any file differs. */
  ghost predicate SameBytes(img: Image, img': Image)
    requires Shape(img) && Shape(img')
  {
    && |img.inodes| == |img'.inodes|
    && forall f, i :: 0 <= f < |img.inodes| && 0 <= i < MAXFILE * BLOCK_SIZE ==>
         FileByte(img', f, i) == FileByte(img, f, i)
  }

  /** Allocating a block disturbs no file. */
  lemma AllocatedBytes(img: Image, b: nat)
    requires Owned(img) && b < |img.disk| && !Marked(img, b)
    ensures SameBytes(img, Allocated(img, b))
  {
    var img' := Allocated(img, b);
    AllocatedOwned(img, b);
    forall f, i | 0 <= f < |img.inodes| && 0 <= i < MAXFILE * BLOCK_SIZE
        ensures FileByte(img', f, i) == FileByte(img, f, i) {
      assert ValidPlace(img, PlaceOf(f, i / BLOCK_SIZE));
      assert b / BITS <= (|img.disk| - 1) / BITS;
    }
  }

  /** Putting a zeroed block into a hole, or as an indirect block, disturbs no file: at most the file's own
      indirect block is rewritten. */
  lemma AssignBytes(img: Image, img': Image, x: Place, b: nat)
    requires Owned(img) && Shape(img') && ValidPlace(img, x) && Reassigned(img, img', x, b)
    requires 0 < b < |img.disk| && img'.disk[b] == ZeroBlock() && Addr(img, x) == 0
    requires forall c :: 0 <= c < |img.disk| && c != Addr(img, Indirect(x.f)) ==> img'.disk[c] == img.disk[c]
    requires Addr(img, Indirect(x.f)) == 0 ==> img'.disk == img.disk
    ensures SameBytes(img, img')
  {
    forall f, i | 0 <= f < |img.inodes| && 0 <= i < MAXFILE * BLOCK_SIZE
        ensures FileByte(img', f, i) == FileByte(img, f, i) {
      var p := PlaceOf(f, i / BLOCK_SIZE);
      assert ValidPlace(img, p) && ValidPlace(img, Indirect(x.f));
      assert Addr(img, p) == Addr(img, Indirect(x.f)) ==> Addr(img, p) == 0;
    }
  }

  // ---------------------------------------------------------------- storing data

  /** Overwrite part of block a. */
  function Stored(img: Image, a: nat, at: nat, bytes: seq<Byte>): (img': Image)
    requires Shape(img) && a < |img.disk| && at + |bytes| <= BLOCK_SIZE
    ensures Shape(img')
  {
    img.(disk := img.disk[a := img.disk[a][..at] + bytes + img.disk[a][at + |bytes|..]])
  }

  /** Writing into the block under offset o of a file keeps ownership and changes exactly the bytes written. */
  lemma StoredEffect(img: Image, f: nat, o: nat, bytes: seq<Byte>)
    requires Owned(img) && f < |img.inodes| && o < MAXFILE * BLOCK_SIZE && o % BLOCK_SIZE + |bytes| <= BLOCK_SIZE
    requires MapAddr(img, f, o / BLOCK_SIZE) != 0
    ensures MapAddr(img, f, o / BLOCK_SIZE) < |img.disk|
    ensures var img' := Stored(img, MapAddr(img, f, o / BLOCK_SIZE), o % BLOCK_SIZE, bytes);
            && Owned(img') && SameMarks(img, img')
            && (forall p :: ValidPlace(img, p) ==> Addr(img', p) == Addr(img, p))
            && (forall c :: Leaked(img', c) <==> Leaked(img, c))
            && BytesReplaced(img, img', f, o, bytes)
  {
    var x := PlaceOf(f, o / BLOCK_SIZE);
    assert ValidPlace(img, x);
    var a := Addr(img, x);
    var img' := Stored(img, a, o % BLOCK_SIZE, bytes);
    forall p | ValidPlace(img, p) ensures Addr(img', p) == Addr(img, p) {
      if p.Entry? {
        assert ValidPlace(img, Indirect(p.f));
        assert Addr(img, Indirect(p.f)) != a;
      }
    }
    forall c | 0 <= c < |img.disk| ensures Marked(img', c) == Marked(img, c) {
      assert c / BITS <= (|img.disk| - 1) / BITS;
    }
    assert forall p :: ValidPlace(img', p) <==> ValidPlace(img, p);
    forall g, i | 0 <= g < |img.inodes| && 0 <= i < MAXFILE * BLOCK_SIZE
      ensures FileByte(img', g, i) == if g == f && o <= i < o + |bytes| then bytes[i - o] else FileByte(img, g, i)
    {
      StoredByte(img, f, o, bytes, g, i);
    }
  }

  /** Bytes [o, o+|bytes|) of file f are the new ones; every other byte of every file is as before. */
  ghost predicate BytesReplaced(img: Image, img': Image, f: nat, o: nat, bytes: seq<Byte>)
    requires Shape(img) && Shape(img')
  {
    && |img'.inodes| == |img.inodes|
    && forall g, i :: 0 <= g < |img.inodes| && 0 <= i < MAXFILE * BLOCK_SIZE ==>
         FileByte(img', g, i) == if g == f && o <= i < o + |bytes| then bytes[i - o] else FileByte(img, g, i)
  }

  lemma StoredByte(img: Image, f: nat, o: nat, bytes: seq<Byte>, g: nat, i: nat)
    requires Owned(img) && f < |img.inodes| && o < MAXFILE * BLOCK_SIZE && o % BLOCK_SIZE + |bytes| <= BLOCK_SIZE
    requires 0 != MapAddr(img, f, o / BLOCK_SIZE) < |img.disk| && g < |img.inodes| && i < MAXFILE * BLOCK_SIZE
    requires var img' := Stored(img, MapAddr(img, f, o / BLOCK_SIZE), o % BLOCK_SIZE, bytes);
             forall p :: ValidPlace(img, p) ==> Addr(img', p) == Addr(img, p)
    ensures FileByte(Stored(img, MapAddr(img, f, o / BLOCK_SIZE), o % BLOCK_SIZE, bytes), g, i)
            == if g == f && o <= i < o + |bytes| then bytes[i - o] else FileByte(img, g, i)
  {
    var p, x := PlaceOf(g, i / BLOCK_SIZE), PlaceOf(f, o / BLOCK_SIZE);
    assert ValidPlace(img, p) && ValidPlace(img, x);
    if Addr(img, p) == Addr(img, x) {
      assert p == x && i / BLOCK_SIZE == o / BLOCK_SIZE;
    } else {
      assert g != f || i / BLOCK_SIZE != o / BLOCK_SIZE;
    }
  }

  /** Replace [off, off+|src|) of s, extending it if needed. */
  function Splice(s: seq<Byte>, off: nat, src: seq<Byte>): (t: seq<Byte>)
    requires off <= |s|
    ensures |t| == if off + |src| > |s| then off + |src| else |s|
    ensures forall i {:trigger t[i]} :: 0 <= i < |t| ==> t[i] == if off <= i < off + |src| then src[i - off] else s[i]
  {
    if off + |src| >= |s| then s[..off] + src else s[..off] + src + s[off + |src|..]
  }
}
