/** buffer_alloc, buffer_free, buffer_map, inode_truncate, read_inode and write_inode of src/kernel/filesys.c, and the
    chunked write of src/kernel/file.c.

    A panic is the result None: nothing is promised about the state after it. */
module FileSys {
  import opened Common
  import opened Blocks
  import opened Bitmap
  import opened Files

  const INODES_PER_BLOCK: nat := 16

  /** Bitmap blocks of the device. */
  ghost predicate AreBitmapBlocks(img: Image, s: set<nat>) {
    |img.disk| > 0 && forall b :: b in s ==> img.bitmapStart <= b <= img.bitmapStart + (|img.disk| - 1) / BITS
  }

  /** Blocks were only added to empty places, and no file byte, size or leak changed. */
  ghost predicate Extends(img: Image, img': Image) {
    && Owned(img) && Owned(img')
    && img'.bitmapStart == img.bitmapStart && img'.dataStart == img.dataStart && |img'.disk| == |img.disk|
    && |img'.inodes| == |img.inodes|
    && SameBytes(img, img')
    && (forall c :: Leaked(img', c) <==> Leaked(img, c))
    && (forall p :: ValidPlace(img, p) && Addr(img, p) != 0 ==> Addr(img', p) == Addr(img, p))
    && (forall g :: 0 <= g < |img.inodes| ==> img'.inodes[g].size == img.inodes[g].size)
  }

  lemma ExtendsTrans(a: Image, b: Image, c: Image)
    requires Extends(a, b) && Extends(b, c)
    ensures Extends(a, c)
  {
    forall p | ValidPlace(a, p) && Addr(a, p) != 0 ensures Addr(c, p) == Addr(a, p) {
      assert ValidPlace(b, p);
    }
  }

  /** What mapping block n of file f may do: fill that hole, and the indirect slot on the way to it, with fresh
      blocks. */
  ghost predicate Mapped(img: Image, img': Image, f: nat, n: nat, a: nat) {
    && Extends(img, img') && f < |img.inodes| && n < MAXFILE
    && a == MapAddr(img', f, n) != 0
    && (forall p :: ValidPlace(img, p) && p != PlaceOf(f, n) && p != Indirect(f) ==> Addr(img', p) == Addr(img, p))
    && (MapAddr(img, f, n) != 0 ==> img' == img)
    && (n < NDIRECT ==> Addr(img', Indirect(f)) == Addr(img, Indirect(f)))
  }

  // ---------------------------------------------------------------- what has to be in the log

  /** Every block that differs between the images is in the log. */
  ghost predicate Covered(img: Image, img': Image, log: set<nat>) {
    |img'.disk| == |img.disk| && forall b :: 0 <= b < |img.disk| && img'.disk[b] != img.disk[b] ==> b in log
  }

  lemma CoveredTrans(a: Image, b: Image, c: Image, log: set<nat>, log': set<nat>)
    requires Covered(a, b, log) && Covered(b, c, log') && log <= log'
    ensures Covered(a, c, log')
  {
    forall k | 0 <= k < |a.disk| && c.disk[k] != a.disk[k] ensures k in log' {
      assert b.disk[k] != a.disk[k] || c.disk[k] != b.disk[k];
    }
  }

  lemma CoveredRefl(img: Image, log: set<nat>)
    ensures Covered(img, img, log)
  {}

  /** Only the blocks matter. */
  lemma CoveredDisk(img: Image, img': Image, img'': Image, log: set<nat>, log': set<nat>)
    requires img''.disk == img'.disk && Covered(img, img', log) && log <= log'
    ensures Covered(img, img'', log')
  {}

  /** Allocation touches the bitmap block and the block handed out. */
  lemma CoveredAlloc(img: Image, b: nat, log: set<nat>)
    requires Shape(img) && b < |img.disk| && BitmapBlock(img, b) in log && b in log
    ensures Covered(img, Allocated(img, b), log)
  {
    assert b / BITS <= (|img.disk| - 1) / BITS;
  }

  /** A store changes one block. */
  lemma CoveredStore(img: Image, a: nat, at: nat, bytes: seq<Byte>, log: set<nat>)
    requires Shape(img) && a < |img.disk| && at + |bytes| <= BLOCK_SIZE && (bytes == [] || a in log)
    ensures Covered(img, Stored(img, a, at, bytes), log)
  {
    if bytes == [] { assert img.disk[a][..at] + [] + img.disk[a][at..] == img.disk[a]; }
  }

  /** The blocks under bytes [off, off+len) of file f are in the log, changed or not. */
  ghost predicate InLog(img: Image, f: nat, off: nat, len: nat, log: set<nat>) {
    Shape(img) && f < |img.inodes| && forall m :: Touches(m, off, len) ==> MapAddr(img, f, m) in log
  }

  /** One turn further: the blocks of the turns before stay where they are, and the block of this one is logged. */
  lemma InLogStep(img0: Image, img1: Image, img2: Image, f: nat, off: nat, s: seq<Byte>, b: seq<Byte>, j: nat,
                  log1: set<nat>, log2: set<nat>)
    requires Wrote(img0, img1, f, off, s) && Wrote(img1, img2, f, off + |s|, b)
    requires InLog(img1, f, off, |s|, log1) && log1 <= log2
    requires off + |s| + j <= MAXFILE * BLOCK_SIZE && (off + |s|) % BLOCK_SIZE + j <= BLOCK_SIZE
    requires j > 0 ==> MapAddr(img2, f, (off + |s|) / BLOCK_SIZE) in log2
    ensures InLog(img2, f, off, |s| + j, log2)
  {
    forall m | Touches(m, off, |s| + j) ensures MapAddr(img2, f, m) in log2 {
      if Touches(m, off, |s|) {
        assert ValidPlace(img1, PlaceOf(f, m)) && MapAddr(img1, f, m) != 0;
      } else {
        assert m == (off + |s|) / BLOCK_SIZE;
      }
    }
  }

  lemma NothingInLog(img: Image, f: nat, off: nat, log: set<nat>)
    requires Shape(img) && f < |img.inodes|
    ensures InLog(img, f, off, 0, log)
  {}

  /** The indirect block on the path to block n. */
  ghost function PathBlocks(img: Image, f: nat, n: nat): set<nat>
    requires Shape(img) && f < |img.inodes|
  {
    if n < NDIRECT then {} else {Addr(img, Indirect(f))}
  }

  /** The blocks buffer_alloc can hand out. */
  ghost function FreeEights(img: Image): (s: set<nat>)
    requires Shape(img)
    ensures forall b: nat :: b in s <==> b < |img.disk| && b % 8 == 0 && !Marked(img, b)
  {
    set b: nat | b < |img.disk| && b % 8 == 0 && !Marked(img, b)
  }

  /** Mapping (f, n) does not panic: nothing is to be allocated, or there is a transaction and enough can be. */
  ghost predicate CanMap(img: Image, f: nat, n: nat, syscalls: nat)
    requires Shape(img) && f < |img.inodes| && n < MAXFILE
  {
    Allocations(img, f, n) == 0 || (syscalls > 0 && |FreeEights(img)| >= Allocations(img, f, n))
  }

  ghost predicate FreeAfter(img: Image, img': Image, b: nat) {
    Shape(img) && Shape(img') && (img' != img ==> b in FreeEights(img) && FreeEights(img') == FreeEights(img) - {b})
  }

  lemma AllocatedFree(img: Image, b: nat)
    requires Owned(img) && b in FreeEights(img)
    ensures b >= img.dataStart && FreeEights(Allocated(img, b)) == FreeEights(img) - {b}
    ensures forall f, a :: 0 <= f < |img.inodes| ==>
            FreeEights(WithAddr(Allocated(img, b), f, NDIRECT, a)) == FreeEights(img) - {b}
  {
    AllocatedMarks(img, b);
    var img' := Allocated(img, b);
    assert forall f, a, c :: 0 <= f < |img.inodes| && 0 <= c < |img.disk| ==>
        Marked(WithAddr(img', f, NDIRECT, a), c) == Marked(img', c);
  }

  /** A mapped block needs no allocation; outside a transaction only mapped blocks can be mapped. */
  lemma CanMapMapped(img: Image, f: nat, n: nat, syscalls: nat)
    requires Shape(img) && f < |img.inodes| && n < MAXFILE
    ensures MapAddr(img, f, n) != 0 ==> CanMap(img, f, n, syscalls)
    ensures syscalls == 0 ==> (CanMap(img, f, n, syscalls) <==> MapAddr(img, f, n) != 0)
  {}

  lemma OneNeeded(img: Image, f: nat, n: nat)
    requires Shape(img) && f < |img.inodes| && n < NDIRECT
    ensures Allocations(img, f, n) == if img.inodes[f].addrs[n] == 0 then 1 else 0
    ensures |FreeEights(img)| >= 1 <==> FreeEights(img) != {}
  {}

  /** Without an indirect block no entry is mapped, so both have to be allocated. */
  lemma NoIndirectNoEntry(img: Image, f: nat, n: nat)
    requires Shape(img) && f < |img.inodes| && NDIRECT <= n < MAXFILE
    ensures Addr(img, Indirect(f)) == 0 ==> Allocations(img, f, n) == 2
    ensures Addr(img, Indirect(f)) != 0 ==>
            Allocations(img, f, n) == if Addr(img, Entry(f, n - NDIRECT)) == 0 then 1 else 0
  {}

  /** What is left to do for the entry once the indirect block is there. */
  lemma EntryNeeds(img: Image, img': Image, f: nat, n: nat, ind: nat, syscalls: nat)
    requires FillOrKeep(img, img', Indirect(f), ind) && f < |img.inodes| == |img'.inodes| && NDIRECT <= n < MAXFILE &&
             FreeAfter(img, img', ind)
    requires Addr(img, Indirect(f)) == 0 ==> syscalls > 0
    ensures Shape(img) && Shape(img')
    ensures CanMap(img, f, n, syscalls) <==>
            !(Addr(img', Entry(f, n - NDIRECT)) == 0 && (syscalls == 0 || FreeEights(img') == {}))
  {
    assert ValidPlace(img, Entry(f, n - NDIRECT)) && ValidPlace(img, Indirect(f));
    NoIndirectNoEntry(img, f, n);
    assert |FreeEights(img')| == 0 <==> FreeEights(img') == {};
    if Addr(img, Indirect(f)) == 0 { assert |FreeEights(img')| == |FreeEights(img)| - 1; }
  }

  lemma NotMappable(img: Image, f: nat, n: nat, syscalls: nat)
    requires Shape(img) && f < |img.inodes| && n < MAXFILE && Allocations(img, f, n) > 0 &&
             (syscalls == 0 || FreeEights(img) == {})
    ensures !CanMap(img, f, n, syscalls)
  {}

  /** Blocks mapping (f, n) has to allocate. */
  ghost function Allocations(img: Image, f: nat, n: nat): nat
    requires Shape(img) && f < |img.inodes| && n < MAXFILE
  {
    (if MapAddr(img, f, n) == 0 then 1 else 0) + (if n >= NDIRECT && Addr(img, Indirect(f)) == 0 then 1 else 0)
  }

  // ---------------------------------------------------------------- changes that were never logged

  /** A block changed without log_write, and what it held before: recycling its buffer brings that back. */
  datatype Undo = Nothing | Change(a: nat, before: Block)

  predicate CanUndo(img: Image, u: Undo) {
    u.Change? ==> u.a < |img.disk|
  }

  /** The image once the buffer of the changed block has been recycled. */
  function Undone(img: Image, u: Undo): (img': Image)
    requires CanUndo(img, u)
  {
    if u.Nothing? then img else img.(disk := img.disk[u.a := u.before])
  }

  /** What became of the bytes copied beyond the i that write_inode counts: there are some exactly when the copy faulted
      inside a block, past its first byte there; and they can vanish exactly if that block was not in the log. */
  ghost predicate Vanishing(img: Image, f: nat, off: nat, n: nat, i: nat, c: nat, log: set<nat>, u: Undo) {
    && CanUndo(img, u) && Shape(img) && f < |img.inodes| && off + n <= MAXFILE * BLOCK_SIZE && i <= c <= n
    && (u.Change? <==> i < c < n && MapAddr(img, f, (off + i) / BLOCK_SIZE) !in log)
    && (u.Change? ==> u.a == MapAddr(img, f, (off + i) / BLOCK_SIZE))
  }

  lemma UndoneResized(img: Image, f: nat, size: nat, u: Undo)
    requires Shape(img) && f < |img.inodes| && CanUndo(img, u)
    ensures Shape(Undone(img, u)) && Resized(Undone(img, u), f, size) == Undone(Resized(img, f, size), u)
  {}

  /** The size is in the inode, not in the blocks. */
  lemma CoveredResized(img0: Image, img: Image, f: nat, size: nat, off: nat, i: nat, log: set<nat>, u: Undo, ib: nat)
    requires Shape(img) && f < |img.inodes| && CanUndo(img, u)
    requires Covered(img0, Undone(img, u), log) && InLog(img, f, off, i, log)
    ensures CanUndo(Resized(img, f, size), u)
    ensures Covered(img0, Undone(Resized(img, f, size), u), log + {ib})
    ensures InLog(Resized(img, f, size), f, off, i, log + {ib})
  {
    var img' := Resized(img, f, size);
    forall m | Touches(m, off, i) ensures MapAddr(img', f, m) == MapAddr(img, f, m) {}
  }

  lemma VanishingResized(img: Image, f: nat, size: nat, off: nat, n: nat, i: nat, c: nat, log: set<nat>, u: Undo)
    requires Vanishing(img, f, off, n, i, c, log, u)
    ensures Vanishing(Resized(img, f, size), f, off, n, i, c, log, u)
    ensures i < n ==> MapAddr(Resized(img, f, size), f, (off + i) / BLOCK_SIZE) == MapAddr(img, f,
                      (off + i) / BLOCK_SIZE)
  {}

  /** How much of a read the loop gets to: the block in which the copy faults is still looked up. */
  function Reached(n: nat, fault: nat): nat {
    if fault < n then fault + 1 else n
  }

  /** read_inode's clamped request. */
  function ReadLength(size: nat, off: nat, n: nat): nat
    requires off <= size
  {
    if off + n > size then size - off else n
  }

  /** Every block under bytes [off, off+len) is mapped. */
  ghost predicate NoHole(img: Image, f: nat, off: nat, len: nat)
    requires Shape(img) && f < |img.inodes|
  {
    forall m :: Touches(m, off, len) ==> MapAddr(img, f, m) != 0
  }

  lemma NoHoleMore(img: Image, f: nat, off: nat, i: nat, j: nat)
    requires Shape(img) && f < |img.inodes| && NoHole(img, f, off, i) && off + i + j <= MAXFILE * BLOCK_SIZE
    requires 0 < j && (off + i) % BLOCK_SIZE + j <= BLOCK_SIZE && MapAddr(img, f, (off + i) / BLOCK_SIZE) != 0
    requires i == 0 || (off + i) % BLOCK_SIZE == 0
    ensures forall k :: i < k <= i + j ==> NoHole(img, f, off, k)
  {
    forall k, m | i < k <= i + j && Touches(m, off, k) ensures MapAddr(img, f, m) != 0 {
      if !Touches(m, off, i) { assert m == (off + i) / BLOCK_SIZE; }
    }
  }

  lemma NothingTouched(img: Image, f: nat, off: nat)
    requires Shape(img) && f < |img.inodes|
    ensures NoHole(img, f, off, 0)
  {}

  lemma ChunkStep(off: nat, n: nat, i: nat)
    requires i < n
    ensures var j := Chunk(off, n, i);
            0 < j <= n - i && (off + i) % BLOCK_SIZE + j <= BLOCK_SIZE &&
                (i + j == n || (off + (i + j)) % BLOCK_SIZE == 0)
  {
    var o, q := off + i, (off + i) / BLOCK_SIZE;
    assert o == q * BLOCK_SIZE + o % BLOCK_SIZE;
    if o % BLOCK_SIZE + Chunk(off, n, i) == BLOCK_SIZE { WholeBlocks(q + 1); }
  }

  lemma WholeBlocks(q: nat)
    ensures (q * BLOCK_SIZE) % BLOCK_SIZE == 0
  {}

  lemma HoleReached(img: Image, f: nat, off: nat, i: nat, len: nat)
    requires Shape(img) && f < |img.inodes| && i < len && off + i < MAXFILE * BLOCK_SIZE &&
             MapAddr(img, f, (off + i) / BLOCK_SIZE) == 0
    ensures !NoHole(img, f, off, len)
  {
    assert Touches((off + i) / BLOCK_SIZE, off, len);
  }

  lemma StoredUndone(img: Image, a: nat, at: nat, bytes: seq<Byte>)
    requires Shape(img) && a < |img.disk| && at + |bytes| <= BLOCK_SIZE
    ensures Undone(Stored(img, a, at, bytes), Change(a, img.disk[a])) == img
  {}

  lemma MappedHere(img: Image, img1: Image, img2: Image, f: nat, n: nat, a: nat)
    requires Mapped(img, img1, f, n, a) && Shape(img2) && |img2.inodes| == |img1.inodes|
    requires forall p :: ValidPlace(img1, p) ==> Addr(img2, p) == Addr(img1, p)
    ensures MapAddr(img2, f, n) == a
  {
    assert ValidPlace(img1, PlaceOf(f, n));
  }

  /** Mapping a block alone is a write of no bytes. */
  lemma MapAndStoreNothing(img: Image, img1: Image, f: nat, o: nat, a: nat)
    requires Mapped(img, img1, f, o / BLOCK_SIZE, a)
    ensures Wrote(img, img1, f, o, [])
  {
    MapAndStore(img, img1, f, o, a, []);
    var at := o % BLOCK_SIZE;
    assert img1.disk[a][..at] + [] + img1.disk[a][at + 0..] == img1.disk[a];
  }

  // ---------------------------------------------------------------- what a write has done

  /** Bytes [off, off+|bytes|) of file f were replaced and the blocks under them mapped; nothing else that a file or
      the allocator can see changed. */
  ghost predicate Wrote(img: Image, img': Image, f: nat, off: nat, bytes: seq<Byte>) {
    && Owned(img) && Owned(img') && f < |img.inodes| && off + |bytes| <= MAXFILE * BLOCK_SIZE
    && img'.bitmapStart == img.bitmapStart && img'.dataStart == img.dataStart && |img'.disk| == |img.disk|
    && |img'.inodes| == |img.inodes|
    && (forall g :: 0 <= g < |img.inodes| ==> img'.inodes[g].size == img.inodes[g].size)
    && (forall c :: Leaked(img', c) <==> Leaked(img, c))
    && (forall p :: ValidPlace(img, p) && Addr(img, p) != 0 ==> Addr(img', p) == Addr(img, p))
    && BytesReplaced(img, img', f, off, bytes)
    && (forall n :: Touches(n, off, |bytes|) ==> MapAddr(img', f, n) != 0)
  }

  /** Block n of a file lies under bytes [off, off+len). */
  ghost predicate Touches(n: int, off: nat, len: nat) {
    0 <= n < MAXFILE && len > 0 && n * BLOCK_SIZE < off + len && off < (n + 1) * BLOCK_SIZE
  }

  lemma WroteNothing(img: Image, f: nat, off: nat)
    requires Owned(img) && f < |img.inodes| && off <= MAXFILE * BLOCK_SIZE
    ensures Wrote(img, img, f, off, [])
  {
  }

  /** Consecutive writes are one write. */
  lemma WroteMore(a: Image, b: Image, c: Image, f: nat, off: nat, s: seq<Byte>, t: seq<Byte>)
    requires Wrote(a, b, f, off, s) && Wrote(b, c, f, off + |s|, t)
    ensures Wrote(a, c, f, off, s + t)
  {
    hide Owned, Leaked;
    OwnedShape(a);
    OwnedShape(b);
    OwnedShape(c);
    forall n | Touches(n, off, |s + t|) ensures MapAddr(c, f, n) != 0 {
      if Touches(n, off, |s|) {
        assert ValidPlace(b, PlaceOf(f, n));
      } else {
        assert Touches(n, off + |s|, |t|);
      }
    }
    forall p | ValidPlace(a, p) && Addr(a, p) != 0 ensures Addr(c, p) == Addr(a, p) {
      assert ValidPlace(b, p);
    }
  }

  /** Mapping a block and storing into it is a write of those bytes. */
  lemma MapAndStore(img: Image, img1: Image, f: nat, o: nat, a: nat, bytes: seq<Byte>)
    requires Mapped(img, img1, f, o / BLOCK_SIZE, a) && o % BLOCK_SIZE + |bytes| <= BLOCK_SIZE
    ensures a < |img1.disk| && Wrote(img, Stored(img1, a, o % BLOCK_SIZE, bytes), f, o, bytes)
    ensures forall p :: ValidPlace(img1, p) ==> Addr(Stored(img1, a, o % BLOCK_SIZE, bytes), p) == Addr(img1, p)
  {
    var n, at := o / BLOCK_SIZE, o % BLOCK_SIZE;
    StoredEffect(img1, f, o, bytes);
    StoreIsWrite(img, img1, Stored(img1, a, at, bytes), f, n, a, o, bytes);
  }

  lemma StoreIsWrite(img: Image, img1: Image, img2: Image, f: nat, n: nat, a: nat, o: nat, bytes: seq<Byte>)
    requires Mapped(img, img1, f, n, a) && n == o / BLOCK_SIZE && o % BLOCK_SIZE + |bytes| <= BLOCK_SIZE
    requires Owned(img2) && img2.bitmapStart == img1.bitmapStart && img2.dataStart == img1.dataStart &&
             |img2.disk| == |img1.disk|
    requires img2.inodes == img1.inodes
    requires forall p :: ValidPlace(img1, p) ==> Addr(img2, p) == Addr(img1, p)
    requires forall c :: Leaked(img2, c) <==> Leaked(img1, c)
    requires BytesReplaced(img1, img2, f, o, bytes)
    ensures Wrote(img, img2, f, o, bytes)
  {
    assert ValidPlace(img1, PlaceOf(f, n));
    forall p | ValidPlace(img, p) && Addr(img, p) != 0 ensures Addr(img2, p) == Addr(img, p) {
      assert ValidPlace(img1, p);
    }
    assert forall k :: Touches(k, o, |bytes|) ==> k == n;
  }

  class FileSystem {
    const inodeStart: nat
    var img: Image                // cached blocks and inode table
    var syscalls: nat             // log.num_syscalls: log_write panics while it is zero
    ghost var logged: set<nat>    // blocks passed to log_write in the current operation
    ghost var txn: set<nat>       // blocks already in the log when the operation began

    constructor (inodeStart: nat, img: Image)
      ensures this.inodeStart == inodeStart && this.img == img && logged == {} && syscalls == 0
    {
      this.inodeStart, this.img, logged, txn, syscalls := inodeStart, img, {}, {}, 0;
    }

    /** The inner loop of buffer_alloc over the bitmap block for blocks i .. i+8191. The mask is taken from i, a
        multiple of 8192, so only bit 0 of each byte is looked at. */
    method ScanBitmapBlock(i: nat) returns (j: nat)
      requires Owned(img) && i % BITS == 0 && i < |img.disk|
      ensures j <= BITS && (j == BITS || i + j >= |img.disk| || ((i + j) % 8 == 0 && !Marked(img, i + j)))
      ensures forall b :: i <= b < i + j && b < |img.disk| && b % 8 == 0 ==> Marked(img, b)
    {
      var size := |img.disk|;
      var bm := i / BITS + img.bitmapStart;
      assert i / BITS <= (size - 1) / BITS;
      j := 0;
      while j < BITS && i + j < size
        invariant 0 <= j <= BITS
        invariant forall b :: i <= b < i + j && b < size && b % 8 == 0 ==> Marked(img, b)
      {
        ByteIndex(i, j);
        if !BitOf(img.disk[bm][j / 8], i % 8) {
          assert !Marked(img, i + 8 * (j / 8));
          return;
        }
        assert (i + j) % 8 == 0 ==> Marked(img, i + j);
        j := j + 1;
      }
    }

    /** buffer_alloc: the least unmarked block number divisible by 8; it panics when there is none, whatever
        else is free, and outside a transaction. The block is marked and zeroed. */
    method BufferAlloc() returns (r: Option<nat>)
      requires Owned(img)
      modifies this`img, this`logged
      ensures r.None? <==> syscalls == 0 || FreeEights(old(img)) == {}
      ensures r.Some? ==>
                && r.value in FreeEights(old(img))
                && (forall b :: 0 <= b < r.value && b % 8 == 0 ==> Marked(old(img), b))
                && img == Allocated(old(img), r.value)
                && logged == old(logged) + {BitmapBlock(old(img), r.value), r.value}
    {
      if syscalls < 1 { return None; }      // log_write's guard
      r := ClaimBit();
      if r.None? { assert FreeEights(old(img)) == {}; }
    }

    /** The search of buffer_alloc, and the writes to the block found. */
    method ClaimBit() returns (r: Option<nat>)
      requires Owned(img)
      modifies this`img, this`logged
      ensures r.None? <==> forall b :: 0 <= b < |old(img).disk| && b % 8 == 0 ==> Marked(old(img), b)
      ensures r.Some? ==>
                && r.value % 8 == 0 && r.value < |old(img).disk| && !Marked(old(img), r.value)
                && (forall b :: 0 <= b < r.value && b % 8 == 0 ==> Marked(old(img), b))
                && img == Allocated(old(img), r.value)
                && logged == old(logged) + {BitmapBlock(old(img), r.value), r.value}
    {
      var size := |img.disk|;
      var i := 0;
      while i < size
        invariant i % BITS == 0 && img == old(img) && logged == old(logged)
        invariant forall b :: 0 <= b < i && b < size && b % 8 == 0 ==> Marked(img, b)
      {
        var bm := i / BITS + img.bitmapStart;
        var j := ScanBitmapBlock(i);
        if j < BITS && i + j < size {
          ByteIndex(i, j);
          assert j % 8 == 0 && i / BITS <= (size - 1) / BITS;
          Pow2Of8();
          var data := img.disk[bm][j / 8 := WithBit(img.disk[bm][j / 8], i % 8, true, 8)];
          img := img.(disk := img.disk[bm := data][i + j := ZeroBlock()]);
          logged := logged + {bm, i + j};
          return Some(i + j);
        }
        i := i + BITS;
      }
      r := None;
    }

    /** buffer_free: panics on a block that is not marked, and outside a transaction. */
    method BufferFree(b: nat) returns (ok: bool)
      requires Shape(img) && b < |img.disk|
      modifies this`img, this`logged
      ensures ok <==> Marked(old(img), b) && syscalls > 0
      ensures ok ==> img == Freed(old(img), b) && logged == old(logged) + {BitmapBlock(old(img), b)}
      ensures ok ==> Covered(old(img), img, logged)
      ensures !ok ==> img == old(img) && logged == old(logged)
    {
      var bm := b / BITS + img.bitmapStart;
      assert b / BITS <= (|img.disk| - 1) / BITS;
      var i := b % BITS;
      ok := BitOf(img.disk[bm][i / 8], i % 8) && syscalls > 0;
      if ok {
        Pow2Of8();
        var data := img.disk[bm];
        data := data[i / 8 := WithBit(data[i / 8], i % 8, false, 8)];
        img := img.(disk := img.disk[bm := data]);
        logged := logged + {bm};
      }
    }

    /** buffer_map: the address of block n of file f, allocating it and the indirect block where missing. */
    method BufferMap(f: nat, n: nat) returns (r: Option<nat>, ghost maps: set<nat>)
      requires Owned(img) && f < |img.inodes|
      modifies this`img, this`logged
      ensures r.Some? <==> n < MAXFILE && CanMap(old(img), f, n, syscalls)
      ensures r.Some? ==>
                && Mapped(old(img), img, f, n, r.value)
                && old(logged) <= logged <= old(logged) + {r.value} + PathBlocks(img, f, n) + maps
                && |maps| <= Allocations(old(img), f, n) && AreBitmapBlocks(img, maps)
                && Covered(old(img), img, logged)
    {
      maps := {};
      if n < NDIRECT {
        r, maps := MapDirect(f, n);
      } else if n - NDIRECT >= NINDIRECT {
        r := None;
      } else {
        r, maps := MapIndirect(f, n);
      }
    }

    /** The first half of buffer_map. */
    method MapDirect(f: nat, n: nat) returns (r: Option<nat>, ghost maps: set<nat>)
      requires Owned(img) && f < |img.inodes| && n < NDIRECT
      modifies this`img, this`logged
      ensures r.Some? <==> CanMap(old(img), f, n, syscalls)
      ensures r.Some? ==>
                && Mapped(old(img), img, f, n, r.value)
                && old(logged) <= logged <= old(logged) + {r.value} + PathBlocks(img, f, n) + maps
                && |maps| <= Allocations(old(img), f, n) && AreBitmapBlocks(img, maps)
                && Covered(old(img), img, logged)
    {
      maps := {};
      OneNeeded(img, f, n);
      var addr := img.inodes[f].addrs[n];
      if addr == 0 {
        ghost var img0 := img;
        var b := BufferAlloc();
        if b.None? {
          return None, maps;
        }
        DirectFilled(img0, f, n, b.value);
        hide Owned, Mapped, Covered, Allocated, WithAddr, AreBitmapBlocks, FreeEights;
        maps := {BitmapBlock(img0, b.value)};
        addr := b.value;
        img := WithAddr(img, f, n, addr);
        CoveredMore(img0, img, {BitmapBlock(img0, addr), addr}, logged);
      } else {
        DirectKept(img, f, n, logged);
      }
      return Some(addr), maps;
    }

    /** buffer_map's indirect block: the existing one, or a fresh one. */
    method EnsureIndirect(f: nat) returns (r: Option<nat>)
      requires Owned(img) && f < |img.inodes|
      modifies this`img, this`logged
      ensures r.Some? ==> FillOrKeep(old(img), img, Indirect(f), r.value)
      ensures r.None? <==> Addr(old(img), Indirect(f)) == 0 && (syscalls == 0 || FreeEights(old(img)) == {})
      ensures r.Some? ==> FreeAfter(old(img), img, r.value)
      ensures Addr(old(img), Indirect(f)) != 0 ==> img == old(img)
      ensures r.Some? ==>
              logged == old(logged) + (if img == old(img) then {} else {BitmapBlock(old(img), r.value), r.value})
      ensures r.Some? ==> Covered(old(img), img, logged)
    {
      var ind := img.inodes[f].addrs[NDIRECT];
      if ind == 0 {
        r := BufferAlloc();
        if r.Some? {
          AssignIndirect(old(img), f, r.value);
          AllocatedFree(old(img), r.value);
          CoveredAlloc(old(img), r.value, logged);
          img := WithAddr(img, f, NDIRECT, r.value);
        }
      } else {
        r := Some(ind);
      }
    }

    /** buffer_map's entry of the indirect block: the existing one, or a fresh one. */
    method EnsureEntry(f: nat, ind: nat, k: nat) returns (r: Option<nat>)
      requires Owned(img) && f < |img.inodes| && k < NINDIRECT && ind == Addr(img, Indirect(f)) != 0
      modifies this`img, this`logged
      ensures r.Some? ==> FillOrKeep(old(img), img, Entry(f, k), r.value)
      ensures r.None? <==> Addr(old(img), Entry(f, k)) == 0 && (syscalls == 0 || FreeEights(old(img)) == {})
      ensures r.Some? ==>
              logged == old(logged) + (if img == old(img) then {} else {BitmapBlock(old(img), r.value), r.value, ind})
      ensures r.Some? ==> Covered(old(img), img, logged)
    {
      assert ValidPlace(img, Indirect(f)) && ValidPlace(img, Entry(f, k));
      var addr := GetWord(img.disk[ind], k);
      if addr == 0 {
        r := BufferAlloc();
        if r.Some? {
          AssignEntry(old(img), f, k, r.value);
          CoveredAlloc(old(img), r.value, logged);
          img := img.(disk := img.disk[ind := PutWord(img.disk[ind], k, r.value)]);
          logged := logged + {ind};
        }
      } else {
        r := Some(addr);
      }
    }

    /** The second half of buffer_map. */
    method MapIndirect(f: nat, n: nat) returns (r: Option<nat>, ghost maps: set<nat>)
      requires Owned(img) && f < |img.inodes| && NDIRECT <= n < MAXFILE
      modifies this`img, this`logged
      ensures r.Some? <==> CanMap(old(img), f, n, syscalls)
      ensures r.Some? ==>
                && Mapped(old(img), img, f, n, r.value)
                && old(logged) <= logged <= old(logged) + {r.value} + PathBlocks(img, f, n) + maps
                && |maps| <= Allocations(old(img), f, n) && AreBitmapBlocks(img, maps)
                && Covered(old(img), img, logged)
    {
      hide Owned, Extends, Filled, FillOrKeep, Mapped, CanMap, Allocations, FreeEights, FreeAfter, Covered, MapsOf,
          PathBlocks,
           AreBitmapBlocks, Addr;
      maps := {};
      var ind := EnsureIndirect(f);
      ghost var img0, img1, log1 := old(img), img, logged;
      OwnedShape(img0);
      if ind.None? {
        NoIndirectNoEntry(img0, f, n);
        NotMappable(img0, f, n, syscalls);
        return None, maps;
      }
      NowHolds(img0, img1, Indirect(f), ind.value);
      EntryNeeds(img0, img1, f, n, ind.value, syscalls);
      r := EnsureEntry(f, ind.value, n - NDIRECT);
      if r.Some? {
        maps := MapsOf(img0, img1, ind.value) + MapsOf(img1, img, r.value);
        TwoFills(img0, img1, img, f, n, ind.value, r.value, old(logged), log1, logged);
      }
    }

    /** One turn of write_inode's loop: map the block under offset o, copy in, log. A copy that faults has put only
        its first `copied` bytes into the buffer, which is then released without log_write: unless the block is in the
        transaction already, those bytes are undone when its buffer is recycled. */
    method WriteBlock(f: nat, o: nat, bytes: seq<Byte>, copied: nat)
                      returns (ok: bool, ghost a: nat, ghost maps: set<nat>, ghost undo: Undo)
      requires Owned(img) && f < |img.inodes| && o < MAXFILE * BLOCK_SIZE
      requires copied <= |bytes| && o % BLOCK_SIZE + |bytes| <= BLOCK_SIZE
      modifies this`img, this`logged
      ensures ok <==> CanMap(old(img), f, o / BLOCK_SIZE, syscalls) && (copied == |bytes| ==> syscalls > 0)
      ensures ok ==> Turned(old(img), img, f, o, bytes, copied, old(logged), logged, txn, a, maps, undo)
    {
      hide Mapped, Owned, CanMap, Turned, Covered, Allocations, PathBlocks;
      var r;
      ghost var img0, log0 := img, logged;
      a, undo := 0, Nothing;
      r, maps := BufferMap(f, o / BLOCK_SIZE);
      ok := r.Some? && (copied == |bytes| ==> syscalls > 0);
      if ok {
        a := r.value;
        ghost var img1, log1 := img, logged;
        MappedFacts(img0, img1, f, o / BLOCK_SIZE, a);
        img := Stored(img, r.value, o % BLOCK_SIZE, bytes[..copied]);
        if copied == |bytes| {
          logged := logged + {r.value};
        }
        if 0 < copied < |bytes| && a !in txn + logged {
          undo := Change(a, img1.disk[a]);
        }
        IsTurn(img0, img1, img, f, o, bytes, copied, log0, log1, logged, txn, a, maps, undo);
      }
    }

    /** write_inode's loop. The copy from user memory fails once it needs bytes beyond the first `fault`. i is
        the count write_inode returns; the first c bytes have reached the file's blocks. */
    method WriteLoop(f: nat, src: seq<Byte>, off: nat, fault: nat)
      returns (ok: bool, i: nat, ghost c: nat, ghost t: nat, ghost data: set<nat>, ghost maps: set<nat>,
          ghost undo: Undo)
      requires Owned(img) && f < |img.inodes| && off + |src| <= MAXFILE * BLOCK_SIZE
      modifies this`img, this`logged
      ensures fault == 0 && src != [] ==> (ok <==> CanMap(old(img), f, off / BLOCK_SIZE, syscalls))
      ensures ok ==>
                && CountsTo(off, |src|, fault, i) && c == (if fault >= |src| then |src| else fault)
                && t <= Span(off, |src|)
                && Ended(old(img), img, f, off, src, i, c, t, old(logged), logged, data, maps, txn, undo)
    {
      hide Owned, Progress, Turning, Turned, CountsTo, MapAddr, CanMap, Ended, Going;
      var n := |src|;
      ghost var img0, log0 := img, logged;
      i, c, t, ok, data, maps, undo := 0, 0, 0, true, {}, {}, Nothing;
      NoTurns(img0, f, off, log0, txn);
      TurnStart(off, n, fault);
      assert src[..0] == [];
      while i < n
        invariant ok && i <= n && i <= fault && c == i && Turning(off, n, fault, i, t) && undo == Nothing
        invariant i == 0 ==> img == img0
        invariant Going(img0, img, f, off, src[..i], t, log0, logged, data, maps, txn)
      {
        var j := Chunk(off, n, i);
        TurnStep(off, n, fault, i, t);
        var copied := if i + j <= fault then j else fault - i;
        GoingOwned(img0, img, f, off, src[..i], t, log0, logged, data, maps, txn);
        ghost var img1, log1, a, more := img, logged, 0, {};
        ok, a, more, undo := WriteBlock(f, off + i, src[i..i + j], copied);
        if !ok {
          return;
        }
        if copied < j {
          Stops(img0, img1, img, f, off, src, i, j, copied, t, log0, log1, logged, data, maps, txn, a, more, undo);
          c, t, data, maps := i + copied, t + 1, data + {a}, maps + more;
          return;
        }
        GoesOn(img0, img1, img, f, off, src, i, j, t, log0, log1, logged, data, maps, txn, a, more, undo);
        i, c, t, data, maps := i + j, i + j, t + 1, data + {a}, maps + more;
      }
      TurnEnd(off, n, fault, t);
      assert src[..n] == src;
      GoneThrough(img0, img, f, off, src, t, log0, logged, data, maps, txn);
    }

    /** write_inode. None is a panic for want of blocks. The count -1 is returned for an offset beyond the file, a sum
        that wraps, or a file too large. */
    method WriteInode(f: nat, src: seq<Byte>, off: nat, fault: nat)
                      returns (r: Option<int>, ghost undo: Undo, ghost log: set<nat>)
      requires Owned(img) && WellSized(img) && f < |img.inodes| && off < WRAP && |src| < WRAP
      modifies this`img, this`logged
      ensures r == Some(-1) <==> Refused(old(img), f, off, |src|)
      ensures r == Some(-1) ==> img == old(img) && logged == old(logged) && undo == Nothing
      ensures r.Some? ==> r.value >= -1
      ensures fault == 0 && src != [] && r != Some(-1) ==>
              (r.Some? <==> syscalls > 0 && CanMap(old(img), f, off / BLOCK_SIZE, syscalls))
      ensures r.Some? && 0 <= r.value < |src| ==>
              f < |img.inodes| && Shape(img) && MapAddr(img, f, (off + r.value) / BLOCK_SIZE) != 0
      ensures r.Some? && r.value >= 0 ==>
                && CanUndo(img, undo) && Covered(old(img), Undone(img, undo), txn + logged)
                && InLog(img, f, off, r.value, txn + logged)
      ensures r.Some? && r.value >= 0 ==>
                && CountsTo(off, |src|, fault, r.value)
                && Written(old(img), img, f, off, r.value, src[..if fault >= |src| then |src| else fault])
                && logged == log + {f / INODES_PER_BLOCK + inodeStart}
                && Vanishing(img, f, off, |src|, r.value, if fault >= |src| then |src| else fault, txn + log, undo)
                && (undo.Change? ==>
                     r.value <= |src| && Written(old(img), Undone(img, undo), f, off, r.value, src[..r.value]))
                && (|src| <= CHUNK ==> WithinBudget(old(img), f, off, old(logged), logged))
    {
      hide Owned, Wrote, LoopLog, Progress, CountsTo, Written, WithinBudget, MapAddr, Covered, InLog;
      var n := |src|;
      undo, log := Nothing, {};
      if off > img.inodes[f].size || (off + n) % WRAP < off {
        return Some(-1), undo, log;
      }
      if (off + n) % WRAP > MAXFILE * BLOCK_SIZE {
        return Some(-1), undo, log;
      }
      ghost var img0, log0, c, t, data, maps := img, logged, 0, 0, {}, {};
      var ok, i;
      ok, i, c, t, data, maps, undo := WriteLoop(f, src, off, fault);
      if !ok || syscalls < 1 {
        return None, undo, log;
      }
      ghost var img1, log1 := img, logged;
      log := logged;
      CountBound(off, n, fault, i);
      ProgressSize(img0, img1, f, off, src[..c], t, log0, log1, data, maps);
      var size := if off + i > img.inodes[f].size then off + i else img.inodes[f].size;
      VanishingResized(img, f, size, off, n, i, c, txn + log, undo);
      CoveredResized(img0, img, f, size, off, i, txn + log, undo, f / INODES_PER_BLOCK + inodeStart);
      img := Resized(img, f, size);
      logged := logged + {f / INODES_PER_BLOCK + inodeStart};
      assert txn + logged == txn + log + {f / INODES_PER_BLOCK + inodeStart};
      WrittenOf(img0, img1, f, off, i, src[..c], t, log0, log1, data, maps);
      if undo.Change? {
        WrittenOf(img0, Undone(img1, undo), f, off, i, src[..i], t, log0, log1, data, maps);
        UndoneResized(img1, f, size, undo);
      }
      if n <= CHUNK {
        Budget(img0, img1, f, off, n, src[..c], t, log0, log1, data, maps, f / INODES_PER_BLOCK + inodeStart);
      }
      r := Some(i);
    }

    /** write_file on an inode file: chunks of at most CHUNK bytes, each its own transaction. `ops` are the block sets
        those transactions logged; c bytes of src have reached the file. */
    method WriteFile(f: nat, src: seq<Byte>, off0: nat, fault: nat)
      returns (r: Option<int>, off: nat, ghost c: nat, ghost ops: seq<Op>, ghost undo: Undo)
      requires Owned(img) && WellSized(img) && f < |img.inodes| && off0 < WRAP && |src| < WRAP / 2
      modifies this`img, this`logged, this`txn, this`syscalls
      ensures r.Some? ==>
                && r.value == (if Accepted(old(img), f, off0, |src|, fault) then |src| else -1)
                && off0 <= off <= off0 + |src| && off - off0 <= c <= |src| && syscalls == old(syscalls)
                && (off0 > old(img).inodes[f].size ==> img == old(img) && off == off0)
                && (off0 <= old(img).inodes[f].size ==> Written(old(img), img, f, off0, off - off0, src[..c]))
                && CanUndo(img, undo) && (c == off - off0 ==> undo == Nothing)
                && (undo.Change? ==> Written(old(img), Undone(img, undo), f, off0, off - off0, src[..off - off0]))
                && (r.value >= 0 ==> off == off0 + |src| && c == |src|)
                && OpsOk(ops, f, inodeStart, old(img), Undone(img, undo), off0, off)
    {
      hide Owned, Written, WithinBudget, CountsTo, OpsOk, OpLogged, Undone;
      var n := |src|;
      ghost var img0 := img;
      var i := 0;
      off, c, ops, undo := off0, 0, [], Nothing;
      assert src[..0] == [];
      NoOps(img0, f, off0, inodeStart);
      UndoneNothing(img);
      if off0 <= img.inodes[f].size {
        WrittenNothing(img0, f, off0);
      }
      while i < n
        invariant 0 <= i <= n && off == off0 + i && c == i && i <= fault && syscalls == old(syscalls) && undo == Nothing
        invariant i > 0 ==> off0 <= img0.inodes[f].size && off0 + i <= MAXFILE * BLOCK_SIZE
        invariant off0 > img0.inodes[f].size ==> img == img0
        invariant off0 <= img0.inodes[f].size ==> Written(img0, img, f, off0, i, src[..i])
        invariant OpsOk(ops, f, inodeStart, img0, img, off0, off)
        invariant ops != [] ==> ops[|ops| - 1].after == ops[|ops| - 1].kept
        decreases n - i
      {
        var n1 := if n - i > CHUNK then CHUNK else n - i;
        ghost var img1 := img;
        if off0 <= img0.inodes[f].size {
          WrittenFacts(img0, img1, f, off0, i, src[..i]);
        }
        var r1; ghost var c1;
        r1, c1, undo := WriteOp(f, src[i..i + n1], off, fault - i);
        if r1.None? {
          return None, off, c, ops, undo;
        }
        UndoneNothing(img);
        if r1.value < 0 {
          return Some(-1), off, c, ops, undo;
        }
        ghost var op := Op(img1, img, Undone(img, undo), off, r1.value, txn, logged);
        ChunkDone(img0, img1, img, f, off0, src, i, n1, c1, r1.value, undo, ops, op, inodeStart);
        ops := ops + [op];
        c := i + c1;
        off := off + r1.value;
        if r1.value != n1 {
          return Some(-1), off, c, ops, undo;
        }
        i := i + n1;
      }
      UndoneNothing(img);
      r := Some(n);
    }

    /** One chunk: begin_op, write_inode, end_op. What the log holds when it begins is not known here. */
    method WriteOp(f: nat, src: seq<Byte>, off: nat, fault: nat)
                   returns (r: Option<int>, ghost c: nat, ghost undo: Undo)
      requires Owned(img) && WellSized(img) && f < |img.inodes| && off < WRAP && 0 < |src| <= CHUNK
      modifies this`img, this`logged, this`txn, this`syscalls
      ensures r == Some(-1) <==> Refused(old(img), f, off, |src|)
      ensures r == Some(-1) ==> img == old(img) && undo == Nothing
      ensures r.Some? ==> r.value >= -1 && syscalls == old(syscalls)
      ensures r.Some? && r.value >= 0 ==>
                && c == (if fault >= |src| then |src| else fault) && r.value <= c &&
                     (r.value == |src| <==> fault >= |src|)
                && Written(old(img), img, f, off, r.value, src[..c])
                && CanUndo(img, undo) && (undo.Change? ==> r.value < c < |src|)
                && OpLogged(Op(old(img), img, Undone(img, undo), off, r.value, txn, logged), f, inodeStart)
                && (undo.Change? ==> Written(old(img), Undone(img, undo), f, off, r.value, src[..r.value]))
                && WithinBudget(old(img), f, off, {}, logged)
    {
      hide Owned, Written, WithinBudget, Undone, MapAddr, Covered, InLog;
      syscalls := syscalls + 1;
      logged, txn := {}, *;
      ghost var log;
      c := if fault >= |src| then |src| else fault;
      r, undo, log := WriteInode(f, src, off, fault);
      syscalls := syscalls - 1;
    }

    /** One turn of read_inode's loop: the bytes of the file under [o, o+j). The source maps the block twice. */
    method ReadBlock(f: nat, o: nat, j: nat) returns (ok: bool, bytes: seq<Byte>)
      requires Owned(img) && f < |img.inodes| && o < MAXFILE * BLOCK_SIZE && o % BLOCK_SIZE + j <= BLOCK_SIZE
      modifies this`img, this`logged
      ensures MapAddr(old(img), f, o / BLOCK_SIZE) != 0 ==> ok
      ensures syscalls == 0 && ok ==> MapAddr(old(img), f, o / BLOCK_SIZE) != 0
      ensures ok ==>
                && Extends(old(img), img) && |bytes| == j
                && (MapAddr(old(img), f, o / BLOCK_SIZE) != 0 ==> img == old(img))
                && (forall k :: 0 <= k < j ==> bytes[k] == FileByte(old(img), f, o + k))
                && old(logged) <= logged && Covered(old(img), img, logged)
    {
      hide Owned, Extends, Mapped, CanMap, Allocations, PathBlocks, Covered;
      var a, b; ghost var maps, maps2;
      bytes := [];
      ghost var img0 := img;
      OwnedShape(img0);
      CanMapMapped(img0, f, o / BLOCK_SIZE, syscalls);
      a, maps := BufferMap(f, o / BLOCK_SIZE);
      if a.None? {
        return false, bytes;
      }
      ghost var img1, log1 := img, logged;
      MappedFacts(img0, img1, f, o / BLOCK_SIZE, a.value);
      CanMapMapped(img1, f, o / BLOCK_SIZE, syscalls);
      b, maps2 := BufferMap(f, o / BLOCK_SIZE);
      if b.None? {
        return false, bytes;
      }
      MappedFacts(img1, img, f, o / BLOCK_SIZE, b.value);
      CoveredTrans(img0, img1, img, log1, logged);
      bytes := img.disk[b.value][o % BLOCK_SIZE..o % BLOCK_SIZE + j];
      forall k | 0 <= k < j ensures bytes[k] == FileByte(img0, f, o + k) {
        MappedByte(img0, img1, f, o, a.value, k);
      }
      ok := true;
    }

    /** read_inode. The value returned is the clamped request, even when the copy out faults after the first `fault`
        bytes; `out` is what was delivered. A hole-free file is read without allocating. */
    method ReadInode(f: nat, off: nat, n0: nat, fault: nat) returns (r: Option<int>, out: seq<Byte>)
      requires Owned(img) && WellSized(img) && f < |img.inodes| && off < WRAP && n0 < WRAP
      modifies this`img, this`logged
      ensures r == Some(-1) <==> off > old(img).inodes[f].size || off + n0 >= WRAP
      ensures r == Some(-1) ==> img == old(img)
      ensures HoleFree(old(img), f) ==> r.Some?
      ensures syscalls == 0 && r != Some(-1) ==>
                (r.Some? <==> NoHole(old(img), f, off, Reached(ReadLength(old(img).inodes[f].size, off, n0), fault)))
      ensures r.Some? && r != Some(-1) ==>
                && var size := old(img).inodes[f].size;
                && r.value == (if off + n0 > size then size - off else n0)
                && |out| == (if fault < r.value then fault else r.value)
                && out == Contents(old(img), f)[off..off + |out|]
                && Extends(old(img), img) && Covered(old(img), img, logged)
                && (HoleFree(old(img), f) ==> img == old(img))
    {
      hide Owned, Extends, HoleFree, FileByte, Covered;
      out := [];
      if off > img.inodes[f].size || (off + n0) % WRAP < off {
        return Some(-1), out;
      }
      var n := if (off + n0) % WRAP > img.inodes[f].size then img.inodes[f].size - off else n0;
      OwnedShape(img);
      ghost var img0 := img;
      var ok;
      ok, out := ReadLoop(f, off, n, fault);
      if !ok {
        return None, out;
      }
      assert out == Contents(img0, f)[off..off + |out|];
      r := Some(n);
    }

    /** read_inode's loop. */
    method ReadLoop(f: nat, off: nat, n: nat, fault: nat) returns (ok: bool, out: seq<Byte>)
      requires Owned(img) && WellSized(img) && f < |img.inodes| && off + n <= img.inodes[f].size
      modifies this`img, this`logged
      ensures HoleFree(old(img), f) ==> ok
      ensures syscalls == 0 ==> (ok <==> NoHole(old(img), f, off, Reached(n, fault))) && (ok ==> img == old(img))
      ensures ok ==>
                && |out| == (if fault < n then fault else n)
                && (forall k :: 0 <= k < |out| ==> out[k] == FileByte(old(img), f, off + k))
                && Extends(old(img), img) && (HoleFree(old(img), f) ==> img == old(img))
                && Covered(old(img), img, logged)
    {
      hide Owned, Extends, HoleFree, FileByte, MapAddr, NoHole, Covered;
      OwnedShape(img);
      ghost var img0 := img;
      ExtendsRefl(img0);
      CoveredRefl(img0, logged);
      NothingTouched(img0, f, off);
      var i := 0;
      out := [];
      while i < n
        invariant 0 <= i <= n && i <= fault && |out| == i && Extends(img0, img)
        invariant forall k :: 0 <= k < i ==> out[k] == FileByte(img0, f, off + k)
        invariant HoleFree(img0, f) ==> img == img0
        invariant syscalls == 0 ==> img == img0 && NoHole(img0, f, off, i)
        invariant Covered(img0, img, logged)
        invariant i == 0 || i == n || (off + i) % BLOCK_SIZE == 0
      {
        var o := off + i;
        var j := Chunk(off, n, i);
        ChunkStep(off, n, i);
        ghost var img1, log1 := img, logged;
        ExtendsFacts(img0, img1, f, o);
        var bytes;
        ok, bytes := ReadBlock(f, o, j);
        if !ok {
          if syscalls == 0 { HoleReached(img0, f, off, i, Reached(n, fault)); }
          return;
        }
        if syscalls == 0 { NoHoleMore(img0, f, off, i, j); }
        SameRange(img0, img1, f, o, bytes);
        ExtendsTrans(img0, img1, img);
        CoveredTrans(img0, img1, img, log1, logged);
        if i + j > fault {
          out := out + bytes[..fault - i];
          return;
        }
        out := out + bytes;
        i := i + j;
      }
      ok := true;
    }

    /** inode_truncate. It never hits buffer_free's panic; the file ends empty and other files are untouched. The loop
        over the indirect block stops at NDIRECT entries, so exactly the entries from NDIRECT on are leaked. */
    method InodeTruncate(f: nat) returns (ok: bool)
      requires Owned(img) && WellSized(img) && f < |img.inodes|
      modifies this`img, this`logged
      ensures ok <==> syscalls > 0
      ensures ok ==> Truncated(old(img), img, f)
      ensures ok ==> logged == old(logged) + FreedMaps(old(img), f) + {f / INODES_PER_BLOCK + inodeStart}
      ensures ok ==> Covered(old(img), img, logged)
    {
      hide Owned, Trimmed, Truncated, EntryMaps, DirectMaps, Covered;
      ghost var img0 := img;
      OwnedShape(img0);
      NothingTrimmed(img0, f);
      NoMaps(img0, f);
      CoveredRefl(img0, logged);
      var i := 0;
      while i < NDIRECT
        invariant 0 <= i <= NDIRECT && Trimmed(img0, img, f, i)
        invariant logged == old(logged) + DirectMaps(img0, f, i)
        invariant Covered(img0, img, logged)
      {
        TrimmedShape(img0, img, f, i);
        MoreDirectMaps(img0, f, i);
        var b := img.inodes[f].addrs[i];
        if b != 0 {
          ghost var img1 := img;
          TrimFree(img0, img1, f, i);
          ghost var log1 := logged;
          ok := BufferFree(b);
          if !ok { return; }
          CoveredTrans(img0, img1, img, log1, logged);
          CoveredDisk(img0, img, WithAddr(img, f, i, 0), logged, logged);
          img := WithAddr(img, f, i, 0);
        } else {
          TrimHole(img0, img, f, i);
        }
        i := i + 1;
      }
      TrimmedShape(img0, img, f, NDIRECT);
      if img.inodes[f].addrs[NDIRECT] != 0 {
        ghost var img1, log1 := img, logged;
        ok := TruncateIndirect(f, img0);
        if !ok { return; }
        CoveredTrans(img0, img1, img, log1, logged);
      } else {
        NoIndirect(img0, img, f);
        NoEntryMaps(img0, f, NDIRECT);
      }
      if syscalls < 1 { return false; }
      CoveredDisk(img0, img, Resized(img, f, 0), logged, logged + {f / INODES_PER_BLOCK + inodeStart});
      img := Resized(img, f, 0);
      logged := logged + {f / INODES_PER_BLOCK + inodeStart};
      ok := true;
    }

    /** The indirect half of inode_truncate. The entries are freed while the indirect slot still points at their
        block. */
    method TruncateIndirect(f: nat, ghost img0: Image) returns (ok: bool)
      requires Trimmed(img0, img, f, NDIRECT) && WellSized(img0) && Shape(img) && f < |img.inodes| &&
               img.inodes[f].addrs[NDIRECT] != 0
      modifies this`img, this`logged
      ensures ok <==> syscalls > 0
      ensures ok ==> Shape(img) && f < |img.inodes| && Truncated(img0, Resized(img, f, 0), f)
      ensures ok ==> logged == old(logged) + EntryMaps(img0, f, NDIRECT) + {BitmapBlock(img0, Addr(img0, Indirect(f)))}
      ensures ok ==> Covered(old(img), img, logged)
    {
      hide Owned, Trimmed, Unlinked, Truncated, EntryMaps, Covered, Freed, Marked, Addr;
      CoveredRefl(img, logged);
      ghost var img1 := img;
      var ind := img.inodes[f].addrs[NDIRECT];
      TrimmedOwned(img0, img1, f);
      UnlinkStart(img1, f, ind);
      TrimmedShape(img0, img1, f, NDIRECT);
      NoMaps(img0, f);
      var j := 0;
      while j < NDIRECT
        invariant 0 <= j <= NDIRECT && Unlinked(img1, img, f, ind, j)
        invariant logged == old(logged) + EntryMaps(img0, f, j)
        invariant Covered(img1, img, logged)
      {
        UnlinkStep(img1, img, f, ind, j);
        EntryKept(img0, img1, img, f, ind, j);
        MoreEntryMaps(img0, f, j);
        var a := GetWord(img.disk[ind], j);
        if a != 0 {
          ghost var img2, log2 := img, logged;
          ok := BufferFree(a);
          if !ok { return; }
          CoveredTrans(img1, img2, img, log2, logged);
        }
        j := j + 1;
      }
      EntryKept(img0, img1, img, f, ind, NDIRECT);
      UnlinkEnd(img0, img1, img, f, ind);
      ghost var img2, log2 := img, logged;
      ok := BufferFree(ind);
      if !ok { return; }
      FreedInodes(img2, ind);
      CoveredTrans(img1, img2, img, log2, logged);
      CoveredDisk(img1, img, WithAddr(img, f, NDIRECT, 0), logged, logged);
      img := WithAddr(img, f, NDIRECT, 0);
    }
  }

  lemma FreedInodes(img: Image, b: nat)
    requires Shape(img) && b < |img.disk|
    ensures Freed(img, b).inodes == img.inodes
  {}

  /** The first i direct slots of f have been emptied and their blocks freed. */
  ghost predicate Trimmed(img0: Image, img: Image, f: nat, i: nat) {
    && Owned(img0) && Owned(img) && f < |img0.inodes| && i <= NDIRECT && SameLayout(img0, img)
    && (forall p {:trigger Addr(img, p)} :: ValidPlace(img0, p) ==>
          Addr(img, p) == if p.Direct? && p.f == f && p.n < i then 0 else Addr(img0, p))
    && (forall c :: Leaked(img, c) <==> Leaked(img0, c))
  }

  /** Same sizes and same data blocks; the bitmap may differ. */
  ghost predicate SameLayout(img: Image, img': Image) {
    && img'.bitmapStart == img.bitmapStart && img'.dataStart == img.dataStart && |img'.disk| == |img.disk|
    && |img'.inodes| == |img.inodes|
    && (forall g :: 0 <= g < |img.inodes| ==> img'.inodes[g].size == img.inodes[g].size)
    && (forall b :: img.dataStart <= b < |img.disk| ==> img'.disk[b] == img.disk[b])
  }

  lemma NothingTrimmed(img: Image, f: nat)
    requires Owned(img) && f < |img.inodes|
    ensures Trimmed(img, img, f, 0)
  {
  }

  lemma TrimmedShape(img0: Image, img: Image, f: nat, i: nat)
    requires Trimmed(img0, img, f, i)
    ensures Shape(img0) && Shape(img) && |img.inodes| == |img0.inodes| && f < |img0.inodes| &&
            img.bitmapStart == img0.bitmapStart
    ensures i < NDIRECT ==> img.inodes[f].addrs[i] == Addr(img0, Direct(f, i))
    ensures img.inodes[f].addrs[NDIRECT] == Addr(img0, Indirect(f))
  {
    assert ValidPlace(img0, Indirect(f)) && Addr(img, Indirect(f)) == Addr(img0, Indirect(f));
    if i < NDIRECT { assert ValidPlace(img0, Direct(f, i)) && Addr(img, Direct(f, i)) == Addr(img0, Direct(f, i)); }
  }

  lemma TrimHole(img0: Image, img: Image, f: nat, i: nat)
    requires Trimmed(img0, img, f, i) && i < NDIRECT && img.inodes[f].addrs[i] == 0
    ensures Trimmed(img0, img, f, i + 1)
  {
    assert ValidPlace(img0, Direct(f, i));
    forall p | ValidPlace(img0, p)
      ensures Addr(img, p) == if p.Direct? && p.f == f && p.n < i + 1 then 0 else Addr(img0, p)
    {
    }
  }

  /** Emptying places turns exactly the blocks they held into leaks. */
  lemma UnassignOwned(img: Image, img': Image, gone: Place -> bool)
    requires Owned(img) && Shape(img') && SameLayout(img, img') && SameMarks(img, img')
    requires forall p {:trigger Addr(img', p)} :: ValidPlace(img, p) ==>
             Addr(img', p) == if gone(p) then 0 else Addr(img, p)
    ensures Owned(img')
    ensures forall c :: Leaked(img', c) <==>
              Leaked(img, c) || (c != 0 && exists p :: ValidPlace(img, p) && gone(p) && Addr(img, p) == c)
  {
    assert forall p :: ValidPlace(img', p) <==> ValidPlace(img, p);
    forall c ensures Leaked(img', c) <==>
        Leaked(img, c) || (c != 0 && exists p :: ValidPlace(img, p) && gone(p) && Addr(img, p) == c) {
      if Leaked(img', c) && !Leaked(img, c) {
        var p :| ValidPlace(img, p) && Addr(img, p) == c;
        assert ValidPlace(img', p);
        assert gone(p);
      }
      if Leaked(img, c) {
        forall p | ValidPlace(img', p) ensures Addr(img', p) != c {
          assert ValidPlace(img, p);
        }
      }
    }
  }

  /** Freeing a block and emptying the direct slot that holds it, in either order. */
  lemma FreeSlot(img: Image, f: nat, i: nat)
    requires Owned(img) && f < |img.inodes| && i < NDIRECT && img.inodes[f].addrs[i] != 0
    ensures var b := img.inodes[f].addrs[i];
            && b < |img.disk| && Marked(img, b)
            && var img' := WithAddr(Freed(img, b), f, i, 0);
            && Owned(img') && SameLayout(img, img')
            && (forall p {:trigger Addr(img', p)} :: ValidPlace(img, p) ==>
                 Addr(img', p) == if p == Direct(f, i) then 0 else Addr(img, p))
            && (forall c :: Leaked(img', c) <==> Leaked(img, c))
  {
    var x := Direct(f, i);
    assert ValidPlace(img, x);
    var b := Addr(img, x);
    var h := WithAddr(img, f, i, 0);
    UnassignOwned(img, h, p => p == x);
    assert Leaked(h, b) by {
      assert ValidPlace(img, x) && Addr(img, x) == b;
    }
    FreedOwned(h, b);
    assert WithAddr(Freed(img, b), f, i, 0) == Freed(h, b);
    assert forall p :: ValidPlace(h, p) <==> ValidPlace(img, p);
    assert !Leaked(img, b);
    assert b / BITS <= (|img.disk| - 1) / BITS;
  }

  lemma TrimFree(img0: Image, img: Image, f: nat, i: nat)
    requires Trimmed(img0, img, f, i) && i < NDIRECT && img.inodes[f].addrs[i] != 0
    ensures var b := img.inodes[f].addrs[i];
            && b < |img.disk| && Marked(img, b)
            && Trimmed(img0, WithAddr(Freed(img, b), f, i, 0), f, i + 1)
  {
    hide Owned, Leaked;
    TrimmedShape(img0, img, f, i);
    FreeSlot(img, f, i);
    assert forall p :: ValidPlace(img0, p) <==> ValidPlace(img, p);
  }

  /** The bitmap blocks of what a truncate frees: the direct blocks, NDIRECT entries and the indirect block. */
  ghost function FreedMaps(img: Image, f: nat): set<nat>
    requires Shape(img) && f < |img.inodes|
  {
    DirectMaps(img, f, NDIRECT) + EntryMaps(img, f, NDIRECT) +
    if Addr(img, Indirect(f)) == 0 then {} else {BitmapBlock(img, Addr(img, Indirect(f)))}
  }

  ghost function DirectMaps(img: Image, f: nat, i: nat): set<nat>
    requires Shape(img) && f < |img.inodes| && i <= NDIRECT
  {
    set n: nat | n < i && Addr(img, Direct(f, n)) != 0 :: BitmapBlock(img, Addr(img, Direct(f, n)))
  }

  ghost function EntryMaps(img: Image, f: nat, j: nat): set<nat>
    requires Shape(img) && f < |img.inodes| && j <= NDIRECT
  {
    set n: nat | n < j && Addr(img, Entry(f, n)) != 0 :: BitmapBlock(img, Addr(img, Entry(f, n)))
  }

  lemma NoMaps(img: Image, f: nat)
    requires Shape(img) && f < |img.inodes|
    ensures DirectMaps(img, f, 0) == {} && EntryMaps(img, f, 0) == {}
  {}

  lemma NoEntryMaps(img: Image, f: nat, j: nat)
    requires Shape(img) && f < |img.inodes| && j <= NDIRECT && Addr(img, Indirect(f)) == 0
    ensures EntryMaps(img, f, j) == {}
  {}

  lemma MoreDirectMaps(img: Image, f: nat, i: nat)
    requires Shape(img) && f < |img.inodes| && i < NDIRECT
    ensures var a := Addr(img, Direct(f, i));
            DirectMaps(img, f, i + 1) == DirectMaps(img, f, i) + if a == 0 then {} else {BitmapBlock(img, a)}
  {}

  lemma MoreEntryMaps(img: Image, f: nat, j: nat)
    requires Shape(img) && f < |img.inodes| && j < NDIRECT
    ensures var a := Addr(img, Entry(f, j));
            EntryMaps(img, f, j + 1) == EntryMaps(img, f, j) + if a == 0 then {} else {BitmapBlock(img, a)}
  {}

  /** The indirect block is not rewritten while its entries are freed. */
  lemma EntryKept(img0: Image, img1: Image, img: Image, f: nat, ind: nat, j: nat)
    requires Trimmed(img0, img1, f, NDIRECT) && Unlinked(img1, img, f, ind, j)
    ensures Shape(img0) && f < |img0.inodes| && ind < |img.disk| && img.bitmapStart == img0.bitmapStart
    ensures j < NDIRECT ==> GetWord(img.disk[ind], j) == Addr(img0, Entry(f, j))
  {
    assert ValidPlace(img1, Indirect(f));
    if j < NDIRECT {
      assert ValidPlace(img0, Entry(f, j)) && Addr(img1, Entry(f, j)) == Addr(img0, Entry(f, j));
    }
  }

  /** A truncate logs at most two blocks where one bitmap block covers the device, and fits an operation's reservation
      on any device of fewer than MAXLOGOPS bitmap blocks. */
  lemma TruncateBudget(img: Image, f: nat, ib: nat)
    requires Owned(img) && f < |img.inodes|
    ensures Shape(img) && |img.disk| > 0
    ensures |FreedMaps(img, f) + {ib}| <= (|img.disk| - 1) / BITS + 2
    ensures |img.disk| <= BITS ==> |FreedMaps(img, f) + {ib}| <= 2
    ensures |img.disk| <= (MAXLOGOPS - 1) * BITS ==> |FreedMaps(img, f) + {ib}| <= MAXLOGOPS
  {
    OwnedShape(img);
    assert |img.disk| > 0;
    hide Owned, FreedMaps, BitmapBlocks, Shape;
    FreedInRegion(img, f);
    RegionCard(img);
    SubsetCard(FreedMaps(img, f), BitmapBlocks(img));
    UnionCard(FreedMaps(img, f), {ib});
  }

  /** The bitmap region. */
  ghost function BitmapBlocks(img: Image): set<nat>
    requires |img.disk| > 0
  {
    Below(img.bitmapStart + (|img.disk| - 1) / BITS + 1) - Below(img.bitmapStart)
  }

  lemma RegionCard(img: Image)
    requires |img.disk| > 0
    ensures |BitmapBlocks(img)| == (|img.disk| - 1) / BITS + 1
  {
    var n := img.bitmapStart + (|img.disk| - 1) / BITS + 1;
    assert Below(n) * Below(img.bitmapStart) == Below(img.bitmapStart);
  }

  lemma PlaceInRegion(img: Image, p: Place)
    requires Owned(img) && ValidPlace(img, p) && Addr(img, p) != 0
    ensures BitmapBlock(img, Addr(img, p)) in BitmapBlocks(img)
  {
    assert Addr(img, p) / BITS <= (|img.disk| - 1) / BITS;
  }

  lemma FreedInRegion(img: Image, f: nat)
    requires Owned(img) && f < |img.inodes|
    ensures FreedMaps(img, f) <= BitmapBlocks(img)
  {
    DirectInRegion(img, f);
    EntriesInRegion(img, f);
    if Addr(img, Indirect(f)) != 0 { PlaceInRegion(img, Indirect(f)); }
    hide Owned, Shape, BitmapBlocks, Addr, DirectMaps, EntryMaps;
  }

  lemma DirectInRegion(img: Image, f: nat)
    requires Owned(img) && f < |img.inodes|
    ensures DirectMaps(img, f, NDIRECT) <= BitmapBlocks(img)
  {
    OwnedShape(img);
    hide Owned, Shape, BitmapBlocks, Addr;
    forall n | 0 <= n < NDIRECT && Addr(img, Direct(f, n)) != 0
      ensures BitmapBlock(img, Addr(img, Direct(f, n))) in BitmapBlocks(img)
    {
      PlaceInRegion(img, Direct(f, n));
    }
  }

  lemma EntriesInRegion(img: Image, f: nat)
    requires Owned(img) && f < |img.inodes|
    ensures EntryMaps(img, f, NDIRECT) <= BitmapBlocks(img)
  {
    OwnedShape(img);
    hide Owned, Shape, BitmapBlocks, Addr;
    forall n | 0 <= n < NDIRECT && Addr(img, Entry(f, n)) != 0
      ensures BitmapBlock(img, Addr(img, Entry(f, n))) in BitmapBlocks(img)
    {
      PlaceInRegion(img, Entry(f, n));
    }
  }

  /** The file is empty; what is newly leaked is exactly the indirect entries from NDIRECT on. */
  ghost predicate Truncated(img0: Image, img: Image, f: nat) {
    && Owned(img0) && Owned(img) && WellSized(img0) && WellSized(img) && f < |img0.inodes| == |img.inodes|
    && Contents(img, f) == []
    && (forall p :: ValidPlace(img, p) && p.f == f ==> Addr(img, p) == 0)
    && (forall g :: 0 <= g < |img.inodes| && g != f ==>
          Contents(img, g) == Contents(img0, g) && (HoleFree(img0, g) ==> HoleFree(img, g)))
    && (forall c :: Leaked(img, c) <==> Leaked(img0, c) || StrandedEntry(img0, f, NDIRECT, c))
  }

  /** c is the block of some indirect entry from j on. */
  ghost predicate StrandedEntry(img: Image, f: nat, j: nat, c: nat)
    requires Shape(img) && f < |img.inodes|
  {
    c != 0 && exists n :: j <= n < NINDIRECT && Addr(img, Entry(f, n)) == c
  }

  lemma TrimmedOwned(img0: Image, img: Image, f: nat)
    requires Trimmed(img0, img, f, NDIRECT)
    ensures Owned(img) && f < |img.inodes|
  {
  }

  /** With the indirect slot of f taken as empty, every address is as in img1 except under that slot, and the
      leaks are img1's, the indirect block and the entries not yet freed. */
  ghost predicate Unlinked(img1: Image, img: Image, f: nat, ind: nat, j: nat) {
    && Owned(img1) && Shape(img) && f < |img.inodes| && img.inodes == img1.inodes && SameLayout(img1, img)
    && 0 != ind == img1.inodes[f].addrs[NDIRECT] < |img.disk| && j <= NDIRECT
    && var h := WithAddr(img, f, NDIRECT, 0);
    && Owned(h)
    && (forall p {:trigger Addr(h, p)} :: ValidPlace(img1, p) ==>
         Addr(h, p) == if Under(f, p) then 0 else Addr(img1, p))
    && (forall c :: Leaked(h, c) <==> Leaked(img1, c) || c == ind || StrandedEntry(img1, f, j, c))
  }

  /** The indirect slot of f and the entries below it. */
  predicate Under(f: nat, p: Place) {
    p.f == f && !p.Direct?
  }

  lemma UnlinkStart(img: Image, f: nat, ind: nat)
    requires Owned(img) && f < |img.inodes| && ind == img.inodes[f].addrs[NDIRECT] != 0
    ensures Unlinked(img, img, f, ind, 0)
  {
    var h := WithAddr(img, f, NDIRECT, 0);
    assert ValidPlace(img, Indirect(f)) && Addr(img, Indirect(f)) == ind;
    UnassignOwned(img, h, p => Under(f, p));
    forall c ensures Leaked(h, c) <==> Leaked(img, c) || c == ind || StrandedEntry(img, f, 0, c) {
      if exists n :: 0 <= n < NINDIRECT && Addr(img, Entry(f, n)) == c {
        var n :| 0 <= n < NINDIRECT && Addr(img, Entry(f, n)) == c;
        assert ValidPlace(img, Entry(f, n)) && Under(f, Entry(f, n));
      }
      if c != 0 && exists p :: ValidPlace(img, p) && Under(f, p) && Addr(img, p) == c {
        var p :| ValidPlace(img, p) && Under(f, p) && Addr(img, p) == c;
        assert p == Indirect(f) || (p == Entry(f, p.n) && StrandedEntry(img, f, 0, c));
      }
    }
  }

  /** Freeing entry j, which is marked. */
  lemma UnlinkStep(img1: Image, img: Image, f: nat, ind: nat, j: nat)
    requires Unlinked(img1, img, f, ind, j) && j < NDIRECT
    ensures Shape(img) && ind < |img.disk|
    ensures var a := GetWord(img.disk[ind], j);
            && (a == 0 ==> Unlinked(img1, img, f, ind, j + 1))
            && (a != 0 ==> a < |img.disk| && Marked(img, a) && Unlinked(img1, Freed(img, a), f, ind, j + 1))
  {
    var a := GetWord(img.disk[ind], j);
    EntryUnder(img1, img, f, ind, j);
    StrandedNext(img1, f, j);
    if a != 0 {
      var h := WithAddr(img, f, NDIRECT, 0);
      FreedOwned(h, a);
      FreedWithAddr(img, f, a);
      hide Owned, Leaked, StrandedEntry;
      assert forall p :: ValidPlace(h, p) <==> ValidPlace(img1, p);
    }
  }

  /** An entry still to be freed is a marked block, held by nothing else. */
  lemma EntryUnder(img1: Image, img: Image, f: nat, ind: nat, j: nat)
    requires Unlinked(img1, img, f, ind, j) && j < NDIRECT
    ensures var a := GetWord(img.disk[ind], j);
            && a == Addr(img1, Entry(f, j))
            && (a != 0 ==> a < |img.disk| && Marked(img, a) && a != ind && !Leaked(img1, a) &&
                           Leaked(WithAddr(img, f, NDIRECT, 0), a))
  {
    var x := Entry(f, j);
    var a := GetWord(img.disk[ind], j);
    assert ValidPlace(img1, x) && ValidPlace(img1, Indirect(f)) && Addr(img1, Indirect(f)) == ind;
    assert a == Addr(img1, x);
    if a != 0 {
      assert StrandedEntry(img1, f, j, a);
      assert a / BITS <= (|img.disk| - 1) / BITS;
    }
  }

  lemma FreedWithAddr(img: Image, f: nat, a: nat)
    requires Shape(img) && f < |img.inodes| && a < |img.disk|
    ensures WithAddr(Freed(img, a), f, NDIRECT, 0) == Freed(WithAddr(img, f, NDIRECT, 0), a)
    ensures Marked(img, a) == Marked(WithAddr(img, f, NDIRECT, 0), a)
  {
    assert a / BITS <= (|img.disk| - 1) / BITS;
  }

  lemma StrandedNext(img: Image, f: nat, j: nat)
    requires Owned(img) && f < |img.inodes| && j < NINDIRECT
    ensures forall c :: StrandedEntry(img, f, j + 1, c) <==> StrandedEntry(img, f, j, c) && c != Addr(img, Entry(f, j))
  {
    forall c ensures StrandedEntry(img, f, j + 1, c) <==> StrandedEntry(img, f, j, c) && c != Addr(img, Entry(f, j)) {
      assert ValidPlace(img, Entry(f, j));
      if StrandedEntry(img, f, j + 1, c) {
        var n :| j + 1 <= n < NINDIRECT && Addr(img, Entry(f, n)) == c;
        assert ValidPlace(img, Entry(f, n));
      }
    }
  }

  lemma UnlinkEnd(img0: Image, img1: Image, img: Image, f: nat, ind: nat)
    requires Trimmed(img0, img1, f, NDIRECT) && Unlinked(img1, img, f, ind, NDIRECT) && WellSized(img0)
    ensures Shape(img) && f < |img.inodes| && ind < |img.disk| && Marked(img, ind)
    ensures Truncated(img0, Resized(WithAddr(Freed(img, ind), f, NDIRECT, 0), f, 0), f)
  {
    var h := WithAddr(img, f, NDIRECT, 0);
    IndirectUnder(img1, img, f, ind);
    FreedOwned(h, ind);
    FreedWithAddr(img, f, ind);
    SameStranded(img0, img1, f);
    TrimmedOwned(img0, img1, f);
    hide Owned, Leaked, StrandedEntry;
    var h2 := WithAddr(Freed(img, ind), f, NDIRECT, 0);
    forall p | ValidPlace(img0, p) ensures Addr(h2, p) == if p.f == f then 0 else Addr(img0, p) {
      assert ValidPlace(img1, p) && ValidPlace(h, p);
    }
    EmptiedIsTruncated(img0, h2, f);
  }

  lemma IndirectUnder(img1: Image, img: Image, f: nat, ind: nat)
    requires Unlinked(img1, img, f, ind, NDIRECT)
    ensures Marked(img, ind) && !Leaked(img1, ind) && Leaked(WithAddr(img, f, NDIRECT, 0), ind) &&
            !StrandedEntry(img1, f, NDIRECT, ind)
  {
    assert ValidPlace(img1, Indirect(f)) && Addr(img1, Indirect(f)) == ind;
    forall n | NDIRECT <= n < NINDIRECT ensures Addr(img1, Entry(f, n)) != ind {
      assert ValidPlace(img1, Entry(f, n));
    }
    assert Leaked(WithAddr(img, f, NDIRECT, 0), ind);
    FreedWithAddr(img, f, ind);
  }

  lemma SameStranded(img0: Image, img1: Image, f: nat)
    requires Trimmed(img0, img1, f, NDIRECT)
    ensures forall c :: StrandedEntry(img1, f, NDIRECT, c) <==> StrandedEntry(img0, f, NDIRECT, c)
  {
    forall n | 0 <= n < NINDIRECT ensures Addr(img1, Entry(f, n)) == Addr(img0, Entry(f, n)) {
      assert ValidPlace(img0, Entry(f, n));
    }
  }

  /** All of f's places empty, the rest as before: the file system after a truncate. */
  lemma EmptiedIsTruncated(img0: Image, img: Image, f: nat)
    requires Owned(img0) && WellSized(img0) && Owned(img) && f < |img0.inodes| && SameLayout(img0, img)
    requires forall p {:trigger Addr(img, p)} :: ValidPlace(img0, p) ==>
             Addr(img, p) == if p.f == f then 0 else Addr(img0, p)
    requires forall c :: Leaked(img, c) <==> Leaked(img0, c) || StrandedEntry(img0, f, NDIRECT, c)
    ensures Truncated(img0, Resized(img, f, 0), f)
  {
    var img2 := Resized(img, f, 0);
    ResizedOwned(img, f, 0);
    assert forall p :: ValidPlace(img2, p) <==> ValidPlace(img0, p);
    assert forall p :: ValidPlace(img, p) <==> ValidPlace(img0, p);
    forall g | 0 <= g < |img0.inodes| && g != f
      ensures Contents(img2, g) == Contents(img0, g) && (HoleFree(img0, g) ==> HoleFree(img2, g))
    {
      forall n | 0 <= n < MAXFILE ensures MapAddr(img2, g, n) == MapAddr(img0, g, n) {
        assert ValidPlace(img0, PlaceOf(g, n));
      }
      forall i | 0 <= i < img0.inodes[g].size ensures FileByte(img2, g, i) == FileByte(img0, g, i) {
        assert ValidPlace(img0, PlaceOf(g, i / BLOCK_SIZE));
      }
    }
  }

  lemma NoIndirect(img0: Image, img: Image, f: nat)
    requires Trimmed(img0, img, f, NDIRECT) && img.inodes[f].addrs[NDIRECT] == 0 && WellSized(img0)
    ensures Truncated(img0, Resized(img, f, 0), f)
  {
    assert ValidPlace(img0, Indirect(f)) && Addr(img, Indirect(f)) == 0;
    assert forall c :: !StrandedEntry(img0, f, NDIRECT, c);
    EmptiedIsTruncated(img0, img, f);
  }

  /** A truncate leaves no leak exactly when the file had at most NDIRECT indirect entries. */
  lemma TruncateLeaksIff(img0: Image, img: Image, f: nat)
    requires Truncated(img0, img, f) && forall c :: !Leaked(img0, c)
    ensures (forall c :: !Leaked(img, c)) <==> forall n :: NDIRECT <= n < NINDIRECT ==> Addr(img0, Entry(f, n)) == 0
  {
    forall n | NDIRECT <= n < NINDIRECT && Addr(img0, Entry(f, n)) != 0 ensures Leaked(img, Addr(img0, Entry(f, n))) {
      assert StrandedEntry(img0, f, NDIRECT, Addr(img0, Entry(f, n)));
    }
  }

  /** The blocks under a hole-free file from its 25th on are all leaked by a truncate. */
  lemma LongFileLeaks(img0: Image, img: Image, f: nat)
    requires Truncated(img0, img, f) && HoleFree(img0, f)
    ensures forall n :: 2 * NDIRECT <= n < MAXFILE && n * BLOCK_SIZE < img0.inodes[f].size ==>
            Leaked(img, MapAddr(img0, f, n))
  {
    forall n | 2 * NDIRECT <= n < MAXFILE && n * BLOCK_SIZE < img0.inodes[f].size
        ensures Leaked(img, MapAddr(img0, f, n)) {
      assert MapAddr(img0, f, n) == Addr(img0, Entry(f, n - NDIRECT)) != 0;
      assert StrandedEntry(img0, f, NDIRECT, Addr(img0, Entry(f, n - NDIRECT)));
    }
  }

  /** Where the blocks a file maps are those below its size, a truncate leaks exactly if that is more than 24 blocks. */
  lemma TruncateLeaksBySize(img0: Image, img: Image, f: nat)
    requires Truncated(img0, img, f) && Exact(img0, f) && forall c :: !Leaked(img0, c)
    ensures (forall c :: !Leaked(img, c)) <==> img0.inodes[f].size <= 2 * NDIRECT * BLOCK_SIZE
  {
    TruncateLeaksIff(img0, img, f);
    forall n | NDIRECT <= n < NINDIRECT
      ensures Addr(img0, Entry(f, n)) != 0 <==> (n + NDIRECT) * BLOCK_SIZE < img0.inodes[f].size
    {
      assert MapAddr(img0, f, n + NDIRECT) == Addr(img0, Entry(f, n));
    }
    assert Addr(img0, Entry(f, NDIRECT)) != 0 <==> 2 * NDIRECT * BLOCK_SIZE < img0.inodes[f].size;
  }

  // ---------------------------------------------------------------- reading

  lemma SameRange(img: Image, img': Image, f: nat, o: nat, bytes: seq<Byte>)
    requires Extends(img, img') && WellSized(img) && f < |img.inodes| && o + |bytes| <= img.inodes[f].size
    requires Shape(img') && |img'.inodes| == |img.inodes| && forall k :: 0 <= k < |bytes| ==>
             bytes[k] == FileByte(img', f, o + k)
    ensures Shape(img) && forall k :: 0 <= k < |bytes| ==> bytes[k] == FileByte(img, f, o + k)
  {
    forall k | 0 <= k < |bytes| ensures bytes[k] == FileByte(img, f, o + k) {
      ExtendsFacts(img, img', f, o + k);
    }
  }

  lemma OwnedShape(img: Image)
    requires Owned(img)
    ensures Shape(img)
  {
  }

  lemma MappedFacts(img: Image, img': Image, f: nat, n: nat, a: nat)
    requires Mapped(img, img', f, n, a)
    ensures Extends(img, img') && Owned(img') && f < |img'.inodes| && a == MapAddr(img', f, n) && 0 < a < |img'.disk|
    ensures MapAddr(img, f, n) != 0 ==> img' == img
  {
    assert ValidPlace(img', PlaceOf(f, n));
  }

  lemma MappedByte(img: Image, img': Image, f: nat, o: nat, a: nat, k: nat)
    requires Mapped(img, img', f, o / BLOCK_SIZE, a) && o % BLOCK_SIZE + k < BLOCK_SIZE && a < |img'.disk|
    ensures Shape(img) && img'.disk[a][o % BLOCK_SIZE + k] == FileByte(img, f, o + k)
  {
    assert (o + k) / BLOCK_SIZE == o / BLOCK_SIZE && (o + k) % BLOCK_SIZE == o % BLOCK_SIZE + k;
    assert FileByte(img', f, o + k) == FileByte(img, f, o + k);
  }

  lemma ExtendsFacts(img: Image, img': Image, f: nat, o: nat)
    requires Extends(img, img') && WellSized(img) && f < |img.inodes| && o < img.inodes[f].size
    ensures Owned(img') && |img'.inodes| == |img.inodes| && FileByte(img', f, o) == FileByte(img, f, o)
    ensures HoleFree(img, f) ==> MapAddr(img, f, o / BLOCK_SIZE) != 0
  {
  }

  // ---------------------------------------------------------------- write_file

  /** write_file succeeds exactly on these requests, given that no allocation panics. */
  ghost predicate Accepted(img: Image, f: nat, off: nat, n: nat, fault: nat)
    requires f < |img.inodes|
  {
    n == 0 || (off <= img.inodes[f].size && off + n <= MAXFILE * BLOCK_SIZE && fault >= n)
  }

  /** One operation of a write: the images before and after it, what of the latter is sure to stay, the offset and the
      number of bytes counted, the blocks other operations had in the log and those it logged itself. */
  datatype Op = Op(before: Image, after: Image, kept: Image, off: nat, count: nat, txn: set<nat>, logged: set<nat>)

  /** What the operation changed for good is in the log, with the blocks under its bytes and the inode's block. */
  ghost predicate OpLogged(op: Op, f: nat, inodeStart: nat) {
    && Covered(op.before, op.kept, op.txn + op.logged)
    && InLog(op.after, f, op.off, op.count, op.txn + op.logged)
    && f / INODES_PER_BLOCK + inodeStart in op.logged
  }

  ghost predicate Follows(ops: seq<Op>, k: int)
    requires 0 < k < |ops|
  {
    ops[k].before == ops[k - 1].after == ops[k - 1].kept && ops[k].off == ops[k - 1].off + ops[k - 1].count
  }

  /** The operations lead from img at off to img' at off', each starting where the one before it ended. */
  ghost predicate OpsLogged(ops: seq<Op>, f: nat, inodeStart: nat, img: Image, img': Image, off: nat, off': nat) {
    && (forall k :: 0 <= k < |ops| ==> OpLogged(ops[k], f, inodeStart))
    && (forall k :: 0 < k < |ops| ==> Follows(ops, k))
    && (if ops == [] then img' == img && off' == off
        else ops[0].before == img && ops[0].off == off &&
             ops[|ops| - 1].kept == img' && ops[|ops| - 1].off + ops[|ops| - 1].count == off')
  }

  ghost predicate OpsWithinBudget(img: Image, f: nat, off: nat, ops: seq<Op>) {
    && Shape(img) && f < |img.inodes| && WellSized(img)
    && (|img.disk| <= BITS ==> forall k :: 0 <= k < |ops| ==> |ops[k].logged| <= 7)
    && (HoleFree(img, f) ==> forall k :: 0 <= k < |ops| ==> |ops[k].logged| <= MAXLOGOPS)
  }

  ghost predicate OpsOk(ops: seq<Op>, f: nat, inodeStart: nat, img: Image, img': Image, off: nat, off': nat) {
    OpsWithinBudget(img, f, off, ops) && OpsLogged(ops, f, inodeStart, img, img', off, off')
  }

  /** One chunk more. */
  lemma ChunkDone(img0: Image, img1: Image, img2: Image, f: nat, off: nat, src: seq<Byte>, i: nat, n: nat, c: nat,
                  count: nat, undo: Undo, ops: seq<Op>, op: Op, inodeStart: nat)
    requires i + n <= |src| && count <= c <= n && CanUndo(img2, undo)
    requires Written(img0, img1, f, off, i, src[..i]) && Written(img1, img2, f, off + i, count, src[i..i + n][..c])
    requires undo.Change? ==> Written(img1, Undone(img2, undo), f, off + i, count, src[i..i + n][..count])
    requires OpsOk(ops, f, inodeStart, img0, img1, off, off + i)
    requires ops != [] ==> ops[|ops| - 1].after == ops[|ops| - 1].kept
    requires op.before == img1 && op.kept == Undone(img2, undo) && op.off == off + i && op.count == count
    requires OpLogged(op, f, inodeStart) && WithinBudget(img1, f, off + i, {}, op.logged)
    ensures Written(img0, img2, f, off, i + count, src[..i + c])
    ensures undo.Change? ==> Written(img0, Undone(img2, undo), f, off, i + count, src[..i + count])
    ensures OpsOk(ops + [op], f, inodeStart, img0, Undone(img2, undo), off, off + (i + count))
  {
    hide Written, OpLogged, WithinBudget, Undone;
    WrittenFacts(img0, img1, f, off, i, src[..i]);
    SlicePrefix(src, i, n, c);
    WrittenMore(img0, img1, img2, f, off, src[..i], count, src[i..i + n][..c]);
    if undo.Change? {
      SlicePrefix(src, i, n, count);
      WrittenMore(img0, img1, Undone(img2, undo), f, off, src[..i], count, src[i..i + n][..count]);
    }
    hide OpsWithinBudget, OpsLogged;
    OneMoreOp(img0, img1, f, off, i, src[..i], ops, op);
    OneMoreLogged(ops, f, inodeStart, img0, img1, off, off + i, op);
  }

  lemma NoOps(img: Image, f: nat, off: nat, inodeStart: nat)
    requires Owned(img) && WellSized(img) && f < |img.inodes|
    ensures OpsOk([], f, inodeStart, img, img, off, off)
  {
  }

  lemma OneMoreOp(img0: Image, img1: Image, f: nat, off: nat, i: nat, s: seq<Byte>, ops: seq<Op>, op: Op)
    requires OpsWithinBudget(img0, f, off, ops) && Written(img0, img1, f, off, i, s) && i == |s|
    requires |img1.disk| == |img0.disk| && WithinBudget(img1, f, off + i, {}, op.logged)
    ensures OpsWithinBudget(img0, f, off, ops + [op])
  {
    assert op.logged - {} == op.logged;
  }

  lemma OneMoreLogged(ops: seq<Op>, f: nat, inodeStart: nat, img0: Image, img: Image, off0: nat, off: nat, op: Op)
    requires OpsLogged(ops, f, inodeStart, img0, img, off0, off) && OpLogged(op, f, inodeStart)
    requires op.before == img && op.off == off && (ops != [] ==> ops[|ops| - 1].after == ops[|ops| - 1].kept)
    ensures OpsLogged(ops + [op], f, inodeStart, img0, op.kept, off0, off + op.count)
  {
    hide OpLogged;
    var all := ops + [op];
    forall k | 0 < k < |all| ensures Follows(all, k) {
      if k < |ops| { assert Follows(ops, k); }
    }
  }

  lemma UndoneNothing(img: Image)
    ensures Undone(img, Nothing) == img
  {}

  lemma WrittenNothing(img: Image, f: nat, off: nat)
    requires Owned(img) && WellSized(img) && f < |img.inodes| && off <= img.inodes[f].size
    ensures Written(img, img, f, off, 0, [])
  {
    assert Splice(Contents(img, f), off, []) == Contents(img, f);
  }

  lemma WrittenFacts(img0: Image, img: Image, f: nat, off: nat, i: nat, s: seq<Byte>)
    requires Written(img0, img, f, off, i, s)
    ensures Owned(img) && WellSized(img) && |img.inodes| == |img0.inodes| && off + i <= img.inodes[f].size
    ensures |img.disk| == |img0.disk|
  {
  }

  /** Two writes in a row, the first complete, are one write. */
  lemma WrittenMore(a: Image, b: Image, c: Image, f: nat, off: nat, s: seq<Byte>, i: nat, t: seq<Byte>)
    requires Written(a, b, f, off, |s|, s) && Written(b, c, f, off + |s|, i, t)
    ensures Written(a, c, f, off, |s| + i, s + t)
  {
    SpliceTwice(Contents(a, f), off, s, t);
    assert Splice(Contents(a, f), off, s)[..b.inodes[f].size] == Splice(Contents(a, f), off, s);
  }

  lemma SpliceTwice(x: seq<Byte>, off: nat, s: seq<Byte>, t: seq<Byte>)
    requires off <= |x|
    ensures Splice(Splice(x, off, s), off + |s|, t) == Splice(x, off, s + t)
  {
  }

  // ---------------------------------------------------------------- write_inode

  const WRAP: nat := 0x1_0000_0000
  const CHUNK: nat := 3072   // ((MAXOPBLOCKS-1-1-2) / 2) * BUFFER_SIZE

  ghost predicate WellSized(img: Image) {
    forall g :: 0 <= g < |img.inodes| ==> img.inodes[g].size <= MAXFILE * BLOCK_SIZE
  }

  /** write_inode's early returns. */
  ghost predicate Refused(img: Image, f: nat, off: nat, n: nat)
    requires f < |img.inodes|
  {
    off > img.inodes[f].size || off + n >= WRAP || off + n > MAXFILE * BLOCK_SIZE
  }

  function Resized(img: Image, f: nat, size: nat): (img': Image)
    requires Shape(img) && f < |img.inodes|
    ensures Shape(img')
  {
    img.(inodes := img.inodes[f := img.inodes[f].(size := size)])
  }

  /** Files after a write that returned i and put `bytes` into the file at off: the written file is the splice, cut at
      its new size; every other file, the leaks and hole-freedom are as before. */
  ghost predicate Written(img: Image, img': Image, f: nat, off: nat, i: nat, bytes: seq<Byte>) {
    && Owned(img') && WellSized(img') && Owned(img) && WellSized(img)
    && f < |img.inodes| == |img'.inodes| && off <= img.inodes[f].size && i <= |bytes|
    && (forall g :: 0 <= g < |img.inodes| && g != f ==> Contents(img', g) == Contents(img, g))
    && img'.inodes[f].size == (if off + i > img.inodes[f].size then off + i else img.inodes[f].size)
    && Contents(img', f) == Splice(Contents(img, f), off, bytes)[..img'.inodes[f].size]
    && (forall g :: 0 <= g < |img.inodes| && HoleFree(img, g) ==> HoleFree(img', g))
    && (forall c :: Leaked(img', c) <==> Leaked(img, c))
    && |img'.disk| == |img.disk|
  }

  lemma CountBound(off: nat, n: nat, fault: nat, i: nat)
    requires CountsTo(off, n, fault, i)
    ensures i <= n && i <= (if fault >= n then n else fault)
  {
  }

  lemma ProgressSize(img0: Image, img: Image, f: nat, off: nat, bytes: seq<Byte>, t: nat,
                     log0: set<nat>, log: set<nat>, data: set<nat>, maps: set<nat>)
    requires Progress(img0, img, f, off, bytes, t, log0, log, data, maps)
    ensures Shape(img) && f < |img.inodes| == |img0.inodes| && img.inodes[f].size == img0.inodes[f].size
  {
  }

  lemma WrittenOf(img0: Image, img1: Image, f: nat, off: nat, i: nat, bytes: seq<Byte>, t: nat,
                  log0: set<nat>, log: set<nat>, data: set<nat>, maps: set<nat>)
    requires Progress(img0, img1, f, off, bytes, t, log0, log, data, maps) && WellSized(img0)
    requires off <= img0.inodes[f].size && i <= |bytes|
    ensures var size := if off + i > img0.inodes[f].size then off + i else img0.inodes[f].size;
            Written(img0, Resized(img1, f, size), f, off, i, bytes)
  {
    var size := if off + i > img0.inodes[f].size then off + i else img0.inodes[f].size;
    var img2 := Resized(img1, f, size);
    ResizedOwned(img1, f, size);
    assert BytesReplaced(img0, img2, f, off, bytes);
    WrittenContents(img0, img2, f, off, bytes);
    forall g | 0 <= g < |img0.inodes| && HoleFree(img0, g) ensures HoleFree(img2, g) {
      StillHoleFree(img0, img1, img2, f, off, i, bytes, g);
    }
  }

  /** Changing a size moves no block. */
  lemma ResizedOwned(img: Image, f: nat, size: nat)
    requires Owned(img) && f < |img.inodes|
    ensures var img' := Resized(img, f, size);
            && Owned(img') && (forall p :: ValidPlace(img, p) ==> Addr(img', p) == Addr(img, p))
            && (forall c :: Leaked(img', c) <==> Leaked(img, c))
            && SameBytes(img, img')
  {
    var img' := Resized(img, f, size);
    assert forall p :: ValidPlace(img', p) <==> ValidPlace(img, p);
    assert forall p :: ValidPlace(img, p) ==> Addr(img', p) == Addr(img, p);
    assert forall b :: 0 <= b < |img.disk| ==> Marked(img', b) == Marked(img, b);
  }

  lemma WrittenContents(img: Image, img': Image, f: nat, off: nat, bytes: seq<Byte>)
    requires Shape(img) && Shape(img') && BytesReplaced(img, img', f, off, bytes) && WellSized(img) && WellSized(img')
    requires f < |img.inodes| && off <= img.inodes[f].size && off + |bytes| <= MAXFILE * BLOCK_SIZE
    requires forall g :: 0 <= g < |img.inodes| && g != f ==> img'.inodes[g].size == img.inodes[g].size
    requires img.inodes[f].size <= img'.inodes[f].size
    requires img'.inodes[f].size > img.inodes[f].size ==> img'.inodes[f].size <= off + |bytes|
    ensures forall g :: 0 <= g < |img.inodes| && g != f ==> Contents(img', g) == Contents(img, g)
    ensures Contents(img', f) == Splice(Contents(img, f), off, bytes)[..img'.inodes[f].size]
  {
    var t := Splice(Contents(img, f), off, bytes);
    forall i | 0 <= i < img'.inodes[f].size ensures Contents(img', f)[i] == t[i] {
    }
  }

  lemma StillHoleFree(img: Image, img1: Image, img2: Image, f: nat, off: nat, i: nat, bytes: seq<Byte>, g: nat)
    requires Wrote(img, img1, f, off, bytes) && WellSized(img) && Shape(img2) && |img2.inodes| == |img.inodes| &&
             g < |img.inodes|
    requires forall p :: ValidPlace(img1, p) ==> Addr(img2, p) == Addr(img1, p)
    requires off <= img.inodes[f].size && i <= |bytes|
    requires img2.inodes[g].size ==
               if g == f && off + i > img.inodes[f].size then off + i else img.inodes[g].size
    requires HoleFree(img, g)
    ensures img2.inodes[g].size <= MAXFILE * BLOCK_SIZE && HoleFree(img2, g)
  {
    forall n | 0 <= n < MAXFILE && n * BLOCK_SIZE < img2.inodes[g].size ensures MapAddr(img2, g, n) != 0 {
      assert ValidPlace(img, PlaceOf(g, n)) && ValidPlace(img1, PlaceOf(g, n));
      if n * BLOCK_SIZE >= img.inodes[g].size {
        assert g == f && Touches(n, off, |bytes|);
      } else {
        assert MapAddr(img, g, n) != 0;
      }
      assert MapAddr(img1, g, n) != 0;
    }
  }

  // ---------------------------------------------------------------- how much one chunk logs

  /** Distinct blocks one chunk adds to the transaction: at most 7 if a single bitmap block covers the
      device, and at most MAXLOGOPS on any device if the file had no hole. */
  ghost predicate WithinBudget(img: Image, f: nat, off: nat, log: set<nat>, log': set<nat>) {
    && Shape(img) && f < |img.inodes| && WellSized(img)
    && (|img.disk| <= BITS ==> |log' - log| <= 7)
    && (HoleFree(img, f) && off <= img.inodes[f].size ==> |log' - log| <= MAXLOGOPS)
  }

  lemma Budget(img0: Image, img1: Image, f: nat, off: nat, n: nat, bytes: seq<Byte>, t: nat,
               log0: set<nat>, log: set<nat>, data: set<nat>, maps: set<nat>, ib: nat)
    requires Progress(img0, img1, f, off, bytes, t, log0, log, data, maps) && WellSized(img0)
    requires n <= CHUNK && t <= Span(off, n)
    ensures WithinBudget(img0, f, off, log0, log + {ib})
  {
    hide Wrote;
    var ind := IndirectOf(img1, f);
    var all := data + ind + maps + {ib};
    SubsetCard(log + {ib} - log0, all);
    UnionCard(data, ind);
    UnionCard(data + ind, maps);
    UnionCard(data + ind + maps, {ib});
    SpanOfChunk(off, n);
    if |img0.disk| <= BITS {
      SubsetCard(maps, {img1.bitmapStart});
    }
    if HoleFree(img0, f) && off <= img0.inodes[f].size {
      HolesOfChunk(img0, f, off, t);
    }
  }

  lemma SpanOfChunk(off: nat, n: nat)
    requires n <= CHUNK
    ensures Span(off, n) <= if off % BLOCK_SIZE == 0 then 3 else 4
  {
  }

  /** A chunk that starts inside a block finds that block mapped. */
  lemma HolesOfChunk(img: Image, f: nat, off: nat, t: nat)
    requires Shape(img) && f < |img.inodes| && img.inodes[f].size <= MAXFILE * BLOCK_SIZE && HoleFree(img, f)
    requires off <= img.inodes[f].size && off / BLOCK_SIZE + t <= MAXFILE
    requires t <= if off % BLOCK_SIZE == 0 then 3 else 4
    ensures Holes(img, f, off / BLOCK_SIZE, off / BLOCK_SIZE + t) <= 3
  {
    var lo := off / BLOCK_SIZE;
    if off % BLOCK_SIZE != 0 && t > 0 {
      assert MapAddr(img, f, lo) != 0;
      HolesFrom(img, f, lo, lo + t);
    }
  }

  lemma {:induction false} HolesFrom(img: Image, f: nat, lo: nat, hi: nat)
    requires Shape(img) && f < |img.inodes| && lo < hi <= MAXFILE && MapAddr(img, f, lo) != 0
    ensures Holes(img, f, lo, hi) <= hi - lo - 1
    decreases hi
  {
    if hi > lo + 1 {
      HolesFrom(img, f, lo, hi - 1);
    }
  }

  // ---------------------------------------------------------------- the loop of write_inode

  /** Bytes of the next turn: up to the end of the block or of the request. */
  function Chunk(off: nat, n: nat, i: nat): nat
    requires i <= n
  {
    if n - i < BLOCK_SIZE - (off + i) % BLOCK_SIZE then n - i else BLOCK_SIZE - (off + i) % BLOCK_SIZE
  }

  /** i bytes have been copied in t turns, all of them whole. */
  ghost predicate Turning(off: nat, n: nat, fault: nat, i: nat, t: nat) {
    && i <= n && i <= fault && (i == 0 || i == n || (off + i) % BLOCK_SIZE == 0)
    && t == Span(off, i) <= Span(off, n)
    && (i < n ==> (off + i) / BLOCK_SIZE == off / BLOCK_SIZE + t)
  }

  lemma TurnStart(off: nat, n: nat, fault: nat)
    ensures Turning(off, n, fault, 0, 0)
  {
  }

  lemma TurnEnd(off: nat, n: nat, fault: nat, t: nat)
    requires Turning(off, n, fault, n, t)
    ensures CountsTo(off, n, fault, n) && fault >= n && t <= Span(off, n)
  {
  }

  lemma TurnStep(off: nat, n: nat, fault: nat, i: nat, t: nat)
    requires Turning(off, n, fault, i, t) && i < n
    ensures var j := Chunk(off, n, i);
            && 0 < j && i + j <= n && (off + i) % BLOCK_SIZE + j <= BLOCK_SIZE && t + 1 <= Span(off, n)
            && i <= fault && (off + i) / BLOCK_SIZE == off / BLOCK_SIZE + t
            && (i + j <= fault ==> Turning(off, n, fault, i + j, t + 1))
            && (i + j > fault ==> CountsTo(off, n, fault, i))
  {
    SpanStep(off, i, Chunk(off, n, i), n);
  }

  ghost predicate Progress(img0: Image, img: Image, f: nat, off: nat, bytes: seq<Byte>, t: nat,
                           log0: set<nat>, log: set<nat>, data: set<nat>, maps: set<nat>) {
    Wrote(img0, img, f, off, bytes) && LoopLog(img0, img, f, off / BLOCK_SIZE, t, log0, log, data, maps)
  }

  lemma NoProgress(img: Image, f: nat, off: nat, log: set<nat>)
    requires Owned(img) && f < |img.inodes| && off <= MAXFILE * BLOCK_SIZE
    ensures Progress(img, img, f, off, [], 0, log, log, {}, {})
  {
    WroteNothing(img, f, off);
  }

  lemma ProgressOwned(img0: Image, img: Image, f: nat, off: nat, bytes: seq<Byte>, t: nat,
                      log0: set<nat>, log: set<nat>, data: set<nat>, maps: set<nat>)
    requires Progress(img0, img, f, off, bytes, t, log0, log, data, maps)
    ensures Owned(img) && f < |img.inodes|
  {
  }

  lemma ProgressStep(img0: Image, img1: Image, img2: Image, f: nat, off: nat, s: seq<Byte>, b: seq<Byte>, t: nat,
                     log0: set<nat>, log1: set<nat>, log2: set<nat>, data: set<nat>, maps: set<nat>, a: nat,
                         more: set<nat>)
    requires (off + |s|) / BLOCK_SIZE == off / BLOCK_SIZE + t < MAXFILE
    requires Progress(img0, img1, f, off, s, t, log0, log1, data, maps)
    requires Wrote(img1, img2, f, off + |s|, b)
    requires StepLog(img1, img2, f, (off + |s|) / BLOCK_SIZE, log1, log2, a, more)
    ensures Progress(img0, img2, f, off, s + b, t + 1, log0, log2, data + {a}, maps + more)
  {
    hide BytesReplaced, Leaked;
    WroteMore(img0, img1, img2, f, off, s, b);
    assert ValidPlace(img1, Indirect(f));
    LoopLogStep(img0, img1, img2, f, off / BLOCK_SIZE, t, log0, log1, log2, data, maps, a, more);
  }

  /** What a turn has done that put the first `copied` of its bytes into the file: the bytes are there, the block is
      mapped, and everything changed is in the log, but for a part of the block that an undo takes back. */
  ghost predicate Turned(img: Image, img': Image, f: nat, o: nat, bytes: seq<Byte>, copied: nat, log: set<nat>,
                         log': set<nat>, txn: set<nat>, a: nat, maps: set<nat>, undo: Undo)
  {
    && copied <= |bytes| && o < MAXFILE * BLOCK_SIZE
    && Wrote(img, img', f, o, bytes[..copied])
    && StepLog(img, img', f, o / BLOCK_SIZE, log, log', a, maps)
    && a == MapAddr(img', f, o / BLOCK_SIZE) != 0
    && (undo.Change? <==> 0 < copied < |bytes| && a !in txn + log')
    && CanUndo(img', undo)
    && Covered(img, Undone(img', undo), txn + log') && (copied == |bytes| ==> a in log')
    && (undo.Change? ==>
         && undo.a == a
         && Wrote(img, Undone(img', undo), f, o, [])
         && StepLog(img, Undone(img', undo), f, o / BLOCK_SIZE, log, log', a, maps))
  }

  lemma IsTurn(img0: Image, img1: Image, img2: Image, f: nat, o: nat, bytes: seq<Byte>, copied: nat, log0: set<nat>,
               log1: set<nat>, log2: set<nat>, txn: set<nat>, a: nat, maps: set<nat>, undo: Undo)
    requires o < MAXFILE * BLOCK_SIZE && copied <= |bytes| && o % BLOCK_SIZE + |bytes| <= BLOCK_SIZE
    requires Mapped(img0, img1, f, o / BLOCK_SIZE, a) && Covered(img0, img1, log1) && a < |img1.disk|
    requires log0 <= log1 <= log0 + {a} + PathBlocks(img1, f, o / BLOCK_SIZE) + maps
    requires |maps| <= Allocations(img0, f, o / BLOCK_SIZE) && AreBitmapBlocks(img1, maps)
    requires img2 == Stored(img1, a, o % BLOCK_SIZE, bytes[..copied])
    requires log2 == if copied == |bytes| then log1 + {a} else log1
    requires undo == if 0 < copied < |bytes| && a !in txn + log2 then Change(a, img1.disk[a]) else Nothing
    ensures Turned(img0, img2, f, o, bytes, copied, log0, log2, txn, a, maps, undo)
  {
    MapAndStore(img0, img1, f, o, a, bytes[..copied]);
    hide Mapped, Wrote, Covered, StepLog, Stored, Allocations, PathBlocks, AreBitmapBlocks, MapAddr, Addr;
    MappedFacts(img0, img1, f, o / BLOCK_SIZE, a);
    MappedHere(img0, img1, img2, f, o / BLOCK_SIZE, a);
    TurnCovered(img0, img1, o, bytes, copied, log1, log2, txn, a, undo);
    StepIsLogged(img0, img1, img2, f, o / BLOCK_SIZE, log0, log1, log2, a, maps);
    if undo.Change? {
      MapAndStoreNothing(img0, img1, f, o, a);
      StoredUndone(img1, a, o % BLOCK_SIZE, bytes[..copied]);
      StepIsLogged(img0, img1, img1, f, o / BLOCK_SIZE, log0, log1, log2, a, maps);
    }
  }

  lemma StepIsLogged(img0: Image, img1: Image, img2: Image, f: nat, n: nat, log0: set<nat>, log1: set<nat>,
                     log2: set<nat>, a: nat, maps: set<nat>)
    requires Mapped(img0, img1, f, n, a) && Shape(img2) && |img2.inodes| == |img1.inodes|
    requires |img2.disk| == |img1.disk| && img2.bitmapStart == img1.bitmapStart
    requires forall p :: ValidPlace(img1, p) ==> Addr(img2, p) == Addr(img1, p)
    requires log0 <= log1 <= log0 + {a} + PathBlocks(img1, f, n) + maps && log1 <= log2 <= log1 + {a}
    requires |maps| <= Allocations(img0, f, n) && AreBitmapBlocks(img1, maps)
    ensures StepLog(img0, img2, f, n, log0, log2, a, maps)
  {
    MappedFacts(img0, img1, f, n, a);
    StepLogged(img0, img1, img2, f, n, a);
    PathIsIndirect(img0, img1, f, n, a);
    hide Mapped, Extends, Owned, Allocations;
  }

  lemma PathIsIndirect(img0: Image, img1: Image, f: nat, n: nat, a: nat)
    requires Mapped(img0, img1, f, n, a)
    ensures PathBlocks(img1, f, n) <= IndirectOf(img1, f)
  {
    assert ValidPlace(img1, PlaceOf(f, n));
  }

  lemma TurnCovered(img0: Image, img1: Image, o: nat, bytes: seq<Byte>, copied: nat, log1: set<nat>, log2: set<nat>,
                    txn: set<nat>, a: nat, undo: Undo)
    requires Shape(img1) && copied <= |bytes| && o % BLOCK_SIZE + |bytes| <= BLOCK_SIZE && a < |img1.disk|
    requires Covered(img0, img1, log1)
    requires log2 == if copied == |bytes| then log1 + {a} else log1
    requires undo == if 0 < copied < |bytes| && a !in txn + log2 then Change(a, img1.disk[a]) else Nothing
    ensures Covered(img0, Undone(Stored(img1, a, o % BLOCK_SIZE, bytes[..copied]), undo), txn + log2)
  {
    var img2 := Stored(img1, a, o % BLOCK_SIZE, bytes[..copied]);
    if undo.Change? {
      StoredUndone(img1, a, o % BLOCK_SIZE, bytes[..copied]);
      CoveredRefl(img1, txn + log2);
    } else {
      CoveredStore(img1, a, o % BLOCK_SIZE, bytes[..copied], txn + log2);
    }
    CoveredTrans(img0, img1, Undone(img2, undo), log1, txn + log2);
  }

  /** The loop so far: the bytes are in the file, what changed is in the log, and so are the blocks under the bytes. */
  ghost predicate Going(img0: Image, img: Image, f: nat, off: nat, s: seq<Byte>, t: nat, log0: set<nat>,
                        log: set<nat>, data: set<nat>, maps: set<nat>, txn: set<nat>) {
    && Progress(img0, img, f, off, s, t, log0, log, data, maps)
    && Covered(img0, img, txn + log) && InLog(img, f, off, |s|, txn + log)
  }

  /** The loop at its end, with i bytes counted and c copied. What is sure to stay differs from the image at the start
      only in logged blocks, and every block under the bytes counted is logged. */
  ghost predicate Ended(img0: Image, img: Image, f: nat, off: nat, src: seq<Byte>, i: nat, c: nat, t: nat,
                        log0: set<nat>, log: set<nat>, data: set<nat>, maps: set<nat>, txn: set<nat>, undo: Undo) {
    && i <= c <= |src|
    && Progress(img0, img, f, off, src[..c], t, log0, log, data, maps)
    && Vanishing(img, f, off, |src|, i, c, txn + log, undo)
    && Covered(img0, Undone(img, undo), txn + log) && InLog(img, f, off, i, txn + log)
    && (i < |src| ==> MapAddr(img, f, (off + i) / BLOCK_SIZE) != 0)
    && (undo.Change? ==> Progress(img0, Undone(img, undo), f, off, src[..i], t, log0, log, data, maps))
  }

  lemma NoTurns(img: Image, f: nat, off: nat, log: set<nat>, txn: set<nat>)
    requires Owned(img) && f < |img.inodes| && off <= MAXFILE * BLOCK_SIZE
    ensures Going(img, img, f, off, [], 0, log, log, {}, {}, txn)
  {
    NoProgress(img, f, off, log);
    CoveredRefl(img, txn + log);
    NothingInLog(img, f, off, txn + log);
  }

  lemma GoingOwned(img0: Image, img: Image, f: nat, off: nat, s: seq<Byte>, t: nat, log0: set<nat>, log: set<nat>,
                   data: set<nat>, maps: set<nat>, txn: set<nat>)
    requires Going(img0, img, f, off, s, t, log0, log, data, maps, txn)
    ensures Owned(img) && f < |img.inodes|
  {
    ProgressOwned(img0, img, f, off, s, t, log0, log, data, maps);
  }

  lemma GoneThrough(img0: Image, img: Image, f: nat, off: nat, src: seq<Byte>, t: nat, log0: set<nat>, log: set<nat>,
                    data: set<nat>, maps: set<nat>, txn: set<nat>)
    requires Going(img0, img, f, off, src, t, log0, log, data, maps, txn) && off + |src| <= MAXFILE * BLOCK_SIZE
    ensures Ended(img0, img, f, off, src, |src|, |src|, t, log0, log, data, maps, txn, Nothing)
  {
    assert src[..|src|] == src;
    ProgressOwned(img0, img, f, off, src, t, log0, log, data, maps);
  }

  /** A turn with a complete copy. */
  lemma GoesOn(img0: Image, img1: Image, img2: Image, f: nat, off: nat, src: seq<Byte>, i: nat, j: nat, t: nat,
               log0: set<nat>, log1: set<nat>, log2: set<nat>, data: set<nat>, maps: set<nat>, txn: set<nat>, a: nat,
               more: set<nat>, undo: Undo)
    requires i + j <= |src| && off + |src| <= MAXFILE * BLOCK_SIZE && (off + i) / BLOCK_SIZE == off / BLOCK_SIZE + t
    requires (off + i) % BLOCK_SIZE + j <= BLOCK_SIZE
    requires Going(img0, img1, f, off, src[..i], t, log0, log1, data, maps, txn)
    requires Turned(img1, img2, f, off + i, src[i..i + j], j, log1, log2, txn, a, more, undo)
    ensures undo == Nothing
    ensures Going(img0, img2, f, off, src[..i + j], t + 1, log0, log2, data + {a}, maps + more, txn)
  {
    hide Covered, InLog, Wrote, LoopLog;
    assert src[i..i + j][..j] == src[i..i + j];
    SlicePrefix(src, i, j, j);
    ProgressStep(img0, img1, img2, f, off, src[..i], src[i..i + j], t, log0, log1, log2, data, maps, a, more);
    CoveredTrans(img0, img1, img2, txn + log1, txn + log2);
    InLogStep(img0, img1, img2, f, off, src[..i], src[i..i + j], j, txn + log1, txn + log2);
  }

  /** A turn whose copy faults. */
  lemma Stops(img0: Image, img1: Image, img2: Image, f: nat, off: nat, src: seq<Byte>, i: nat, j: nat, copied: nat,
              t: nat, log0: set<nat>, log1: set<nat>, log2: set<nat>, data: set<nat>, maps: set<nat>, txn: set<nat>,
              a: nat, more: set<nat>, undo: Undo)
    requires copied < j && i + j <= |src| && off + |src| <= MAXFILE * BLOCK_SIZE
    requires (off + i) / BLOCK_SIZE == off / BLOCK_SIZE + t && (off + i) % BLOCK_SIZE + j <= BLOCK_SIZE
    requires Going(img0, img1, f, off, src[..i], t, log0, log1, data, maps, txn)
    requires Turned(img1, img2, f, off + i, src[i..i + j], copied, log1, log2, txn, a, more, undo)
    ensures Ended(img0, img2, f, off, src, i, i + copied, t + 1, log0, log2, data + {a}, maps + more, txn, undo)
  {
    hide Covered, InLog, Wrote, LoopLog, StepLog;
    SlicePrefix(src, i, j, copied);
    var b := src[i..i + j][..copied];
    TurnLogs(img1, img2, f, off + i, src[i..i + j], copied, log1, log2, txn, a, more, undo);
    ProgressStep(img0, img1, img2, f, off, src[..i], b, t, log0, log1, log2, data, maps, a, more);
    CoveredTrans(img0, img1, Undone(img2, undo), txn + log1, txn + log2);
    InLogStep(img0, img1, img2, f, off, src[..i], b, 0, txn + log1, txn + log2);
    if undo.Change? {
      assert src[..i] + [] == src[..i];
      ProgressStep(img0, img1, Undone(img2, undo), f, off, src[..i], [], t, log0, log1, log2, data, maps, a, more);
    }
  }

  lemma TurnLogs(img: Image, img': Image, f: nat, o: nat, bytes: seq<Byte>, copied: nat, log: set<nat>,
                 log': set<nat>, txn: set<nat>, a: nat, maps: set<nat>, undo: Undo)
    requires Turned(img, img', f, o, bytes, copied, log, log', txn, a, maps, undo)
    ensures log <= log' && Shape(img') && f < |img'.inodes|
  {}

  lemma SlicePrefix<T>(s: seq<T>, i: nat, j: nat, c: nat)
    requires i + j <= |s| && c <= j
    ensures s[..i] + s[i..i + j][..c] == s[..i + c]
  {
  }

  /** One turn covers one more block, and the last block covered is within the span of the whole write. */
  lemma SpanStep(off: nat, i: nat, j: nat, n: nat)
    requires i < n && 0 < j <= BLOCK_SIZE - (off + i) % BLOCK_SIZE && i + j <= n
    requires i == 0 || (off + i) % BLOCK_SIZE == 0
    ensures Span(off, i + j) == Span(off, i) + 1 <= Span(off, n)
    ensures j == BLOCK_SIZE - (off + i) % BLOCK_SIZE ==>
              (off + i + j) / BLOCK_SIZE == off / BLOCK_SIZE + Span(off, i + j) && (off + i + j) % BLOCK_SIZE == 0
  {
    var o := off + i;
    assert (o + j - 1) / BLOCK_SIZE == o / BLOCK_SIZE;
    if i > 0 {
      assert (o - 1) / BLOCK_SIZE == o / BLOCK_SIZE - 1;
    }
  }

  /** write_inode returns i: all of it, or the bytes before the block whose copy faults. */
  ghost predicate CountsTo(off: nat, n: nat, fault: nat, i: nat) {
    && i <= n && (fault >= n <==> i == n)
    && (i < n ==> (i == 0 || (off + i) % BLOCK_SIZE == 0) && i <= fault < i + BLOCK_SIZE - (off + i) % BLOCK_SIZE)
  }

  // ---------------------------------------------------------------- log accounting

  /** What one turn logs: at most the data block, the indirect block and the bitmap blocks of its allocations. */
  ghost predicate StepLog(img: Image, img': Image, f: nat, n: nat, log: set<nat>, log': set<nat>, a: nat,
                          maps: set<nat>) {
    && Shape(img) && Shape(img') && f < |img.inodes| == |img'.inodes| && n < MAXFILE
    && log <= log' <= log + {a} + IndirectOf(img', f) + maps
    && AreBitmapBlocks(img', maps)
    && |maps| + Missing(img', f) <= (if MapAddr(img, f, n) == 0 then 1 else 0) + Missing(img, f)
    && (forall m :: 0 <= m < MAXFILE && m != n ==> MapAddr(img', f, m) == MapAddr(img, f, m))
  }

  ghost function IndirectOf(img: Image, f: nat): set<nat>
    requires Shape(img) && f < |img.inodes|
  {
    if Addr(img, Indirect(f)) == 0 then {} else {Addr(img, Indirect(f))}
  }

  /** Blocks spanned by bytes [off, off+len). */
  function Span(off: nat, len: nat): nat {
    if len == 0 then 0 else (off + len - 1) / BLOCK_SIZE - off / BLOCK_SIZE + 1
  }

  /** Unmapped blocks among lo .. hi-1 of the file. */
  ghost function Holes(img: Image, f: nat, lo: nat, hi: nat): (h: nat)
    requires Shape(img) && f < |img.inodes| && hi <= MAXFILE
    ensures h <= if hi > lo then hi - lo else 0
  {
    if hi <= lo then 0 else Holes(img, f, lo, hi - 1) + if MapAddr(img, f, hi - 1) == 0 then 1 else 0
  }

  /** What t turns from block lo on have logged: data blocks, the indirect block, bitmap blocks. */
  ghost predicate LoopLog(img: Image, img': Image, f: nat, lo: nat, t: nat, log: set<nat>, log': set<nat>,
                          data: set<nat>, maps: set<nat>) {
    && Shape(img) && Shape(img') && f < |img.inodes| == |img'.inodes| && lo + t <= MAXFILE && |img.disk| == |img'.disk|
    && log <= log' <= log + data + IndirectOf(img', f) + maps
    && AreBitmapBlocks(img', maps)
    && |data| <= t
    && |maps| + Missing(img', f) <= Holes(img, f, lo, lo + t) + Missing(img, f)
    && (forall m :: lo + t <= m < MAXFILE ==> MapAddr(img', f, m) == MapAddr(img, f, m))
  }

  lemma LoopLogStep(img0: Image, img1: Image, img2: Image, f: nat, lo: nat, t: nat, log0: set<nat>, log1: set<nat>,
                    log2: set<nat>,
                    data: set<nat>, maps: set<nat>, a: nat, more: set<nat>)
    requires LoopLog(img0, img1, f, lo, t, log0, log1, data, maps) && lo + t < MAXFILE
    requires StepLog(img1, img2, f, lo + t, log1, log2, a, more)
    requires |img1.disk| == |img2.disk| && img1.bitmapStart == img2.bitmapStart
    requires Addr(img1, Indirect(f)) != 0 ==> Addr(img2, Indirect(f)) == Addr(img1, Indirect(f))
    ensures LoopLog(img0, img2, f, lo, t + 1, log0, log2, data + {a}, maps + more)
  {
    assert |data + {a}| <= |data| + 1;
    assert |maps + more| <= |maps| + |more| by {
      UnionCard(maps, more);
    }
  }

  lemma UnionCard(a: set<nat>, b: set<nat>)
    ensures |a + b| <= |a| + |b|
  {
    assert a + b == a + (b - a);
    assert |b - a| <= |b| by {
      SubsetCard(b - a, b);
    }
  }

  /** 1 while the file has no indirect block. */
  ghost function Missing(img: Image, f: nat): nat
    requires Shape(img) && f < |img.inodes|
  {
    if Addr(img, Indirect(f)) == 0 then 1 else 0
  }

  lemma StepLogged(img: Image, img1: Image, img2: Image, f: nat, n: nat, a: nat)
    requires Mapped(img, img1, f, n, a) && Shape(img2) && |img2.inodes| == |img1.inodes|
    requires forall p :: ValidPlace(img1, p) ==> Addr(img2, p) == Addr(img1, p)
    ensures Addr(img2, Indirect(f)) == Addr(img1, Indirect(f))
    ensures Allocations(img, f, n) + Missing(img2, f) <= (if MapAddr(img, f, n) == 0 then 1 else 0) + Missing(img, f)
    ensures forall m :: 0 <= m < MAXFILE && m != n ==> MapAddr(img2, f, m) == MapAddr(img, f, m)
  {
    assert ValidPlace(img1, Indirect(f)) && ValidPlace(img, Indirect(f)) && ValidPlace(img1, PlaceOf(f, n));
    if n >= NDIRECT {
      assert Addr(img1, Entry(f, n - NDIRECT)) != 0;
    }
    forall m | 0 <= m < MAXFILE && m != n ensures MapAddr(img2, f, m) == MapAddr(img, f, m) {
      assert ValidPlace(img, PlaceOf(f, m)) && ValidPlace(img1, PlaceOf(f, m));
    }
  }

  // ---------------------------------------------------------------- buffer_map

  /** Place x already holds b, or was filled with it. */
  ghost predicate FillOrKeep(img: Image, img': Image, x: Place, b: nat) {
    && Owned(img) && ValidPlace(img, x) && b != 0
    && if Addr(img, x) != 0 then img' == img && b == Addr(img, x) else img' != img && Filled(img, img', x, b)
  }

  lemma NowHolds(img: Image, img': Image, x: Place, b: nat)
    requires FillOrKeep(img, img', x, b)
    ensures Owned(img') && |img'.inodes| == |img.inodes| && ValidPlace(img', x) && Addr(img', x) == b != 0
  {
  }

  /** The bitmap block logged when a step from img to img' allocated b. */
  ghost function MapsOf(img: Image, img': Image, b: nat): set<nat> {
    if img' == img then {} else {BitmapBlock(img, b)}
  }

  lemma MapsBound(img0: Image, img1: Image, img2: Image, f: nat, n: nat, ind: nat, a: nat)
    requires f < |img0.inodes| && NDIRECT <= n < MAXFILE
    requires FillOrKeep(img0, img1, Indirect(f), ind) && FillOrKeep(img1, img2, Entry(f, n - NDIRECT), a)
    ensures var maps := MapsOf(img0, img1, ind) + MapsOf(img1, img2, a);
            |maps| <= Allocations(img0, f, n) && AreBitmapBlocks(img2, maps)
  {
    assert ValidPlace(img0, Entry(f, n - NDIRECT)) && ValidPlace(img0, Indirect(f));
    if Addr(img0, Indirect(f)) == 0 {
      assert Addr(img0, Entry(f, n - NDIRECT)) == 0;
    }
    var m1, m2 := MapsOf(img0, img1, ind), MapsOf(img1, img2, a);
    assert |m1 + m2| <= |m1| + |m2|;
  }

  lemma ExtendsRefl(img: Image)
    requires Owned(img)
    ensures Extends(img, img)
  {
  }

  lemma MappedTwice(img0: Image, img1: Image, img2: Image, f: nat, n: nat, ind: nat, a: nat)
    requires f < |img0.inodes| && NDIRECT <= n < MAXFILE
    requires FillOrKeep(img0, img1, Indirect(f), ind) && FillOrKeep(img1, img2, Entry(f, n - NDIRECT), a)
    ensures Mapped(img0, img2, f, n, a) && Addr(img2, Indirect(f)) == ind
  {
    ExtendsRefl(img0);
    ExtendsRefl(img1);
    ExtendsTrans(img0, img1, img2);
    assert forall p :: ValidPlace(img0, p) <==> ValidPlace(img1, p);
    assert ValidPlace(img0, Entry(f, n - NDIRECT)) && ValidPlace(img0, Indirect(f));
    if Addr(img0, Indirect(f)) == 0 {
      assert Addr(img0, Entry(f, n - NDIRECT)) == 0;
    }
  }

  lemma DirectFilled(img: Image, f: nat, n: nat, b: nat)
    requires Owned(img) && f < |img.inodes| && n < NDIRECT && Addr(img, Direct(f, n)) == 0 && b in FreeEights(img)
    ensures var img' := WithAddr(Allocated(img, b), f, n, b);
            && Mapped(img, img', f, n, b) && AreBitmapBlocks(img', {BitmapBlock(img, b)})
            && Covered(img, img', {BitmapBlock(img, b), b})
  {
    AssignDirect(img, f, n, b);
    CoveredAlloc(img, b, {BitmapBlock(img, b), b});
  }

  lemma DirectKept(img: Image, f: nat, n: nat, log: set<nat>)
    requires Owned(img) && f < |img.inodes| && n < NDIRECT && Addr(img, Direct(f, n)) != 0
    ensures Mapped(img, img, f, n, Addr(img, Direct(f, n))) && AreBitmapBlocks(img, {}) && Covered(img, img, log)
  {}

  lemma CoveredMore(img: Image, img': Image, log: set<nat>, log': set<nat>)
    requires Covered(img, img', log) && log <= log'
    ensures Covered(img, img', log')
  {}

  /** The indirect block and the entry, one after the other, are a mapping of the block. */
  lemma TwoFills(img0: Image, img1: Image, img2: Image, f: nat, n: nat, ind: nat, a: nat, log0: set<nat>,
                 log1: set<nat>, log2: set<nat>)
    requires f < |img0.inodes| && NDIRECT <= n < MAXFILE
    requires FillOrKeep(img0, img1, Indirect(f), ind) && FillOrKeep(img1, img2, Entry(f, n - NDIRECT), a)
    requires log1 == log0 + (if img1 == img0 then {} else {BitmapBlock(img0, ind), ind})
    requires log2 == log1 + (if img2 == img1 then {} else {BitmapBlock(img1, a), a, ind})
    requires Covered(img0, img1, log1) && Covered(img1, img2, log2)
    ensures var maps := MapsOf(img0, img1, ind) + MapsOf(img1, img2, a);
            && Mapped(img0, img2, f, n, a) && log0 <= log2 <= log0 + {a} + PathBlocks(img2, f, n) + maps
            && |maps| <= Allocations(img0, f, n) && AreBitmapBlocks(img2, maps)
    ensures Covered(img0, img2, log2)
  {
    MappedTwice(img0, img1, img2, f, n, ind, a);
    MapsBound(img0, img1, img2, f, n, ind, a);
    CoveredTrans(img0, img1, img2, log1, log2);
    hide FillOrKeep, Mapped, Covered, Allocations, Addr;
  }

  // ---------------------------------------------------------------- buffer_alloc

  lemma ByteIndex(i: nat, j: nat)
    requires i % BITS == 0 && j < BITS
    ensures i % 8 == 0 && (i + j) / BITS == i / BITS && (i + j) % BITS == j && ((i + j) % 8 == 0 <==> j % 8 == 0)
    ensures var m := 8 * (j / 8);
            && m <= j && m / 8 == j / 8 && m % 8 == 0 && (m == j <==> j % 8 == 0)
            && (i + m) / BITS == i / BITS && (i + m) % BITS == m && (i + m) % 8 == 0
  {
    var q, k, l := i / BITS, j / 8, j % 8;
    var m := 8 * k;
    assert i == BITS * q && j == m + l && i == 8 * (1024 * q);
    DivBits(q, j);
    DivBits(q, m);
    Div8(1024 * q, 0);
    Div8(k, 0);
    Div8(1024 * q + k, 0);
    Div8(1024 * q + k, l);
  }

  lemma DivBits(q: nat, r: nat)
    requires r < BITS
    ensures (BITS * q + r) / BITS == q && (BITS * q + r) % BITS == r
  {
  }

  lemma Div8(x: nat, r: nat)
    requires r < 8
    ensures (8 * x + r) / 8 == x && (8 * x + r) % 8 == r
  {
  }

  /** img' is img with fresh block b allocated and stored at empty place x. */
  ghost predicate Filled(img: Image, img': Image, x: Place, b: nat) {
    && Extends(img, img') && ValidPlace(img, x) && b != 0
    && (forall p {:trigger Addr(img', p)} :: ValidPlace(img, p) ==> Addr(img', p) == if p == x then b else Addr(img, p))
    && AreBitmapBlocks(img, {BitmapBlock(img, b)})
  }

  lemma AssignFresh(img: Image, img2: Image, x: Place, b: nat)
    requires Owned(img) && b < |img.disk| && !Marked(img, b) && ValidPlace(img, x) && Addr(img, x) == 0 && Shape(img2)
    requires var img1 := Allocated(img, b);
             && Reassigned(img1, img2, x, b) && SameMarks(img1, img2)
             && (forall g :: 0 <= g < |img.inodes| ==> img2.inodes[g].size == img.inodes[g].size)
             && img2.disk[b] == ZeroBlock()
             && (forall c :: 0 <= c < |img.disk| && c != Addr(img, Indirect(x.f)) ==> img2.disk[c] == img1.disk[c])
             && (Addr(img, Indirect(x.f)) == 0 ==> img2.disk == img1.disk)
    ensures Filled(img, img2, x, b)
  {
    var img1 := Allocated(img, b);
    AllocatedOwned(img, b);
    AllocatedBytes(img, b);
    assert ValidPlace(img, Indirect(x.f));
    AssignOwned(img1, img2, x, b);
    AssignBytes(img1, img2, x, b);
    assert b / BITS <= (|img.disk| - 1) / BITS;
  }

  lemma AssignDirect(img: Image, f: nat, n: nat, b: nat)
    requires Owned(img) && f < |img.inodes| && n < NDIRECT && b < |img.disk| && !Marked(img, b) &&
             img.inodes[f].addrs[n] == 0
    ensures Filled(img, WithAddr(Allocated(img, b), f, n, b), Direct(f, n), b)
  {
    WithDirect(Allocated(img, b), f, n, b);
    AllocatedOwned(img, b);
    AssignFresh(img, WithAddr(Allocated(img, b), f, n, b), Direct(f, n), b);
  }

  lemma AssignIndirect(img: Image, f: nat, b: nat)
    requires Owned(img) && f < |img.inodes| && b < |img.disk| && !Marked(img, b) && img.inodes[f].addrs[NDIRECT] == 0
    ensures Filled(img, WithAddr(Allocated(img, b), f, NDIRECT, b), Indirect(f), b)
  {
    AllocatedOwned(img, b);
    WithIndirect(Allocated(img, b), f, b);
    AssignFresh(img, WithAddr(Allocated(img, b), f, NDIRECT, b), Indirect(f), b);
  }

  lemma AssignEntry(img: Image, f: nat, k: nat, b: nat)
    requires Owned(img) && f < |img.inodes| && k < NINDIRECT && b < |img.disk| && !Marked(img, b)
    requires Addr(img, Indirect(f)) != 0 && Addr(img, Entry(f, k)) == 0
    ensures Addr(img, Indirect(f)) < |img.disk|
    ensures Filled(img, WithEntry(Allocated(img, b), f, k, b), Entry(f, k), b)
  {
    AllocatedOwned(img, b);
    assert ValidPlace(img, Indirect(f)) && ValidPlace(img, Entry(f, k));
    WithEntryAssigns(Allocated(img, b), f, k, b);
    AssignFresh(img, WithEntry(Allocated(img, b), f, k, b), Entry(f, k), b);
  }
}
