/** The image builder src/makefs.c, against the kernel's view of an image in Files and FileSys.

    The image file is the block sequence `disk`; rsect and wsect are reads and updates of it. The bitmap is written
    once, at the end, so invariants speak of the image as it would be with every block below freeblock marked. */
module MakeFs {
  import opened Common
  import opened Blocks
  import opened Bitmap
  import opened Files
  import FileSys

  const FSSIZE: nat := 1000
  const NINODES: nat := 200
  const NLOG: nat := 30
  const PER_BLOCK: nat := 16                               // INODE_PER_BLOCK
  const NINODEBLOCKS: nat := NINODES / PER_BLOCK + 1
  const INODE_START: nat := 2 + NLOG
  const BITMAP: nat := INODE_START + NINODEBLOCKS          // bitmap_start
  const NMETA: nat := BITMAP + FSSIZE / (BLOCK_SIZE * 8) + 1
  const SLOTS: nat := NINODEBLOCKS * PER_BLOCK             // inode records on disk
  const ROOTINO: nat := 1

  lemma Layout()
    ensures INODE_START == 32 && BITMAP == 45 && NMETA == 46 && SLOTS == 208
  {}

  /** struct disk_inode: sixteen words. */
  datatype Record = Record(kind: Word, links: Word, size: Word, addrs: seq<Word>)

  function WordsAt(b: Block, at: nat, n: nat): (ws: seq<Word>)
    requires at + n <= WORDS
    ensures |ws| == n && forall i :: 0 <= i < n ==> ws[i] == GetWord(b, at + i)
  {
    if n == 0 then [] else WordsAt(b, at, n - 1) + [GetWord(b, at + n - 1)]
  }

  function RecordAt(b: Block, slot: nat): (r: Record)
    requires slot < PER_BLOCK
    ensures |r.addrs| == NDIRECT + 1 && r.size == GetWord(b, 16 * slot + 2)
    ensures forall i :: 0 <= i < 13 ==> r.addrs[i] == GetWord(b, 16 * slot + 3 + i)
  {
    var ws := WordsAt(b, 16 * slot, 16);
    Record(ws[0], ws[1], ws[2], ws[3..])
  }

  function Words(r: Record): seq<Word> {
    [r.kind, r.links, r.size] + r.addrs
  }

  function PutWords(b: Block, at: nat, ws: seq<Word>): (c: Block)
    requires at + |ws| <= WORDS
    decreases |ws|
  {
    if ws == [] then b else PutWord(PutWords(b, at, ws[..|ws| - 1]), at + |ws| - 1, ws[|ws| - 1])
  }

  lemma {:induction false} PutWordsGet(b: Block, at: nat, ws: seq<Word>, j: nat)
    requires at + |ws| <= WORDS && j < WORDS
    ensures GetWord(PutWords(b, at, ws), j) == if at <= j < at + |ws| then ws[j - at] else GetWord(b, j)
    decreases |ws|
  {
    if ws != [] {
      PutWordsGet(b, at, ws[..|ws| - 1], j);
      PutGet(PutWords(b, at, ws[..|ws| - 1]), at + |ws| - 1, ws[|ws| - 1], j);
    }
  }

  /** `*dip = *ip` */
  function WithRecord(b: Block, slot: nat, r: Record): (c: Block)
    requires slot < PER_BLOCK && |r.addrs| == NDIRECT + 1
  {
    PutWords(b, 16 * slot, Words(r))
  }

  /** The kernel, reading an inode block, finds the record that was written and every other one unchanged. */
  lemma RecordRoundTrip(b: Block, slot: nat, r: Record, k: nat)
    requires slot < PER_BLOCK && k < PER_BLOCK && |r.addrs| == NDIRECT + 1
    ensures RecordAt(WithRecord(b, slot, r), k) == if k == slot then r else RecordAt(b, k)
  {
    RecordWords(b, slot, Words(r), k);
    assert Words(r)[3..] == r.addrs;
  }

  lemma RecordWords(b: Block, slot: nat, ws: seq<Word>, k: nat)
    requires slot < PER_BLOCK && k < PER_BLOCK && |ws| == 16
    ensures WordsAt(PutWords(b, 16 * slot, ws), 16 * k, 16) == if k == slot then ws else WordsAt(b, 16 * k, 16)
  {
    hide WordsAt, PutWords, GetWord, PutWord;
    var got, want := WordsAt(PutWords(b, 16 * slot, ws), 16 * k, 16), if k == slot then ws else WordsAt(b, 16 * k, 16);
    forall i | 0 <= i < 16 ensures got[i] == want[i] {
      PutWordsGet(b, 16 * slot, ws, 16 * k + i);
    }
  }

  /** The bitmap block with exactly the first n bits set. */
  function BelowBlock(n: nat): (b: Block)
    requires n <= BITS
    ensures forall j :: 0 <= j < BITS ==> (Bit(b, j) <==> j < n)
  {
    if n == 0 then ZeroBits(); ZeroBlock() else PutBit(BelowBlock(n - 1), n - 1, true)
  }

  lemma ZeroBits()
    ensures forall j :: 0 <= j < BITS ==> !Bit(ZeroBlock(), j)
  {
    forall j | 0 <= j < BITS ensures !Bit(ZeroBlock(), j) {
      ZeroBit(j % 8);
    }
  }

  lemma {:induction false} ZeroBit(k: nat)
    ensures !BitOf(0, k)
  {
    if k > 0 { ZeroBit(k - 1); }
  }

  /** The inode table the kernel would read. */
  function Table(disk: Disk): (t: seq<Inode>)
    requires |disk| == FSSIZE
    ensures |t| == SLOTS
  {
    seq(SLOTS, i requires 0 <= i < SLOTS => InodeAt(disk, i))
  }

  function InodeAt(disk: Disk, i: nat): Inode
    requires |disk| == FSSIZE && i < SLOTS
  {
    AsInode(RecordAt(disk[INODE_START + i / PER_BLOCK], i % PER_BLOCK))
  }

  /** The rest of each record: type, device numbers and link count. */
  function Heads(disk: Disk): (t: seq<Head>)
    requires |disk| == FSSIZE
    ensures |t| == SLOTS
  {
    seq(SLOTS, i requires 0 <= i < SLOTS => HeadAt(disk, i))
  }

  datatype Head = Head(kind: Word, links: Word)

  function HeadAt(disk: Disk, i: nat): Head
    requires |disk| == FSSIZE && i < SLOTS
  {
    var r := RecordAt(disk[INODE_START + i / PER_BLOCK], i % PER_BLOCK);
    Head(r.kind, r.links)
  }

  function AsInode(r: Record): Inode {
    Inode(r.size, r.addrs)
  }

  /** The image the kernel would see if every block below freeblock were marked. */
  ghost function View(disk: Disk, freeblock: nat, inodes: seq<Inode>): Image
    requires |disk| == FSSIZE && freeblock <= FSSIZE
  {
    Image(BITMAP, NMETA, disk[BITMAP := BelowBlock(freeblock)], inodes)
  }

  ghost predicate Whole(inodes: seq<Inode>) {
    forall f :: 0 <= f < |inodes| ==> |inodes[f].addrs| == NDIRECT + 1
  }

  lemma MarkedBelow(disk: Disk, freeblock: nat, inodes: seq<Inode>)
    requires |disk| == FSSIZE && freeblock <= FSSIZE && Whole(inodes)
    ensures Shape(View(disk, freeblock, inodes))
    ensures forall b :: 0 <= b < FSSIZE ==> (Marked(View(disk, freeblock, inodes), b) <==> b < freeblock)
  {
    Layout();
  }

  /** freeblock++ is the kernel's allocation of that block. */
  lemma AllocStep(disk: Disk, freeblock: nat, inodes: seq<Inode>)
    requires |disk| == FSSIZE && NMETA <= freeblock < FSSIZE && Whole(inodes) && disk[freeblock] == ZeroBlock()
    ensures Shape(View(disk, freeblock, inodes)) && !Marked(View(disk, freeblock, inodes), freeblock)
    ensures Allocated(View(disk, freeblock, inodes), freeblock) == View(disk, freeblock + 1, inodes)
  {
    Layout();
    MarkedBelow(disk, freeblock, inodes);
    var img, img' := View(disk, freeblock, inodes), View(disk, freeblock + 1, inodes);
    assert BitmapBlock(img, freeblock) == BITMAP && freeblock % BITS == freeblock;
    assert Allocated(img, freeblock).disk == img'.disk;
  }

  /** A block of metadata outside the bitmap is part of no file. */
  lemma MetaWrite(img: Image, b: nat, blk: Block)
    requires Owned(img) && b < img.bitmapStart
    ensures var img' := img.(disk := img.disk[b := blk]);
      && Owned(img') && SameBytes(img, img')
      && (forall p :: ValidPlace(img, p) ==> Addr(img', p) == Addr(img, p))
      && (forall c :: Leaked(img', c) <==> Leaked(img, c))
      && (forall c :: 0 <= c < |img.disk| ==> Marked(img', c) == Marked(img, c))
  {
    var img' := img.(disk := img.disk[b := blk]);
    forall p | ValidPlace(img, p) ensures Addr(img', p) == Addr(img, p) {
      if p.Entry? { assert ValidPlace(img, Indirect(p.f)); }
    }
    forall c | 0 <= c < |img.disk| ensures Marked(img', c) == Marked(img, c) {
      assert c / BITS <= (|img.disk| - 1) / BITS;
    }
    assert forall p :: ValidPlace(img', p) <==> ValidPlace(img, p);
    forall f, i | 0 <= f < |img.inodes| && 0 <= i < MAXFILE * BLOCK_SIZE
        ensures FileByte(img', f, i) == FileByte(img, f, i) {
      assert ValidPlace(img, PlaceOf(f, i / BLOCK_SIZE));
    }
  }

  lemma TableFrame(d: Disk, d': Disk)
    requires |d| == |d'| == FSSIZE && forall b :: 0 <= b < BITMAP ==> d[b] == d'[b]
    ensures Table(d) == Table(d') && Heads(d) == Heads(d')
  {
    Layout();
    forall i | 0 <= i < SLOTS ensures InodeAt(d, i) == InodeAt(d', i) && HeadAt(d, i) == HeadAt(d', i) {
      assert INODE_START + i / PER_BLOCK < BITMAP;
    }
  }

  /** winode, as the kernel's table sees it. */
  lemma TableWrite(d: Disk, i: nat, r: Record)
    requires |d| == FSSIZE && i < SLOTS && |r.addrs| == NDIRECT + 1
    ensures var b := INODE_START + i / PER_BLOCK;
      && b < BITMAP && Table(d[b := WithRecord(d[b], i % PER_BLOCK, r)]) == Table(d)[i := AsInode(r)]
      && Heads(d[b := WithRecord(d[b], i % PER_BLOCK, r)]) == Heads(d)[i := Head(r.kind, r.links)]
  {
    Layout();
    var b := INODE_START + i / PER_BLOCK;
    var d' := d[b := WithRecord(d[b], i % PER_BLOCK, r)];
    forall k | 0 <= k < SLOTS
      ensures InodeAt(d', k) == if k == i then AsInode(r) else InodeAt(d, k)
      ensures HeadAt(d', k) == if k == i then Head(r.kind, r.links) else HeadAt(d, k)
    {
      if k / PER_BLOCK == i / PER_BLOCK {
        RecordRoundTrip(d[b], i % PER_BLOCK, r, k % PER_BLOCK);
      }
    }
  }

  /** The record of inode inum is inside the inode blocks exactly when inum is below SLOTS. */
  lemma RecordsFitIff(inum: nat)
    ensures INODE_START + inum / PER_BLOCK < BITMAP <==> inum < SLOTS
  {
    Layout();
  }

  lemma MappedDirect(img: Image, img': Image, f: nat, n: nat, a: nat)
    requires FileSys.FillOrKeep(img, img', Direct(f, n), a)
    ensures FileSys.Mapped(img, img', f, n, a)
  {
    FileSys.ExtendsRefl(img);
  }

  lemma DirectStep(d: Disk, fb: nat, ino: seq<Inode>, f: nat, n: nat)
    requires |d| == FSSIZE && NMETA <= fb < FSSIZE && Whole(ino) && d[fb] == ZeroBlock() && Owned(View(d, fb, ino))
    requires f < |ino| && n < NDIRECT && ino[f].addrs[n] == 0
    ensures FileSys.FillOrKeep(View(d, fb, ino), View(d, fb + 1, WithSlot(ino, f, n, fb)), Direct(f, n), fb)
  {
    AllocStep(d, fb, ino);
    FileSys.AssignDirect(View(d, fb, ino), f, n, fb);
  }

  lemma IndirectStep(d: Disk, fb: nat, ino: seq<Inode>, f: nat)
    requires |d| == FSSIZE && NMETA <= fb < FSSIZE && Whole(ino) && d[fb] == ZeroBlock() && Owned(View(d, fb, ino))
    requires f < |ino| && ino[f].addrs[NDIRECT] == 0
    ensures FileSys.FillOrKeep(View(d, fb, ino), View(d, fb + 1, WithSlot(ino, f, NDIRECT, fb)), Indirect(f), fb)
  {
    AllocStep(d, fb, ino);
    FileSys.AssignIndirect(View(d, fb, ino), f, fb);
  }

  lemma EntryStep(d: Disk, fb: nat, ino: seq<Inode>, f: nat, k: nat)
    requires |d| == FSSIZE && NMETA <= fb < FSSIZE && Whole(ino) && d[fb] == ZeroBlock() && Owned(View(d, fb, ino))
    requires f < |ino| && k < NINDIRECT && ino[f].addrs[NDIRECT] != 0
    ensures NMETA <= ino[f].addrs[NDIRECT] < fb
    ensures var ind := ino[f].addrs[NDIRECT];
      GetWord(d[ind], k) == 0 ==>
        FileSys.FillOrKeep(View(d, fb, ino), View(d[ind := PutWord(d[ind], k, fb)], fb + 1, ino), Entry(f, k), fb)
  {
    var img := View(d, fb, ino);
    MarkedBelow(d, fb, ino);
    assert ValidPlace(img, Indirect(f)) && ValidPlace(img, Entry(f, k));
    var ind := Addr(img, Indirect(f));
    if GetWord(d[ind], k) == 0 {
      AllocStep(d, fb, ino);
      FileSys.AssignEntry(img, f, k, fb);
      var img2 := WithEntry(Allocated(img, fb), f, k, fb);
      assert img2.disk == View(d[ind := PutWord(d[ind], k, fb)], fb + 1, ino).disk;
    }
  }

  function WithSlot(ino: seq<Inode>, f: nat, n: nat, b: nat): seq<Inode>
    requires f < |ino| && n < |ino[f].addrs|
  {
    ino[f := ino[f].(addrs := ino[f].addrs[n := b])]
  }

  /** Bytes past a file's size are zero. */
  ghost predicate ZeroTails(img: Image)
    requires Shape(img)
  {
    forall f, i :: 0 <= f < |img.inodes| && img.inodes[f].size <= i < MAXFILE * BLOCK_SIZE ==> FileByte(img, f, i) == 0
  }

  /** Every file is hole-free and holds the given bytes; every block below freeblock is metadata or in a file. */
  ghost predicate Good(img: Image, files: seq<seq<Byte>>) {
    && Owned(img) && FileSys.WellSized(img) && ZeroTails(img)
    && |files| == |img.inodes| == SLOTS
    && (forall c :: !Leaked(img, c))
    && (forall f :: 0 <= f < SLOTS ==> Exact(img, f) && Contents(img, f) == files[f])
  }

  /** No file maps other blocks than before, but for file f below off. */
  ghost predicate OnlyBelow(img: Image, img': Image, f: nat, off: nat)
    requires Shape(img) && Shape(img')
  {
    && |img.inodes| == |img'.inodes|
    && forall g, n :: 0 <= g < |img.inodes| && 0 <= n < MAXFILE && (g != f || n * BLOCK_SIZE >= off) ==>
         MapAddr(img', g, n) == MapAddr(img, g, n)
  }

  /** Blocks not handed out yet are as they were zeroed. */
  ghost predicate Raw(disk: Disk, freeblock: nat) {
    && |disk| == FSSIZE && NMETA <= freeblock <= FSSIZE
    && (forall b :: freeblock <= b < FSSIZE ==> disk[b] == ZeroBlock())
  }

  ghost predicate SameMeta(d: Disk, d': Disk) {
    |d| == |d'| == FSSIZE && forall b :: 0 <= b < NMETA ==> d'[b] == d[b]
  }

  ghost predicate Builds(disk: Disk, freeblock: nat, freeinode: nat, files: seq<seq<Byte>>) {
    && Raw(disk, freeblock) && 1 <= freeinode && |files| == SLOTS
    && (forall i :: freeinode <= i < SLOTS ==> Table(disk)[i] == Inode(0, Zeros()))
    && Good(View(disk, freeblock, Table(disk)), files)
  }

  class Builder {
    var disk: Disk
    var freeinode: nat
    var freeblock: nat
    ghost var files: seq<seq<Byte>>      // what has been appended to each inode

    ghost predicate Valid()
      reads this
    {
      Builds(disk, freeblock, freeinode, files)
    }

    /** rinode */
    method RInode(inum: nat) returns (r: Record)
      requires |disk| == FSSIZE && inum < SLOTS
      ensures AsInode(r) == Table(disk)[inum] && Head(r.kind, r.links) == Heads(disk)[inum] && |r.addrs| == NDIRECT + 1
    {
      Layout();
      r := RecordAt(disk[INODE_START + inum / PER_BLOCK], inum % PER_BLOCK);
    }

    /** winode */
    method WInode(inum: nat, r: Record) returns (ghost b: nat)
      requires |disk| == FSSIZE && inum < SLOTS && |r.addrs| == NDIRECT + 1
      modifies this`disk
      ensures |disk| == FSSIZE && Table(disk) == Table(old(disk))[inum := AsInode(r)]
      ensures Heads(disk) == Heads(old(disk))[inum := Head(r.kind, r.links)]
      ensures b < BITMAP && disk == old(disk)[b := disk[b]]
      ensures RecordAt(disk[INODE_START + inum / PER_BLOCK], inum % PER_BLOCK) == r
    {
      Layout();
      RecordRoundTrip(disk[INODE_START + inum / PER_BLOCK], inum % PER_BLOCK, r, inum % PER_BLOCK);
      TableWrite(disk, inum, r);
      var bn := INODE_START + inum / PER_BLOCK;
      disk := disk[bn := WithRecord(disk[bn], inum % PER_BLOCK, r)];
      b := bn;
    }

    /** The block under file block fbn, allocating it and the indirect block as needed; false where the image is
        full, which the source does not look for. */
    method BlockFor(inum: nat, din: Record, fbn: nat, ghost ino: seq<Inode>) returns (ok: bool, din': Record, x: nat)
      requires Raw(disk, freeblock) && Whole(ino) && inum < |ino| && |din.addrs| == NDIRECT + 1 &&
               ino[inum] == AsInode(din) && fbn < MAXFILE
      requires Owned(View(disk, freeblock, ino))
      modifies this`disk, this`freeblock
      ensures Raw(disk, freeblock) && SameMeta(old(disk), disk) && (!ok ==> freeblock == FSSIZE) &&
              freeblock <= old(freeblock) + 2
      ensures ok ==> |din'.addrs| == NDIRECT + 1 && din' == din.(addrs := din'.addrs)
      ensures ok ==> FileSys.Mapped(View(old(disk), old(freeblock), ino),
                     View(disk, freeblock, ino[inum := AsInode(din')]), inum, fbn, x)
    {
      hide Owned, FileSys.Mapped, FileSys.FillOrKeep, View;
      ghost var img := View(disk, freeblock, ino);
      if fbn < NDIRECT {
        ok, din', x := DirectFor(inum, din, fbn, ino);
        if ok { MappedDirect(img, View(disk, freeblock, ino[inum := AsInode(din')]), inum, fbn, x); }
        return;
      }
      x := 0;
      ok, din' := IndirectFor(inum, din, ino);
      if !ok { return; }
      ghost var ino', img1 := ino[inum := AsInode(din')], View(disk, freeblock, ino[inum := AsInode(din')]);
      FileSys.NowHolds(img, img1, Indirect(inum), din'.addrs[NDIRECT]);
      ok, x := EntryFor(inum, din', fbn - NDIRECT, ino');
      if !ok { return; }
      FileSys.MappedTwice(img, img1, View(disk, freeblock, ino'), inum, fbn, din'.addrs[NDIRECT], x);
    }

    method DirectFor(inum: nat, din: Record, fbn: nat, ghost ino: seq<Inode>) returns (ok: bool, din': Record, x: nat)
      requires Raw(disk, freeblock) && Whole(ino) && inum < |ino| && |din.addrs| == NDIRECT + 1 &&
               ino[inum] == AsInode(din) && fbn < NDIRECT
      requires Owned(View(disk, freeblock, ino))
      modifies this`freeblock
      ensures Raw(disk, freeblock) && (!ok ==> freeblock == FSSIZE) && freeblock <= old(freeblock) + 1
      ensures ok ==> |din'.addrs| == NDIRECT + 1 && din' == din.(addrs := din'.addrs)
      ensures ok ==> FileSys.FillOrKeep(View(disk, old(freeblock), ino),
                     View(disk, freeblock, ino[inum := AsInode(din')]), Direct(inum, fbn), x)
    {
      ok, din', x := false, din, 0;
      ghost var fb := freeblock;
      if din.addrs[fbn] == 0 {
        if freeblock == FSSIZE { return; }
        DirectStep(disk, fb, ino, inum, fbn);
        din' := din.(addrs := din.addrs[fbn := freeblock]);
        freeblock := freeblock + 1;
        assert ino[inum := AsInode(din')] == WithSlot(ino, inum, fbn, fb);
      } else {
        assert ino[inum := AsInode(din)] == ino;
      }
      x := din'.addrs[fbn];
      ok := true;
    }

    method IndirectFor(inum: nat, din: Record, ghost ino: seq<Inode>) returns (ok: bool, din': Record)
      requires Raw(disk, freeblock) && Whole(ino) && inum < |ino| && |din.addrs| == NDIRECT + 1 &&
               ino[inum] == AsInode(din)
      requires Owned(View(disk, freeblock, ino))
      modifies this`freeblock
      ensures Raw(disk, freeblock) && (!ok ==> freeblock == FSSIZE) && freeblock <= old(freeblock) + 1
      ensures ok ==> |din'.addrs| == NDIRECT + 1 && din' == din.(addrs := din'.addrs)
      ensures ok ==> FileSys.FillOrKeep(View(disk, old(freeblock), ino),
                     View(disk, freeblock, ino[inum := AsInode(din')]), Indirect(inum), din'.addrs[NDIRECT])
    {
      ok, din' := false, din;
      ghost var fb := freeblock;
      if din.addrs[NDIRECT] == 0 {
        if freeblock == FSSIZE { return; }
        IndirectStep(disk, fb, ino, inum);
        din' := din.(addrs := din.addrs[NDIRECT := freeblock]);
        freeblock := freeblock + 1;
        assert ino[inum := AsInode(din')] == WithSlot(ino, inum, NDIRECT, fb);
      } else {
        assert ino[inum := AsInode(din)] == ino;
      }
      ok := true;
    }

    method EntryFor(inum: nat, din: Record, k: nat, ghost ino: seq<Inode>) returns (ok: bool, x: nat)
      requires Raw(disk, freeblock) && Whole(ino) && inum < |ino| && |din.addrs| == NDIRECT + 1 &&
               ino[inum] == AsInode(din) && k < NINDIRECT
      requires Owned(View(disk, freeblock, ino)) && din.addrs[NDIRECT] != 0
      modifies this`disk, this`freeblock
      ensures Raw(disk, freeblock) && SameMeta(old(disk), disk) && (!ok ==> freeblock == FSSIZE) &&
              freeblock <= old(freeblock) + 1
      ensures ok ==> FileSys.FillOrKeep(View(old(disk), old(freeblock), ino), View(disk, freeblock, ino),
                     Entry(inum, k), x)
    {
      ok, x := false, 0;
      var ind := din.addrs[NDIRECT];
      IndirectHeld(disk, freeblock, ino, inum, k);
      var indirect := disk[ind];
      if GetWord(indirect, k) == 0 {
        if freeblock == FSSIZE { return; }
        EntryStep(disk, freeblock, ino, inum, k);
        indirect := PutWord(indirect, k, freeblock);
        freeblock := freeblock + 1;
        disk := disk[ind := indirect];
        x := freeblock - 1;
      } else {
        x := GetWord(indirect, k);
      }
      ok := true;
    }

    /** One turn of iappend's loop: chunk lies within one block. */
    method AppendStep(inum: nat, din: Record, off: nat, chunk: seq<Byte>, ghost ino: seq<Inode>)
                      returns (ok: bool, din': Record)
      requires Raw(disk, freeblock) && Whole(ino) && inum < |ino| && |din.addrs| == NDIRECT + 1 &&
               ino[inum] == AsInode(din)
      requires Owned(View(disk, freeblock, ino)) && off < MAXFILE * BLOCK_SIZE &&
               off % BLOCK_SIZE + |chunk| <= BLOCK_SIZE
      modifies this`disk, this`freeblock
      ensures Raw(disk, freeblock) && SameMeta(old(disk), disk) && (!ok ==> freeblock == FSSIZE) &&
              freeblock <= old(freeblock) + 2
      ensures ok ==> |din'.addrs| == NDIRECT + 1 && din' == din.(addrs := din'.addrs)
      ensures ok ==> FileSys.Wrote(View(old(disk), old(freeblock), ino),
                     View(disk, freeblock, ino[inum := AsInode(din')]), inum, off, chunk)
      ensures ok && chunk != [] ==>
              OnlyBelowIn(View(old(disk), old(freeblock), ino), View(disk, freeblock, ino[inum := AsInode(din')]),
              inum, off + |chunk|)
    {
      hide Owned, FileSys.Mapped, FileSys.Wrote, View, OnlyBelowIn;
      ghost var img := View(disk, freeblock, ino);
      var x;
      ok, din', x := BlockFor(inum, din, off / BLOCK_SIZE, ino);
      if !ok { return; }
      ghost var ino' := ino[inum := AsInode(din')];
      ghost var img1 := View(disk, freeblock, ino');
      var at := off % BLOCK_SIZE;
      FileSys.MapAndStore(img, img1, inum, off, x, chunk);
      StoreStep(disk, freeblock, ino', img, inum, off, x, chunk);
      if chunk != [] { StepBelow(img, img1, Stored(img1, x, at, chunk), inum, off, x, off + |chunk|); }
      disk := disk[x := Blit(disk[x], at, chunk)];
    }

    /** The loop of iappend. */
    method AppendLoop(inum: nat, din: Record, p: seq<Byte>, ghost t0: seq<Inode>) returns (ok: bool, din': Record)
      requires Raw(disk, freeblock) && Whole(t0) && inum < |t0| && |din.addrs| == NDIRECT + 1 &&
               t0[inum] == AsInode(din)
      requires Owned(View(disk, freeblock, t0)) && din.size <= MAXFILE * BLOCK_SIZE
      modifies this`disk, this`freeblock
      ensures Raw(disk, freeblock) && SameMeta(old(disk), disk)
      ensures !ok ==> freeblock == FSSIZE || din.size + |p| > MAXFILE * BLOCK_SIZE
      ensures freeblock <= old(freeblock) + 2 * (|p| / BLOCK_SIZE + 2)
      ensures ok ==>
        Appended(View(old(disk), old(freeblock), t0), old(disk), t0, inum, din, p, |p|, disk, freeblock, din')
    {
      assert Turns(din.size, |p|, 0, 0);
      NothingAppended(disk, freeblock, t0, inum, din, p);
      hide Owned, FileSys.Wrote, View, OnlyBelowIn, Turns, Piece, Appended, Raw, SameMeta, Whole, AsInode;
      var i, off := 0, din.size;
      ghost var t := 0;
      din', ok := din, true;
      ghost var d0, img0 := disk, View(disk, freeblock, t0);
      while i < |p|
        invariant i <= |p| && off == din.size + i <= MAXFILE * BLOCK_SIZE
        invariant Appended(img0, d0, t0, inum, din, p, i, disk, freeblock, din')
        invariant Turns(din.size, |p|, i, t) && freeblock <= old(freeblock) + 2 * t
      {
        var fbn := off / BLOCK_SIZE;
        TurnBound(din.size, |p|, i, t);
        if fbn >= MAXFILE {
          AppendedFacts(img0, d0, t0, inum, din, p, i, disk, freeblock, din');
          return false, din';
        }
        var n1 := Piece(off, |p| - i);
        ok, din' := AppendTurn(inum, din', off, p, i, n1, img0, d0, t0, din);
        if !ok { return; }
        off, i, t := off + n1, i + n1, t + 1;
      }
      TurnBound(din.size, |p|, i, t);
      AppendedFacts(img0, d0, t0, inum, din, p, i, disk, freeblock, din');
    }

    /** One turn, with what all turns have done so far. */
    method AppendTurn(inum: nat, din: Record, off: nat, p: seq<Byte>, i: nat, n1: nat,
                      ghost img0: Image, ghost d0: Disk, ghost t0: seq<Inode>, ghost din0: Record)
      returns (ok: bool, din': Record)
      requires i + n1 <= |p| && n1 > 0 && off == din0.size + i < MAXFILE * BLOCK_SIZE
      requires off % BLOCK_SIZE + n1 <= BLOCK_SIZE
      requires Appended(img0, d0, t0, inum, din0, p, i, disk, freeblock, din)
      modifies this`disk, this`freeblock
      ensures Raw(disk, freeblock) && SameMeta(d0, disk) && freeblock <= old(freeblock) + 2
      ensures !ok ==> freeblock == FSSIZE
      ensures ok ==> off + n1 <= MAXFILE * BLOCK_SIZE
      ensures ok ==> Appended(img0, d0, t0, inum, din0, p, i + n1, disk, freeblock, din')
    {
      hide Owned, FileSys.Wrote, View, OnlyBelowIn;
      ghost var ino := t0[inum := AsInode(din)];
      ghost var img1 := View(disk, freeblock, ino);
      WroteFacts(img0, img1, inum, din0.size, p[..i]);
      ok, din' := AppendStep(inum, din, off, p[i..i + n1], ino);
      if !ok { return; }
      assert ino[inum := AsInode(din')] == t0[inum := AsInode(din')];
      ghost var img2 := View(disk, freeblock, t0[inum := AsInode(din')]);
      FileSys.WroteMore(img0, img1, img2, inum, din0.size, p[..i], p[i..i + n1]);
      BelowTrans(img0, img1, img2, inum, off, off + n1);
      assert p[..i] + p[i..i + n1] == p[..i + n1];
      WroteFacts(img0, img2, inum, din0.size, p[..i + n1]);
    }

    /** iappend; false where it asserts or the image is full. */
    method IAppend(inum: nat, p: seq<Byte>) returns (ok: bool)
      requires Valid() && inum < freeinode && inum < SLOTS
      modifies this`disk, this`freeblock, this`files
      ensures ok ==> Valid() && files == old(files)[inum := old(files)[inum] + p] && Heads(disk) == Heads(old(disk))
      ensures !ok ==> freeblock == FSSIZE || |old(files)[inum]| + |p| > MAXFILE * BLOCK_SIZE
      ensures freeblock <= old(freeblock) + 2 * (|p| / BLOCK_SIZE + 2) && freeblock <= FSSIZE
    {
      hide Owned, FileSys.Wrote, View, Good, Table, Builds, OnlyBelowIn, RecordAt, Heads, Appended;
      GoodFacts(disk, freeblock, freeinode, files);
      var din := RInode(inum);
      ghost var d0, fb0, t0 := disk, freeblock, Table(disk);
      ghost var img0 := View(disk, freeblock, t0);
      ViewInodes(disk, freeblock, t0);
      ghost var din0 := din;
      ok, din := AppendLoop(inum, din, p, t0);
      if !ok { return; }
      AppendedFacts(img0, d0, t0, inum, din0, p, |p|, disk, freeblock, din);
      ghost var d1, ino1 := disk, t0[inum := AsInode(din)];
      WroteFacts(img0, View(d1, freeblock, ino1), inum, din.size, p);
      din := din.(size := din.size + |p|);
      TableFrame(d0, disk);
      ghost var b := WInode(inum, din);
      AppendDone(d1, freeblock, ino1, files, img0, inum, p, disk, b);
      StillBuilds(d0, fb0, freeinode, files, d1, freeblock, disk, b, inum, AsInode(din),
          files[inum := files[inum] + p]);
      files := files[inum := files[inum] + p];
    }

    /** An empty file system: all blocks zero but the superblock. */
    constructor ()
      ensures Valid() && files == seq(SLOTS, i => []) && freeinode == 1 && freeblock == NMETA
      ensures WordsAt(disk[1], 0, 8) == [0x1020_3040, 1000, 954, 30, 2, 200, 32, 45]
    {
      Layout();
      var d: Disk := seq(FSSIZE, i => ZeroBlock());
      d := d[1 := PutWords(ZeroBlock(), 0, Superblock())];
      disk, freeinode, freeblock, files := d, 1, NMETA, seq(SLOTS, i => []);
      forall j | 0 <= j < 8 ensures GetWord(d[1], j) == Superblock()[j] {
        PutWordsGet(ZeroBlock(), 0, Superblock(), j);
      }
      EmptyGood(d);
    }

    /** ialloc. The source does not look whether the record still fits the inode blocks: sixteen more land on the bitmap
        block, where balloc erases them, and later ones on data blocks. */
    method IAlloc(kind: Word) returns (inum: nat)
      requires Valid() && INODE_START + freeinode / PER_BLOCK < FSSIZE
      modifies this`disk, this`freeinode
      ensures inum == old(freeinode) && freeinode == inum + 1
      ensures var bn := INODE_START + inum / PER_BLOCK;
        disk == old(disk)[bn := WithRecord(old(disk)[bn], inum % PER_BLOCK, Record(kind, 0x1_0000, 0, Zeros()))]
      ensures inum < SLOTS + PER_BLOCK ==> Valid()
      ensures Heads(disk) == if inum < SLOTS then Heads(old(disk))[inum := Head(kind, 0x1_0000)] else Heads(old(disk))
    {
      Layout();
      hide Good, View, Table, RecordAt, Heads, WithRecord;
      inum := freeinode;
      freeinode := freeinode + 1;
      ghost var d := disk;
      var r := Record(kind, 0x1_0000, 0, Zeros());
      var bn := INODE_START + inum / PER_BLOCK;
      disk := disk[bn := WithRecord(disk[bn], inum % PER_BLOCK, r)];
      if inum < SLOTS {
        TableWrite(d, inum, r);
        assert Table(d)[inum] == AsInode(r) && Table(d)[inum := AsInode(r)] == Table(d);
        GoodMeta(d, disk, freeblock, bn, files);
      } else {
        TableFrame(d, disk);
        if inum < SLOTS + PER_BLOCK { BitmapHidden(d, disk, freeblock, Table(d)); }
      }
    }

    /** balloc: one bit for each block handed out; false where it asserts. */
    method BAlloc() returns (ok: bool)
      requires |disk| == FSSIZE && freeblock <= FSSIZE
      modifies this`disk
      ensures ok && disk == old(disk)[BITMAP := BelowBlock(freeblock)]
    {
      Layout();
      if freeblock >= BLOCK_SIZE * 8 { return false; }
      var buf := ZeroBlock();
      for i := 0 to freeblock
        invariant buf == BelowBlock(i)
      {
        buf := PutBit(buf, i, true);
      }
      disk := disk[BITMAP := buf];
      ok := true;
    }

    /** The end of main: the root directory's size is rounded up past its last entry, and the bitmap is written. The
        finished image is what the kernel requires, with exactly the blocks below freeblock marked. */
    method Finish() returns (ok: bool)
      requires Valid()
      modifies this`disk
      ensures ok && |disk| == FSSIZE && Heads(disk) == Heads(old(disk))
      ensures Finished(disk, freeblock, files) <==> |files[ROOTINO]| < MAXFILE * BLOCK_SIZE
    {
      hide Good, View, BelowBlock;
      Layout();
      GoodFacts(disk, freeblock, freeinode, files);
      ghost var d0 := disk;
      var din := RInode(ROOTINO);
      var off := (din.size / BLOCK_SIZE + 1) * BLOCK_SIZE;
      din := din.(size := off);
      ghost var b := WInode(ROOTINO, din);
      ghost var d1 := disk;
      ok := BAlloc();
      TableFrame(d1, disk);
      if |files[ROOTINO]| < MAXFILE * BLOCK_SIZE {
        FinishedGood(d0, d1, disk, freeblock, b, files);
      } else {
        assert Table(disk)[ROOTINO].size > MAXFILE * BLOCK_SIZE;
      }
    }

    /** The kernel, given the finished image, reads back what was appended, without changing the image. */
    method ReadBack(f: nat, off: nat, n: nat) returns (out: seq<Byte>)
      requires Finished(disk, freeblock, files) && f < SLOTS && f != ROOTINO && off <= |files[f]| &&
               off + n < FileSys.WRAP
      ensures out == files[f][off..if off + n > |files[f]| then |files[f]| else off + n]
    {
      var img := Image(BITMAP, NMETA, disk, Table(disk));
      var fs := new FileSys.FileSystem(INODE_START, img);
      assert |Contents(img, f)| == |files[f]| && HoleFree(img, f);
      hide Owned, HoleFree, Leaked, FileSys.Extends, FileByte;
      var r;
      r, out := fs.ReadInode(f, off, n, n);
    }

    /** The kernel reading the root directory outside a transaction: it panics exactly when the entries end at a block
        boundary and the read gets past them; otherwise it delivers the entries and the zeros after them. */
    method ReadRoot(off: nat, n: nat, fault: nat) returns (r: Option<int>, out: seq<Byte>)
      requires Finished(disk, freeblock, files) && off + n < FileSys.WRAP && off <= RootSize(files[ROOTINO])
      ensures r.None? <==>
        var len := FileSys.Reached(FileSys.ReadLength(RootSize(files[ROOTINO]), off, n), fault);
        |files[ROOTINO]| % BLOCK_SIZE == 0 && len > 0 && off + len > |files[ROOTINO]|
      ensures r.Some? ==> |out| <= r.value == FileSys.ReadLength(RootSize(files[ROOTINO]), off, n)
      ensures r.Some? ==> forall k :: 0 <= k < |out| ==>
        out[k] == if off + k < |files[ROOTINO]| then files[ROOTINO][off + k] else 0
    {
      var img := Image(BITMAP, NMETA, disk, Table(disk));
      var fs := new FileSys.FileSystem(INODE_START, img);
      ghost var size, entries := RootSize(files[ROOTINO]), files[ROOTINO];
      ghost var c := Contents(img, ROOTINO);
      assert |c| == size && entries <= c;
      RootHole(img, entries, off, FileSys.Reached(FileSys.ReadLength(size, off, n), fault));
      hide Owned, HoleFree, Leaked, FileSys.Extends, FileByte, FileSys.NoHole, FileSys.Reached, MapAddr;
      r, out := fs.ReadInode(ROOTINO, off, n, fault);
    }
  }

  /** iappend has put the first i bytes of p after the file's old end. */
  ghost predicate Appended(img0: Image, d0: Disk, t0: seq<Inode>, inum: nat, din: Record, p: seq<Byte>, i: nat,
                           d: Disk, fb: nat, din': Record) {
    && Raw(d, fb) && SameMeta(d0, d) && i <= |p| && Whole(t0) && inum < |t0|
    && |din'.addrs| == NDIRECT + 1 && din' == din.(addrs := din'.addrs)
    && var img := View(d, fb, t0[inum := AsInode(din')]);
    && FileSys.Wrote(img0, img, inum, din.size, p[..i]) && OnlyBelowIn(img0, img, inum, din.size + i)
  }

  lemma NothingAppended(d: Disk, fb: nat, t0: seq<Inode>, inum: nat, din: Record, p: seq<Byte>)
    requires Raw(d, fb) && Whole(t0) && inum < |t0| && |din.addrs| == NDIRECT + 1 && t0[inum] == AsInode(din)
    requires Owned(View(d, fb, t0)) && din.size <= MAXFILE * BLOCK_SIZE
    ensures Appended(View(d, fb, t0), d, t0, inum, din, p, 0, d, fb, din)
  {
    var img0 := View(d, fb, t0);
    ViewInodes(d, fb, t0);
    assert t0[inum := AsInode(din)] == t0 && p[..0] == [];
    hide View;
    FileSys.WroteNothing(img0, inum, din.size);
    BelowRefl(img0, inum, din.size);
  }

  lemma AppendedFacts(img0: Image, d0: Disk, t0: seq<Inode>, inum: nat, din: Record, p: seq<Byte>, i: nat,
                      d: Disk, fb: nat, din': Record)
    requires Appended(img0, d0, t0, inum, din, p, i, d, fb, din')
    ensures Raw(d, fb) && SameMeta(d0, d) && |din'.addrs| == NDIRECT + 1 && din' == din.(addrs := din'.addrs)
    ensures var img := View(d, fb, t0[inum := AsInode(din')]);
      i == |p| ==> FileSys.Wrote(img0, img, inum, din.size, p) && OnlyBelowIn(img0, img, inum, din.size + |p|)
  {
    if i == |p| { assert p[..i] == p; }
  }

  /** How much of the bytes left goes into the block at off. */
  function Piece(off: nat, left: nat): (n1: nat)
    ensures n1 <= left && off % BLOCK_SIZE + n1 <= BLOCK_SIZE && (left > 0 ==> n1 > 0)
  {
    var rest := (off / BLOCK_SIZE + 1) * BLOCK_SIZE - off;
    if left < rest then left else rest
  }

  /** iappend after t turns, i bytes on: every turn but the last ends at a block boundary. */
  predicate Turns(size: nat, n: nat, i: nat, t: nat) {
    && i <= n && (t == 0 ==> i == 0)
    && (t > 0 ==> (size / BLOCK_SIZE + t - 1) * BLOCK_SIZE < size + i <= (size / BLOCK_SIZE + t) * BLOCK_SIZE)
    && (t > 0 && i < n ==> size + i == (size / BLOCK_SIZE + t) * BLOCK_SIZE)
  }

  lemma TurnBound(size: nat, n: nat, i: nat, t: nat)
    requires Turns(size, n, i, t)
    ensures t <= n / BLOCK_SIZE + 2 && (i < n ==> t + 1 <= n / BLOCK_SIZE + 2)
    ensures i < n ==>
      Turns(size, n, i + Piece(size + i, n - i), t + 1)
  {
    if i < n { assert (size + i) / BLOCK_SIZE == size / BLOCK_SIZE + t; }
  }

  function Zeros(): (z: seq<Word>)
    ensures |z| == NDIRECT + 1 && forall i :: 0 <= i < |z| ==> z[i] == 0
  {
    [0, 0, 0, 0, 0, 0, 0, 0, 0, 0, 0, 0, 0]
  }

  function RootSize(entries: seq<Byte>): nat {
    (|entries| / BLOCK_SIZE + 1) * BLOCK_SIZE
  }

  /** struct superblock */
  function Superblock(): (s: seq<Word>)
    ensures |s| == 8
  {
    [0x1020_3040, FSSIZE, FSSIZE - NMETA, NLOG, 2, NINODES, INODE_START, BITMAP]
  }

  /** The kernel's view of a finished image: ownership holds, exactly the blocks below freeblock are marked and none
      is leaked, every file holds what was appended to it and maps just the blocks for that; the root directory is
      zero-filled up to its rounded size and has a hole exactly when its entries filled its last block. */
  ghost predicate Finished(disk: Disk, freeblock: nat, files: seq<seq<Byte>>) {
    && |disk| == FSSIZE && |files| == SLOTS
    && var img := Image(BITMAP, NMETA, disk, Table(disk));
    && Owned(img) && FileSys.WellSized(img) && (forall c :: !Leaked(img, c))
    && (forall c :: 0 <= c < FSSIZE ==> (Marked(img, c) <==> c < freeblock))
    && (forall f :: 0 <= f < SLOTS && f != ROOTINO ==> Exact(img, f) && Contents(img, f) == files[f])
    && Rounded(img, files[ROOTINO])
  }

  ghost predicate Rounded(img: Image, entries: seq<Byte>)
    requires Owned(img) && FileSys.WellSized(img) && |img.inodes| == SLOTS
  {
    var c := Contents(img, ROOTINO);
    && |c| == (|entries| / BLOCK_SIZE + 1) * BLOCK_SIZE && entries <= c &&
         (forall i :: |entries| <= i < |c| ==> c[i] == 0)
    && (forall n :: 0 <= n < MAXFILE ==> (MapAddr(img, ROOTINO, n) != 0 <==> n * BLOCK_SIZE < |entries|))
  }

  /** So the root has a hole exactly when its entries filled its last block, and it is the last block. */
  lemma RootHole(img: Image, entries: seq<Byte>, off: nat, len: nat)
    requires Owned(img) && FileSys.WellSized(img) && |img.inodes| == SLOTS && Rounded(img, entries)
    requires off + len <= img.inodes[ROOTINO].size
    ensures HoleFree(img, ROOTINO) <==> |entries| % BLOCK_SIZE != 0
    ensures !FileSys.NoHole(img, ROOTINO, off, len) <==> |entries| % BLOCK_SIZE == 0 && len > 0 && off + len > |entries|
  {
    var h := |entries| / BLOCK_SIZE;
    assert |Contents(img, ROOTINO)| == (h + 1) * BLOCK_SIZE;
    assert forall n :: 0 <= n && n * BLOCK_SIZE < (h + 1) * BLOCK_SIZE ==> n <= h;
    if |entries| % BLOCK_SIZE == 0 {
      assert MapAddr(img, ROOTINO, h) == 0;
      assert len > 0 && off + len > |entries| ==> FileSys.Touches(h, off, len);
    }
  }

  lemma EmptyGood(d: Disk)
    requires |d| == FSSIZE && forall b :: 0 <= b < FSSIZE && b != 1 ==> d[b] == ZeroBlock()
    ensures Builds(d, NMETA, 1, seq(SLOTS, i => []))
  {
    Layout();
    var t := Table(d);
    forall i | 0 <= i < SLOTS ensures t[i] == Inode(0, Zeros()) {
      ZeroRecord(i % PER_BLOCK);
    }
    NoFiles(d, t);
  }

  lemma NoFiles(d: Disk, t: seq<Inode>)
    requires |d| == FSSIZE && |t| == SLOTS && forall i :: 0 <= i < SLOTS ==> t[i] == Inode(0, Zeros())
    ensures Good(View(d, NMETA, t), seq(SLOTS, i => []))
  {
    var img := View(d, NMETA, t);
    MarkedBelow(d, NMETA, t);
    assert forall p :: ValidPlace(img, p) ==> Addr(img, p) == 0;
    assert forall f, n :: 0 <= f < SLOTS && 0 <= n < MAXFILE ==> ValidPlace(img, PlaceOf(f, n));
  }

  lemma ZeroRecord(slot: nat)
    requires slot < PER_BLOCK
    ensures RecordAt(ZeroBlock(), slot) == Record(0, 0, 0, Zeros())
  {
    var ws := WordsAt(ZeroBlock(), 16 * slot, 16);
    forall i | 0 <= i < 16 ensures ws[i] == 0 {
      ZeroWords(16 * slot + i);
    }
    assert ws[3..] == Zeros();
  }

  lemma BitmapHidden(d: Disk, d': Disk, fb: nat, ino: seq<Inode>)
    requires |d| == |d'| == FSSIZE && fb <= FSSIZE && d' == d[BITMAP := d'[BITMAP]]
    ensures View(d', fb, ino) == View(d, fb, ino)
  {
    assert d'[BITMAP := BelowBlock(fb)] == d[BITMAP := BelowBlock(fb)];
  }

  lemma GoodMeta(d: Disk, d': Disk, fb: nat, b: nat, files: seq<seq<Byte>>)
    requires |d| == |d'| == FSSIZE && fb <= FSSIZE && Good(View(d, fb, Table(d)), files)
    requires b < BITMAP && d' == d[b := d'[b]] && Table(d') == Table(d)
    ensures Good(View(d', fb, Table(d')), files)
  {
    var img, img' := View(d, fb, Table(d)), View(d', fb, Table(d'));
    assert img' == img.(disk := img.disk[b := d'[b]]);
    MetaWrite(img, b, d'[b]);
    SameFiles(img, img', files);
  }

  lemma SameFiles(img: Image, img': Image, files: seq<seq<Byte>>)
    requires Good(img, files) && Owned(img') && SameBytes(img, img') && img'.inodes == img.inodes
    requires forall p :: ValidPlace(img, p) ==> Addr(img', p) == Addr(img, p)
    requires forall c :: Leaked(img', c) <==> Leaked(img, c)
    ensures Good(img', files)
  {
    hide Owned, Leaked;
    FileSys.OwnedShape(img);
    FileSys.OwnedShape(img');
    MapSame(img, img');
    forall f | 0 <= f < SLOTS ensures Exact(img', f) && Contents(img', f) == files[f] {
      assert Contents(img, f) == files[f] && Exact(img, f);
      assert Contents(img', f) == Contents(img, f);
    }
  }

  lemma FinishedGood(d0: Disk, d1: Disk, d2: Disk, fb: nat, b: nat, files: seq<seq<Byte>>)
    requires |d0| == |d1| == |d2| == FSSIZE && fb <= FSSIZE && Good(View(d0, fb, Table(d0)), files)
    requires |files[ROOTINO]| < MAXFILE * BLOCK_SIZE
    requires b < BITMAP && d1 == d0[b := d1[b]] && d2 == d1[BITMAP := BelowBlock(fb)]
    requires Table(d1) == Table(d0)[ROOTINO := Table(d0)[ROOTINO].(size := RootSize(files[ROOTINO]))]
    ensures Finished(d2, fb, files)
  {
    Layout();
    var img0 := View(d0, fb, Table(d0));
    var size := (|files[ROOTINO]| / BLOCK_SIZE + 1) * BLOCK_SIZE;
    var img1 := FileSys.Resized(img0, ROOTINO, size);
    var img2 := img1.(disk := img1.disk[b := d1[b]]);
    TableFrame(d1, d2);
    assert img2.disk == d2;
    assert img2 == Image(BITMAP, NMETA, d2, Table(d2));
    FileSys.ResizedOwned(img0, ROOTINO, size);
    MetaWrite(img1, b, d1[b]);
    MarkedBelow(d1, fb, Table(d1));
    assert View(d1, fb, Table(d1)) == img2;
    FinishedFiles(img0, img2, files);
  }

  lemma FinishedFiles(img0: Image, img2: Image, files: seq<seq<Byte>>)
    requires Good(img0, files) && Owned(img2) && |img2.inodes| == SLOTS && SameBytes(img0, img2) &&
             |files[ROOTINO]| < MAXFILE * BLOCK_SIZE
    requires forall p :: ValidPlace(img0, p) ==> Addr(img2, p) == Addr(img0, p)
    requires forall f :: 0 <= f < SLOTS ==>
             img2.inodes[f].size == if f == ROOTINO then RootSize(files[ROOTINO]) else img0.inodes[f].size
    ensures FileSys.WellSized(img2) && Rounded(img2, files[ROOTINO])
    ensures forall f :: 0 <= f < SLOTS && f != ROOTINO ==> Exact(img2, f) && Contents(img2, f) == files[f]
  {
    FileSys.OwnedShape(img0);
    FileSys.OwnedShape(img2);
    hide Owned, Leaked;
    var n := |files[ROOTINO]|;
    MapSame(img0, img2);
    forall f | 0 <= f < SLOTS && f != ROOTINO ensures Exact(img2, f) && Contents(img2, f) == files[f] {
      assert Contents(img0, f) == files[f] && Exact(img0, f);
      assert Contents(img2, f) == Contents(img0, f);
    }
    RoundedRoot(img0, img2, files[ROOTINO]);
  }

  lemma RoundedRoot(img0: Image, img2: Image, entries: seq<Byte>)
    requires Owned(img0) && Owned(img2) && FileSys.WellSized(img0) && |img0.inodes| == |img2.inodes| == SLOTS
    requires Exact(img0, ROOTINO) && Contents(img0, ROOTINO) == entries && ZeroTails(img0) && SameBytes(img0, img2)
    requires |entries| < MAXFILE * BLOCK_SIZE && img2.inodes[ROOTINO].size == (|entries| / BLOCK_SIZE + 1) * BLOCK_SIZE
    requires forall n :: 0 <= n < MAXFILE ==> MapAddr(img2, ROOTINO, n) == MapAddr(img0, ROOTINO, n)
    requires forall f :: 0 <= f < SLOTS && f != ROOTINO ==> img2.inodes[f].size == img0.inodes[f].size
    ensures FileSys.WellSized(img2) && Rounded(img2, entries)
  {
    FileSys.OwnedShape(img0);
    FileSys.OwnedShape(img2);
    hide Owned;
    var n, last := |entries|, |entries| / BLOCK_SIZE;
    assert last < MAXFILE && n == last * BLOCK_SIZE + n % BLOCK_SIZE;
    assert (last + 1) * BLOCK_SIZE <= MAXFILE * BLOCK_SIZE;
    var c := Contents(img2, ROOTINO);
    assert entries <= c by { assert forall i :: 0 <= i < n ==> c[i] == entries[i]; }
    if n % BLOCK_SIZE == 0 {
      assert MapAddr(img0, ROOTINO, last) == 0 && last * BLOCK_SIZE < img2.inodes[ROOTINO].size;
    } else {
      forall k | 0 <= k < MAXFILE && k * BLOCK_SIZE < (last + 1) * BLOCK_SIZE ensures MapAddr(img2, ROOTINO, k) != 0 {
        assert k <= last;
      }
    }
  }

  lemma ViewInodes(disk: Disk, freeblock: nat, inodes: seq<Inode>)
    requires |disk| == FSSIZE && freeblock <= FSSIZE
    ensures View(disk, freeblock, inodes).inodes == inodes
  {}

  ghost predicate OnlyBelowIn(img: Image, img': Image, f: nat, off: nat) {
    Owned(img) && Owned(img') && OnlyBelow(img, img', f, off)
  }

  lemma BelowRefl(img: Image, f: nat, off: nat)
    requires Owned(img)
    ensures OnlyBelowIn(img, img, f, off)
  {}

  lemma BelowTrans(a: Image, b: Image, c: Image, f: nat, off: nat, off': nat)
    requires OnlyBelowIn(a, b, f, off) && OnlyBelowIn(b, c, f, off') && off <= off'
    ensures OnlyBelowIn(a, c, f, off')
  {
    hide Owned;
    FileSys.OwnedShape(a);
    FileSys.OwnedShape(b);
    FileSys.OwnedShape(c);
  }

  lemma StepBelow(img: Image, img1: Image, img2: Image, f: nat, off: nat, x: nat, off': nat)
    requires FileSys.Mapped(img, img1, f, off / BLOCK_SIZE, x) && Owned(img2) && |img2.inodes| == |img1.inodes| &&
             off < off'
    requires forall p :: ValidPlace(img1, p) ==> Addr(img2, p) == Addr(img1, p)
    ensures OnlyBelowIn(img, img2, f, off')
  {
    hide Owned;
    FileSys.OwnedShape(img);
    FileSys.OwnedShape(img1);
    FileSys.OwnedShape(img2);
    forall g, n | 0 <= g < |img.inodes| && 0 <= n < MAXFILE && (g != f || n * BLOCK_SIZE >= off')
        ensures MapAddr(img2, g, n) == MapAddr(img, g, n) {
      var p := PlaceOf(g, n);
      assert ValidPlace(img, p) && ValidPlace(img1, p);
    }
  }

  lemma MapSame(img: Image, img': Image)
    requires Shape(img) && Shape(img') && |img.inodes| == |img'.inodes|
    requires forall p :: ValidPlace(img, p) ==> Addr(img', p) == Addr(img, p)
    ensures forall f, n :: 0 <= f < |img.inodes| && 0 <= n < MAXFILE ==> MapAddr(img', f, n) == MapAddr(img, f, n)
  {
    forall f, n | 0 <= f < |img.inodes| && 0 <= n < MAXFILE ensures MapAddr(img', f, n) == MapAddr(img, f, n) {
      assert ValidPlace(img, PlaceOf(f, n));
    }
  }

  function Blit(b: Block, at: nat, bytes: seq<Byte>): Block
    requires at + |bytes| <= BLOCK_SIZE
  {
    b[..at] + bytes + b[at + |bytes|..]
  }

  lemma StoreStep(d: Disk, fb: nat, ino: seq<Inode>, img: Image, f: nat, o: nat, x: nat, bytes: seq<Byte>)
    requires Raw(d, fb) && Whole(ino) && FileSys.Mapped(img, View(d, fb, ino), f, o / BLOCK_SIZE, x) &&
             o % BLOCK_SIZE + |bytes| <= BLOCK_SIZE
    ensures NMETA <= x < fb
    ensures View(d[x := Blit(d[x], o % BLOCK_SIZE, bytes)], fb, ino) == Stored(View(d, fb, ino), x, o % BLOCK_SIZE,
            bytes)
  {
    MarkedBelow(d, fb, ino);
    var img1 := View(d, fb, ino);
    assert ValidPlace(img1, PlaceOf(f, o / BLOCK_SIZE));
    assert View(d[x := Blit(d[x], o % BLOCK_SIZE, bytes)], fb, ino).disk == Stored(img1, x, o % BLOCK_SIZE, bytes).disk;
  }

  lemma WroteFacts(img: Image, img': Image, f: nat, off: nat, bytes: seq<Byte>)
    requires FileSys.Wrote(img, img', f, off, bytes)
    ensures Owned(img) && Owned(img') && |img'.inodes| == |img.inodes| && Whole(img'.inodes) &&
            off + |bytes| <= MAXFILE * BLOCK_SIZE
  {}

  lemma StillBuilds(d0: Disk, fb0: nat, fi: nat, files: seq<seq<Byte>>, d1: Disk, fb: nat, d2: Disk, b: nat, inum: nat,
                    x: Inode, files': seq<seq<Byte>>)
    requires Builds(d0, fb0, fi, files) && inum < fi && inum < SLOTS && Raw(d1, fb) && |d2| == FSSIZE && b < BITMAP &&
             d2 == d1[b := d2[b]]
    requires Table(d2) == Table(d0)[inum := x] && |files'| == SLOTS && Good(View(d2, fb, Table(d2)), files')
    ensures Builds(d2, fb, fi, files')
  {
    hide Good, Table, View;
  }

  lemma GoodFacts(disk: Disk, freeblock: nat, freeinode: nat, files: seq<seq<Byte>>)
    requires Builds(disk, freeblock, freeinode, files)
    ensures Raw(disk, freeblock) && |disk| == FSSIZE && freeblock <= FSSIZE && SLOTS == |files|
    ensures Owned(View(disk, freeblock, Table(disk))) && Whole(Table(disk)) &&
            Good(View(disk, freeblock, Table(disk)), files)
    ensures forall f :: 0 <= f < SLOTS ==> Table(disk)[f].size == |files[f]| <= MAXFILE * BLOCK_SIZE
  {
    var img := View(disk, freeblock, Table(disk));
    forall f | 0 <= f < SLOTS ensures img.inodes[f].size == |files[f]| <= MAXFILE * BLOCK_SIZE {
      assert Contents(img, f) == files[f];
    }
  }

  /** Appending, growing the size and writing the inode record yields an image with exactly those bytes added. */
  lemma AppendDone(d1: Disk, fb: nat, ino1: seq<Inode>, files: seq<seq<Byte>>, img0: Image, f: nat, p: seq<Byte>,
                   d2: Disk, b: nat)
    requires Raw(d1, fb) && Good(img0, files) && f < SLOTS && |files| == SLOTS && |ino1| == SLOTS
    requires FileSys.Wrote(img0, View(d1, fb, ino1), f, img0.inodes[f].size, p)
    requires OnlyBelowIn(img0, View(d1, fb, ino1), f, img0.inodes[f].size + |p|)
    requires |d2| == FSSIZE && b < BITMAP && d2 == d1[b := d2[b]]
    requires Table(d2) == ino1[f := ino1[f].(size := img0.inodes[f].size + |p|)]
    ensures Good(View(d2, fb, Table(d2)), files[f := files[f] + p])
  {
    var img1 := View(d1, fb, ino1);
    var size := img0.inodes[f].size + |p|;
    var img2 := FileSys.Resized(img1, f, size);
    var img3 := View(d2, fb, Table(d2));
    assert img3 == img2.(disk := img2.disk[b := d2[b]]);
    FileSys.ResizedOwned(img1, f, size);
    MetaWrite(img2, b, d2[b]);
    AppendGood(img0, img1, img3, files, f, p);
  }

  lemma AppendGood(img0: Image, img1: Image, img3: Image, files: seq<seq<Byte>>, f: nat, p: seq<Byte>)
    requires Good(img0, files) && f < SLOTS && FileSys.Wrote(img0, img1, f, img0.inodes[f].size, p)
    requires OnlyBelowIn(img0, img1, f, img0.inodes[f].size + |p|)
    requires Owned(img3) && |img3.inodes| == |img1.inodes| && |img3.disk| == |img1.disk| &&
             img3.dataStart == img1.dataStart
    requires SameBytes(img1, img3) && (forall p :: ValidPlace(img1, p) ==> Addr(img3, p) == Addr(img1, p))
    requires forall c :: Leaked(img3, c) <==> Leaked(img1, c)
    requires forall g :: 0 <= g < SLOTS ==>
             img3.inodes[g].size == if g == f then img0.inodes[f].size + |p| else img0.inodes[g].size
    ensures Good(img3, files[f := files[f] + p])
  {
    var off := img0.inodes[f].size;
    FileSys.OwnedShape(img0);
    FileSys.OwnedShape(img1);
    FileSys.OwnedShape(img3);
    hide Owned, Leaked;
    assert BytesReplaced(img0, img3, f, off, p);
    FileSys.WrittenContents(img0, img3, f, off, p);
    SpliceEnd(Contents(img0, f), p);
    assert ZeroTails(img3);
    MapSame(img1, img3);
    forall g | 0 <= g < SLOTS ensures Exact(img3, g) {
      assert Exact(img0, g);
      FileSys.StillHoleFree(img0, img1, img3, f, off, |p|, p, g);
    }
  }

  lemma SpliceEnd(s: seq<Byte>, p: seq<Byte>)
    ensures Splice(s, |s|, p)[..|s| + |p|] == s + p
  {}

  lemma IndirectHeld(d: Disk, fb: nat, ino: seq<Inode>, f: nat, k: nat)
    requires Raw(d, fb) && Whole(ino) && Owned(View(d, fb, ino)) && f < |ino| && k < NINDIRECT &&
             ino[f].addrs[NDIRECT] != 0
    ensures var ind := ino[f].addrs[NDIRECT];
      && NMETA <= ind < fb && Shape(View(d, fb, ino)) && ValidPlace(View(d, fb, ino), Entry(f, k))
      && Addr(View(d, fb, ino), Entry(f, k)) == GetWord(d[ind], k)
  {
    var img := View(d, fb, ino);
    MarkedBelow(d, fb, ino);
    assert ValidPlace(img, Indirect(f)) && ValidPlace(img, Entry(f, k));
  }

  // ---------------------------------------------------------------- a leak

  /** The builder's run for a root directory with some entries and one file. */
  method Build(entries: seq<Byte>, p: seq<Byte>) returns (b: Builder)
    requires 0 < |entries| < BLOCK_SIZE && |p| <= MAXFILE * BLOCK_SIZE
    ensures fresh(b) && Finished(b.disk, b.freeblock, b.files) && b.files[2] == p && b.freeblock < 600
  {
    Layout();
    b := new Builder();
    hide Builds, Finished, Table, Heads, WithRecord;
    var root := b.IAlloc(1);
    var f := b.IAlloc(2);
    var ok := b.IAppend(root, entries);
    ok := b.IAppend(f, p);
    ok := b.Finish();
  }

  /** A file as the image builder lays it out, truncated by the kernel inside an operation: every block from the 25th on
      stays marked and no file holds it, and a file of at most 24 blocks leaks nothing. */
  method LeakRun(entries: seq<Byte>, p: seq<Byte>) returns (disk: Disk, fs: FileSys.FileSystem)
    requires 0 < |entries| < BLOCK_SIZE && |p| <= MAXFILE * BLOCK_SIZE
    ensures |disk| == FSSIZE
    ensures var img := Image(BITMAP, NMETA, disk, Table(disk));
      && Owned(img) && FileSys.WellSized(img) && (forall c :: !Leaked(img, c)) && Contents(img, 2) == p
      && Shape(fs.img) && ((forall c :: !Leaked(fs.img, c)) <==> |p| <= 2 * NDIRECT * BLOCK_SIZE)
      && forall n :: 2 * NDIRECT <= n < MAXFILE && n * BLOCK_SIZE < |p| ==> Leaked(fs.img, MapAddr(img, 2, n))
  {
    var b := Build(entries, p);
    disk := b.disk;
    var img := Image(BITMAP, NMETA, disk, Table(disk));
    assert |Contents(img, 2)| == |p| && Exact(img, 2) && HoleFree(img, 2);
    hide Owned, Leaked, HoleFree, Exact, FileSys.Truncated, Table;
    fs := new FileSys.FileSystem(INODE_START, img);
    fs.syscalls := 1;
    var ok := fs.InodeTruncate(2);
    TruncatedShape(img, fs.img, 2);
    FileSys.LongFileLeaks(img, fs.img, 2);
    FileSys.TruncateLeaksBySize(img, fs.img, 2);
  }

  lemma TruncatedShape(img0: Image, img: Image, f: nat)
    requires FileSys.Truncated(img0, img, f)
    ensures Shape(img)
  {}

  /** A file of 24 blocks is not safe either: a write at its end whose copy faults at once returns 0 and leaves the
      size, but maps the 25th block; the truncate leaks that one. */
  method FaultLeakRun(entries: seq<Byte>, p: seq<Byte>, src: seq<Byte>)
                      returns (r: int, size: nat, a: nat, fs: FileSys.FileSystem)
    requires 0 < |entries| < BLOCK_SIZE && |p| == 2 * NDIRECT * BLOCK_SIZE && 0 < |src| <= FileSys.CHUNK
    ensures r == 0 && size == |p|
    ensures Shape(fs.img) && Leaked(fs.img, a)
  {
    var b := Build(entries, p);
    var img := Image(BITMAP, NMETA, b.disk, Table(b.disk));
    LastFits(img, b.disk, b.freeblock, b.files, p);
    hide Owned, Finished, FileSys.Truncated, Table, FileSys.CanMap, FileSys.WellSized, Leaked;
    fs := new FileSys.FileSystem(INODE_START, img);
    fs.syscalls := 1;
    r := FaultAtEnd(fs, 2, src);
    var img1 := fs.img;
    size, a := img1.inodes[2].size, MapAddr(img1, 2, 2 * NDIRECT);
    var ok := fs.InodeTruncate(2);
    Stranded(img1, fs.img, 2);
  }

  /** A write at the end of a file of 24 blocks from memory that is not mapped. */
  method FaultAtEnd(fs: FileSys.FileSystem, f: nat, src: seq<Byte>) returns (r: int)
    requires Owned(fs.img) && FileSys.WellSized(fs.img) && f < |fs.img.inodes| && 0 < |src| <= FileSys.CHUNK
    requires fs.img.inodes[f].size == 2 * NDIRECT * BLOCK_SIZE && fs.syscalls > 0
    requires FileSys.CanMap(fs.img, f, 2 * NDIRECT, fs.syscalls)
    modifies fs`img, fs`logged
    ensures r == 0 && Owned(fs.img) && FileSys.WellSized(fs.img) && |fs.img.inodes| == |old(fs.img).inodes|
    ensures fs.img.inodes[f].size == old(fs.img).inodes[f].size && Shape(fs.img) && MapAddr(fs.img, f, 2 * NDIRECT) != 0
  {
    hide Owned, Leaked, FileSys.CanMap, FileSys.Vanishing, FileSys.CountsTo, FileSys.WithinBudget, MapAddr, Contents,
        HoleFree;
    ghost var undo, log;
    var count;
    ghost var img0 := fs.img;
    count, undo, log := fs.WriteInode(f, src, 2 * NDIRECT * BLOCK_SIZE, 0);
    FileSys.CountBound(2 * NDIRECT * BLOCK_SIZE, |src|, 0, count.value);
    r := count.value;
  }

  lemma Stranded(img0: Image, img: Image, f: nat)
    requires FileSys.Truncated(img0, img, f) && MapAddr(img0, f, 2 * NDIRECT) != 0
    ensures Shape(img) && Leaked(img, MapAddr(img0, f, 2 * NDIRECT))
  {
    assert FileSys.StrandedEntry(img0, f, NDIRECT, Addr(img0, Entry(f, NDIRECT)));
  }

  /** With 24 blocks mapped, the indirect block is there, and the device has room for one block more. */
  lemma LastFits(img: Image, disk: Disk, freeblock: nat, files: seq<seq<Byte>>, p: seq<Byte>)
    requires Finished(disk, freeblock, files) && files[2] == p && |p| == 2 * NDIRECT * BLOCK_SIZE && freeblock < 600
    requires img == Image(BITMAP, NMETA, disk, Table(disk))
    ensures Owned(img) && FileSys.WellSized(img) && |img.inodes| == SLOTS && img.inodes[2].size == |p|
    ensures FileSys.CanMap(img, 2, 2 * NDIRECT, 1)
  {
    assert |Contents(img, 2)| == |p| && HoleFree(img, 2);
    assert MapAddr(img, 2, 2 * NDIRECT - 1) != 0;
    FileSys.NoIndirectNoEntry(img, 2, 2 * NDIRECT);
    assert 992 in FileSys.FreeEights(img);
    assert FileSys.FreeEights(img) != {};
  }
}
