/** Sv32 page tables in src/kernel/paging.c, after section 4.3 of the RISC-V Privileged Architecture manual.

    Physical pages are named by their 20-bit page number. kalloc takes the next page of a pool or fails. A page-table
    page is 1024 words, a data page 4096 bytes. A call returns Panic where the source panics. */
module Paging {
  import opened Common
  import opened Blocks

  const PGESIZE: nat := 4096
  const ENTRIES: nat := 1024
  const PAGES: nat := 0x10_0000            // pages in the 32-bit address space
  const SPACE: nat := 0x1_0000_0000
  const MAXVA: nat := 0xffff_ffff
  const PTE_V: nat := 1
  const PTE_U: nat := 16

  datatype Slot = Slot(table: nat, index: nat)
  datatype Outcome = Mapped | OutOfMemory | Panic

  type Tables = map<nat, seq<Word>>
  type Frames = map<nat, seq<Byte>>

  /** `table[i] = w` */
  function Put(t: Tables, p: nat, i: nat, w: Word): (u: Tables)
    requires p in t && i < |t[p]|
  {
    var row: seq<Word> := t[p];
    t[p := row[i := w]]
  }

  function EmptyTable(): (r: seq<Word>) {
    seq(ENTRIES, j => 0)
  }

  predicate IsValid(pte: Word) {
    pte % 2 == 1
  }

  predicate IsUser(pte: Word) {
    pte / PTE_U % 2 == 1
  }

  /** `(pte >> 10) << 12` in 32 bits, as a page number. */
  function Frame(pte: Word): (n: nat)
    ensures n < PAGES
  {
    pte / 1024 % PAGES
  }

  /** `((pa >> 12) << 10) | perm | PTE_V` for a permission mask that fits beside the page number. */
  function Encode(page: nat, perm: nat): Word
    requires page < PAGES && perm < 1024
  {
    page * 1024 + (if perm % 2 == 1 then perm else perm + 1)
  }

  /** The entry gives back the page and the permissions it was made from. */
  lemma EncodeDecode(page: nat, perm: nat)
    requires page < PAGES && perm < 1024
    ensures Frame(Encode(page, perm)) == page && IsValid(Encode(page, perm))
    ensures IsUser(Encode(page, perm)) <==> perm / PTE_U % 2 == 1
    ensures Encode(page, perm) % 1024 / 2 == perm / 2
  {
    var w := if perm % 2 == 1 then perm else perm + 1;
    Halves(perm, w);
    Fields(page, w);
  }

  lemma Halves(perm: nat, w: nat)
    requires perm < 1024 && w == if perm % 2 == 1 then perm else perm + 1
    ensures w < 1024 && w % 2 == 1 && w / 2 == perm / 2 && w / PTE_U == perm / PTE_U
  {}

  lemma Fields(page: nat, w: nat)
    requires page < PAGES && w < 1024
    ensures (page * 1024 + w) / 1024 % PAGES == page && (page * 1024 + w) % 1024 == w
    ensures (page * 1024 + w) % 2 == w % 2 && (page * 1024 + w) / PTE_U % 2 == w / PTE_U % 2
  {
    By1024(page, w);
    By16(page * 64 + w / 16, w % 16);
    By2(page * 512 + w / 2, w % 2);
    By2(page * 32 + w / 32, w / 16 % 2);
  }

  lemma By1024(q: nat, r: nat)
    requires r < 1024
    ensures (q * 1024 + r) / 1024 == q && (q * 1024 + r) % 1024 == r
  {}

  lemma By16(q: nat, r: nat)
    requires r < 16
    ensures (q * 16 + r) / 16 == q
  {}

  lemma By2(q: nat, r: nat)
    requires r < 2
    ensures (q * 2 + r) % 2 == r
  {}

  /** A root whose valid entries lead to second-level tables, one each. */
  ghost predicate TreeOk(t: Tables, root: nat) {
    && root in t && (forall p :: p in t ==> |t[p]| == ENTRIES)
    && (forall i :: 0 <= i < ENTRIES && IsValid(t[root][i]) ==> Frame(t[root][i]) in t && Frame(t[root][i]) != root)
    && (forall i, j :: 0 <= i < j < ENTRIES && IsValid(t[root][i]) && IsValid(t[root][j]) ==>
         Frame(t[root][i]) != Frame(t[root][j]))
  }

  ghost predicate PoolOk(t: Tables, pool: seq<nat>) {
    && (forall i :: 0 <= i < |pool| ==> 0 < pool[i] < PAGES && pool[i] !in t)
    && (forall i, j :: 0 <= i < j < |pool| ==> pool[i] != pool[j])
  }

  /** The flat map: the leaf entry of each virtual page, zero where there is none. */
  ghost function Leaf(t: Tables, root: nat, vpn: nat): Word
    requires TreeOk(t, root) && vpn < PAGES
  {
    if IsValid(t[root][vpn / ENTRIES]) then t[Frame(t[root][vpn / ENTRIES])][vpn % ENTRIES] else 0
  }

  ghost predicate Under(t: Tables, root: nat, p: nat)
    requires TreeOk(t, root)
  {
    p == root || exists i :: 0 <= i < ENTRIES && IsValid(t[root][i]) && Frame(t[root][i]) == p
  }

  /** Only the tables of this root were written; none of another root's tables was taken over. */
  ghost predicate Framed(t: Tables, u: Tables, root: nat)
    requires TreeOk(t, root) && TreeOk(u, root)
  {
    && t.Keys <= u.Keys
    && (forall p :: p in t && !Under(t, root, p) ==> u[p] == t[p] && !Under(u, root, p))
  }

  /** Adding an empty second-level table changes no translation. */
  lemma TableAdded(t: Tables, root: nat, i: nat, p: nat)
    requires TreeOk(t, root) && i < ENTRIES && !IsValid(t[root][i]) && p !in t && p < PAGES
    ensures var u := Put(t[p := EmptyTable()], root, i, Encode(p, 0));
      && TreeOk(u, root)
      && (forall vpn :: 0 <= vpn < PAGES ==> Leaf(u, root, vpn) == Leaf(t, root, vpn))
      && Framed(t, u, root)
  {
    EncodeDecode(p, 0);
    var u := Put(t[p := EmptyTable()], root, i, Encode(p, 0));
    assert forall j :: 0 <= j < ENTRIES ==> u[root][j] == if j == i then Encode(p, 0) else t[root][j];
    forall vpn | 0 <= vpn < PAGES ensures Leaf(u, root, vpn) == Leaf(t, root, vpn) {
      var j := vpn / ENTRIES;
    }
  }

  /** Writing one leaf entry changes exactly one translation. */
  lemma LeafWritten(t: Tables, root: nat, vpn: nat, w: Word)
    requires TreeOk(t, root) && vpn < PAGES && IsValid(t[root][vpn / ENTRIES])
    ensures var p := Frame(t[root][vpn / ENTRIES]);
      var u := Put(t, p, vpn % ENTRIES, w);
      && TreeOk(u, root)
      && (forall v :: 0 <= v < PAGES ==> Leaf(u, root, v) == if v == vpn then w else Leaf(t, root, v))
      && Framed(t, u, root)
  {
    var p := Frame(t[root][vpn / ENTRIES]);
    var u := Put(t, p, vpn % ENTRIES, w);
    assert u[root] == t[root];
    forall v | 0 <= v < PAGES ensures Leaf(u, root, v) == if v == vpn then w else Leaf(t, root, v) {
      var i, j := vpn / ENTRIES, v / ENTRIES;
      if IsValid(t[root][j]) && i != j {
        assert Frame(t[root][j]) != p by {
          if i < j { assert Frame(t[root][i]) != Frame(t[root][j]); }
        }
      }
    }
  }

  class Memory {
    var tables: Tables
    var pool: seq<nat>
    var frames: Frames

    constructor (tables: Tables, pool: seq<nat>, frames: Frames)
      ensures this.tables == tables && this.pool == pool && this.frames == frames
    {
      this.tables, this.pool, this.frames := tables, pool, frames;
    }

    /** walk on a page-aligned address; None where the source returns a null pointer. */
    method Walk(root: nat, vpn: nat, alloc: bool) returns (r: Option<Slot>)
      requires TreeOk(tables, root) && PoolOk(tables, pool) && vpn < PAGES
      modifies this`tables, this`pool
      ensures TreeOk(tables, root) && PoolOk(tables, pool)
      ensures forall v :: 0 <= v < PAGES ==> Leaf(tables, root, v) == Leaf(old(tables), root, v)
      ensures !alloc ==> tables == old(tables) && pool == old(pool)
      ensures Framed(old(tables), tables, root)
      ensures r.None? ==> tables == old(tables) && pool == old(pool)
      ensures r.None? <==> !IsValid(old(tables)[root][vpn / ENTRIES]) && (!alloc || old(pool) == [])
      ensures r.Some? ==>
              IsValid(tables[root][vpn / ENTRIES]) && r.value == Slot(Frame(tables[root][vpn / ENTRIES]), vpn % ENTRIES)
    {
      var i := vpn / ENTRIES;
      var pte := tables[root][i];
      if IsValid(pte) {
        return Some(Slot(Frame(pte), vpn % ENTRIES));
      }
      if !alloc || |pool| == 0 {
        return None;
      }
      var p := pool[0];
      TableAdded(tables, root, i, p);
      EncodeDecode(p, 0);
      tables := tables[p := EmptyTable()];
      tables := Put(tables, root, i, Encode(p, 0));
      pool := pool[1..];
      assert tables[root][i] == Encode(p, 0);
      return Some(Slot(p, vpn % ENTRIES));
    }

    /** One turn of the loop in map_pages. */
    method MapOne(root: nat, v: nat, page: nat, perm: nat) returns (out: Outcome)
      requires TreeOk(tables, root) && PoolOk(tables, pool) && v < PAGES && page < PAGES && perm < 1024
      modifies this`tables, this`pool
      ensures TreeOk(tables, root) && PoolOk(tables, pool) && Framed(old(tables), tables, root)
      ensures out == Panic <==> IsValid(Leaf(old(tables), root, v))
      ensures out == OutOfMemory ==> pool == [] && Leaf(tables, root, v) == 0
      ensures out != Mapped ==> forall w :: 0 <= w < PAGES ==> Leaf(tables, root, w) == Leaf(old(tables), root, w)
      ensures out == Mapped ==>
        forall w :: 0 <= w < PAGES ==>
            Leaf(tables, root, w) == if w == v then Encode(page, perm) else Leaf(old(tables), root, w)
    {
      var slot := Walk(root, v, true);
      if slot.None? { return OutOfMemory; }
      if IsValid(tables[slot.value.table][slot.value.index]) { return Panic; }
      LeafWritten(tables, root, v, Encode(page, perm));
      tables := Put(tables, slot.value.table, slot.value.index, Encode(page, perm));
      out := Mapped;
    }

    /** map_pages; done tells how many pages were mapped before it stopped. */
    method MapPages(root: nat, va: Word, pa: Word, size: Word, perm: nat) returns (out: Outcome, done: nat)
      requires TreeOk(tables, root) && PoolOk(tables, pool) && perm < 1024
      modifies this`tables, this`pool
      ensures TreeOk(tables, root) && PoolOk(tables, pool)
      ensures size == 0 ==> out == Panic && done == 0
      ensures size > 0 ==> done <= Count(va, size) && (out == Mapped <==> done == Count(va, size))
      ensures Maps(old(tables), tables, root, va / PGESIZE, pa / PGESIZE, done, perm)
      ensures out == Panic && size > 0 ==> IsValid(Leaf(old(tables), root, Up(va / PGESIZE, done)))
      ensures out == OutOfMemory ==> pool == [] && Leaf(old(tables), root, Up(va / PGESIZE, done)) == 0
      ensures Framed(old(tables), tables, root)
    {
      done := 0;
      if size == 0 { return Panic, 0; }
      var last := (va + size - 1) % SPACE / PGESIZE;
      var v, page := va / PGESIZE, pa / PGESIZE;
      ghost var first := v;
      UpNone(first);
      UpNone(page);
      hide TreeOk, Framed, Encode, Leaf, Maps, PoolOk, Distance, Frame, Under, Up;
      ghost var t := tables;
      while true
        invariant done < Count(va, size) && v == Up(first, done) && page == Up(pa / PGESIZE, done)
        invariant TreeOk(tables, root) && PoolOk(tables, pool) && Framed(t, tables, root)
        invariant Maps(t, tables, root, first, pa / PGESIZE, done, perm)
        decreases Count(va, size) - done
      {
        Step(first, last, done, v);
        Unmapped(t, tables, root, first, pa / PGESIZE, done, perm, v);
        ghost var u := tables;
        out := MapOne(root, v, page, perm);
        FramedTrans(t, u, tables, root);
        if out != Mapped {
          MapStop(t, u, tables, root, first, pa / PGESIZE, done, perm);
          return;
        }
        MapStep(t, u, tables, root, first, pa / PGESIZE, done, perm, v);
        NextPage(pa / PGESIZE, done, page);
        done := done + 1;
        if v == last { return Mapped, done; }
        v, page := Up(v, 1), Up(page, 1);
      }
    }

    /** fetch_pa_addr, as a page number; zero where it fails. */
    method FetchPage(root: nat, va: Word) returns (page: nat)
      requires TreeOk(tables, root) && PoolOk(tables, pool)
      modifies this`tables, this`pool
      ensures tables == old(tables) && pool == old(pool)
      ensures page == if va < MAXVA && User(tables, root, va) then Here(tables, root, va) else 0
      ensures var pte := Leaf(tables, root, va / PGESIZE);
        page == if va < 0xffff_ffff && pte % 2 == 1 && pte / 16 % 2 == 1 then pte / 1024 % 0x10_0000 else 0
    {
      if va >= MAXVA { return 0; }
      var slot := Walk(root, va / PGESIZE, false);
      if slot.None? { return 0; }
      var pte := tables[slot.value.table][slot.value.index];
      if !IsValid(pte) { return 0; }
      if !IsUser(pte) { return 0; }
      return Frame(pte);
    }

    /** Finds the page an address lies on, and how many of the len bytes from there are on it. */
    method PagePart(root: nat, va: Word, len: nat) returns (page: nat, off: nat, n: nat, next: Word)
      requires TreeOk(tables, root) && PoolOk(tables, pool) && len > 0
      modifies this`tables, this`pool
      ensures tables == old(tables) && pool == old(pool)
      ensures page == 0 <==> !User(tables, root, va)
      ensures page != 0 ==> page == Here(tables, root, va) && off == Off(va) && 0 < n <= len && off + n <= PGESIZE
      ensures page != 0 ==> n == len || next == Next(va, n)
    {
      var base: Word := va / PGESIZE * PGESIZE;
      SamePage(tables, root, va, base);
      off, n, next := 0, 0, 0;
      page := FetchPage(root, base);
      if page == 0 { return; }
      off := va - base;
      n := PGESIZE - off;
      if n > len { n := len; } else { PageEnd(va, n); }
      next := (base + PGESIZE) % SPACE;
    }

    /** copyout: exactly the bytes before the first that has no user page are stored, and nothing else changes. */
    method CopyOut(root: nat, va: Word, src: seq<Byte>) returns (ok: bool, ghost done: nat)
      requires TreeOk(tables, root) && PoolOk(tables, pool) && Backed(tables, root, frames)
      modifies this`frames, this`tables, this`pool
      ensures tables == old(tables) && pool == old(pool)
      ensures Written(frames, ok) == PutBytes(tables, root, old(frames), va, src)
      ensures Leads(tables, root, va, |src|, done) && (ok <==> done == |src|)
      ensures Stored(old(frames), frames, tables, root, va, src, done)
    {
      hide TreeOk, PoolOk, Backed, PutBytes, Leads, Stored;
      done := PutMeans(tables, root, frames, va, src);
      ok := CopyOutLoop(root, va, src);
    }

    /** Its loop over pages. */
    method CopyOutLoop(root: nat, va: Word, src: seq<Byte>) returns (ok: bool)
      requires TreeOk(tables, root) && PoolOk(tables, pool) && Backed(tables, root, frames)
      modifies this`frames, this`tables, this`pool
      ensures tables == old(tables) && pool == old(pool)
      ensures Written(frames, ok) == PutBytes(tables, root, old(frames), va, src)
    {
      hide TreeOk, PoolOk, Here, User, Off, Next, Blit, Backed, PutBytes;
      var dst: Word, i := va, 0;
      assert src[0..] == src;
      while i < |src|
        invariant i <= |src| && tables == old(tables) && pool == old(pool)
        invariant Backed(tables, root, frames)
        invariant PutBytes(tables, root, frames, dst, src[i..]) == PutBytes(tables, root, old(frames), va, src)
      {
        var page, off, n, next := PagePart(root, dst, |src| - i);
        PutEnd(tables, root, frames, dst, src[i..]);
        if page == 0 { return false; }
        Reach(tables, root, frames, dst);
        PutChunk(tables, root, frames, dst, src[i..], n);
        assert src[i..][..n] == src[i..i + n] && src[i..][n..] == src[i + n..];
        frames := Blit(frames, page, off, src[i..i + n]);
        PutEnd(tables, root, frames, Next(dst, n), src[i + n..]);
        PutEnd(tables, root, frames, next, src[i + n..]);
        dst, i := next, i + n;
      }
      PutEnd(tables, root, frames, dst, src[i..]);
      return true;
    }

    /** copyto; data is what has reached the destination: exactly the bytes before the first that has no user page. */
    method CopyTo(root: nat, va: Word, len: Word) returns (data: seq<Byte>, ok: bool)
      requires TreeOk(tables, root) && PoolOk(tables, pool) && Backed(tables, root, frames)
      modifies this`tables, this`pool
      ensures tables == old(tables) && pool == old(pool)
      ensures Copied(data, ok) == GetBytes(tables, root, frames, va, len)
      ensures Leads(tables, root, va, len, |data|) && (ok <==> |data| == len)
      ensures Loaded(frames, tables, root, va, data)
    {
      hide TreeOk, PoolOk, Backed, GetBytes, Leads, Loaded;
      GetMeans(tables, root, frames, va, len);
      data, ok := CopyToLoop(root, va, len);
    }

    /** Its loop over pages. */
    method CopyToLoop(root: nat, va: Word, len: Word) returns (data: seq<Byte>, ok: bool)
      requires TreeOk(tables, root) && PoolOk(tables, pool) && Backed(tables, root, frames)
      modifies this`tables, this`pool
      ensures tables == old(tables) && pool == old(pool)
      ensures Copied(data, ok) == GetBytes(tables, root, frames, va, len)
    {
      hide TreeOk, PoolOk, Here, User, Off, Next, Backed, GetBytes, Prepend;
      var src: Word, left := va, len;
      data := [];
      ghost var goal := GetBytes(tables, root, frames, va, len);
      PrependNone(goal);
      while left > 0
        invariant 0 <= left && tables == old(tables) && pool == old(pool)
        invariant Prepend(data, GetBytes(tables, root, frames, src, left)) == goal
      {
        var page, off, n, next := PagePart(root, src, left);
        GetEnd(tables, root, frames, src, left, data);
        if page == 0 { return data, false; }
        Reach(tables, root, frames, src);
        GetChunk(tables, root, frames, src, left, n);
        PrependTwice(data, frames[page][off..off + n], GetBytes(tables, root, frames, Next(src, n), left - n));
        data := data + frames[page][off..off + n];
        GetEnd(tables, root, frames, Next(src, n), left - n, data);
        GetEnd(tables, root, frames, next, left - n, data);
        src, left := next, left - n;
      }
      GetEnd(tables, root, frames, src, left, data);
      return data, true;
    }

    /** copyinstr: the bytes up to the first zero, if that comes within max bytes and no byte before it lacks a user
        page. */
    method CopyInStr(root: nat, va: Word, max: Word) returns (data: seq<Byte>, ok: bool)
      requires TreeOk(tables, root) && PoolOk(tables, pool) && Backed(tables, root, frames)
      modifies this`tables, this`pool
      ensures tables == old(tables) && pool == old(pool)
      ensures Copied(data, ok) == GetString(tables, root, frames, va, max)
      ensures StringAt(frames, tables, root, va, max, Copied(data, ok))
    {
      hide TreeOk, PoolOk, Backed, GetString, StringAt;
      StringMeans(tables, root, frames, va, max);
      data, ok := CopyInStrLoop(root, va, max);
    }

    /** Its loop over pages. */
    method CopyInStrLoop(root: nat, va: Word, max: Word) returns (data: seq<Byte>, ok: bool)
      requires TreeOk(tables, root) && PoolOk(tables, pool) && Backed(tables, root, frames)
      modifies this`tables, this`pool
      ensures tables == old(tables) && pool == old(pool)
      ensures Copied(data, ok) == GetString(tables, root, frames, va, max)
    {
      hide TreeOk, PoolOk, Here, User, Off, Next;
      var src: Word, left := va, max;
      ghost var goal := GetString(tables, root, frames, va, max);
      data, ok := [], false;
      while !ok && left > 0
        invariant 0 <= left && tables == old(tables) && pool == old(pool)
        invariant !ok ==> Prepend(data, GetString(tables, root, frames, src, left)) == goal
        invariant ok ==> Copied(data, true) == goal
        decreases !ok, left
      {
        var page, off, n, next := PagePart(root, src, left);
        if page == 0 { return data, false; }
        data, ok := CopyStrPage(root, page, off, n, src, left, data, goal);
        src, left := next, left - n;
      }
    }

    /** The inner loop of copyinstr, over n bytes of one page. */
    method CopyStrPage(root: nat, page: nat, off: nat, n: nat, ghost src: Word, ghost left: nat, data: seq<Byte>,
                       ghost goal: Copied)
      returns (data': seq<Byte>, ok: bool)
      requires TreeOk(tables, root) && Backed(tables, root, frames) && User(tables, root, src)
      requires page == Here(tables, root, src) && off == Off(src) && 0 < n <= left && off + n <= PGESIZE
      requires Prepend(data, GetString(tables, root, frames, src, left)) == goal
      ensures ok ==> Copied(data', true) == goal
      ensures !ok ==> Prepend(data', GetString(tables, root, frames, Next(src, n), left - n)) == goal
    {
      hide TreeOk, Here, User, Off, Next;
      data', ok := data, false;
      NextZero(src);
      for i := 0 to n
        invariant !ok && Prepend(data', GetString(tables, root, frames, Next(src, i), left - i)) == goal
      {
        OnPage(tables, root, src, i);
        var b := frames[page][off + i];
        NextNext(src, i, 1);
        GetStringStep(tables, root, frames, Next(src, i), left - i, data');
        data' := data' + [b];
        if b == 0 { return data', true; }
      }
    }
  }

  /** The physical page behind an address. */
  ghost function Here(t: Tables, root: nat, va: Word): nat
    requires TreeOk(t, root)
  {
    Frame(Leaf(t, root, va / PGESIZE))
  }

  /** What a user-mode access to this address needs; page zero counts as unmapped. */
  ghost predicate User(t: Tables, root: nat, va: Word)
    requires TreeOk(t, root)
  {
    IsValid(Leaf(t, root, va / PGESIZE)) && IsUser(Leaf(t, root, va / PGESIZE)) && Here(t, root, va) != 0
  }

  /** The same on the bits of the entry: V and U are set, and the page number is not zero. */
  ghost predicate Allowed(t: Tables, root: nat, va: Word)
    requires TreeOk(t, root)
  {
    var pte := Leaf(t, root, va / 4096);
    pte % 2 == 1 && pte / 16 % 2 == 1 && pte / 1024 % 0x10_0000 != 0
  }

  /** The physical page and the offset an address stands for. */
  ghost function Home(t: Tables, root: nat, va: Word): (nat, nat)
    requires TreeOk(t, root)
  {
    (Leaf(t, root, va / 4096) / 1024 % 0x10_0000, va % 4096)
  }

  lemma UserBits(t: Tables, root: nat, va: Word)
    requires TreeOk(t, root)
    ensures User(t, root, va) <==> Allowed(t, root, va)
    ensures Home(t, root, va) == (Here(t, root, va), Off(va))
  {}

  /** Of the n bytes from va on, exactly the first `done` can be reached before one that cannot. */
  ghost predicate Leads(t: Tables, root: nat, va: Word, n: nat, done: nat)
    requires TreeOk(t, root)
  {
    && done <= n && (forall k :: 0 <= k < done ==> Allowed(t, root, Next(va, k)))
    && (done < n ==> !Allowed(t, root, Next(va, done)))
  }

  /** Byte o of page p. */
  predicate InFrames(f: Frames, p: nat, o: nat) {
    p in f && o < |f[p]|
  }

  /** Physical memory g is f with src[..done] stored from va on: no other byte has changed, and each stored one is there
      unless a later one went to the same place. */
  ghost predicate Stored(f: Frames, g: Frames, t: Tables, root: nat, va: Word, src: seq<Byte>, done: nat)
    requires TreeOk(t, root)
  {
    && done <= |src| && g.Keys == f.Keys && (forall p :: p in f ==> |g[p]| == |f[p]|)
    && (forall p: nat, o: nat :: InFrames(f, p, o) && g[p][o] != f[p][o] ==>
          exists k :: 0 <= k < done && Home(t, root, Next(va, k)) == (p, o))
    && (forall k :: 0 <= k < done && LastTo(t, root, va, k, done) ==>
          var (p, o) := Home(t, root, Next(va, k)); InFrames(g, p, o) && g[p][o] == src[k])
  }

  ghost predicate LastTo(t: Tables, root: nat, va: Word, k: nat, done: nat)
    requires TreeOk(t, root)
  {
    forall j :: k < j < done ==> Home(t, root, Next(va, j)) != Home(t, root, Next(va, k))
  }

  lemma LeadsStep(t: Tables, root: nat, va: Word, n: nat, done: nat)
    requires TreeOk(t, root) && Allowed(t, root, va) && Leads(t, root, Next(va, 1), n, done)
    ensures Leads(t, root, va, n + 1, done + 1)
  {
    hide TreeOk, Allowed, Next;
    NextZero(va);
    forall k | 0 <= k < done + 1 ensures Allowed(t, root, Next(va, k)) {
      if k > 0 { NextNext(va, 1, k - 1); }
    }
    NextNext(va, 1, done);
  }

  lemma StoredStep(f: Frames, f1: Frames, g: Frames, t: Tables, root: nat, va: Word, src: seq<Byte>, done: nat)
    requires TreeOk(t, root) && src != [] && InFrames(f, Home(t, root, va).0, Home(t, root, va).1)
    requires f1 == Blit(f, Home(t, root, va).0, Home(t, root, va).1, src[..1])
    requires Stored(f1, g, t, root, Next(va, 1), src[1..], done)
    ensures Stored(f, g, t, root, va, src, done + 1)
  {
    var (p0, o0) := Home(t, root, va);
    hide TreeOk, Home, Next;
    NextZero(va);
    forall k: nat ensures Next(Next(va, 1), k) == Next(va, k + 1) { NextNext(va, 1, k); }
    BlitOne(f, p0, o0, src[0]);
    assert src[..1] == [src[0]];
    forall p: nat, o: nat | InFrames(f, p, o) && g[p][o] != f[p][o]
      ensures exists k :: 0 <= k < done + 1 && Home(t, root, Next(va, k)) == (p, o)
    {
      if (p, o) != (p0, o0) {
        var k :| 0 <= k < done && Home(t, root, Next(Next(va, 1), k)) == (p, o);
        assert Home(t, root, Next(va, k + 1)) == (p, o);
      } else {
        assert Home(t, root, Next(va, 0)) == (p, o);
      }
    }
    forall k | 0 <= k < done + 1 && LastTo(t, root, va, k, done + 1)
      ensures var (p, o) := Home(t, root, Next(va, k)); InFrames(g, p, o) && g[p][o] == src[k]
    {
      if k > 0 {
        assert LastTo(t, root, Next(va, 1), k - 1, done) by {
          forall j | k - 1 < j < done
              ensures Home(t, root, Next(Next(va, 1), j)) != Home(t, root, Next(Next(va, 1), k - 1)) {
            assert Home(t, root, Next(va, j + 1)) != Home(t, root, Next(va, k));
          }
        }
      } else {
        forall j | 0 <= j < done ensures Home(t, root, Next(Next(va, 1), j)) != (p0, o0) {
          assert Home(t, root, Next(va, j + 1)) != Home(t, root, Next(va, 0));
        }
      }
    }
  }

  lemma BlitOne(f: Frames, p: nat, o: nat, b: Byte)
    requires InFrames(f, p, o)
    ensures var r := Blit(f, p, o, [b]);
      r[p][o] == b && forall q: nat, x: nat :: InFrames(f, q, x) && (q, x) != (p, o) ==> r[q][x] == f[q][x]
  {}

  /** What storing byte by byte comes to. */
  lemma {:induction false} PutMeans(t: Tables, root: nat, f: Frames, va: Word, src: seq<Byte>) returns (done: nat)
    requires TreeOk(t, root) && Backed(t, root, f)
    ensures var w := PutBytes(t, root, f, va, src);
      Leads(t, root, va, |src|, done) && (w.ok <==> done == |src|) && Stored(f, w.frames, t, root, va, src, done)
    decreases |src|
  {
    UserBits(t, root, va);
    hide TreeOk, User, Here, Off, Next, Home, Allowed, Stored, Leads, Blit;
    if src == [] || !User(t, root, va) {
      done := 0;
      StoredNothing(t, root, f, va, src);
    } else {
      var f1 := Blit(f, Here(t, root, va), Off(va), src[..1]);
      Reach(t, root, f, va);
      StillBacked(t, root, f, f1);
      hide Backed;
      var n := PutMeans(t, root, f1, Next(va, 1), src[1..]);
      done := n + 1;
      LeadsStep(t, root, va, |src| - 1, n);
      StoredStep(f, f1, PutBytes(t, root, f1, Next(va, 1), src[1..]).frames, t, root, va, src, n);
    }
  }

  lemma StoredNothing(t: Tables, root: nat, f: Frames, va: Word, src: seq<Byte>)
    requires TreeOk(t, root) && (src == [] || !Allowed(t, root, va))
    ensures Leads(t, root, va, |src|, 0) && Stored(f, f, t, root, va, src, 0)
  {
    NextZero(va);
    hide TreeOk, Home, Next, Allowed;
  }

  lemma StillBacked(t: Tables, root: nat, f: Frames, g: Frames)
    requires TreeOk(t, root) && Backed(t, root, f) && g.Keys == f.Keys && forall p :: p in f ==> |g[p]| == |f[p]|
    ensures Backed(t, root, g)
  {}

  /** The bytes from va on, as far as they are read. */
  ghost predicate Loaded(f: Frames, t: Tables, root: nat, va: Word, data: seq<Byte>)
    requires TreeOk(t, root)
  {
    forall k :: 0 <= k < |data| ==>
      var (p, o) := Home(t, root, Next(va, k)); InFrames(f, p, o) && data[k] == f[p][o]
  }

  lemma LoadedStep(f: Frames, t: Tables, root: nat, va: Word, b: Byte, data: seq<Byte>)
    requires TreeOk(t, root) && Loaded(f, t, root, Next(va, 1), data)
    requires var (p, o) := Home(t, root, va); InFrames(f, p, o) && b == f[p][o]
    ensures Loaded(f, t, root, va, [b] + data)
  {
    hide TreeOk, Home, Next;
    NextZero(va);
    forall k | 0 <= k < |[b] + data|
      ensures var (p, o) := Home(t, root, Next(va, k)); InFrames(f, p, o) && ([b] + data)[k] == f[p][o]
    {
      if k > 0 { NextNext(va, 1, k - 1); }
    }
  }

  lemma {:induction false} GetMeans(t: Tables, root: nat, f: Frames, va: Word, len: nat)
    requires TreeOk(t, root) && Backed(t, root, f)
    ensures var c := GetBytes(t, root, f, va, len);
      Leads(t, root, va, len, |c.data|) && (c.ok <==> |c.data| == len) && Loaded(f, t, root, va, c.data)
    decreases len
  {
    UserBits(t, root, va);
    NextZero(va);
    if len > 0 && User(t, root, va) {
      Reach(t, root, f, va);
      GetMeans(t, root, f, Next(va, 1), len - 1);
      var c := GetBytes(t, root, f, Next(va, 1), len - 1);
      hide TreeOk, Backed, User, Next, Home, Allowed, Loaded, Leads;
      LeadsStep(t, root, va, len - 1, |c.data|);
      LoadedStep(f, t, root, va, f[Here(t, root, va)][Off(va)], c.data);
    }
  }

  /** A string read from va on: its bytes can all be read, only its last one may be zero, and then it is complete;
      otherwise it stops at the limit or before a byte that cannot be read. */
  ghost predicate StringAt(f: Frames, t: Tables, root: nat, va: Word, max: nat, c: Copied)
    requires TreeOk(t, root)
  {
    && |c.data| <= max && Loaded(f, t, root, va, c.data)
    && (forall k :: 0 <= k < |c.data| ==> Allowed(t, root, Next(va, k)) && (k < |c.data| - 1 ==> c.data[k] != 0))
    && (c.ok <==> c.data != [] && c.data[|c.data| - 1] == 0)
    && (!c.ok ==> Leads(t, root, va, max, |c.data|))
  }

  lemma StringStep(f: Frames, t: Tables, root: nat, va: Word, max: nat, b: Byte, c: Copied)
    requires TreeOk(t, root) && Allowed(t, root, va) && b != 0 && StringAt(f, t, root, Next(va, 1), max, c)
    requires var (p, o) := Home(t, root, va); InFrames(f, p, o) && b == f[p][o]
    ensures StringAt(f, t, root, va, max + 1, Prepend([b], c))
  {
    hide TreeOk, Next, Home, Allowed, Loaded, Leads;
    NextZero(va);
    if !c.ok { LeadsStep(t, root, va, max, |c.data|); }
    LoadedStep(f, t, root, va, b, c.data);
    forall k | 0 <= k < |c.data| + 1 ensures Allowed(t, root, Next(va, k)) {
      if k > 0 { NextNext(va, 1, k - 1); }
    }
  }

  lemma {:induction false} StringMeans(t: Tables, root: nat, f: Frames, va: Word, max: nat)
    requires TreeOk(t, root) && Backed(t, root, f)
    ensures StringAt(f, t, root, va, max, GetString(t, root, f, va, max))
    decreases max
  {
    UserBits(t, root, va);
    NextZero(va);
    if max > 0 && User(t, root, va) {
      Reach(t, root, f, va);
      var b := f[Here(t, root, va)][Off(va)];
      if b == 0 {
        LoadedStep(f, t, root, va, b, []);
        assert [b] + [] == [b];
      } else {
        StringMeans(t, root, f, Next(va, 1), max - 1);
        hide TreeOk, Backed, User, Next, Home, Allowed, Loaded, StringAt;
        StringStep(f, t, root, va, max - 1, b, GetString(t, root, f, Next(va, 1), max - 1));
      }
    }
  }

  function Off(va: Word): (o: nat)
    ensures o < PGESIZE
  {
    va % PGESIZE
  }

  /** Addresses go around at 2^32. */
  function Next(va: Word, n: nat): Word {
    (va + n) % SPACE
  }

  /** User pages lie in physical memory. */
  ghost predicate Backed(t: Tables, root: nat, f: Frames)
    requires TreeOk(t, root)
  {
    && (forall p :: p in f ==> |f[p]| == PGESIZE)
    && (forall va: Word :: User(t, root, va) ==> Here(t, root, va) in f)
  }

  datatype Written = Written(frames: Frames, ok: bool)
  datatype Copied = Copied(data: seq<Byte>, ok: bool)

  function Prepend(s: seq<Byte>, c: Copied): Copied {
    Copied(s + c.data, c.ok)
  }

  lemma PrependTwice(a: seq<Byte>, b: seq<Byte>, c: Copied)
    ensures Prepend(a, Prepend(b, c)) == Prepend(a + b, c)
  {
    assert a + (b + c.data) == a + b + c.data;
  }

  function Blit(f: Frames, p: nat, off: nat, s: seq<Byte>): (r: Frames)
    requires p in f && off + |s| <= |f[p]|
    ensures r.Keys == f.Keys && forall q :: q in f ==> |r[q]| == |f[q]|
  {
    f[p := f[p][..off] + s + f[p][off + |s|..]]
  }

  lemma BlitTwice(f: Frames, p: nat, off: nat, a: seq<Byte>, b: seq<Byte>)
    requires p in f && off + |a| + |b| <= |f[p]|
    ensures Blit(Blit(f, p, off, a), p, off + |a|, b) == Blit(f, p, off, a + b)
  {
    var row := Blit(f, p, off, a)[p];
    assert row[..off + |a|] == f[p][..off] + a && row[off + |a| + |b|..] == f[p][off + |a| + |b|..];
    assert f[p][..off] + a + b + f[p][off + |a| + |b|..] == f[p][..off] + (a + b) + f[p][off + |a + b|..];
  }

  /** Stores one byte at a time, translating each address on its own, up to the first that is not a user address. */
  ghost function PutBytes(t: Tables, root: nat, f: Frames, va: Word, src: seq<Byte>): Written
    requires TreeOk(t, root) && Backed(t, root, f)
    decreases |src|
  {
    if src == [] then Written(f, true)
    else if !User(t, root, va) then Written(f, false)
    else PutBytes(t, root, Blit(f, Here(t, root, va), Off(va), src[..1]), Next(va, 1), src[1..])
  }

  lemma PutEnd(t: Tables, root: nat, f: Frames, va: Word, src: seq<Byte>)
    requires TreeOk(t, root) && Backed(t, root, f)
    ensures src == [] ==> PutBytes(t, root, f, va, src) == Written(f, true)
    ensures src != [] && !User(t, root, va) ==> PutBytes(t, root, f, va, src) == Written(f, false)
  {}

  lemma GetEnd(t: Tables, root: nat, f: Frames, va: Word, len: nat, data: seq<Byte>)
    requires TreeOk(t, root) && Backed(t, root, f)
    ensures len == 0 ==> Prepend(data, GetBytes(t, root, f, va, len)) == Copied(data, true)
    ensures len > 0 && !User(t, root, va) ==> Prepend(data, GetBytes(t, root, f, va, len)) == Copied(data, false)
  {
    assert data + [] == data;
  }

  lemma PrependNone(c: Copied)
    ensures Prepend([], c) == c
  {}

  lemma Reach(t: Tables, root: nat, f: Frames, va: Word)
    requires TreeOk(t, root) && Backed(t, root, f) && User(t, root, va)
    ensures Here(t, root, va) in f && |f[Here(t, root, va)]| == PGESIZE
  {}

  /** Loads one byte at a time likewise. */
  ghost function GetBytes(t: Tables, root: nat, f: Frames, va: Word, len: nat): Copied
    requires TreeOk(t, root) && Backed(t, root, f)
    decreases len
  {
    if len == 0 then Copied([], true)
    else if !User(t, root, va) then Copied([], false)
    else Prepend([f[Here(t, root, va)][Off(va)]], GetBytes(t, root, f, Next(va, 1), len - 1))
  }

  /** Loads up to and including a zero byte, which must come within max bytes. */
  ghost function GetString(t: Tables, root: nat, f: Frames, va: Word, max: nat): Copied
    requires TreeOk(t, root) && Backed(t, root, f)
    decreases max
  {
    if max == 0 || !User(t, root, va) then Copied([], false)
    else
      var b := f[Here(t, root, va)][Off(va)];
      if b == 0 then Copied([b], true) else Prepend([b], GetString(t, root, f, Next(va, 1), max - 1))
  }

  lemma GetStringStep(t: Tables, root: nat, f: Frames, va: Word, max: nat, data: seq<Byte>)
    requires TreeOk(t, root) && Backed(t, root, f) && User(t, root, va) && max > 0
    ensures var b := f[Here(t, root, va)][Off(va)];
      Prepend(data, GetString(t, root, f, va, max))
      == if b == 0 then Copied(data + [b], true) else Prepend(data + [b], GetString(t, root, f, Next(va, 1), max - 1))
  {
    hide TreeOk, Here, User, Off, Next;
    PrependTwice(data, [f[Here(t, root, va)][Off(va)]], GetString(t, root, f, Next(va, 1), max - 1));
  }

  lemma SamePage(t: Tables, root: nat, va: Word, base: Word)
    requires TreeOk(t, root) && base == va / PGESIZE * PGESIZE
    ensures User(t, root, base) == User(t, root, va) && Here(t, root, base) == Here(t, root, va)
    ensures base < MAXVA && va - base == Off(va)
  {
    assert base / PGESIZE == va / PGESIZE;
  }

  lemma NextZero(va: Word)
    ensures Next(va, 0) == va
  {}

  lemma NextNext(va: Word, i: nat, j: nat)
    ensures Next(Next(va, i), j) == Next(va, i + j)
  {}

  /** Bytes of one page share its translation. */
  lemma OnPage(t: Tables, root: nat, va: Word, i: nat)
    requires TreeOk(t, root) && Off(va) + i < PGESIZE
    ensures Off(Next(va, i)) == Off(va) + i
    ensures User(t, root, Next(va, i)) == User(t, root, va) && Here(t, root, Next(va, i)) == Here(t, root, va)
  {
    assert va + i < SPACE;
    assert (va + i) / PGESIZE == va / PGESIZE;
  }

  lemma PageEnd(va: Word, n: nat)
    requires n == PGESIZE - Off(va)
    ensures Next(va, n) == (va / PGESIZE * PGESIZE + PGESIZE) % SPACE
  {}

  lemma {:induction false} PutChunk(t: Tables, root: nat, f: Frames, va: Word, src: seq<Byte>, n: nat)
    requires TreeOk(t, root) && Backed(t, root, f) && User(t, root, va) && 0 < n <= |src| && Off(va) + n <= PGESIZE
    ensures Backed(t, root, Blit(f, Here(t, root, va), Off(va), src[..n]))
    ensures PutBytes(t, root, f, va, src) == PutBytes(t, root, Blit(f, Here(t, root, va), Off(va), src[..n]),
            Next(va, n), src[n..])
    decreases n
  {
    hide TreeOk, Here, User, Off, Next, Blit;
    Reach(t, root, f, va);
    if n > 1 {
      var p, off := Here(t, root, va), Off(va);
      OnPage(t, root, va, 1);
      NextNext(va, 1, n - 1);
      PutChunk(t, root, Blit(f, p, off, src[..1]), Next(va, 1), src[1..], n - 1);
      BlitTwice(f, p, off, src[..1], src[1..][..n - 1]);
      assert src[..1] + src[1..][..n - 1] == src[..n] && src[1..][n - 1..] == src[n..];
    }
  }

  lemma {:induction false} GetChunk(t: Tables, root: nat, f: Frames, va: Word, len: nat, n: nat)
    requires TreeOk(t, root) && Backed(t, root, f) && User(t, root, va) && 0 < n <= len && Off(va) + n <= PGESIZE
    ensures GetBytes(t, root, f, va, len)
      == Prepend(f[Here(t, root, va)][Off(va)..Off(va) + n], GetBytes(t, root, f, Next(va, n), len - n))
    decreases n
  {
    hide TreeOk, Here, User, Off, Next;
    if n > 1 {
      var row, off := f[Here(t, root, va)], Off(va);
      OnPage(t, root, va, 1);
      NextNext(va, 1, n - 1);
      GetChunk(t, root, f, Next(va, 1), len - 1, n - 1);
      PrependTwice([row[off]], row[off + 1..off + n], GetBytes(t, root, f, Next(va, n), len - n));
      assert [row[off]] + row[off + 1..off + n] == row[off..off + n];
    }
  }

  /** The page d pages further on, going around at the top. */
  function Up(page: nat, d: nat): (r: nat)
    ensures r < PAGES
  {
    (page + d) % PAGES
  }

  lemma UpNone(page: nat)
    requires page < PAGES
    ensures Up(page, 0) == page
  {}

  /** How far v lies after first, going up and around. */
  function Distance(first: nat, v: nat): (d: nat)
    requires first < PAGES && v < PAGES
    ensures d < PAGES && Up(first, d) == v
  {
    if v >= first then v - first else v + PAGES - first
  }

  /** The number of pages map_pages visits. */
  function Count(va: Word, size: Word): nat
    requires size > 0
  {
    Distance(va / PGESIZE, (va + size - 1) % SPACE / PGESIZE) + 1
  }

  /** The leaf entry of w once done pages are mapped. */
  ghost function Target(t: Tables, root: nat, first: nat, page: nat, done: nat, perm: nat, w: nat): Word
    requires TreeOk(t, root) && first < PAGES && w < PAGES && perm < 1024
  {
    if Distance(first, w) < done then Encode(Up(page, Distance(first, w)), perm) else Leaf(t, root, w)
  }

  /** Exactly the first done pages from first on were unmapped in t, and are mapped in u to consecutive frames. */
  ghost predicate Maps(t: Tables, u: Tables, root: nat, first: nat, page: nat, done: nat, perm: nat)
    requires TreeOk(t, root) && TreeOk(u, root) && first < PAGES && perm < 1024
  {
    forall w :: 0 <= w < PAGES ==>
      && Leaf(u, root, w) == Target(t, root, first, page, done, perm, w)
      && (Distance(first, w) < done ==> !IsValid(Leaf(t, root, w)))
  }

  lemma MapStep(t: Tables, u: Tables, u': Tables, root: nat, first: nat, page: nat, done: nat, perm: nat, v: nat)
    requires TreeOk(t, root) && TreeOk(u, root) && TreeOk(u', root) && first < PAGES && perm < 1024
    requires Maps(t, u, root, first, page, done, perm) && v < PAGES && Distance(first, v) == done &&
             !IsValid(Leaf(u, root, v))
    requires forall w :: 0 <= w < PAGES ==>
             Leaf(u', root, w) == if w == v then Encode(Up(page, done), perm) else Leaf(u, root, w)
    ensures Maps(t, u', root, first, page, done + 1, perm)
  {
    hide TreeOk, Leaf, Encode;
    forall w | 0 <= w < PAGES && w != v ensures Distance(first, w) != done {}
  }

  lemma MapStop(t: Tables, u: Tables, u': Tables, root: nat, first: nat, page: nat, done: nat, perm: nat)
    requires TreeOk(t, root) && TreeOk(u, root) && TreeOk(u', root) && first < PAGES && perm < 1024
    requires Maps(t, u, root, first, page, done, perm)
    requires forall w :: 0 <= w < PAGES ==> Leaf(u', root, w) == Leaf(u, root, w)
    ensures Maps(t, u', root, first, page, done, perm)
  {
    hide TreeOk, Leaf, Encode;
  }

  lemma Unmapped(t: Tables, u: Tables, root: nat, first: nat, page: nat, done: nat, perm: nat, v: nat)
    requires TreeOk(t, root) && TreeOk(u, root) && first < PAGES && perm < 1024
    requires Maps(t, u, root, first, page, done, perm) && v < PAGES && Distance(first, v) == done
    ensures Leaf(u, root, v) == Leaf(t, root, v)
  {}

  lemma FramedTrans(t: Tables, u: Tables, u': Tables, root: nat)
    requires TreeOk(t, root) && TreeOk(u, root) && TreeOk(u', root) && Framed(t, u, root) && Framed(u, u', root)
    ensures Framed(t, u', root)
  {}

  lemma NextPage(first: nat, done: nat, page: nat)
    requires page == Up(first, done)
    ensures Up(page, 1) == Up(first, done + 1)
  {}

  lemma Step(first: nat, last: nat, done: nat, v: nat)
    requires first < PAGES && last < PAGES && done <= Distance(first, last) && v == Up(first, done)
    ensures Distance(first, v) == done && (v == last <==> done == Distance(first, last))
    ensures forall w :: 0 <= w < PAGES && Distance(first, w) == done ==> w == v
    ensures Up(v, 1) == Up(first, done + 1)
  {}

  // ---- which pages a range covers ----

  /** Some byte of the requested range lies on virtual page v. */
  ghost predicate Touched(va: Word, size: Word, v: nat) {
    exists k :: 0 <= k < size && PageAt(va, k) == v
  }

  function PageAt(va: Word, k: nat): nat {
    (va + k) % SPACE / PGESIZE
  }

  lemma PageAtIs(va: Word, k: nat)
    ensures PageAt(va, k) == Up(va / PGESIZE, (va % PGESIZE + k) / PGESIZE)
  {
    var q, r := (va + k) / SPACE, (va + k) % SPACE;
    var a, b := r / PGESIZE, r % PGESIZE;
    assert va + k == PGESIZE * (q * PAGES + a) + b;
    By4096(q * PAGES + a, b);
    var c, o := va / PGESIZE, va % PGESIZE;
    var e, f := (o + k) / PGESIZE, (o + k) % PGESIZE;
    By4096(c + e, f);
    assert q * PAGES + a == c + e;
    ByPages(q, a);
  }

  lemma By4096(q: nat, r: nat)
    requires r < PGESIZE
    ensures (q * PGESIZE + r) / PGESIZE == q && (q * PGESIZE + r) % PGESIZE == r
  {}

  lemma ByPages(q: nat, r: nat)
    requires r < PAGES
    ensures (q * PAGES + r) % PAGES == r
  {}

  lemma DistanceUp(first: nat, d: nat)
    requires first < PAGES && d < PAGES
    ensures Distance(first, Up(first, d)) == d && Up(first, PAGES) == first
  {}

  /** The span, in pages, from the page of va to the page of the range's last byte. */
  function Span(va: Word, size: Word): nat
    requires size > 0
  {
    (va % PGESIZE + size - 1) / PGESIZE
  }

  lemma CountIs(va: Word, size: Word)
    requires size > 0
    ensures va % PGESIZE + size <= SPACE ==> Span(va, size) < PAGES && Count(va, size) == Span(va, size) + 1
    ensures va % PGESIZE + size > SPACE ==> Count(va, size) == 1
  {
    var first, t := va / PGESIZE, Span(va, size);
    PageAtIs(va, size - 1);
    assert Count(va, size) == Distance(first, Up(first, t)) + 1;
    if va % PGESIZE + size <= SPACE {
      assert t < PAGES;
      DistanceUp(first, t);
    } else {
      assert t == PAGES;
      DistanceUp(first, 0);
      UpNone(first);
    }
  }

  lemma TouchedIff(va: Word, size: Word, v: nat)
    requires size > 0 && va % PGESIZE + size <= SPACE && v < PAGES
    ensures Touched(va, size, v) <==> Distance(va / PGESIZE, v) < Count(va, size)
  {
    var first, off := va / PGESIZE, va % PGESIZE;
    CountIs(va, size);
    if Touched(va, size, v) {
      var k :| 0 <= k < size && PageAt(va, k) == v;
      PageAtIs(va, k);
      assert (off + k) / PGESIZE <= Span(va, size);
      DistanceUp(first, (off + k) / PGESIZE);
    }
    var d := Distance(first, v);
    if d <= Span(va, size) {
      ByteOn(va, size, d);
    }
  }

  lemma ByteOn(va: Word, size: Word, d: nat)
    requires size > 0 && d <= Span(va, size)
    ensures Touched(va, size, Up(va / PGESIZE, d))
  {
    var off := va % PGESIZE;
    var k := if d == 0 then 0 else d * PGESIZE - off;
    assert d * PGESIZE <= off + size - 1;
    By4096(d, if d == 0 then off else 0);
    PageAtIs(va, k);
    assert 0 <= k < size && PageAt(va, k) == Up(va / PGESIZE, d);
  }

  /** map_pages visits exactly the pages of the requested range, unless the range runs around the whole address
      space back into the page it started on. */
  lemma RangeExactIff(va: Word, size: Word)
    requires size > 0
    ensures (forall v :: 0 <= v < PAGES ==> (Touched(va, size, v) <==> Distance(va / PGESIZE, v) < Count(va, size)))
      <==> va % PGESIZE + size <= SPACE
  {
    if va % PGESIZE + size <= SPACE {
      forall v | 0 <= v < PAGES ensures Touched(va, size, v) <==> Distance(va / PGESIZE, v) < Count(va, size) {
        TouchedIff(va, size, v);
      }
    } else {
      CountIs(va, size);
      ByteOn(va, size, 1);
      DistanceUp(va / PGESIZE, 1);
      assert !(Touched(va, size, Up(va / PGESIZE, 1)) <==>
          Distance(va / PGESIZE, Up(va / PGESIZE, 1)) < Count(va, size));
    }
  }

  // ---- what was stored is read back ----

  ghost predicate UserRange(t: Tables, root: nat, va: Word, n: nat)
    requires TreeOk(t, root)
  {
    forall k :: 0 <= k < n ==> User(t, root, Next(va, k))
  }

  /** No physical page appears twice in the user's address space. */
  ghost predicate Unshared(t: Tables, root: nat)
    requires TreeOk(t, root)
  {
    forall a: Word, b: Word :: User(t, root, a) && User(t, root, b) && Here(t, root, a) == Here(t, root, b) ==>
        a / PGESIZE == b / PGESIZE
  }

  lemma RangeTail(t: Tables, root: nat, va: Word, n: nat)
    requires TreeOk(t, root) && UserRange(t, root, va, n) && n > 0
    ensures User(t, root, va) && UserRange(t, root, Next(va, 1), n - 1)
    ensures forall k :: 0 <= k < n - 1 ==> Next(Next(va, 1), k) == Next(va, k + 1)
  {
    hide TreeOk, User;
    NextZero(va);
    forall k | 0 <= k < n - 1 ensures Next(Next(va, 1), k) == Next(va, k + 1) && User(t, root, Next(Next(va, 1), k)) {
      NextNext(va, 1, k);
      assert User(t, root, Next(va, k + 1));
    }
  }

  /** Stores elsewhere leave a byte alone. */
  lemma {:induction false} PutKeeps(t: Tables, root: nat, f: Frames, va: Word, src: seq<Byte>, p: nat, o: nat)
    requires TreeOk(t, root) && Backed(t, root, f) && UserRange(t, root, va, |src|) && p in f && o < PGESIZE
    requires forall k :: 0 <= k < |src| ==> Here(t, root, Next(va, k)) != p || Off(Next(va, k)) != o
    ensures var w := PutBytes(t, root, f, va, src);
            w.ok && Backed(t, root, w.frames) && p in w.frames && w.frames[p][o] == f[p][o]
    decreases |src|
  {
    hide TreeOk, Here, User, Off, Next;
    if src != [] {
      RangeTail(t, root, va, |src|);
      Reach(t, root, f, va);
      NextZero(va);
      assert Here(t, root, Next(va, 0)) != p || Off(Next(va, 0)) != o;
      PutKeeps(t, root, Blit(f, Here(t, root, va), Off(va), src[..1]), Next(va, 1), src[1..], p, o);
    }
  }

  lemma Apart(t: Tables, root: nat, va: Word, n: nat)
    requires TreeOk(t, root) && UserRange(t, root, va, n) && Unshared(t, root) && 0 < n <= SPACE
    ensures forall k :: 0 <= k < n - 1 ==>
            Here(t, root, Next(Next(va, 1), k)) != Here(t, root, va) || Off(Next(Next(va, 1), k)) != Off(va)
  {
    RangeTail(t, root, va, n);
    hide TreeOk, Here, User;
    forall k | 0 <= k < n - 1
      ensures Here(t, root, Next(Next(va, 1), k)) != Here(t, root, va) || Off(Next(Next(va, 1), k)) != Off(va)
    {
      var a: Word := Next(Next(va, 1), k);
      assert a == Next(va, k + 1) && User(t, root, a);
      assert a != va;
      if a / PGESIZE == va / PGESIZE { assert a % PGESIZE != va % PGESIZE; }
    }
  }

  lemma PutFirst(t: Tables, root: nat, f: Frames, va: Word, src: seq<Byte>)
    requires TreeOk(t, root) && Backed(t, root, f) && UserRange(t, root, va, |src|) && Unshared(t, root) &&
             0 < |src| <= SPACE
    ensures var w := PutBytes(t, root, f, va, src);
      && w.ok && Backed(t, root, w.frames) &&
           w == PutBytes(t, root, Blit(f, Here(t, root, va), Off(va), src[..1]), Next(va, 1), src[1..])
      && Here(t, root, va) in w.frames && w.frames[Here(t, root, va)][Off(va)] == src[0]
  {
    hide TreeOk, Here, User, Off, Next;
    RangeTail(t, root, va, |src|);
    Reach(t, root, f, va);
    Apart(t, root, va, |src|);
    PutKeeps(t, root, Blit(f, Here(t, root, va), Off(va), src[..1]), Next(va, 1), src[1..], Here(t, root, va), Off(va));
  }

  /** copyto reads back what copyout stored. */
  lemma {:induction false} StoreLoad(t: Tables, root: nat, f: Frames, va: Word, src: seq<Byte>)
    requires TreeOk(t, root) && Backed(t, root, f) && UserRange(t, root, va, |src|) && Unshared(t, root) &&
             |src| <= SPACE
    ensures var w := PutBytes(t, root, f, va, src);
      w.ok && Backed(t, root, w.frames) && GetBytes(t, root, w.frames, va, |src|) == Copied(src, true)
    decreases |src|
  {
    hide TreeOk, Here, User, Off, Next, Unshared;
    if src != [] {
      RangeTail(t, root, va, |src|);
      PutFirst(t, root, f, va, src);
      Reach(t, root, f, va);
      StoreLoad(t, root, Blit(f, Here(t, root, va), Off(va), src[..1]), Next(va, 1), src[1..]);
    }
  }
}
