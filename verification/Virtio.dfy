/** The virtio block driver's descriptor ring in src/kernel/disk.c.

    Each method is one critical section under vdisk_lock, or one step of the device; a run is any sequence of
    calls that starts with the constructor. The ring layout follows sections 2.6.5, 2.6.6 and 2.6.8 of VirtIO v1.1,
    the request layout section 5.2.6. */
module Virtio {
  import opened Common
  import opened Blocks

  const NUM: nat := 8
  const WRAP16: nat := 0x1_0000
  const WRAP32: nat := 0x1_0000_0000

  /** What a descriptor points at. */
  datatype Address = Null | Header(write: bool, sector: nat) | Data(buf: nat) | Status(head: nat)

  datatype Desc = Desc(addr: Address, len: nat, deviceWrites: bool, more: bool, next: nat)

  datatype Info = Info(b: Option<nat>, status: nat)

  datatype Phase = Building | Queued | Taken | Done | Seen

  /** A request in flight: its other two descriptors, its buffer, and how far it has got. */
  datatype Request = Request(i1: nat, i2: nat, buf: nat, sector: nat, write: bool, phase: Phase)

  /** The chain from h spells the request out for the device. */
  ghost predicate ChainOk(desc: seq<Desc>, h: nat, q: Request) {
    && |desc| == NUM && h < NUM && q.i1 < NUM && q.i2 < NUM && h != q.i1 && h != q.i2 && q.i1 != q.i2
    && desc[h] == Desc(Header(q.write, q.sector), 16, false, true, q.i1)
    && desc[q.i1] == Desc(Data(q.buf), BLOCK_SIZE, !q.write, true, q.i2)
    && desc[q.i2] == Desc(Status(h), 1, true, false, 0)
  }

  predicate IsRequest(q: Request, buf: nat, blockno: Word, write: bool, phase: Phase) {
    q.buf == buf && q.write == write && q.sector == blockno * 2 % WRAP32 && q.phase == phase
  }

  /** The two 512-byte sectors of a block: different blocks never share one exactly as long as block numbers stay below
      2^31, where the 32-bit product wraps. */
  lemma SectorsApartIff(limit: nat)
    requires 0 < limit <= WRAP32
    ensures (forall a: nat, b: nat, p: Request, q: Request, buf: nat, w: bool, f: Phase ::
               a < limit && b < limit && a != b && IsRequest(p, buf, a, w, f) && IsRequest(q, buf, b, w, f) ==>
               p.sector + 1 < q.sector || q.sector + 1 < p.sector)
            <==> limit <= 0x8000_0000
  {
    if limit > 0x8000_0000 {
      var p, q := Request(0, 0, 0, 0, false, Building), Request(0, 0, 0, 0, false, Building);
      assert IsRequest(p, 0, 0, false, Building) && IsRequest(q, 0, 0x8000_0000, false, Building);
    }
  }

  predicate InChain(h: nat, q: Request, d: nat) {
    d == h || d == q.i1 || d == q.i2
  }

  /** Free flags and in-flight chains partition the descriptors. */
  ghost predicate Partition(free: seq<bool>, desc: seq<Desc>, owner: seq<Option<nat>>, reqs: map<nat, Request>) {
    && |free| == |desc| == |owner| == NUM
    && (forall d :: 0 <= d < NUM ==> (free[d] <==> owner[d].None?))
    && (forall d :: 0 <= d < NUM && owner[d].Some? ==>
         owner[d].value in reqs && InChain(owner[d].value, reqs[owner[d].value], d))
    && (forall h :: h in reqs ==> ChainOk(desc, h, reqs[h]))
    && (forall h, d :: h in reqs && 0 <= d < NUM && InChain(h, reqs[h], d) ==> owner[d] == Some(h))
  }

  ghost function FreeSet(free: seq<bool>): (r: set<nat>)
    ensures forall d: nat :: d in r <==> d < |free| && free[d]
  {
    set d: nat | d < |free| && free[d]
  }

  ghost predicate Requests(info: seq<Info>, busy: set<nat>, reqs: map<nat, Request>) {
    && |info| == NUM
    && (forall h :: h in reqs ==> h < NUM && info[h].b == Some(reqs[h].buf))
    && (forall h, g :: h in reqs && g in reqs && reqs[h].buf == reqs[g].buf ==> h == g)
    && (forall h :: h in reqs ==> (reqs[h].buf in busy <==> !reqs[h].phase.Seen?))
  }

  /** The list q sits in the ring from position start on. */
  ghost predicate RingHolds(ring: seq<nat>, start: nat, q: seq<nat>) {
    |ring| == NUM && forall k :: 0 <= k < |q| ==> ring[(start + k) % NUM] == q[k]
  }

  /** The list holds exactly the requests in the given phase, once each. */
  ghost predicate Lists(q: seq<nat>, reqs: map<nat, Request>, phase: Phase) {
    Distinct(q) && forall h :: h in q <==> h in reqs && reqs[h].phase == phase
  }

  ghost predicate InDevice(taken: set<nat>, reqs: map<nat, Request>) {
    forall h :: h in taken <==> h in reqs && reqs[h].phase == Taken
  }

  lemma InDeviceGone(taken: set<nat>, reqs: map<nat, Request>, h: nat)
    requires InDevice(taken, reqs) && h in reqs && reqs[h].phase == Seen
    ensures InDevice(taken, reqs - {h})
  {}

  lemma InDeviceDone(taken: set<nat>, reqs: map<nat, Request>, h: nat)
    requires InDevice(taken, reqs) && h in reqs
    ensures InDevice(taken - {h}, reqs[h := reqs[h].(phase := Done)])
  {}

  /** The available ring with the driver's and the device's position, and the used ring likewise. */
  datatype Indices = Ix(avail: seq<nat>, availIdx: nat, devIdx: nat, usedElems: seq<nat>, usedIdx: nat, usedId: nat)

  /** The two rings hold exactly the queued and the completed requests, in order. */
  ghost predicate Rings(x: Indices, queued: seq<nat>, completed: seq<nat>, reqs: map<nat, Request>) {
    && x.availIdx < WRAP16 && x.usedId < WRAP16 && x.usedIdx < NUM && x.devIdx < WRAP16
    && Lists(queued, reqs, Queued) && Lists(completed, reqs, Done)
    && x.availIdx == (x.devIdx + |queued|) % WRAP16
    && RingHolds(x.avail, x.devIdx, queued)
    && x.usedId % NUM == (x.usedIdx + |completed|) % NUM
    && RingHolds(x.usedElems, x.usedIdx, completed)
  }

  class Ring {
    var free: seq<bool>
    var desc: seq<Desc>
    var avail: seq<nat>          // avail[2 ..]
    var availIdx: nat            // avail[1], 16 bits
    var usedElems: seq<nat>      // used->elems[].id
    var usedId: nat              // used->id, 16 bits, written by the device
    var usedIdx: nat             // disk.used_idx
    var info: seq<Info>
    var busy: set<nat>           // buffers whose b->disk is 1
    var devIdx: nat              // the device's position in avail, 16 bits
    var taken: set<nat>          // chains the device has taken and not completed
    var data: map<nat, Block>    // buffer contents
    var store: map<nat, Block>   // the medium, by first sector
    ghost var reqs: map<nat, Request>        // by first descriptor
    ghost var owner: seq<Option<nat>>        // the chain each descriptor belongs to
    ghost var queued: seq<nat>               // heads the device has not taken yet
    ghost var completed: seq<nat>            // heads the interrupt handler has not seen yet

    ghost function Indices(): Indices
      reads this
    {
      Ix(avail, availIdx, devIdx, usedElems, usedIdx, usedId)
    }

    ghost predicate Valid()
      reads this
    {
      Partition(free, desc, owner, reqs) && Requests(info, busy, reqs) && Rings(Indices(), queued, completed, reqs) &&
          InDevice(taken, reqs)
    }

    /** disk_init */
    constructor (store: map<nat, Block>)
      ensures Valid() && reqs == map[] && busy == {} && this.store == store
      ensures forall d :: 0 <= d < NUM ==> free[d]
    {
      free := seq(NUM, i => true);
      desc := seq(NUM, i => Desc(Null, 0, false, false, 0));
      avail, usedElems := seq(NUM, i => 0), seq(NUM, i => 0);
      info := seq(NUM, i => Info(None, 0));
      availIdx, usedId, usedIdx, devIdx, busy, data, taken := 0, 0, 0, 0, {}, map[], {};
      this.store := store;
      reqs, owner, queued, completed := map[], seq(NUM, i => None), [], [];
    }

    /** Claims the lowest free descriptor. */
    method AllocDesc() returns (d: int)
      requires |free| == NUM
      modifies this`free
      ensures -1 <= d < NUM
      ensures d == -1 ==> free == old(free) && forall j :: 0 <= j < NUM ==> !free[j]
      ensures d >= 0 ==> old(free)[d] && free == old(free)[d := false] && forall j :: 0 <= j < d ==> !free[j]
    {
      for i := 0 to NUM
        invariant free == old(free)
        invariant forall j :: 0 <= j < i ==> !free[j]
      {
        if free[i] {
          free := free[i := false];
          return i;
        }
      }
      return -1;
    }

    /** Returns false where the source panics. */
    method FreeDesc(i: nat) returns (ok: bool)
      requires |free| == |desc| == NUM
      modifies this`free, this`desc
      ensures ok <==> i < NUM && !old(free)[i]
      ensures !ok ==> free == old(free) && desc == old(desc)
      ensures ok ==> free == old(free)[i := true] && desc == old(desc)[i := old(desc)[i].(addr := Null)]
    {
      if i >= NUM { return false; }
      if free[i] { return false; }
      desc := desc[i := desc[i].(addr := Null)];
      free := free[i := true];
      return true;
    }

    /** Frees a request's three descriptors, and never panics on one that is in flight. */
    method FreeChain(h: nat, ghost q: Request) returns (ok: bool)
      requires |free| == NUM && ChainOk(desc, h, q) && !free[h] && !free[q.i1] && !free[q.i2]
      modifies this`free, this`desc
      ensures ok && free == old(free)[h := true][q.i1 := true][q.i2 := true]
      ensures |desc| == NUM && forall d :: 0 <= d < NUM && !InChain(h, q, d) ==> desc[d] == old(desc)[d]
    {
      var i := h;
      ghost var step := 0;
      ghost var f, e := free, desc;
      while true
        invariant 0 <= step <= 2 && i == [h, q.i1, q.i2][step]
        invariant |desc| == NUM && |free| == NUM
        invariant free == (if step == 0 then f else if step == 1 then f[h := true] else f[h := true][q.i1 := true])
        invariant forall d :: 0 <= d < NUM && !InChain(h, q, d) ==> desc[d] == e[d]
        invariant step <= 2 ==> desc[q.i2] == e[q.i2]
        invariant step <= 1 ==> desc[q.i1] == e[q.i1]
        invariant step == 0 ==> desc[h] == e[h]
        decreases 2 - step
      {
        ok := FreeDesc(i);
        if !ok { return; }
        if desc[i].more {
          i, step := desc[i].next, step + 1;
        } else {
          return;
        }
      }
    }

    /** Gives back the descriptors a failed allocation had claimed. */
    method Rollback(idx: seq<nat>, ghost f: seq<bool>)
      requires |free| == |desc| == |f| == NUM && Distinct(idx)
      requires forall d :: 0 <= d < NUM ==> free[d] == (f[d] && d !in idx)
      requires forall k :: 0 <= k < |idx| ==> idx[k] < NUM && f[idx[k]]
      modifies this`free, this`desc
      ensures free == f && |desc| == NUM
      ensures forall d :: 0 <= d < NUM && !f[d] ==> desc[d] == old(desc)[d]
    {
      for j := 0 to |idx|
        invariant |free| == |desc| == NUM
        invariant forall d :: 0 <= d < NUM ==> free[d] == (f[d] && d !in idx[j..])
        invariant forall d :: 0 <= d < NUM && !f[d] ==> desc[d] == old(desc)[d]
      {
        assert idx[j..] == [idx[j]] + idx[j + 1..];
        assert idx[j] !in idx[j + 1..];
        var freed := FreeDesc(idx[j]);
        assert freed;
      }
    }

    /** All or nothing: three distinct free descriptors, or the flags it found. */
    method Alloc3Desc() returns (ok: bool, idx: seq<nat>)
      requires |free| == |desc| == NUM
      modifies this`free, this`desc
      ensures ok <==> |FreeSet(old(free))| >= 3
      ensures ok ==> |idx| == 3 && Distinct(idx) && desc == old(desc) && |free| == NUM
      ensures ok ==> forall k :: 0 <= k < 3 ==> idx[k] < NUM && old(free)[idx[k]]
      ensures ok ==> forall d :: 0 <= d < NUM ==> free[d] == (old(free)[d] && d !in idx)
      ensures !ok ==> free == old(free) && |desc| == NUM
      ensures !ok ==> forall d :: 0 <= d < NUM && !free[d] ==> desc[d] == old(desc)[d]
    {
      ok, idx := true, [];
      ghost var f := free;
      for i := 0 to 3
        invariant |idx| == i && |free| == NUM && desc == old(desc) && ok && Distinct(idx)
        invariant forall k :: 0 <= k < i ==> idx[k] < NUM && f[idx[k]]
        invariant forall d :: 0 <= d < NUM ==> free[d] == (f[d] && d !in idx)
      {
        var d := AllocDesc();
        if d < 0 {
          FewFree(f, idx);
          Rollback(idx, f);
          ok := false;
          return;
        }
        idx := idx + [d];
      }
      EnoughFree(f, idx);
    }

    /** disk_read_write up to the wait for completion; -1 where the source sleeps for descriptors. The caller
        holds the buffer's lock, so the buffer is in no other request. */
    method Submit(buf: nat, blockno: Word, write: bool) returns (head: int)
      requires Valid() && forall h :: h in reqs ==> reqs[h].buf != buf
      modifies this`free, this`desc, this`owner, this`info, this`busy, this`avail, this`availIdx, this`reqs, this`queued
      ensures Valid() && (head >= 0 <==> |old(reqs)| < 2) && head < NUM == |info|
      ensures head < 0 ==> reqs == old(reqs) && busy == old(busy) && queued == old(queued) && info == old(info)
      ensures head >= 0 ==> head !in old(reqs) && head in reqs && reqs == old(reqs)[head := reqs[head]]
      ensures head >= 0 ==> IsRequest(reqs[head], buf, blockno, write, Queued)
      ensures head >= 0 ==>
              queued == old(queued) + [head] && busy == old(busy) + {buf} &&
              info == old(info)[head := Info(Some(buf), 0)]
    {
      hide Partition, Requests, Rings, ChainOk, At, FreeSet, Below;
      head := Prepare(buf, blockno, write);
      if head >= 0 { Publish(head); }
    }

    /** Everything before the chain is made available: the device reads none of it yet, and may take other steps before
        Publish. */
    method Prepare(buf: nat, blockno: Word, write: bool) returns (head: int)
      requires Valid() && forall h :: h in reqs ==> reqs[h].buf != buf
      modifies this`free, this`desc, this`owner, this`info, this`busy, this`reqs
      ensures Valid() && (head >= 0 <==> |old(reqs)| < 2) && head < NUM == |info|
      ensures head < 0 ==> reqs == old(reqs) && busy == old(busy) && info == old(info)
      ensures head >= 0 ==> head !in old(reqs) && head in reqs && reqs == old(reqs)[head := reqs[head]]
      ensures head >= 0 ==> IsRequest(reqs[head], buf, blockno, write, Building)
      ensures head >= 0 ==> busy == old(busy) + {buf} && info == old(info)[head := Info(Some(buf), 0)]
    {
      hide Partition, Requests, Rings, ChainOk, At, FreeSet, Below;
      Sizes();
      var ok, h;
      ghost var q;
      ok, h, q := Claim(buf, blockno * 2 % WRAP32, write);
      if !ok { return -1; }
      RequestsAdd(info, busy, reqs, h, q);
      RingsAdd(Indices(), queued, completed, reqs, h, q);
      reqs := reqs[h := q];
      busy := busy + {buf};
      info := info[h := Info(Some(buf), 0)];
      return h;
    }

    /** The entry in the available ring, and then its index. */
    method Publish(h: nat)
      requires Valid() && h in reqs && reqs[h].phase == Building
      modifies this`avail, this`availIdx, this`reqs, this`queued
      ensures Valid() && queued == old(queued) + [h] && reqs == old(reqs)[h := old(reqs)[h].(phase := Queued)]
    {
      hide Partition, Requests, Rings, ChainOk, At;
      Sizes();
      ShortLists(free, desc, owner, Indices(), queued, completed, reqs);
      PartitionPhase(free, desc, owner, reqs, h, Queued);
      RequestsPhase(info, busy, reqs, h, Queued);
      RingsPublish(Indices(), queued, completed, reqs, h);
      reqs := reqs[h := reqs[h].(phase := Queued)];
      queued := queued + [h];
      avail, availIdx := avail[availIdx % NUM := h], (availIdx + 1) % WRAP16;
    }

    /** Allocates and formats the chain of a request. */
    method Claim(buf: nat, sector: nat, write: bool) returns (ok: bool, h: nat, ghost q: Request)
      requires Partition(free, desc, owner, reqs)
      modifies this`free, this`desc, this`owner
      ensures ok <==> |reqs| < 2
      ensures !ok ==> Partition(free, desc, owner, reqs)
      ensures ok ==> Partition(free, desc, owner, reqs[h := q]) && h !in reqs && h < NUM
      ensures ok ==> q.buf == buf && q.sector == sector && q.write == write && q.phase == Building
    {
      EightDescriptors(free, desc, owner, reqs);
      assert |free| == |desc| == |owner| == NUM;
      hide Partition, ChainOk, FreeSet, InChain;
      ghost var f, d0, o := free, desc, owner;
      var idx;
      ok, idx := Alloc3Desc();
      h, q := 0, Request(0, 0, 0, 0, false, Building);
      if !ok {
        PartitionFrame(f, d0, o, reqs, desc);
        return;
      }
      h := idx[0];
      q := Attach(idx, buf, sector, write, f);
    }

    /** Turns three claimed descriptors into the chain of a request. */
    method Attach(idx: seq<nat>, buf: nat, sector: nat, write: bool, ghost f: seq<bool>) returns (ghost q: Request)
      requires Partition(f, desc, owner, reqs) && |free| == NUM && |idx| == 3 && Distinct(idx)
      requires forall k :: 0 <= k < 3 ==> idx[k] < NUM && f[idx[k]]
      requires forall d :: 0 <= d < NUM ==> free[d] == (f[d] && d !in idx)
      modifies this`desc, this`owner
      ensures Partition(free, desc, owner, reqs[idx[0] := q]) && idx[0] !in reqs
      ensures q == Request(idx[1], idx[2], buf, sector, write, Building)
    {
      assert |owner| == |desc| == |f| == NUM;
      hide Partition, ChainOk, InChain;
      ghost var d0, o := desc, owner;
      q := Format(idx, buf, sector, write);
      owner := Own(o, idx, idx[0]);
      ChainOfIdx(idx, q);
      PartitionAdd(f, d0, o, reqs, free, desc, owner, idx[0], q);
    }

    /** Writes the three descriptors. */
    method Format(idx: seq<nat>, buf: nat, sector: nat, write: bool) returns (ghost q: Request)
      requires |desc| == NUM && |idx| == 3 && Distinct(idx) && forall k :: 0 <= k < 3 ==> idx[k] < NUM
      modifies this`desc
      ensures q == Request(idx[1], idx[2], buf, sector, write, Building)
      ensures ChainOk(desc, idx[0], q) && |desc| == NUM && forall i: nat :: i < NUM && i !in idx ==>
              desc[i] == old(desc)[i]
    {
      var h, i1, i2 := idx[0], idx[1], idx[2];
      desc := desc[h := Desc(Header(write, sector), 16, false, true, i1)];
      desc := desc[i1 := Desc(Data(buf), BLOCK_SIZE, !write, true, i2)];
      desc := desc[i2 := Desc(Status(h), 1, true, false, 0)];
      q := Request(i1, i2, buf, sector, write, Building);
    }

    lemma Sizes()
      requires Valid()
      ensures |free| == |desc| == |owner| == |info| == |avail| == |usedElems| == NUM && usedIdx < NUM
    {}

    /** A chain in flight reads back as the request that was submitted. */
    lemma Decoded(h: nat)
      requires Valid() && h in reqs
      ensures var q := reqs[h];
        && h < NUM && q.i1 < NUM && q.i2 < NUM && |desc| == NUM
        && desc[h].next == q.i1 && desc[q.i1].next == q.i2 && desc[q.i1].deviceWrites == !q.write
        && desc[h].addr == Header(q.write, q.sector) && desc[q.i1].addr == Data(q.buf) && desc[q.i2].addr == Status(h)
    {
      assert ChainOk(desc, h, reqs[h]);
    }

    /** The device takes the next available chain; the index comparison tells it exactly when there is one. */
    method DeviceTake() returns (head: int)
      requires Valid()
      modifies this`devIdx, this`reqs, this`queued, this`taken
      ensures Valid() && (head < 0 <==> old(queued) == [])
      ensures head < 0 ==> reqs == old(reqs) && queued == old(queued)
      ensures head >= 0 ==> queued == old(queued)[1..] && head == old(queued)[0] && head in old(reqs)
      ensures head >= 0 ==> reqs == old(reqs)[head := old(reqs)[head].(phase := Taken)]
    {
      hide Partition, Requests, Rings, ChainOk, At;
      Sizes();
      RingsTake(free, desc, owner, Indices(), queued, completed, reqs);
      if devIdx == availIdx { return -1; }
      head := avail[devIdx % NUM];
      RequestsPhase(info, busy, reqs, head, Taken);
      PartitionPhase(free, desc, owner, reqs, head, Taken);
      reqs := reqs[head := reqs[head].(phase := Taken)];
      queued := queued[1..];
      devIdx := (devIdx + 1) % WRAP16;
      taken := taken + {head};
    }

    /** The device carries out a chain it has taken, reading nothing but the descriptors, and reports it used. */
    method DeviceComplete(h: nat, status: nat)
      requires Valid() && h in reqs && reqs[h].phase == Taken
      modifies this`info, this`usedElems, this`usedId, this`data, this`store, this`reqs, this`completed, this`taken
      ensures Valid() && completed == old(completed) + [h]
      ensures reqs == old(reqs)[h := old(reqs)[h].(phase := Done)]
      ensures info == old(info)[h := old(info)[h].(status := status)]
      ensures var q := old(reqs)[h]; data == if q.write then old(data) else old(data)[q.buf := At(old(store), q.sector)]
      ensures var q := old(reqs)[h];
              store == if q.write then old(store)[q.sector := At(old(data), q.buf)] else old(store)
    {
      hide Partition, Requests, Rings, ChainOk, At;
      Sizes();
      Decoded(h);
      var i1 := desc[h].next;
      var i2 := desc[i1].next;
      var k := desc[i2].addr.head;
      Transfer(desc[h].addr.write, desc[h].addr.sector, desc[i1].addr.buf, desc[i1].deviceWrites);
      WriteStatus(k, status);
      Report(h);
    }

    /** The device writes the status byte. */
    method WriteStatus(k: nat, status: nat)
      requires Valid() && k < NUM
      modifies this`info
      ensures Valid() && info == old(info)[k := old(info)[k].(status := status)]
    {
      hide Partition, Rings, ChainOk, InDevice;
      RequestsStatus(info, busy, reqs, k, status);
      info := info[k := info[k].(status := status)];
    }

    /** The device puts the chain on the used ring. */
    method Report(h: nat)
      requires Valid() && h in reqs && reqs[h].phase == Taken
      modifies this`usedElems, this`usedId, this`reqs, this`completed, this`taken
      ensures Valid() && completed == old(completed) + [h]
      ensures reqs == old(reqs)[h := old(reqs)[h].(phase := Done)]
    {
      hide Partition, Requests, Rings, InDevice;
      ReportKeeps(free, desc, owner, info, busy, Indices(), queued, completed, reqs, taken, h);
      ghost var r := reqs[h := reqs[h].(phase := Done)];
      usedElems := usedElems[usedId % NUM := h];
      usedId := (usedId + 1) % WRAP16;
      taken := taken - {h};
      reqs := r;
      completed := completed + [h];
    }

    /** The device moves the block in the direction the request header asks for; to write memory it needs a descriptor
        that lets it. */
    method Transfer(write: bool, sector: nat, buf: nat, deviceWrites: bool)
      requires deviceWrites == !write
      modifies this`data, this`store
      ensures data == if write then old(data) else old(data)[buf := At(old(store), sector)]
      ensures store == if write then old(store)[sector := At(old(data), buf)] else old(store)
    {
      if write {
        store := store[sector := At(data, buf)];
      } else {
        data := data[buf := At(store, sector)];
      }
    }

    /** What a virtio block device demands of a chain: a 16-byte header it reads, 1024 bytes of data it may write
        exactly for a read request, and one status byte it writes, linked in this order. */
    lemma DeviceAccepts(h: nat)
      requires Valid() && h in reqs
      ensures h < 8 == |desc| && desc[h].addr.Header? && desc[h].len == 16 && !desc[h].deviceWrites && desc[h].more
      ensures var d := desc[h].next;
        && d < 8 && desc[d].addr.Data? && desc[d].len == 1024 && desc[d].more
        && (desc[d].deviceWrites <==> !desc[h].addr.write)
        && var s := desc[d].next;
        && s < 8 && desc[s].addr == Status(h) && desc[s].len == 1 && desc[s].deviceWrites && !desc[s].more
        && h != d && h != s && d != s
    {
      assert ChainOk(desc, h, reqs[h]);
    }

    /** One turn of the handler's loop: takes the oldest unseen completion. */
    method See() returns (id: nat, good: bool, b: nat)
      requires Valid() && usedIdx % NUM != usedId % NUM
      modifies this`busy, this`usedIdx, this`reqs, this`completed
      ensures id in old(reqs) && old(reqs)[id].phase == Done && (good <==> StatusOf(info, id) == 0)
      ensures forall g :: g in old(reqs) && old(reqs)[g].buf == old(reqs)[id].buf ==> g == id
      ensures old(completed) != [] && id == old(completed)[0]
      ensures good ==> Valid() && reqs == old(reqs)[id := old(reqs)[id].(phase := Seen)]
      ensures good ==> busy == old(busy) - {old(reqs)[id].buf} && completed == old(completed)[1..]
      ensures good ==> b == old(reqs)[id].buf
      ensures !good ==> reqs == old(reqs)
    {
      hide Partition, Requests, Rings, ChainOk, At;
      Sizes();
      RingsSeen(free, desc, owner, Indices(), queued, completed, reqs);
      id := usedElems[usedIdx];
      RequestsSeen(info, busy, reqs, id);
      if info[id].status != 0 { return id, false, 0; }
      b := info[id].b.value;
      PartitionPhase(free, desc, owner, reqs, id, Seen);
      reqs := reqs[id := reqs[id].(phase := Seen)];
      completed := completed[1..];
      busy := busy - {b};
      usedIdx := (usedIdx + 1) % NUM;
      good := true;
    }

    /** virtio_disk_intr. The device goes on meanwhile: before each test of the loop it may complete the next chain of
        the plan. Every completion, old or new, is seen once and releases exactly the buffer submitted with it. False
        where the source panics on a bad status. */
    method Interrupt(plan: seq<(nat, nat)>) returns (ok: bool, woken: set<nat>)
      requires Valid()
      modifies this`busy, this`usedIdx, this`reqs, this`completed, this`info, this`usedElems, this`usedId, this`data,
               this`store, this`taken
      ensures ok ==> Valid() && completed == [] && Drained(old(reqs), reqs) &&
                     busy == old(busy) - NewlySeen(old(reqs), reqs)
      ensures ok ==> woken == NewlySeen(old(reqs), reqs)
      ensures ok ==> forall h :: h in reqs ==>
                     reqs[h].phase != Done && (reqs[h] != old(reqs)[h] ==> StatusOf(info, h) == 0)
      ensures !ok ==> exists h :: h in reqs && reqs[h].phase == Done && StatusOf(info, h) != 0
    {
      hide Partition, Requests, Rings, ChainOk, At;
      ghost var r0, b0 := reqs, busy;
      var i := 0;
      NothingSeen(r0, b0, info);
      woken := {};
      if |plan| > 0 {
        Meanwhile(plan[0].0, plan[0].1, r0, b0);
        i := 1;
      }
      while usedIdx % NUM != usedId % NUM
        invariant Draining(r0, b0) && i <= |plan| && woken == NewlySeen(r0, reqs)
        decreases |plan| - i, |completed|
      {
        var b;
        ok, b := Turn(r0, b0);
        if !ok { return; }
        woken := woken + {b};
        if i < |plan| {
          Meanwhile(plan[i].0, plan[i].1, r0, b0);
          i := i + 1;
        }
      }
      NothingDone(free, desc, owner, Indices(), queued, completed, reqs);
      return true, woken;
    }

    /** How far the handler has got since it found requests r0 and busy buffers b0. */
    ghost predicate Draining(r0: map<nat, Request>, b0: set<nat>)
      reads this
    {
      Valid() && Drained(r0, reqs) && busy == b0 - NewlySeen(r0, reqs) && SeenGood(r0, reqs, info)
    }

    method Turn(ghost r0: map<nat, Request>, ghost b0: set<nat>) returns (ok: bool, b: nat)
      requires Draining(r0, b0) && usedIdx % NUM != usedId % NUM
      modifies this`busy, this`usedIdx, this`reqs, this`completed
      ensures ok ==> Draining(r0, b0) && |completed| < |old(completed)|
      ensures ok ==> NewlySeen(r0, reqs) == NewlySeen(r0, old(reqs)) + {b}
      ensures !ok ==> exists h :: h in reqs && reqs[h].phase == Done && StatusOf(info, h) != 0
    {
      hide Partition, Requests, Rings, ChainOk, InDevice, Drained, NewlySeen, SeenGood;
      ghost var r := reqs;
      var id;
      id, ok, b := See();
      if ok {
        DrainStep(r0, r, reqs, id, b0, info);
      } else {
        assert id in reqs && reqs[id].phase == Done && StatusOf(info, id) != 0;
      }
    }

    method Meanwhile(h: nat, status: nat, ghost r0: map<nat, Request>, ghost b0: set<nat>)
      requires Draining(r0, b0)
      modifies this`info, this`usedElems, this`usedId, this`data, this`store, this`reqs, this`completed, this`taken
      ensures Draining(r0, b0) && NewlySeen(r0, reqs) == NewlySeen(r0, old(reqs))
    {
      hide Partition, Requests, Rings, ChainOk, InDevice, Drained, NewlySeen, SeenGood, Completes;
      ghost var r, f := reqs, info;
      DeviceMay(h, status);
      DeviceKept(r0, r, reqs, f, info, h);
    }

    /** The device completes a chain if it has taken it. */
    method DeviceMay(h: nat, status: nat)
      requires Valid()
      modifies this`info, this`usedElems, this`usedId, this`data, this`store, this`reqs, this`completed, this`taken
      ensures Valid() && Completes(old(reqs), reqs, old(info), info, h)
    {
      hide Partition, Requests, Rings, ChainOk, At;
      Sizes();
      if h in taken {
        OneBuffer(info, busy, reqs, h);
        DeviceComplete(h, status);
      }
    }

    /** The tail of disk_read_write, run whenever the submitter wakes: not done while it must sleep again. */
    method Finish(h: nat, buf: nat) returns (done: bool, ok: bool)
      requires Valid() && h in reqs && reqs[h].buf == buf
      modifies this`info, this`free, this`desc, this`owner, this`reqs
      ensures Valid() && ok
      ensures done <==> old(reqs)[h].phase == Seen
      ensures !done ==> reqs == old(reqs)
      ensures done ==> reqs == old(reqs) - {h} && h < NUM == |old(info)| &&
                       info == old(info)[h := old(info)[h].(b := None)]
      ensures done ==> forall d: nat :: d < NUM ==> (free[d] <==> old(free)[d] || InChain(h, old(reqs)[h], d))
    {
      hide Partition, Requests, Rings, ChainOk, At, InDevice;
      Sizes();
      OneBuffer(info, busy, reqs, h);
      if buf in busy { return false, true; }
      ChainFacts(free, desc, owner, reqs, h);
      ghost var q := reqs[h];
      FinishKeeps(info, busy, Indices(), queued, completed, reqs, taken, h);
      info := info[h := info[h].(b := None)];
      ok := Dispose(h, q);
      reqs := reqs - {h};
      done := true;
    }

    /** free_chain on a request's chain. */
    method Dispose(h: nat, ghost q: Request) returns (ok: bool)
      requires Partition(free, desc, owner, reqs) && h in reqs && q == reqs[h]
      modifies this`free, this`desc, this`owner
      ensures ok && Partition(free, desc, owner, reqs - {h})
      ensures |old(free)| == |free| == NUM && forall d: nat :: d < NUM ==>
              (free[d] <==> old(free)[d] || InChain(h, q, d))
    {
      assert |owner| == NUM;
      ChainFacts(free, desc, owner, reqs, h);
      hide Partition, ChainOk;
      ghost var f, d0, o := free, desc, owner;
      ok := FreeChain(h, q);
      owner := owner[h := None][q.i1 := None][q.i2 := None];
      PartitionRemove(f, d0, o, reqs, free, desc, owner, h);
    }
  }

  ghost function Pick(s: set<nat>): (x: nat)
    requires |s| > 0
    ensures x in s
  {
    var x :| x in s; x
  }

  lemma ThreeCard(a: nat, b: nat, c: nat)
    requires a != b && a != c && b != c
    ensures |{a, b, c}| == 3
  {
    assert {a, b, c} == {a, b} + {c} && |{a, b}| == 2;
  }

  lemma FewFree(f: seq<bool>, idx: seq<nat>)
    requires |idx| <= 2 && forall d: nat :: d < |f| && f[d] ==> d in idx
    ensures |FreeSet(f)| <= 2
  {
    var s := if |idx| == 0 then {} else if |idx| == 1 then {idx[0]} else {idx[0], idx[1]};
    SubsetCard(FreeSet(f), s);
  }

  lemma EnoughFree(f: seq<bool>, idx: seq<nat>)
    requires |idx| == 3 && Distinct(idx) && forall k :: 0 <= k < 3 ==> idx[k] < |f| && f[idx[k]]
    ensures |FreeSet(f)| >= 3
  {
    ThreeCard(idx[0], idx[1], idx[2]);
    SubsetCard({idx[0], idx[1], idx[2]}, FreeSet(f));
  }

  ghost function Own(owner: seq<Option<nat>>, idx: seq<nat>, h: nat): (r: seq<Option<nat>>)
    ensures |r| == |owner| && forall i: nat :: i < |owner| ==> r[i] == if i in idx then Some(h) else owner[i]
  {
    seq(|owner|, i requires 0 <= i < |owner| => if i in idx then Some(h) else owner[i])
  }

  lemma ChainOfIdx(idx: seq<nat>, q: Request)
    requires |idx| == 3 && q.i1 == idx[1] && q.i2 == idx[2]
    ensures forall i: nat :: InChain(idx[0], q, i) <==> i in idx
  {}

  /** The descriptors that belong to the chains headed in s. */
  ghost function OwnedBy(owner: seq<Option<nat>>, s: set<nat>): (r: set<nat>)
    ensures forall d: nat :: d in r <==> d < |owner| && owner[d].Some? && owner[d].value in s
  {
    set d: nat | d < |owner| && owner[d].Some? && owner[d].value in s
  }

  lemma ChainOwned(free: seq<bool>, desc: seq<Desc>, owner: seq<Option<nat>>, reqs: map<nat, Request>, h: nat)
    requires Partition(free, desc, owner, reqs) && h in reqs
    ensures |OwnedBy(owner, {h})| == 3
  {
    hide Partition;
    ChainFacts(free, desc, owner, reqs, h);
    ThreeCard(h, reqs[h].i1, reqs[h].i2);
    assert OwnedBy(owner, {h}) == {h, reqs[h].i1, reqs[h].i2};
  }

  lemma ChainFacts(free: seq<bool>, desc: seq<Desc>, owner: seq<Option<nat>>, reqs: map<nat, Request>, h: nat)
    requires Partition(free, desc, owner, reqs) && h in reqs
    ensures var q := reqs[h]; h < NUM && q.i1 < NUM && q.i2 < NUM && h != q.i1 && h != q.i2 && q.i1 != q.i2
    ensures ChainOk(desc, h, reqs[h]) && |free| == |owner| == NUM && !free[h] && !free[reqs[h].i1] && !free[reqs[h].i2]
    ensures forall d: nat :: d < NUM ==> (owner[d] == Some(h) <==> InChain(h, reqs[h], d))
  {
    assert ChainOk(desc, h, reqs[h]);
  }

  /** Three descriptors to a request. */
  lemma {:induction false} ThreePerRequest(free: seq<bool>, desc: seq<Desc>, owner: seq<Option<nat>>,
                                           reqs: map<nat, Request>, s: set<nat>)
    requires Partition(free, desc, owner, reqs) && s <= reqs.Keys
    ensures |OwnedBy(owner, s)| == 3 * |s|
  {
    hide Partition;
    if |s| > 0 {
      var h := Pick(s);
      ThreePerRequest(free, desc, owner, reqs, s - {h});
      ChainOwned(free, desc, owner, reqs, h);
      assert OwnedBy(owner, s) == OwnedBy(owner, s - {h}) + OwnedBy(owner, {h});
      assert OwnedBy(owner, s - {h}) !! OwnedBy(owner, {h});
    }
  }

  lemma FreeOrOwned(free: seq<bool>, desc: seq<Desc>, owner: seq<Option<nat>>, reqs: map<nat, Request>)
    requires Partition(free, desc, owner, reqs)
    ensures FreeSet(free) + OwnedBy(owner, reqs.Keys) == Below(NUM) && FreeSet(free) !! OwnedBy(owner, reqs.Keys)
  {
    OwnersLive(free, desc, owner, reqs);
    TwoHalves(free, owner, reqs.Keys);
  }

  lemma TwoHalves(free: seq<bool>, owner: seq<Option<nat>>, keys: set<nat>)
    requires |free| == |owner| == NUM
    requires forall d: nat :: d < NUM ==> (free[d] <==> owner[d].None?) && (owner[d].Some? ==> owner[d].value in keys)
    ensures FreeSet(free) + OwnedBy(owner, keys) == Below(NUM) && FreeSet(free) !! OwnedBy(owner, keys)
  {
    hide Below, FreeSet, OwnedBy;
  }

  lemma OwnersLive(free: seq<bool>, desc: seq<Desc>, owner: seq<Option<nat>>, reqs: map<nat, Request>)
    requires Partition(free, desc, owner, reqs)
    ensures |free| == |owner| == NUM && forall d: nat :: d < NUM ==>
            (free[d] <==> owner[d].None?) && (owner[d].Some? ==> owner[d].value in reqs.Keys)
  {}

  /** Free descriptors and three per request in flight make up all eight, so at most two requests are in flight. */
  lemma EightDescriptors(free: seq<bool>, desc: seq<Desc>, owner: seq<Option<nat>>, reqs: map<nat, Request>)
    requires Partition(free, desc, owner, reqs)
    ensures |FreeSet(free)| + 3 * |reqs| == NUM
    ensures |reqs| <= 2
  {
    hide Partition;
    ThreePerRequest(free, desc, owner, reqs, reqs.Keys);
    FreeOrOwned(free, desc, owner, reqs);
    var a, b := FreeSet(free), OwnedBy(owner, reqs.Keys);
    assert |a + b| == |a| + |b|;
    assert |reqs.Keys| == |reqs|;
  }

  /** A list of distinct elements of a set is no longer than the set. */
  lemma {:induction false} KeysCard(q: seq<nat>, s: set<nat>)
    requires Distinct(q) && forall x :: x in q ==> x in s
    ensures |q| <= |s|
    decreases |q|
  {
    if q != [] {
      var x, r := q[|q| - 1], q[..|q| - 1];
      assert forall y :: y in r ==> y in q;
      KeysCard(r, s - {x});
    }
  }

  function At(m: map<nat, Block>, k: nat): Block {
    if k in m then m[k] else ZeroBlock()
  }

  ghost function Buffers(reqs: map<nat, Request>, phase: Phase): set<nat> {
    set h | h in reqs && reqs[h].phase == phase :: reqs[h].buf
  }

  lemma PartitionFrame(f: seq<bool>, d: seq<Desc>, o: seq<Option<nat>>, r: map<nat, Request>, e: seq<Desc>)
    requires Partition(f, d, o, r) && |e| == NUM && forall i :: 0 <= i < NUM && !f[i] ==> e[i] == d[i]
    ensures Partition(f, e, o, r)
  {
    forall h | h in r ensures ChainOk(e, h, r[h]) {
      assert ChainOk(d, h, r[h]);
      ChainFacts(f, d, o, r, h);
    }
  }

  lemma ChainKept(f: seq<bool>, d: seq<Desc>, o: seq<Option<nat>>, r: map<nat, Request>, d': seq<Desc>,
                  o': seq<Option<nat>>, g: nat)
    requires Partition(f, d, o, r) && g in r && |o'| == |d'| == NUM
    requires forall i: nat :: i < NUM && o[i] == Some(g) ==> o'[i] == o[i] && d'[i] == d[i]
    ensures ChainOk(d', g, r[g]) && forall i: nat :: i < NUM && InChain(g, r[g], i) ==> o'[i] == Some(g)
  {
    ChainFacts(f, d, o, r, g);
  }

  lemma Fresh(f: seq<bool>, d: seq<Desc>, o: seq<Option<nat>>, r: map<nat, Request>, h: nat)
    requires Partition(f, d, o, r) && h < NUM && f[h]
    ensures h !in r && o[h] == None
  {
    if h in r { ChainFacts(f, d, o, r, h); assert false; }
  }

  lemma PartitionAdd(f: seq<bool>, d: seq<Desc>, o: seq<Option<nat>>, r: map<nat, Request>,
                     f': seq<bool>, d': seq<Desc>, o': seq<Option<nat>>, h: nat, q: Request)
    requires Partition(f, d, o, r) && ChainOk(d', h, q) && |f'| == |o'| == NUM
    requires forall i: nat :: i < NUM && InChain(h, q, i) ==> f[i] && !f'[i] && o'[i] == Some(h)
    requires forall i: nat :: i < NUM && !InChain(h, q, i) ==> f'[i] == f[i] && o'[i] == o[i] && d'[i] == d[i]
    ensures Partition(f', d', o', r[h := q]) && h !in r
  {
    assert InChain(h, q, h);
    Fresh(f, d, o, r, h);
    hide Partition, ChainOk, OwnersOk, ChainsOk;
    AddedOwners(f, d, o, r, f', o', h, q);
    AddedChains(f, d, o, r, f', d', o', h, q);
    PartitionOf(f', d', o', r[h := q]);
  }

  lemma AddedOwners(f: seq<bool>, d: seq<Desc>, o: seq<Option<nat>>, r: map<nat, Request>,
                    f': seq<bool>, o': seq<Option<nat>>, h: nat, q: Request)
    requires Partition(f, d, o, r) && h !in r && |f'| == |o'| == NUM
    requires forall i: nat :: i < NUM && InChain(h, q, i) ==> f[i] && !f'[i] && o'[i] == Some(h)
    requires forall i: nat :: i < NUM && !InChain(h, q, i) ==> f'[i] == f[i] && o'[i] == o[i]
    ensures OwnersOk(f', o', r[h := q])
  {
    forall i | 0 <= i < NUM
      ensures (f'[i] <==> o'[i].None?) &&
              (o'[i].Some? ==> o'[i].value in r[h := q] && InChain(o'[i].value, r[h := q][o'[i].value], i))
    {
      assert InChain(h, q, i) || (f'[i] == f[i] && o'[i] == o[i]);
    }
  }

  lemma AddedChain(f: seq<bool>, d: seq<Desc>, o: seq<Option<nat>>, r: map<nat, Request>,
                   f': seq<bool>, d': seq<Desc>, o': seq<Option<nat>>, h: nat, q: Request, g: nat)
    requires Partition(f, d, o, r) && g in r && |f'| == |o'| == |d'| == NUM
    requires forall i: nat :: i < NUM && InChain(h, q, i) ==> f[i]
    requires forall i: nat :: i < NUM && !InChain(h, q, i) ==> f'[i] == f[i] && o'[i] == o[i] && d'[i] == d[i]
    ensures ChainOk(d', g, r[g]) && forall i: nat :: i < NUM && InChain(g, r[g], i) ==> o'[i] == Some(g)
  {
    forall i: nat | i < NUM && o[i] == Some(g) ensures !InChain(h, q, i) {
      if f[i] { Fresh(f, d, o, r, i); }
    }
    hide Partition, ChainOk;
    ChainKept(f, d, o, r, d', o', g);
  }

  lemma AddedChains(f: seq<bool>, d: seq<Desc>, o: seq<Option<nat>>, r: map<nat, Request>,
                    f': seq<bool>, d': seq<Desc>, o': seq<Option<nat>>, h: nat, q: Request)
    requires Partition(f, d, o, r) && h !in r && |f'| == |o'| == |d'| == NUM && ChainOk(d', h, q)
    requires forall i: nat :: i < NUM && InChain(h, q, i) ==> f[i] && o'[i] == Some(h)
    requires forall i: nat :: i < NUM && !InChain(h, q, i) ==> f'[i] == f[i] && o'[i] == o[i] && d'[i] == d[i]
    ensures ChainsOk(d', o', r[h := q])
  {
    hide Partition, ChainOk;
    forall g | g in r
      ensures ChainOk(d', g, r[g]) && forall i: nat :: i < NUM && InChain(g, r[g], i) ==> o'[i] == Some(g)
    {
      AddedChain(f, d, o, r, f', d', o', h, q, g);
    }
  }

  /** Each descriptor is free, or owned by a request whose chain it is in. */
  ghost predicate OwnersOk(f: seq<bool>, o: seq<Option<nat>>, r: map<nat, Request>) {
    && |f| == |o| == NUM
    && forall i :: 0 <= i < NUM ==>
         (f[i] <==> o[i].None?) && (o[i].Some? ==> o[i].value in r && InChain(o[i].value, r[o[i].value], i))
  }

  ghost predicate ChainsOk(d: seq<Desc>, o: seq<Option<nat>>, r: map<nat, Request>) {
    && |d| == |o| == NUM
    && forall g :: g in r ==> ChainOk(d, g, r[g]) && forall i: nat :: i < NUM && InChain(g, r[g], i) ==> o[i] == Some(g)
  }

  lemma PartitionOf(f: seq<bool>, d: seq<Desc>, o: seq<Option<nat>>, r: map<nat, Request>)
    requires OwnersOk(f, o, r) && ChainsOk(d, o, r)
    ensures Partition(f, d, o, r)
  {}

  lemma PartitionPhase(f: seq<bool>, d: seq<Desc>, o: seq<Option<nat>>, r: map<nat, Request>, h: nat, phase: Phase)
    requires Partition(f, d, o, r) && h in r
    ensures Partition(f, d, o, r[h := r[h].(phase := phase)])
  {
    var r' := r[h := r[h].(phase := phase)];
    forall g | g in r' ensures ChainOk(d, g, r'[g]) {
      assert ChainOk(d, g, r[g]);
    }
    assert forall g, i :: g in r && InChain(g, r'[g], i) <==> g in r && InChain(g, r[g], i);
  }

  lemma PartitionRemove(f: seq<bool>, d: seq<Desc>, o: seq<Option<nat>>, r: map<nat, Request>,
                        f': seq<bool>, d': seq<Desc>, o': seq<Option<nat>>, h: nat)
    requires Partition(f, d, o, r) && h in r && |f'| == |o'| == |d'| == NUM
    requires forall i: nat :: i < NUM && InChain(h, r[h], i) ==> f'[i] && o'[i] == None
    requires forall i: nat :: i < NUM && !InChain(h, r[h], i) ==> f'[i] == f[i] && o'[i] == o[i] && d'[i] == d[i]
    ensures Partition(f', d', o', r - {h})
  {
    ChainFacts(f, d, o, r, h);
    forall g | g in r && g != h
        ensures ChainOk(d', g, r[g]) && forall i :: 0 <= i < NUM && InChain(g, r[g], i) ==> o'[i] == Some(g) {
      assert ChainOk(d, g, r[g]);
      ChainFacts(f, d, o, r, g);
    }
  }

  lemma RequestsAdd(info: seq<Info>, busy: set<nat>, r: map<nat, Request>, h: nat, q: Request)
    requires Requests(info, busy, r) && h !in r && h < NUM && forall g :: g in r ==> r[g].buf != q.buf
    requires q.phase == Building
    ensures Requests(info[h := Info(Some(q.buf), 0)], busy + {q.buf}, r[h := q])
  {}

  lemma RequestsPhase(info: seq<Info>, busy: set<nat>, r: map<nat, Request>, h: nat, phase: Phase)
    requires Requests(info, busy, r) && h in r && (phase.Seen? <==> r[h].phase.Seen?)
    ensures Requests(info, busy, r[h := r[h].(phase := phase)])
  {}

  lemma RequestsStatus(info: seq<Info>, busy: set<nat>, r: map<nat, Request>, h: nat, status: nat)
    requires Requests(info, busy, r) && h < NUM
    ensures Requests(info[h := info[h].(status := status)], busy, r)
  {}

  lemma RequestsSeen(info: seq<Info>, busy: set<nat>, r: map<nat, Request>, h: nat)
    requires Requests(info, busy, r) && h in r
    ensures Requests(info, busy - {r[h].buf}, r[h := r[h].(phase := Seen)])
    ensures h < NUM && info[h].b == Some(r[h].buf) && forall g :: g in r && r[g].buf == r[h].buf ==> g == h
  {}

  lemma RequestsRemove(info: seq<Info>, busy: set<nat>, r: map<nat, Request>, h: nat)
    requires Requests(info, busy, r) && h in r
    ensures Requests(info[h := info[h].(b := None)], busy, r - {h})
  {}

  lemma RingPush(ring: seq<nat>, start: nat, q: seq<nat>, x: nat)
    requires RingHolds(ring, start, q) && |q| < NUM
    ensures RingHolds(ring[(start + |q|) % NUM := x], start, q + [x])
  {}

  lemma RingPop(ring: seq<nat>, start: nat, q: seq<nat>)
    requires RingHolds(ring, start, q) && q != []
    ensures ring[start % NUM] == q[0] && RingHolds(ring, start + 1, q[1..])
  {
    assert ring[(start + 0) % NUM] == q[0];
    forall k | 0 <= k < |q| - 1 ensures ring[(start + 1 + k) % NUM] == q[1..][k] {
      assert ring[(start + (k + 1)) % NUM] == q[k + 1];
    }
  }

  /** Ring positions only matter modulo the ring size. */
  lemma RingWrap(ring: seq<nat>, a: nat, b: nat, q: seq<nat>)
    requires RingHolds(ring, a, q) && a % NUM == b % NUM
    ensures RingHolds(ring, b, q)
  {
    forall k | 0 <= k < |q| ensures ring[(b + k) % NUM] == q[k] {
      PlaceFrom(a, k);
      PlaceFrom(b, k);
    }
  }

  lemma PlaceFrom(a: nat, k: nat)
    ensures (a + k) % NUM == (a % NUM + k) % NUM
  {
    var q, r := a / NUM, a % NUM;
    assert a + k == NUM * q + (r + k);
  }

  lemma ListsAdd(queued: seq<nat>, completed: seq<nat>, r: map<nat, Request>, h: nat, q: Request)
    requires Lists(queued, r, Queued) && Lists(completed, r, Done) && h !in r && q.phase == Building
    ensures Lists(queued, r[h := q], Queued) && Lists(completed, r[h := q], Done)
  {}

  lemma ListsPublish(queued: seq<nat>, completed: seq<nat>, r: map<nat, Request>, h: nat)
    requires Lists(queued, r, Queued) && Lists(completed, r, Done) && h in r && r[h].phase == Building
    ensures var r' := r[h := r[h].(phase := Queued)]; Lists(queued + [h], r', Queued) && Lists(completed, r', Done)
  {}

  /** A request moves on: off the front of one list, or onto the end of the other. */
  lemma ListsMove(queued: seq<nat>, completed: seq<nat>, r: map<nat, Request>, h: nat, phase: Phase)
    requires Lists(queued, r, Queued) && Lists(completed, r, Done) && h in r && phase != Queued
    requires r[h].phase == Queued ==> phase == Taken && queued != [] && h == queued[0]
    requires r[h].phase == Done ==> phase == Seen && completed != [] && h == completed[0]
    ensures var r' := r[h := r[h].(phase := phase)];
      && Lists(if r[h].phase == Queued then queued[1..] else queued, r', Queued)
      && Lists(if phase == Done then completed + [h] else if r[h].phase == Done then completed[1..] else completed, r',
           Done)
  {
    assert queued != [] ==> queued == [queued[0]] + queued[1..];
    assert completed != [] ==> completed == [completed[0]] + completed[1..];
  }

  lemma ListsRemove(queued: seq<nat>, completed: seq<nat>, r: map<nat, Request>, h: nat)
    requires Lists(queued, r, Queued) && Lists(completed, r, Done) && h in r && r[h].phase == Seen
    ensures Lists(queued, r - {h}, Queued) && Lists(completed, r - {h}, Done)
  {}

  function StatusOf(info: seq<Info>, h: nat): nat {
    if h < |info| then info[h].status else 0
  }

  /** Requests only moved on from the device to being seen. */
  ghost predicate Drained(r0: map<nat, Request>, r: map<nat, Request>) {
    && r.Keys == r0.Keys
    && forall h :: h in r ==>
      || r[h] == r0[h]
      || (r0[h].phase == Taken && r[h] == r0[h].(phase := Done))
      || ((r0[h].phase == Taken || r0[h].phase == Done) && r[h] == r0[h].(phase := Seen))
  }

  /** The buffers of the requests seen since r0. */
  ghost function NewlySeen(r0: map<nat, Request>, r: map<nat, Request>): set<nat> {
    set h | h in r && h in r0 && r[h].phase == Seen && r0[h].phase != Seen :: r[h].buf
  }

  ghost predicate SeenGood(r0: map<nat, Request>, r: map<nat, Request>, info: seq<Info>) {
    forall h :: h in r && h in r0 && r[h].phase == Seen && r0[h].phase != Seen ==> StatusOf(info, h) == 0
  }

  /** At most chain h was completed, and then it was the device's. */
  ghost predicate Completes(r: map<nat, Request>, r': map<nat, Request>, info: seq<Info>, info': seq<Info>, h: nat) {
    && |info'| == |info|
    && if h in r && r[h].phase == Taken
       then h < |info| && r' == r[h := r[h].(phase := Done)] && exists st :: info' == info[h := info[h].(status := st)]
       else r' == r && info' == info
  }

  lemma NothingSeen(r0: map<nat, Request>, b0: set<nat>, info: seq<Info>)
    ensures Drained(r0, r0) && b0 == b0 - NewlySeen(r0, r0) && SeenGood(r0, r0, info)
  {}

  lemma DrainStep(r0: map<nat, Request>, r: map<nat, Request>, r': map<nat, Request>, h: nat, b0: set<nat>,
                  info: seq<Info>)
    requires Drained(r0, r) && SeenGood(r0, r, info) && h in r && r[h].phase == Done &&
             r' == r[h := r[h].(phase := Seen)] && StatusOf(info, h) == 0
    ensures Drained(r0, r') && SeenGood(r0, r', info)
    ensures b0 - NewlySeen(r0, r) - {r[h].buf} == b0 - NewlySeen(r0, r')
    ensures NewlySeen(r0, r') == NewlySeen(r0, r) + {r[h].buf}
  {
    forall b ensures b in NewlySeen(r0, r') <==> b in NewlySeen(r0, r) || b == r[h].buf {
      if b in NewlySeen(r0, r) {
        var g :| g in r && g in r0 && r[g].phase == Seen && r0[g].phase != Seen && r[g].buf == b;
        assert r'[g] == r[g];
      }
      assert r'[h].phase == Seen && r0[h].phase != Seen;
    }
  }

  lemma DeviceKept(r0: map<nat, Request>, r: map<nat, Request>, r': map<nat, Request>, info: seq<Info>,
                   info': seq<Info>, h: nat)
    requires Drained(r0, r) && SeenGood(r0, r, info) && Completes(r, r', info, info', h)
    ensures Drained(r0, r') && SeenGood(r0, r', info') && NewlySeen(r0, r') == NewlySeen(r0, r)
  {
    forall g | g in r && g in r0 ensures r'[g].phase == Seen <==> r[g].phase == Seen {}
    forall b ensures b in NewlySeen(r0, r') <==> b in NewlySeen(r0, r) {
      if b in NewlySeen(r0, r) {
        var g :| g in r && g in r0 && r[g].phase == Seen && r0[g].phase != Seen && r[g].buf == b;
        assert r'[g] == r[g];
      }
    }
  }

  lemma ShortLists(f: seq<bool>, d: seq<Desc>, o: seq<Option<nat>>, x: Indices, queued: seq<nat>, completed: seq<nat>,
                   r: map<nat, Request>)
    requires Partition(f, d, o, r) && Rings(x, queued, completed, r)
    ensures |queued| <= 2 && |completed| <= 2
  {
    hide Partition;
    EightDescriptors(f, d, o, r);
    KeysCard(queued, r.Keys);
    KeysCard(completed, r.Keys);
  }

  lemma RingsAdd(x: Indices, queued: seq<nat>, completed: seq<nat>, r: map<nat, Request>, h: nat, q: Request)
    requires Rings(x, queued, completed, r) && h !in r && q.phase == Building
    ensures Rings(x, queued, completed, r[h := q])
  {
    ListsAdd(queued, completed, r, h, q);
  }

  lemma RingsPublish(x: Indices, queued: seq<nat>, completed: seq<nat>, r: map<nat, Request>, h: nat)
    requires |queued| <= 2 && Rings(x, queued, completed, r) && h in r && r[h].phase == Building
    ensures |x.avail| == NUM
    ensures Rings(x.(avail := x.avail[x.availIdx % NUM := h], availIdx := (x.availIdx + 1) % WRAP16), queued + [h],
            completed,
                  r[h := r[h].(phase := Queued)])
  {
    hide RingHolds, Lists;
    RingSize(x.avail, x.devIdx, queued);
    PushIndex(x.devIdx, x.availIdx, |queued|);
    RingPush(x.avail, x.devIdx, queued, h);
    ListsPublish(queued, completed, r, h);
  }

  lemma RingsTake(f: seq<bool>, d: seq<Desc>, o: seq<Option<nat>>, x: Indices, queued: seq<nat>, completed: seq<nat>,
                  r: map<nat, Request>)
    requires Partition(f, d, o, r) && Rings(x, queued, completed, r)
    ensures |x.avail| == NUM && (x.devIdx == x.availIdx <==> queued == [])
    ensures queued != [] ==> queued[0] in r && r[queued[0]].phase == Queued && x.avail[x.devIdx % NUM] == queued[0]
    ensures queued != [] ==> var h := queued[0];
      Rings(x.(devIdx := (x.devIdx + 1) % WRAP16), queued[1..], completed, r[h := r[h].(phase := Taken)])
  {
    hide RingHolds, Lists, Partition;
    ShortLists(f, d, o, x, queued, completed, r);
    RingSize(x.avail, x.devIdx, queued);
    PopIndex(x.devIdx, x.availIdx, |queued|);
    if queued != [] {
      RingPop(x.avail, x.devIdx, queued);
      RingWrap(x.avail, x.devIdx + 1, (x.devIdx + 1) % WRAP16, queued[1..]);
      Listed(queued, r, Queued);
      ListsMove(queued, completed, r, queued[0], Taken);
    }
  }

  lemma RingsComplete(f: seq<bool>, d: seq<Desc>, o: seq<Option<nat>>, x: Indices, queued: seq<nat>,
                      completed: seq<nat>, r: map<nat, Request>, h: nat)
    requires Partition(f, d, o, r) && Rings(x, queued, completed, r) && h in r && r[h].phase == Taken
    ensures |x.usedElems| == NUM
    ensures Rings(x.(usedElems := x.usedElems[x.usedId % NUM := h], usedId := (x.usedId + 1) % WRAP16), queued,
            completed + [h],
                  r[h := r[h].(phase := Done)])
  {
    hide RingHolds, Lists, Partition;
    ShortLists(f, d, o, x, queued, completed, r);
    RingSize(x.usedElems, x.usedIdx, completed);
    UsedIndex(x.usedIdx, x.usedId, |completed|);
    RingPush(x.usedElems, x.usedIdx, completed, h);
    ListsMove(queued, completed, r, h, Done);
  }

  lemma FinishKeeps(info: seq<Info>, busy: set<nat>, x: Indices, queued: seq<nat>, completed: seq<nat>,
                    r: map<nat, Request>,
                    taken: set<nat>, h: nat)
    requires Requests(info, busy, r) && Rings(x, queued, completed, r) && InDevice(taken, r) && h in r &&
             r[h].phase == Seen
    ensures h < NUM == |info| && Requests(info[h := info[h].(b := None)], busy, r - {h})
    ensures Rings(x, queued, completed, r - {h}) && InDevice(taken, r - {h})
  {
    RequestsRemove(info, busy, r, h);
    RingsRemove(x, queued, completed, r, h);
    InDeviceGone(taken, r, h);
  }

  lemma ReportKeeps(f: seq<bool>, d: seq<Desc>, o: seq<Option<nat>>, info: seq<Info>, busy: set<nat>, x: Indices,
                    queued: seq<nat>, completed: seq<nat>, r: map<nat, Request>, taken: set<nat>, h: nat)
    requires Partition(f, d, o, r) && Requests(info, busy, r) && Rings(x, queued, completed, r) && InDevice(taken, r)
    requires h in r && r[h].phase == Taken
    ensures |x.usedElems| == NUM
    ensures var r' := r[h := r[h].(phase := Done)];
      && Partition(f, d, o, r') && Requests(info, busy, r') && InDevice(taken - {h}, r')
      && Rings(x.(usedElems := x.usedElems[x.usedId % NUM := h], usedId := (x.usedId + 1) % WRAP16), queued,
           completed + [h], r')
  {
    InDeviceDone(taken, r, h);
    hide Partition, Requests, Rings, InDevice;
    RequestsPhase(info, busy, r, h, Done);
    PartitionPhase(f, d, o, r, h, Done);
    RingsComplete(f, d, o, x, queued, completed, r, h);
  }

  /** Index arithmetic modulo eight loses no completion. */
  lemma RingsSeen(f: seq<bool>, d: seq<Desc>, o: seq<Option<nat>>, x: Indices, queued: seq<nat>, completed: seq<nat>,
                  r: map<nat, Request>)
    requires Partition(f, d, o, r) && Rings(x, queued, completed, r) && x.usedIdx % NUM != x.usedId % NUM
    ensures completed != [] && |x.usedElems| == NUM && x.usedIdx < NUM
    ensures var h := completed[0];
      && h in r && r[h].phase == Done && x.usedElems[x.usedIdx] == h
      && Rings(x.(usedIdx := (x.usedIdx + 1) % NUM), queued, completed[1..], r[h := r[h].(phase := Seen)])
  {
    hide RingHolds, Lists, Partition;
    ShortLists(f, d, o, x, queued, completed, r);
    RingSize(x.usedElems, x.usedIdx, completed);
    assert completed != [];
    SeenIndex(x.usedIdx, x.usedId, |completed|);
    RingPop(x.usedElems, x.usedIdx, completed);
    RingWrap(x.usedElems, x.usedIdx + 1, (x.usedIdx + 1) % NUM, completed[1..]);
    Listed(completed, r, Done);
    ListsMove(queued, completed, r, completed[0], Seen);
  }

  lemma RingsRemove(x: Indices, queued: seq<nat>, completed: seq<nat>, r: map<nat, Request>, h: nat)
    requires Rings(x, queued, completed, r) && h in r && r[h].phase == Seen
    ensures Rings(x, queued, completed, r - {h})
  {
    ListsRemove(queued, completed, r, h);
  }

  lemma NothingDone(f: seq<bool>, d: seq<Desc>, o: seq<Option<nat>>, x: Indices, queued: seq<nat>, completed: seq<nat>,
                    r: map<nat, Request>)
    requires Partition(f, d, o, r) && Rings(x, queued, completed, r) && x.usedIdx % NUM == x.usedId % NUM
    ensures completed == [] && Buffers(r, Done) == {} && forall h :: h in r ==> r[h].phase != Done
  {
    ShortLists(f, d, o, x, queued, completed, r);
    UsedEmpty(x.usedIdx, x.usedId, |completed|);
    forall h | h in r ensures r[h].phase != Done {
      assert h !in completed;
    }
  }

  lemma RingSize(ring: seq<nat>, start: nat, q: seq<nat>)
    requires RingHolds(ring, start, q)
    ensures |ring| == NUM
  {}

  lemma UsedEmpty(seen: nat, used: nat, n: nat)
    requires used % NUM == (seen + n) % NUM && n <= 2 && seen % NUM == used % NUM
    ensures n == 0
  {}

  lemma Listed(q: seq<nat>, r: map<nat, Request>, phase: Phase)
    requires Lists(q, r, phase) && q != []
    ensures q[0] in r && r[q[0]].phase == phase
  {
    assert q[0] in q;
  }

  lemma OneBuffer(info: seq<Info>, busy: set<nat>, r: map<nat, Request>, h: nat)
    requires Requests(info, busy, r) && h in r
    ensures forall g :: g in r && r[g].buf == r[h].buf ==> g == h
    ensures h < NUM && (r[h].buf in busy <==> r[h].phase != Seen)
  {}

  /** Sixteen-bit indices are told apart as long as fewer than 2^16 requests are queued. */
  lemma PopIndex(dev: nat, avail: nat, n: nat)
    requires dev < WRAP16 && avail == (dev + n) % WRAP16 && n <= 2
    ensures dev == avail <==> n == 0
    ensures (dev + 1) % WRAP16 % NUM == (dev + 1) % NUM
    ensures n > 0 ==> avail == ((dev + 1) % WRAP16 + (n - 1)) % WRAP16
  {}

  lemma PushIndex(dev: nat, avail: nat, n: nat)
    requires dev < WRAP16 && avail == (dev + n) % WRAP16 && n <= 2
    ensures avail % NUM == (dev + n) % NUM && (avail + 1) % WRAP16 == (dev + n + 1) % WRAP16
  {}

  lemma UsedIndex(seen: nat, used: nat, n: nat)
    requires used % NUM == (seen + n) % NUM && used < WRAP16
    ensures (used + 1) % WRAP16 % NUM == (seen + n + 1) % NUM
  {}

  lemma SeenIndex(seen: nat, used: nat, n: nat)
    requires used % NUM == (seen + n) % NUM && 0 < n
    ensures used % NUM == ((seen + 1) % NUM + (n - 1)) % NUM
  {}
}
