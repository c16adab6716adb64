/** The buffer cache in src/kernel/bufcache.c, with the pins taken by the log in src/kernel/filesys.c.

    Each method is one critical section, or one step a process makes while it holds a buffer's sleep lock; a run is
    any interleaving of calls. The list is kept in the source's prev and next fields; list_head is index NUMBUF. */
module BufferCache {
  import opened Common
  import opened Blocks

  const NUMBUF: nat := 30
  const HEAD: nat := NUMBUF

  datatype Key = Key(dev: nat, block: nat)
  const ZERO: Key := Key(0, 0)

  function At(m: map<Key, Block>, k: Key): Block {
    if k in m then m[k] else ZeroBlock()
  }

  // ---- the circular list ----

  ghost function Pos(s: seq<nat>, x: nat): (k: nat)
    requires x in s
    ensures k < |s| && s[k] == x
  {
    var k :| 0 <= k < |s| && s[k] == x; k
  }

  function After(k: nat, n: nat): nat {
    if k + 1 < n then k + 1 else 0
  }

  ghost predicate LinkAt(next: seq<nat>, prev: seq<nat>, ring: seq<nat>, k: nat)
    requires k < |ring|
  {
    && ring[k] < |next| && ring[After(k, |ring|)] < |prev|
    && next[ring[k]] == ring[After(k, |ring|)] && prev[ring[After(k, |ring|)]] == ring[k]
  }

  /** Following next from list_head visits ring and comes back; following prev visits it backwards. */
  ghost predicate Linked(next: seq<nat>, prev: seq<nat>, ring: seq<nat>) {
    && |next| == |prev| == NUMBUF + 1
    && |ring| > 0 && ring[0] == HEAD && Distinct(ring)
    && forall k :: 0 <= k < |ring| ==> LinkAt(next, prev, ring, k)
  }

  /** `x->next->prev = x->prev; x->prev->next = x->next` */
  lemma Unlinked(next: seq<nat>, prev: seq<nat>, ring: seq<nat>, k: nat)
    requires Linked(next, prev, ring) && 0 < k < |ring|
    ensures ring[k] <= HEAD && next[ring[k]] <= HEAD && prev[ring[k]] <= HEAD
    ensures Linked(next[prev[ring[k]] := next[ring[k]]], prev[next[ring[k]] := prev[ring[k]]],
            ring[..k] + ring[k + 1..])
  {
    var n := |ring|;
    var r := ring[..k] + ring[k + 1..];
    assert LinkAt(next, prev, ring, k - 1) && LinkAt(next, prev, ring, k) && LinkAt(next, prev, ring, After(k, n));
    var next', prev' := next[ring[k - 1] := ring[After(k, n)]], prev[ring[After(k, n)] := ring[k - 1]];
    assert After(k - 1, n) == k;
    forall i | 0 <= i < |r| ensures LinkAt(next', prev', r, i) {
      assert LinkAt(next, prev, ring, if i < k then i else i + 1);
    }
  }

  /** `x->next = head.next; x->prev = &head; head.next->prev = x; head.next = x` */
  lemma Inserted(next: seq<nat>, prev: seq<nat>, ring: seq<nat>, x: nat)
    requires Linked(next, prev, ring) && x < NUMBUF && x !in ring
    ensures next[HEAD] <= HEAD
    ensures Linked(next[x := next[HEAD]][HEAD := x], prev[x := HEAD][next[HEAD] := x], [HEAD, x] + ring[1..])
  {
    var r := [HEAD, x] + ring[1..];
    assert LinkAt(next, prev, ring, 0);
    var next', prev' := next[x := next[HEAD]][HEAD := x], prev[x := HEAD][next[HEAD] := x];
    forall i | 0 <= i < |r| ensures LinkAt(next', prev', r, i) {
      if i >= 1 { assert LinkAt(next, prev, ring, i - 1); }
    }
  }

  // ---- use order ----

  /** Every buffer is on the list once, most recently used first. */
  ghost predicate Ordered(ring: seq<nat>, stamp: seq<nat>, clock: nat) {
    && |ring| == NUMBUF + 1 && |stamp| == NUMBUF
    && (forall k :: 0 < k < |ring| ==> ring[k] < NUMBUF)
    && (forall i: nat :: i < NUMBUF ==> i in ring)
    && (forall i: nat :: i < NUMBUF ==> stamp[i] < clock)
    && (forall k, l :: 0 < k < l < |ring| ==> stamp[ring[k]] > stamp[ring[l]])
  }

  // ---- references ----

  ghost predicate Counted(refcount: seq<nat>, users: seq<set<nat>>, pinned: seq<bool>, lock: seq<Option<nat>>) {
    && |refcount| == |users| == |pinned| == |lock| == NUMBUF
    && (forall i :: 0 <= i < NUMBUF ==> refcount[i] == |users[i]| + (if pinned[i] then 1 else 0))
    && (forall i :: 0 <= i < NUMBUF && lock[i].Some? ==> lock[i].value in users[i])
  }

  /** Every buffer is referred to. */
  ghost predicate InUse(refcount: seq<nat>) {
    |refcount| == NUMBUF && forall i :: 0 <= i < NUMBUF ==> refcount[i] > 0
  }

  /** Nobody refers to b, and no such buffer was released longer ago. */
  ghost predicate LeastRecent(refcount: seq<nat>, stamp: seq<nat>, b: nat) {
    && |refcount| == |stamp| == NUMBUF && b < NUMBUF && refcount[b] == 0
    && forall i :: 0 <= i < NUMBUF && refcount[i] == 0 ==> stamp[b] <= stamp[i]
  }

  ghost predicate OnePerKey(key: seq<Key>) {
    |key| == NUMBUF && forall i, j :: 0 <= i < j < NUMBUF && key[i] == key[j] ==> key[i] == ZERO
  }

  /** The pinned buffers are exactly those of the logged blocks not yet installed. */
  ghost predicate Logs(key: seq<Key>, pinned: seq<bool>, log: seq<Key>, home: nat) {
    && |key| == |pinned| == NUMBUF && home <= |log| <= LOGSIZE && ZERO !in log
    && (forall i, j :: 0 <= i < j < |log| ==> log[i] != log[j])
    && (forall i :: 0 <= i < NUMBUF ==> (pinned[i] <==> key[i] in log[home..]))
    && (forall k :: k in log[home..] ==> k in key)
  }

  // ---- contents ----

  /** Buffer i caches block k. */
  ghost predicate Caches(key: seq<Key>, valid: seq<bool>, k: Key, i: int) {
    0 <= i < |key| == |valid| && valid[i] && key[i] == k
  }

  /** The contents of block k as a process that reads it finds them. */
  ghost function View(key: seq<Key>, valid: seq<bool>, data: seq<Block>, disk: map<Key, Block>, k: Key): Block
    requires |key| == |valid| == |data|
  {
    if exists i :: Caches(key, valid, k, i) then (var i :| Caches(key, valid, k, i); data[i]) else At(disk, k)
  }

  type Views = imap<Key, Block>

  /** The contents of every block. The key all buffers start with is left out: no block is read by it. */
  ghost function AllViews(key: seq<Key>, valid: seq<bool>, data: seq<Block>, disk: map<Key, Block>): (v: Views)
    requires |key| == |valid| == |data|
    ensures forall k :: k in v <==> k != ZERO
  {
    imap k: Key | k != ZERO :: View(key, valid, data, disk, k)
  }

  /** The same, but for one block. */
  ghost function Change(v: Views, k: Key, d: Block): Views {
    if k == ZERO then v else v[k := d]
  }

  /** What is seen after the buffers of two blocks, or of ZERO for none, were recycled. */
  ghost function Recycled(v: Views, disk: map<Key, Block>, gone: Key, too: Key): Views {
    Change(Change(v, gone, At(disk, gone)), too, At(disk, too))
  }

  lemma NothingGone(v: Views, disk: map<Key, Block>)
    ensures Recycled(v, disk, ZERO, ZERO) == v && Change(v, ZERO, At(disk, ZERO)) == v
  {}

  lemma ChangeAt(v: Views, k: Key, d: Block)
    requires k != ZERO
    ensures k in Change(v, k, d) && Change(v, k, d)[k] == d
  {}

  lemma ChangeTwice(v: Views, k: Key, d: Block)
    ensures Change(Change(v, k, d), k, d) == Change(v, k, d)
  {}

  lemma ViewCached(key: seq<Key>, valid: seq<bool>, data: seq<Block>, disk: map<Key, Block>, b: nat)
    requires |key| == |valid| == |data| && OnePerKey(key) && b < NUMBUF && valid[b] && key[b] != ZERO
    ensures View(key, valid, data, disk, key[b]) == data[b]
  {
    assert Caches(key, valid, key[b], b);
  }

  /** Two caches show a block alike if they cache it alike. */
  lemma ViewFrame(key: seq<Key>, valid: seq<bool>, data: seq<Block>, disk: map<Key, Block>,
                  key': seq<Key>, valid': seq<bool>, data': seq<Block>, disk': map<Key, Block>, k: Key)
    requires |key| == |valid| == |data| && |key'| == |valid'| == |data'| && OnePerKey(key) && OnePerKey(key') &&
             k != ZERO
    requires forall i :: Caches(key, valid, k, i) <==> Caches(key', valid', k, i)
    requires forall i :: Caches(key, valid, k, i) ==> data[i] == data'[i]
    requires At(disk, k) == At(disk', k)
    ensures View(key, valid, data, disk, k) == View(key', valid', data', disk', k)
  {
    if exists i :: Caches(key, valid, k, i) {
      var i :| Caches(key, valid, k, i);
      ViewCached(key, valid, data, disk, i);
      ViewCached(key', valid', data', disk', i);
    }
  }

  /** The buffer, if it holds a block, holds what is on the disk. */
  ghost predicate Clean(key: seq<Key>, valid: seq<bool>, data: seq<Block>, disk: map<Key, Block>, i: int)
    requires 0 <= i < |key| == |valid| == |data|
  {
    valid[i] && key[i] != ZERO ==> data[i] == At(disk, key[i])
  }

  /** A buffer that is neither held nor pinned equals its disk block. */
  ghost predicate Settles(key: seq<Key>, valid: seq<bool>, data: seq<Block>, disk: map<Key, Block>, pinned: seq<bool>,
                          lock: seq<Option<nat>>) {
    && |key| == |valid| == |data| == |pinned| == |lock| == NUMBUF
    && forall i :: 0 <= i < NUMBUF && !pinned[i] && lock[i].None? ==> Clean(key, valid, data, disk, i)
  }

  function Blit(b: Block, at: nat, bytes: seq<Byte>): (r: Block)
    requires at + |bytes| <= BLOCK_SIZE
  {
    b[..at] + bytes + b[at + |bytes|..]
  }

  /** What concerns a reader. */
  datatype Snap = Snap(key: seq<Key>, users: seq<set<nat>>, lock: seq<Option<nat>>, refcount: seq<nat>,
                       valid: seq<bool>,
                       data: seq<Block>, views: Views)

  ghost predicate WholeSnap(s: Snap) {
    && |s.key| == |s.users| == |s.lock| == |s.refcount| == |s.valid| == |s.data| == NUMBUF
    && forall k :: k in s.views <==> k != ZERO
  }

  /** buffer_get has given process p buffer b for block k. Only the block whose buffer was recycled may be seen
      differently, and then as it is on the disk. */
  ghost predicate Got(s: Snap, t: Snap, disk: map<Key, Block>, p: nat, k: Key, b: nat) {
    && WholeSnap(s) && WholeSnap(t) && b < NUMBUF
    && t.key == s.key[b := k] && (k in s.key ==> t.key == s.key) && (k in s.key || s.refcount[b] == 0)
    && t.users == s.users[b := s.users[b] + {p}] && t.refcount == s.refcount[b := s.refcount[b] + 1] && t.lock == s.lock
    && (forall i :: 0 <= i < NUMBUF && i != b ==> t.valid[i] == s.valid[i]) && t.data == s.data
    && t.views == (if k in s.key then s.views else Change(s.views, s.key[b], At(disk, s.key[b])))
    && (k != ZERO ==> t.views[k] == s.views[k])
  }

  /** buffer_read has, moreover, locked it and filled it with the block as it was seen before. */
  ghost predicate Took(s: Snap, t: Snap, disk: map<Key, Block>, p: nat, k: Key, b: nat) {
    && WholeSnap(s) && WholeSnap(t) && k != ZERO && b < NUMBUF
    && t.key == s.key[b := k] && (k in s.key ==> t.key == s.key) && (k in s.key || s.refcount[b] == 0)
    && t.users == s.users[b := s.users[b] + {p}] && t.refcount == s.refcount[b := s.refcount[b] + 1] &&
         t.lock == s.lock[b := Some(p)]
    && (forall i :: 0 <= i < NUMBUF && i != b ==> t.valid[i] == s.valid[i] && t.data[i] == s.data[i])
    && t.valid[b] && t.data[b] == s.views[k] == t.views[k]
    && t.views == if k in s.key then s.views else Change(s.views, s.key[b], At(disk, s.key[b]))
  }

  lemma GotHit(s: Snap, t: Snap, disk: map<Key, Block>, p: nat, k: Key, b: nat)
    requires WholeSnap(s) && b < NUMBUF && s.key[b] == k
    requires t == s.(refcount := s.refcount[b := s.refcount[b] + 1], users := s.users[b := s.users[b] + {p}])
    ensures Got(s, t, disk, p, k, b)
  {
    assert s.key[b := k] == s.key;
  }

  lemma GotRecycled(s: Snap, t: Snap, disk: map<Key, Block>, p: nat, k: Key, b: nat)
    requires WholeSnap(s) && b < NUMBUF && k !in s.key && s.refcount[b] == 0
    requires t == s.(key := s.key[b := k], valid := s.valid[b := false], refcount := s.refcount[b := 1],
      users := s.users[b := s.users[b] + {p}], views := Change(s.views, s.key[b], At(disk, s.key[b])))
    ensures Got(s, t, disk, p, k, b)
  {
    assert s.key[b] in s.key;
  }

  lemma FreeToLock(s: Snap, t: Snap, disk: map<Key, Block>, p: nat, k: Key, b: nat)
    requires Got(s, t, disk, p, k, b) && (k !in s.key ==> s.lock[b] == None)
    requires forall i :: 0 <= i < NUMBUF && s.key[i] == k ==> s.lock[i] == None
    ensures b < NUMBUF && t.key[b] == k && p in t.users[b] && t.lock[b] == None
  {}

  lemma TookFacts(s: Snap, t: Snap, disk: map<Key, Block>, p: nat, k: Key, b: nat)
    requires Took(s, t, disk, p, k, b)
    ensures b < NUMBUF == |t.key| == |t.lock| == |t.valid| == |t.data| && t.key[b] == k && t.lock[b] == Some(p) &&
            t.valid[b]
    ensures k in s.views && t.data[b] == s.views[k] && k in t.views && t.views[k] == s.views[k]
  {}

  /** What a reader of block k leaves alone: other buffers' locks, the keys of locked buffers, the contents of logged
      blocks, and the blocks p is not using. */
  ghost predicate Bystanders(s: Snap, t: Snap, p: nat, k: Key, b: nat, logged: seq<Key>) {
    && WholeSnap(s) && WholeSnap(t)
    && (forall i :: 0 <= i < NUMBUF && i != b ==>
         t.valid[i] == s.valid[i] && t.lock[i] == s.lock[i] && t.data[i] == s.data[i])
    && (forall i :: 0 <= i < NUMBUF && s.lock[i].Some? ==> t.key[i] == s.key[i] && i != b)
    && (forall l :: l in logged ==> l in t.views && l in s.views && t.views[l] == s.views[l])
    && (forall j :: j != k && Unused(s, p, j) ==> Unused(t, p, j))
  }

  ghost predicate Unused(s: Snap, p: nat, k: Key)
    requires WholeSnap(s)
  {
    forall i :: 0 <= i < NUMBUF && s.key[i] == k ==> p !in s.users[i] && s.lock[i] == None
  }

  lemma TookOthers(s: Snap, t: Snap, disk: map<Key, Block>, p: nat, k: Key, b: nat, logged: seq<Key>)
    requires Took(s, t, disk, p, k, b) && ZERO !in logged
    requires forall i :: 0 <= i < NUMBUF && (s.key[i] in logged || s.lock[i].Some?) ==> s.refcount[i] > 0
    requires forall i :: 0 <= i < NUMBUF && s.key[i] == k ==> s.lock[i] == None
    ensures Bystanders(s, t, p, k, b, logged)
  {
    forall j | j != k && Unused(s, p, j) ensures Unused(t, p, j) {}
  }

  /** The block whose buffer was recycled for k, ZERO if none was. */
  lemma TookGone(s: Snap, t: Snap, disk: map<Key, Block>, p: nat, k: Key, b: nat, logged: seq<Key>) returns (gone: Key)
    requires Took(s, t, disk, p, k, b)
    requires forall i :: 0 <= i < NUMBUF && s.key[i] in logged ==> s.refcount[i] > 0
    ensures t.views == Change(s.views, gone, At(disk, gone)) && (k in s.key ==> gone == ZERO)
    ensures forall l :: l in s.key && (k in s.key || l in logged) ==> l in t.key
  {
    gone := if k in s.key then ZERO else s.key[b];
    forall l | l in s.key && (k in s.key || l in logged) ensures l in t.key {
      var i :| 0 <= i < NUMBUF && s.key[i] == l;
      assert t.key[i] == l;
    }
  }

  lemma FirstRead(s: Snap, t: Snap, p: nat, k: Key, b: nat, logged: seq<Key>, from: Key)
    requires Bystanders(s, t, p, k, b, logged) && from != k && from != ZERO && Unused(s, p, from)
    ensures Unused(t, p, from) &&
            (from in logged ==> from in t.views && from in s.views && t.views[from] == s.views[from])
  {}

  lemma SecondRead(s: Snap, t: Snap, p: nat, k: Key, b: nat, logged: seq<Key>, f: nat)
    requires Bystanders(s, t, p, k, b, logged) && f < NUMBUF && s.lock[f].Some?
    ensures b != f && (b < NUMBUF ==>
            t.lock[f] == s.lock[f] && t.valid[f] == s.valid[f] && t.key[f] == s.key[f] && t.data[f] == s.data[f])
  {}

  ghost predicate Crowd(s: Snap, b: nat) {
    && WholeSnap(s)
    && forall i :: 0 <= i < NUMBUF && i != b ==>
         s.refcount[i] > 0 && s.key[i] != FAULTED && s.key[i] != OTHER && 1 !in s.users[i] && s.lock[i] == None
  }

  lemma TookFree(s: Snap, t: Snap, disk: map<Key, Block>, k: Key, r: nat, b: nat)
    requires Took(s, t, disk, 1, k, r) && b < NUMBUF && s.users[b] == {} && s.refcount[b] == 0
    requires Crowd(s, b) && (k == FAULTED || k == OTHER)
    ensures Crowd(t, b)
    ensures r == b && t.key == s.key[b := k] && t.lock == s.lock[b := Some(1)] && t.users == s.users[b := {1}] &&
            t.refcount == s.refcount[b := 1]
    ensures t.valid[b] && t.data[b] == s.views[k]
  {
    assert {} + {1} == {1};
    if k in s.key { assert t.key[r] == k; }
  }

  lemma Entered(s: Snap, t: Snap, u: Snap, disk: map<Key, Block>, p: nat, k: Key, b: nat)
    requires Got(s, t, disk, p, k, b) && k != ZERO && WholeSnap(u) && u.key == t.key && u.users == t.users &&
             u.refcount == t.refcount && u.views == t.views
    requires u.lock == t.lock[b := Some(p)] && u.valid == t.valid[b := true] && u.data[b] == u.views[k]
    requires forall i :: 0 <= i < NUMBUF && i != b ==> u.data[i] == t.data[i]
    ensures Took(s, u, disk, p, k, b)
  {}

  /** A turn of write_inode leaves nothing behind that recycling could lose: the copy was complete and so logged, the
      block was in the log already, or the bytes copied are those that were there. */
  ghost predicate TurnSafe(d: Block, at: nat, bytes: seq<Byte>, copied: nat, logged: bool)
    requires copied <= |bytes| && at + |bytes| <= BLOCK_SIZE
  {
    copied == |bytes| || logged || Blit(d, at, bytes[..copied]) == d
  }

  /** Whatever the contents, a turn is safe if and only if the copy does not fault in the block, faults before its first
      byte there, or the block is already in the transaction. */
  lemma TurnSafeIff(at: nat, n: nat, copied: nat, logged: bool)
    requires copied <= n && at + n <= BLOCK_SIZE
    ensures (forall d: Block, bytes: seq<Byte> :: |bytes| == n ==> TurnSafe(d, at, bytes, copied, logged))
      <==> copied == n || copied == 0 || logged
  {
    if copied == 0 {
      forall d: Block, bytes: seq<Byte> | |bytes| == n ensures TurnSafe(d, at, bytes, copied, logged) {
        assert Blit(d, at, bytes[..0]) == d;
      }
    } else if copied < n && !logged {
      var d, bytes := ZeroBlock(), seq(n, i => 1);
      assert Blit(d, at, bytes[..copied])[at] == 1 != d[at];
      assert !TurnSafe(d, at, bytes, copied, logged);
    }
  }

  class Cache {
    var next: seq<nat>
    var prev: seq<nat>
    var key: seq<Key>                 // dev and blockno
    var refcount: seq<nat>
    var valid: seq<bool>
    var data: seq<Block>
    var lock: seq<Option<nat>>        // the sleep lock's owner
    var disk: map<Key, Block>
    var log: seq<Key>                 // loghead.block[0 .. count-1]
    ghost var home: nat               // logged blocks copied home so far by the commit under way
    ghost var ring: seq<nat>
    ghost var stamp: seq<nat>         // when the buffer was last released to nobody
    ghost var clock: nat
    ghost var users: seq<set<nat>>    // processes between buffer_get and the end of buffer_release
    ghost var pinned: seq<bool>       // pinned by log_write

    ghost predicate Valid()
      reads this
    {
      && |valid| == |data| == NUMBUF
      && Linked(next, prev, ring) && Ordered(ring, stamp, clock)
      && Counted(refcount, users, pinned, lock) && OnePerKey(key) && Logs(key, pinned, log, home)
    }

    ghost function Sees(): (v: Views)
      reads this
      requires Valid()
      ensures forall k :: k in v <==> k != ZERO
    {
      AllViews(key, valid, data, disk)
    }

    ghost predicate Settled()
      reads this
    {
      Settles(key, valid, data, disk, pinned, lock)
    }

    ghost predicate CleanAt(b: nat)
      reads this
      requires Valid() && b < NUMBUF
    {
      Clean(key, valid, data, disk, b)
    }

    /** buffer_init */
    constructor (d: map<Key, Block>)
      ensures Valid() && disk == d && log == [] && home == 0 && Settled()
      ensures forall i :: 0 <= i < NUMBUF ==>
              refcount[i] == 0 && users[i] == {} && lock[i] == None && !valid[i] && key[i] == ZERO
      ensures forall k :: k != ZERO ==> Sees()[k] == At(d, k)
    {
      key, valid, data := seq(NUMBUF, i => ZERO), seq(NUMBUF, i => false), seq(NUMBUF, i => ZeroBlock());
      refcount, lock := seq(NUMBUF, i => 0), seq(NUMBUF, i => None);
      users, pinned := seq(NUMBUF, i => {}), seq(NUMBUF, i => false);
      stamp, clock := seq(NUMBUF, i requires 0 <= i => i), NUMBUF;
      disk, log, home := d, [], 0;
      next, prev, ring := seq(NUMBUF + 1, i => HEAD), seq(NUMBUF + 1, i => HEAD), [HEAD];
      new;
      for b := 0 to NUMBUF
        invariant Linked(next, prev, ring) && |ring| == b + 1
        invariant forall k :: 0 < k <= b ==> ring[k] == b - k
        invariant key == seq(NUMBUF, i => ZERO) && valid == seq(NUMBUF, i => false) &&
                  data == seq(NUMBUF, i => ZeroBlock())
        invariant refcount == seq(NUMBUF, i => 0) && lock == seq(NUMBUF, i => None)
        invariant users == seq(NUMBUF, i => {}) && pinned == seq(NUMBUF, i => false) && log == [] && home == 0
        invariant stamp == seq(NUMBUF, i requires 0 <= i => i) && clock == NUMBUF && disk == d
      {
        PushFront(b);
      }
      forall i: nat | i < NUMBUF ensures i in ring {
        assert ring[NUMBUF - i] == i;
      }
    }

    /** Puts an unlinked buffer at the head of the list. */
    method PushFront(b: nat)
      requires Linked(next, prev, ring) && b < NUMBUF && b !in ring
      modifies this`next, this`prev, this`ring
      ensures Linked(next, prev, ring) && ring == [HEAD, b] + old(ring)[1..]
    {
      Inserted(next, prev, ring, b);
      ghost var n0: seq<nat>, p0: seq<nat> := next, prev;
      next := next[b := next[HEAD]];
      prev := prev[b := HEAD];
      prev := prev[next[HEAD] := b];
      next := next[HEAD := b];
      ring := [HEAD, b] + ring[1..];
      assert next == n0[b := n0[HEAD]][HEAD := b];
      assert prev == p0[b := HEAD][n0[HEAD] := b];
    }

    /** The first loop of buffer_get: the buffer caching k nearest the head. */
    method FindKey(k: Key) returns (r: Option<nat>)
      requires Linked(next, prev, ring) && Ordered(ring, stamp, clock) && |key| == NUMBUF
      ensures r.Some? ==> r.value < NUMBUF && key[r.value] == k
      ensures r.None? ==> forall i :: 0 <= i < NUMBUF ==> key[i] != k
    {
      assert LinkAt(next, prev, ring, 0);
      var b := next[HEAD];
      ghost var pos := 1;
      while b != HEAD
        invariant 1 <= pos <= |ring| && b == ring[if pos < |ring| then pos else 0]
        invariant forall l :: 1 <= l < pos ==> key[ring[l]] != k
        decreases |ring| - pos
      {
        assert pos < |ring| && LinkAt(next, prev, ring, pos);
        if key[b] == k { return Some(b); }
        b, pos := next[b], pos + 1;
      }
      assert pos == |ring|;
      forall i: nat | i < NUMBUF ensures key[i] != k {
        var l := Pos(ring, i);
      }
      return None;
    }

    /** The second loop of buffer_get: the least recently used buffer nobody refers to. */
    method FindUnused() returns (r: Option<nat>)
      requires Linked(next, prev, ring) && Ordered(ring, stamp, clock) && |refcount| == NUMBUF
      ensures r.Some? ==> r.value < NUMBUF && refcount[r.value] == 0
      ensures r.Some? ==> LeastRecent(refcount, stamp, r.value)
      ensures r.None? ==> InUse(refcount)
    {
      assert LinkAt(next, prev, ring, |ring| - 1);
      var b := prev[HEAD];
      ghost var pos := |ring| - 1;
      while b != HEAD
        invariant 0 <= pos < |ring| && b == ring[pos]
        invariant forall l :: pos < l < |ring| ==> refcount[ring[l]] > 0
        decreases pos
      {
        assert LinkAt(next, prev, ring, pos - 1);
        if refcount[b] == 0 {
          forall i: nat | i < NUMBUF && refcount[i] == 0 ensures stamp[b] <= stamp[i] {
            var l := Pos(ring, i);
          }
          return Some(b);
        }
        b, pos := prev[b], pos - 1;
      }
      assert pos == 0;
      forall i: nat | i < NUMBUF ensures refcount[i] > 0 {
        var l := Pos(ring, i);
      }
      return None;
    }

    /** buffer_get by process p, up to the wait for the buffer's sleep lock; None where the source panics. A process
        that already has the block would wait for itself. A recycled buffer's block is afterwards seen as on the disk,
        whatever the buffer held; in a settled cache that changes nothing. */
    method Get(p: nat, k: Key) returns (r: Option<nat>)
      requires Valid() && forall i :: 0 <= i < NUMBUF && key[i] == k ==> p !in users[i]
      modifies this`key, this`refcount, this`valid, this`users
      ensures Valid() && (r.None? <==> k !in old(key) && InUse(old(refcount)))
      ensures r.None? ==> Now() == old(Now())
      ensures r.Some? ==> Got(old(Now()), Now(), disk, p, k, r.value) && p !in old(users)[r.value]
      ensures r.Some? && k !in old(key) ==>
        LeastRecent(old(refcount), stamp, r.value) && old(users)[r.value] == {} && lock[r.value] == None &&
            !pinned[r.value]
      ensures old(Settled()) ==> Settled() && Sees() == old(Sees())
    {
      hide Got, Settles, AllViews, Logs;
      KeyView(k);
      ghost var s := Now();
      r := FindKey(k);
      if r.Some? {
        Hit(p, r.value);
        GotHit(s, Now(), disk, p, k, r.value);
        return;
      }
      r := FindUnused();
      if r.Some? {
        Recycle(p, r.value, k);
        GotRecycled(s, Now(), disk, p, k, r.value);
      }
    }

    method Hit(p: nat, b: nat)
      requires Valid() && b < NUMBUF && p !in users[b]
      modifies this`refcount, this`users
      ensures Valid()
      ensures Now() == old(Now()).(refcount := old(refcount)[b := old(refcount)[b] + 1],
              users := old(users)[b := old(users)[b] + {p}])
    {
      hide Linked, Ordered, OnePerKey, Logs, AllViews;
      CountedGet(refcount, users, pinned, lock, b, p);
      refcount := refcount[b := refcount[b] + 1];
      users := users[b := users[b] + {p}];
    }

    /** Takes over a buffer nobody refers to, for a block not in the cache. */
    method Recycle(p: nat, b: nat, k: Key)
      requires Valid() && b < NUMBUF && refcount[b] == 0 && k !in key
      modifies this`key, this`refcount, this`valid, this`users
      ensures Valid() && !pinned[b] && old(users)[b] == {} && lock[b] == None
      ensures Now() == old(Now()).(key := old(key)[b := k], valid := old(valid)[b := false],
        refcount := old(refcount)[b := 1], users := old(users)[b := old(users)[b] + {p}],
        views := Change(old(Sees()), old(key)[b], At(disk, old(key)[b])))
      ensures old(Settled()) ==> Settled() && Sees() == old(Sees())
    {
      Unreferenced(refcount, users, pinned, lock, b);
      RecycleKeys(key, pinned, log, home, b, k);
      RecycleView(key, valid, data, disk, b, k);
      if Settled() { RecycleSettles(key, valid, data, disk, pinned, lock, b, k); }
      CountedGet(refcount, users, pinned, lock, b, p);
      hide Linked, Ordered, Logs, OnePerKey, Settles, AllViews, Counted, Change, At;
      valid, key, refcount := valid[b := false], key[b := k], refcount[b := 1];
      users := users[b := users[b] + {p}];
    }

    /** The end of buffer_get: the sleep lock is taken once it is free. */
    method Lock(p: nat, b: nat) returns (got: bool)
      requires Valid() && b < NUMBUF && p in users[b]
      modifies this`lock
      ensures Valid() && (got <==> old(lock)[b] == None)
      ensures lock == if got then old(lock)[b := Some(p)] else old(lock)
      ensures old(Settled()) ==> Settled()
    {
      got := lock[b] == None;
      if got { lock := lock[b := Some(p)]; }
    }

    /** The rest of buffer_read: afterwards the buffer holds the block as it is seen by everyone. */
    method Fill(p: nat, b: nat)
      requires Valid() && b < NUMBUF && lock[b] == Some(p)
      modifies this`data, this`valid
      ensures Valid() && valid == old(valid)[b := true]
      ensures data == if old(valid)[b] then old(data) else old(data)[b := At(disk, key[b])]
      ensures Sees() == old(Sees()) && (key[b] != ZERO ==> data[b] == Sees()[key[b]])
      ensures old(Settled()) ==> Settled()
    {
      FillView(key, valid, data, disk, b);
      if !valid[b] {
        data := data[b := At(disk, key[b])];
        valid := valid[b := true];
      }
    }

    /** The holder writes into b->data. */
    method Modify(p: nat, b: nat, d: Block)
      requires Valid() && b < NUMBUF && lock[b] == Some(p) && valid[b]
      modifies this`data
      ensures Valid() && data == old(data)[b := d]
      ensures Sees() == Change(old(Sees()), key[b], d)
      ensures old(Settled()) ==> Settled()
    {
      ModifyView(key, valid, data, disk, b, d);
      hide AllViews, Linked, Ordered, Counted, Logs;
      data := data[b := d];
    }

    /** buffer_write; false where the source panics. */
    method Write(p: nat, b: nat) returns (ok: bool)
      requires Valid() && b < NUMBUF
      modifies this`disk
      ensures Valid() && (ok <==> lock[b] == Some(p))
      ensures disk == if ok then old(disk)[key[b] := data[b]] else old(disk)
      ensures ok ==> CleanAt(b) && Sees() == Change(old(Sees()), key[b], data[b])
      ensures old(Settled()) ==> Settled()
    {
      if lock[b] != Some(p) { return false; }
      WriteView(key, valid, data, disk, b);
      hide AllViews, Linked, Ordered, Counted, Logs;
      disk := disk[key[b] := data[b]];
      return true;
    }

    /** buffer_release up to the release of the sleep lock; false where the source panics. A change that was neither
        written nor logged leaves the cache unsettled. */
    method Unlock(p: nat, b: nat) returns (ok: bool)
      requires Valid() && b < NUMBUF
      modifies this`lock
      ensures Valid() && (ok <==> old(lock)[b] == Some(p))
      ensures lock == if ok then old(lock)[b := None] else old(lock)
      ensures old(Settled()) ==> (Settled() <==> ok ==> pinned[b] || CleanAt(b))
    {
      ok := lock[b] == Some(p);
      if ok { lock := lock[b := None]; }
    }

    /** The rest of buffer_release: a buffer nobody refers to any more becomes the most recently used. */
    method Drop(p: nat, b: nat)
      requires Valid() && b < NUMBUF && p in users[b] && lock[b] != Some(p)
      modifies this`next, this`prev, this`refcount, this`users, this`ring, this`stamp, this`clock
      ensures Valid() && users == old(users)[b := old(users)[b] - {p}]
      ensures old(refcount)[b] > 0 && refcount == old(refcount)[b := old(refcount)[b] - 1]
      ensures forall i :: 0 <= i < NUMBUF && i != b ==> stamp[i] == old(stamp)[i]
      ensures refcount[b] == 0 ==> forall i :: 0 <= i < NUMBUF && i != b ==> stamp[i] < stamp[b]
      ensures refcount[b] > 0 ==> stamp == old(stamp)
    {
      CountedDrop(refcount, users, pinned, lock, b, p);
      refcount := refcount[b := refcount[b] - 1];
      users := users[b := users[b] - {p}];
      if refcount[b] == 0 {
        MoveFront(b);
      }
    }

    /** Unlinks the buffer and links it in again at the head. */
    method MoveFront(b: nat)
      requires Linked(next, prev, ring) && Ordered(ring, stamp, clock) && b < NUMBUF
      modifies this`next, this`prev, this`ring, this`stamp, this`clock
      ensures Linked(next, prev, ring) && Ordered(ring, stamp, clock)
      ensures stamp == old(stamp)[b := old(clock)]
      ensures forall i :: 0 <= i < NUMBUF && i != b ==> stamp[i] < stamp[b]
    {
      ghost var k := Pos(ring, b);
      ghost var n0: seq<nat>, p0: seq<nat>, r0 := next, prev, ring;
      Unlinked(next, prev, ring, k);
      MovedFront(ring, stamp, clock, k);
      prev := prev[next[b] := prev[b]];
      next := next[prev[b] := next[b]];
      ring := ring[..k] + ring[k + 1..];
      assert next == n0[p0[b] := n0[b]] && prev == p0[n0[b] := p0[b]];
      PushFront(b);
      stamp, clock := stamp[b := clock], clock + 1;
    }

    /** log_write on a buffer its holder has changed: false where the source panics, on a full log or outside a
        transaction. A block already in the log is absorbed, another one is pinned. */
    method LogWrite(p: nat, b: nat, syscalls: int) returns (ok: bool)
      requires Valid() && home == 0 && b < NUMBUF && lock[b] == Some(p) && key[b] != ZERO
      modifies this`log, this`refcount, this`pinned
      ensures Valid() && (ok <==> |old(log)| < LOGSIZE && syscalls >= 1)
      ensures ok ==> pinned == old(pinned)[b := true] &&
                     log == if key[b] in old(log) then old(log) else old(log) + [key[b]]
      ensures refcount == if ok && !old(pinned)[b] then old(refcount)[b := old(refcount)[b] + 1] else old(refcount)
      ensures !ok ==> log == old(log) && pinned == old(pinned)
      ensures old(Settled()) ==> Settled()
    {
      if |log| >= LOGSIZE || syscalls < 1 { return false; }
      assert log[home..] == log;
      var i := 0;
      while i < |log| && log[i] != key[b]
        invariant 0 <= i <= |log| && key[b] !in log[..i]
      {
        i := i + 1;
      }
      assert i == |log| ==> log[..i] == log;
      if i == |log| {
        PinLogs(key, pinned, log, b);
        refcount := refcount[b := refcount[b] + 1];
        pinned := pinned[b := true];
        log := log + [key[b]];
      }
      assert pinned == old(pinned)[b := true];
      return true;
    }

    ghost function Now(): Snap
      reads this
      requires Valid()
    {
      Snap(key, users, lock, refcount, valid, data, Sees())
    }

    /** buffer_read by a process that finds the lock free. */
    method Read(p: nat, k: Key) returns (r: Option<nat>)
      requires Valid() && k != ZERO && Idle(p, k)
      modifies this`key, this`refcount, this`valid, this`users, this`lock, this`data
      ensures Valid() && (r.None? <==> k !in old(key) && InUse(old(refcount)))
      ensures r.None? ==> Now() == old(Now())
      ensures r.Some? ==> Took(old(Now()), Now(), disk, p, k, r.value)
      ensures old(Settled()) ==> Settled() && Sees() == old(Sees())
    {
      hide Linked, Ordered, AllViews, Settles, Logs, Counted, OnePerKey, At, Change, InUse, LeastRecent, Got, Took;
      ghost var s0 := Now();
      r := Get(p, k);
      if r.Some? {
        ghost var s1 := Now();
        FreeToLock(s0, s1, disk, p, k, r.value);
        Enter(p, r.value);
        Sizes();
        Entered(s0, s1, Now(), disk, p, k, r.value);
      }
    }

    lemma KeyView(k: Key)
      requires Valid()
      ensures |key| == |users| == |lock| == |valid| == |data| == |refcount| == NUMBUF
      ensures k !in key && k != ZERO ==> Sees()[k] == At(disk, k)
    {
      if k !in key { Uncached(key, valid, data, disk, k); }
    }

    /** The sleep lock, found free, and the read from the disk. */
    method Enter(p: nat, b: nat)
      requires Valid() && b < NUMBUF && p in users[b] && lock[b] == None
      modifies this`lock, this`data, this`valid
      ensures Valid() && lock == old(lock)[b := Some(p)] && valid == old(valid)[b := true]
      ensures |data| == NUMBUF && forall i :: 0 <= i < NUMBUF && i != b ==> data[i] == old(data)[i]
      ensures Sees() == old(Sees()) && (key[b] != ZERO ==> data[b] == Sees()[key[b]])
      ensures old(Settled()) ==> Settled()
    {
      Sizes();
      hide Linked, Ordered, AllViews, Settles, Logs, Counted, OnePerKey, At;
      var got := Lock(p, b);
      Fill(p, b);
    }

    /** buffer_release in one go. */
    method Release(p: nat, b: nat)
      requires Valid() && b < NUMBUF && lock[b] == Some(p)
      modifies this`next, this`prev, this`refcount, this`users, this`ring, this`stamp, this`clock, this`lock
      ensures Valid() && lock == old(lock)[b := None] && users == old(users)[b := old(users)[b] - {p}]
      ensures old(refcount)[b] > 0 && refcount == old(refcount)[b := old(refcount)[b] - 1]
      ensures old(Settled()) ==> (Settled() <==> pinned[b] || CleanAt(b))
      ensures Sees() == old(Sees())
    {
      Holding(b, p);
      hide Linked, Ordered, Logs, Counted, AllViews, Settles, Clean;
      var ok := Unlock(p, b);
      Drop(p, b);
    }

    lemma Holding(b: nat, p: nat)
      requires Valid() && b < NUMBUF && lock[b] == Some(p)
      ensures p in users[b] && refcount[b] > 0
    {
      assert p in users[b];
    }

    lemma Sizes()
      requires Valid()
      ensures |key| == |valid| == |data| == |lock| == |users| == |pinned| == |refcount| == NUMBUF
    {}

    /** No buffer of this block is locked or used by p. */
    ghost predicate Idle(p: nat, k: Key)
      reads this
    {
      |key| == |users| == |lock| == NUMBUF && forall i :: 0 <= i < NUMBUF && key[i] == k ==>
          p !in users[i] && lock[i] == None
    }

    /** One turn of write_inode's loop on the block's buffer: the copy from the user puts the first `copied` bytes in,
        and only a complete copy is logged before the buffer is released. False where the source panics. */
    method WriteTurn(p: nat, k: Key, at: nat, bytes: seq<Byte>, copied: nat, syscalls: int) returns (ok: bool)
      requires Valid() && home == 0 && k != ZERO && Idle(p, k) && copied <= |bytes| && at + |bytes| <= BLOCK_SIZE
      modifies this`data, this`log, this`refcount, this`pinned, this`next, this`prev, this`users, this`ring,
               this`stamp, this`clock, this`lock,
        this`key, this`valid
      ensures Valid()
      ensures ok ==> Sees()[k] == Blit(old(Sees())[k], at, bytes[..copied])
      ensures ok ==> log == if copied == |bytes| && k !in old(log) then old(log) + [k] else old(log)
      ensures ok && old(Settled()) ==> Sees() == Change(old(Sees()), k, Blit(old(Sees())[k], at, bytes[..copied]))
      ensures ok && old(Settled()) ==> (Settled() <==> TurnSafe(old(Sees())[k], at, bytes, copied, k in old(log)))
      ensures !ok ==> InUse(refcount) || |log| >= LOGSIZE || syscalls < 1
    {
      DiskSeen(p, k);
      hide Linked, Ordered, AllViews, Settles, Logs, Counted, OnePerKey, At, Blit, InUse, Change, Idle, Bystanders,
          Clean;
      var r := ReadOwn(p, k);
      if r.None? { return false; }
      var d := Blit(data[r.value], at, bytes[..copied]);
      ghost var v := Sees();
      ok := Deposit(p, r.value, d, copied == |bytes|, syscalls);
      ChangeAt(v, k, d);
    }

    /** buffer_read, for a caller that only looks at its own buffer. */
    method ReadOwn(p: nat, k: Key) returns (r: Option<nat>)
      requires Valid() && k != ZERO && Idle(p, k)
      modifies this`key, this`refcount, this`valid, this`users, this`lock, this`data
      ensures Valid() && (r.None? ==> InUse(refcount))
      ensures r.Some? ==>
              r.value < NUMBUF == |key| == |lock| == |valid| == |data| && key[r.value] == k && lock[r.value] == Some(p)
      ensures r.Some? ==> valid[r.value] && data[r.value] == old(Sees())[k] == Sees()[k]
      ensures old(Settled()) ==> Settled() && Sees() == old(Sees())
    {
      hide Linked, Ordered, AllViews, Settles, Logs, Counted, OnePerKey, At, InUse, Change, Clean, Bystanders, Idle;
      ghost var gone;
      r, gone := ReadHeld(p, k);
    }

    /** buffer_read, with what it leaves alone: only the block `gone`, whose buffer it recycled, may be seen
        differently. */
    method ReadHeld(p: nat, k: Key) returns (r: Option<nat>, ghost gone: Key)
      requires Valid() && k != ZERO && Idle(p, k)
      modifies this`key, this`refcount, this`valid, this`users, this`lock, this`data
      ensures Valid() && (r.None? ==> InUse(refcount) && Sees() == old(Sees()))
      ensures r.Some? ==>
              r.value < NUMBUF == |key| == |lock| == |valid| == |data| && key[r.value] == k && lock[r.value] == Some(p)
      ensures r.Some? ==> valid[r.value] && data[r.value] == old(Sees())[k] == Sees()[k]
      ensures old(Settled()) ==> Settled() && Sees() == old(Sees())
      ensures r.Some? ==> Bystanders(old(Now()), Now(), p, k, r.value, log[home..])
      ensures r.Some? ==> Sees() == Change(old(Sees()), gone, At(disk, gone)) && (k in old(key) ==> gone == ZERO)
      ensures r.Some? ==> forall l :: l in old(key) && (k in old(key) || l in log[home..]) ==> l in key
      ensures r.Some? && old(Settled()) ==> pinned[r.value] || CleanAt(r.value)
    {
      DiskSeen(p, k);
      PinnedCounted();
      hide Linked, Ordered, AllViews, Settles, Logs, Counted, OnePerKey, At, Took, InUse, Clean, Bystanders;
      ghost var s0 := Now();
      gone := ZERO;
      r := Read(p, k);
      if r.Some? {
        TookFacts(s0, Now(), disk, p, k, r.value);
        TookOthers(s0, Now(), disk, p, k, r.value, log[home..]);
        gone := TookGone(s0, Now(), disk, p, k, r.value, log[home..]);
        PinnedIff(r.value);
        CleanIff(r.value);
      }
    }

    /** Pinned and locked buffers are referred to. */
    lemma PinnedCounted()
      requires Valid()
      ensures forall i :: 0 <= i < NUMBUF && (key[i] in log[home..] || lock[i].Some?) ==> refcount[i] > 0
      ensures ZERO !in log[home..] && forall l :: l in log[home..] ==> l in key
      ensures forall i, j :: 0 <= i < j < NUMBUF && key[i] == key[j] ==> key[i] == ZERO
    {
      forall i | 0 <= i < NUMBUF && lock[i].Some? ensures refcount[i] > 0 {
        assert lock[i].value in users[i];
      }
    }

    /** A held buffer is changed, logged or not, and released. */
    method Deposit(p: nat, b: nat, d: Block, logIt: bool, syscalls: int) returns (ok: bool)
      requires Valid() && home == 0 && b < NUMBUF && lock[b] == Some(p) && valid[b] && key[b] != ZERO
      modifies this`data, this`log, this`refcount, this`pinned, this`next, this`prev, this`users, this`ring,
               this`stamp, this`clock, this`lock
      ensures Valid() && (ok <==> !logIt || (|old(log)| < LOGSIZE && syscalls >= 1))
      ensures !ok ==> |log| >= LOGSIZE || syscalls < 1
      ensures ok ==> Sees() == Change(old(Sees()), key[b], d)
      ensures ok ==> log == if logIt && key[b] !in old(log) then old(log) + [key[b]] else old(log)
      ensures ok && old(Settled()) ==> (Settled() <==> logIt || key[b] in old(log) || d == At(disk, key[b]))
    {
      hide Linked, Ordered, AllViews, Settles, Logs, Counted, OnePerKey, At, Clean;
      Sizes();
      ghost var v0 := Sees();
      Modify(p, b, d);
      ok := true;
      if logIt {
        ok := LogWrite(p, b, syscalls);
        if !ok { return; }
      }
      PinnedIff(b);
      CleanIff(b);
      Release(p, b);
    }

    /** In a settled cache, a block that is neither held nor logged is seen as on the disk. */
    lemma DiskSeen(p: nat, k: Key)
      requires Valid() && k != ZERO && Idle(p, k)
      ensures Settled() && k !in log[home..] ==> Sees()[k] == At(disk, k)
      ensures home == 0 ==> log[home..] == log
    {
      if Settled() && k !in log[home..] && exists i :: Caches(key, valid, k, i) {
        var i :| Caches(key, valid, k, i);
        ViewCached(key, valid, data, disk, i);
        assert Clean(key, valid, data, disk, i);
      }
    }

    lemma PinnedIff(b: nat)
      requires Valid() && b < NUMBUF
      ensures pinned[b] <==> key[b] in log[home..]
      ensures home == 0 ==> log[home..] == log
    {}

    lemma CleanIff(b: nat)
      requires Valid() && b < NUMBUF && key[b] != ZERO && valid[b]
      ensures CleanAt(b) <==> Sees()[key[b]] == At(disk, key[b])
    {
      ViewCached(key, valid, data, disk, b);
    }

    /** The body of write_log's loop: a block is copied to a log slot, on the disk and for its readers alike. x is
        what the block is found to hold: what was seen, if the block is logged or the slot cached. `gone` and `too`
        are the blocks whose buffers were recycled, seen as on the disk from then on. False where buffer_get panics. */
    method CopyToLog(p: nat, from: Key, to: Key) returns (ok: bool, x: Block, ghost gone: Key, ghost too: Key)
      requires Valid() && from != ZERO && to != ZERO && from != to && Idle(p, from) && Idle(p, to)
      modifies this`data, this`disk, this`refcount, this`next, this`prev, this`users, this`ring, this`stamp, this`clock,
        this`lock, this`key, this`valid
      ensures Valid() && (!ok ==> InUse(refcount))
      ensures ok ==> disk == old(disk)[to := x] && Sees() == Change(Recycled(old(Sees()), old(disk), gone, too), to, x)
      ensures ok && (from in log[home..] || to in old(key) || old(Settled())) ==> x == old(Sees())[from]
      ensures ok && to in old(key) ==> gone == ZERO
      ensures ok && (from in log[home..] || (to in old(key) && from in old(key))) ==> too == ZERO
      ensures ok && old(Settled()) ==> Settled() && Sees() == Change(old(Sees()), to, x)
    {
      hide Linked, Ordered, AllViews, Settles, Logs, Counted, OnePerKey, At, InUse, Change, Clean, Idle, Recycled;
      x := ZeroBlock();
      var f, t;
      ok, t, f, gone, too := ReadBoth(p, to, from);
      if ok {
        x := data[f];
        CopyHeld(p, f, t);
      }
    }

    /** The body of cpy_log_to_home's loop. The slot is read first, so its contents are always what was seen before; and
        the home block is pinned, so that reading it recycles nothing. */
    method CopyHome(p: nat, from: Key, to: Key) returns (ok: bool, x: Block, ghost gone: Key, ghost too: Key)
      requires Valid() && from != ZERO && to != ZERO && from != to && Idle(p, from) && Idle(p, to)
      modifies this`data, this`disk, this`refcount, this`next, this`prev, this`users, this`ring, this`stamp, this`clock,
        this`lock, this`key, this`valid
      ensures Valid() && (!ok ==> InUse(refcount))
      ensures ok ==> x == old(Sees())[from] && disk == old(disk)[to := x]
      ensures ok ==> Sees() == Change(Recycled(old(Sees()), old(disk), gone, too), to, x)
      ensures ok && from in old(key) ==> gone == ZERO
      ensures ok && (to in log[home..] || (from in old(key) && to in old(key))) ==> too == ZERO
      ensures ok && old(Settled()) ==> Settled() && Sees() == Change(old(Sees()), to, x)
    {
      hide Linked, Ordered, AllViews, Settles, Logs, Counted, OnePerKey, At, InUse, Change, Clean, Idle, Recycled;
      x := ZeroBlock();
      var f, t;
      ok, f, t, gone, too := ReadBoth(p, from, to);
      if ok {
        x := data[f];
        CopyHeld(p, f, t);
      }
    }

    /** The two buffer_read calls. */
    method ReadBoth(p: nat, a: Key, b: Key) returns (ok: bool, i: nat, j: nat, ghost gone: Key, ghost too: Key)
      requires Valid() && a != ZERO && b != ZERO && a != b && Idle(p, a) && Idle(p, b)
      modifies this`key, this`refcount, this`valid, this`users, this`lock, this`data
      ensures Valid() && (!ok ==> InUse(refcount))
      ensures ok ==> i < NUMBUF && j < NUMBUF && i != j && |key| == |lock| == |valid| == |data| == NUMBUF
      ensures ok ==> key[i] == a && key[j] == b && lock[i] == lock[j] == Some(p) && valid[i] && valid[j]
      ensures ok ==> data[i] == old(Sees())[a] && Sees() == Recycled(old(Sees()), disk, gone, too)
      ensures ok && (b in log[home..] || a in old(key) || old(Settled())) ==> data[j] == old(Sees())[b]
      ensures ok && a in old(key) ==> gone == ZERO
      ensures ok && (b in log[home..] || (a in old(key) && b in old(key))) ==> too == ZERO
      ensures ok && old(Settled()) ==>
              Settled() && Sees() == old(Sees()) && (pinned[i] || CleanAt(i)) && (pinned[j] || CleanAt(j))
    {
      LoggedCached(b);
      hide Linked, Ordered, AllViews, Settles, Logs, Counted, OnePerKey, At, InUse, Clean, Idle, Change;
      ok, i, j, gone, too := false, 0, 0, ZERO, ZERO;
      var r;
      r, gone := ReadBefore(p, a, b);
      if r.None? { return; }
      i := r.value;
      r, too := ReadBeside(p, b, i);
      if r.None? { return; }
      j := r.value;
      ok := true;
      NothingGone(old(Sees()), disk);
    }

    lemma LoggedCached(k: Key)
      requires Valid()
      ensures k in log[home..] ==> k in key
    {}

    /** buffer_read by a process that will read block `other` after this one. */
    method ReadBefore(p: nat, k: Key, other: Key) returns (r: Option<nat>, ghost gone: Key)
      requires Valid() && k != ZERO && other != ZERO && other != k && Idle(p, k) && Idle(p, other)
      modifies this`key, this`refcount, this`valid, this`users, this`lock, this`data
      ensures Valid() && |key| == |lock| == |valid| == |data| == NUMBUF && (r.None? ==> InUse(refcount))
      ensures r.Some? ==>
              r.value < NUMBUF && key[r.value] == k && lock[r.value] == Some(p) && valid[r.value] && Idle(p, other)
      ensures r.Some? ==> data[r.value] == old(Sees())[k] && Sees() == Change(old(Sees()), gone, At(disk, gone))
      ensures r.Some? && other in log[home..] ==> Sees()[other] == old(Sees())[other] && other in key
      ensures r.Some? && k in old(key) ==> gone == ZERO && (other in old(key) ==> other in key)
      ensures old(Settled()) ==> Settled() && Sees() == old(Sees()) && (r.Some? ==> pinned[r.value] || CleanAt(r.value))
    {
      Sizes();
      LoggedCached(other);
      hide Linked, Ordered, AllViews, Settles, Logs, Counted, OnePerKey, At, InUse, Bystanders, Clean, Change;
      ghost var s0, logged := Now(), log[home..];
      r, gone := ReadHeld(p, k);
      Sizes();
      if r.Some? {
        FirstRead(s0, Now(), p, k, r.value, logged, other);
      }
    }

    /** buffer_read by a process that holds buffer t already. */
    method ReadBeside(p: nat, k: Key, t: nat) returns (r: Option<nat>, ghost gone: Key)
      requires Valid() && k != ZERO && Idle(p, k) && t < NUMBUF && lock[t].Some?
      modifies this`key, this`refcount, this`valid, this`users, this`lock, this`data
      ensures Valid() && |key| == |lock| == |valid| == |data| == NUMBUF && (r.None? ==> InUse(refcount))
      ensures r.Some? ==>
              r.value < NUMBUF && r.value != t && key[r.value] == k && lock[r.value] == Some(p) && valid[r.value]
      ensures r.Some? ==>
              key[t] == old(key)[t] && lock[t] == old(lock)[t] && valid[t] == old(valid)[t] && data[t] == old(data)[t]
      ensures r.Some? ==> data[r.value] == Sees()[k] == old(Sees())[k]
      ensures r.Some? ==> Sees() == Change(old(Sees()), gone, At(disk, gone)) && (k in old(key) ==> gone == ZERO)
      ensures r.Some? ==> (CleanAt(t) <==> old(CleanAt(t)))
      ensures old(Settled()) ==> Settled() && Sees() == old(Sees()) && (r.Some? ==> pinned[r.value] || CleanAt(r.value))
    {
      Sizes();
      hide Linked, Ordered, AllViews, Settles, Logs, Counted, OnePerKey, At, InUse, Bystanders, Change;
      ghost var s1, logged := Now(), log[home..];
      r, gone := ReadHeld(p, k);
      Sizes();
      if r.Some? {
        SecondRead(s1, Now(), p, k, r.value, logged, t);
      }
    }

    method CopyHeld(p: nat, f: nat, t: nat)
      requires Valid() && f < NUMBUF && t < NUMBUF && f != t && lock[f] == lock[t] == Some(p) && valid[t] &&
               valid[f] && key[t] != ZERO && key[f] != ZERO
      modifies this`data, this`disk, this`next, this`prev, this`refcount, this`users, this`ring, this`stamp,
               this`clock, this`lock
      ensures Valid() && Sees() == Change(old(Sees()), key[t], old(data)[f]) &&
              disk == old(disk)[key[t] := old(data)[f]]
      ensures old(Settled()) && old(pinned[f] || CleanAt(f)) ==> Settled()
    {
      CleanStays(key, valid, data, disk, f, t);
      Sizes();
      hide Linked, Ordered, AllViews, Settles, Logs, Counted, OnePerKey, At, Clean, Change;
      Overwrite(p, t, data[f]);
      Release(p, f);
    }

    /** A held buffer is given new contents, written to the disk and released. */
    method Overwrite(p: nat, t: nat, d: Block)
      requires Valid() && t < NUMBUF && lock[t] == Some(p) && valid[t] && key[t] != ZERO
      modifies this`data, this`disk, this`next, this`prev, this`refcount, this`users, this`ring, this`stamp,
               this`clock, this`lock
      ensures Valid() && Sees() == Change(old(Sees()), key[t], d) && data == old(data)[t := d] &&
              disk == old(disk)[key[t] := d]
      ensures lock == old(lock)[t := None] && (old(Settled()) ==> Settled())
    {
      Sizes();
      hide Linked, Ordered, AllViews, Settles, Logs, Counted, OnePerKey, At, Clean, Change;
      ghost var v := Sees();
      Modify(p, t, d);
      var ok := Write(p, t);
      ChangeTwice(v, key[t], d);
      Release(p, t);
    }

    /** Every buffer but b is in use, by others than process 1, for blocks other than the two of the run; the disk is
        blank. */
    ghost predicate Crowded(b: nat)
      reads this
    {
      Valid() && b < NUMBUF && home == 0 && log == [] && disk == map[] && Crowd(Now(), b)
    }

    ghost predicate OneFree(b: nat)
      reads this
    {
      Crowded(b) && refcount[b] == 0 && users[b] == {} && lock[b] == None
    }

    /** Processes 2 to 30 refer to one block each. */
    method Occupy() returns (ghost b: nat)
      requires Valid() && home == 0 && log == [] && disk == map[]
      requires forall i :: 0 <= i < NUMBUF ==> refcount[i] == 0 && users[i] == {} && lock[i] == None && key[i] == ZERO
      modifies this`key, this`refcount, this`valid, this`users
      ensures OneFree(b) && key[b] != FAULTED
    {
      ghost var taken: set<nat> := {};
      for n := 0 to NUMBUF - 1
        invariant Valid() && |taken| == n && Taken(taken, n, key, refcount, users)
      {
        taken := OccupyOne(n, taken);
      }
      b := LastFree(taken);
      Unreferenced(refcount, users, pinned, lock, b);
    }

    method OccupyOne(n: nat, ghost taken: set<nat>) returns (ghost more: set<nat>)
      requires Valid() && |taken| == n < NUMBUF - 1 && Taken(taken, n, key, refcount, users)
      modifies this`key, this`refcount, this`valid, this`users
      ensures Valid() && |more| == n + 1 && Taken(more, n + 1, key, refcount, users)
    {
      SomeFree(refcount, taken);
      hide Linked, Ordered, AllViews, Settles, Logs, OnePerKey, At, LeastRecent, Counted, InUse, Got;
      ghost var s := Now();
      var r := Get(n + 2, Key(1, n + 1));
      GotOne(s, Now(), disk, r.value, taken, n);
      more := taken + {r.value};
    }

    /** Process 1 reads one of the two blocks: only buffer b is free for it. */
    method Take(ghost b: nat, k: Key) returns (r: nat)
      requires OneFree(b) && (k == FAULTED || k == OTHER)
      modifies this`key, this`refcount, this`valid, this`users, this`lock, this`data
      ensures r == b && Crowded(b) && lock[b] == Some(1) && users[b] == {1} && refcount[b] == 1 && key[b] == k &&
              valid[b]
      ensures data[b] == if old(key)[b] == k && old(valid)[b] then old(data)[b] else ZeroBlock()
    {
      OnlyIn(b, k);
      hide Linked, Ordered, AllViews, Settles, Logs, OnePerKey, Counted, Took, InUse, At, Change, Crowd;
      ghost var s := Now();
      var o := Read(1, k);
      r := o.value;
      TookFree(s, Now(), disk, k, r, b);
      assert key[b] == k && lock[b] == Some(1) && users[b] == {1} && refcount[b] == 1;
    }

    lemma OnlyIn(b: nat, k: Key)
      requires OneFree(b) && (k == FAULTED || k == OTHER)
      ensures |key| == |users| == |lock| == |valid| == |data| == |refcount| == NUMBUF && !InUse(refcount)
      ensures Sees()[k] == if key[b] == k && valid[b] then data[b] else ZeroBlock()
    {
      if key[b] == k && valid[b] {
        ViewCached(key, valid, data, disk, b);
      } else {
        assert forall i :: !Caches(key, valid, k, i);
      }
    }

    /** buffer_read, a copy that faults after one byte, buffer_release. */
    method FaultingWrite(ghost b: nat)
      requires OneFree(b) && key[b] != FAULTED
      modifies this
      ensures OneFree(b) && key[b] == FAULTED && valid[b] && data[b] == Blit(ZeroBlock(), 0, [1])
    {
      hide Linked, Ordered, AllViews, Settles, Logs, OnePerKey, Counted, Clean;
      var r := Take(b, FAULTED);
      Sizes();
      Modify(1, r, Blit(data[r], 0, [1]));
      Sizes();
      Release(1, r);
    }

    /** Process 1 reads block k and releases it. */
    method Look(ghost b: nat, k: Key) returns (d: Block)
      requires OneFree(b) && (k == FAULTED || k == OTHER)
      modifies this
      ensures OneFree(b) && key[b] == k && valid[b] && data[b] == d
      ensures d == if old(key)[b] == k && old(valid)[b] then old(data)[b] else ZeroBlock()
    {
      hide Linked, Ordered, AllViews, Settles, Logs, OnePerKey, Counted, Clean;
      var r := Take(b, k);
      Sizes();
      d := data[r];
      Release(1, r);
    }

    /** cpy_log_to_home's dec_buf_refcount on the next block to go home. */
    method Unpin(b: nat)
      requires Valid() && b < NUMBUF && home < |log| && key[b] == log[home]
      modifies this`refcount, this`pinned, this`home
      ensures Valid() && home == old(home) + 1 && old(pinned)[b] && pinned == old(pinned)[b := false]
      ensures old(refcount)[b] > 0 && refcount == old(refcount)[b := old(refcount)[b] - 1]
      ensures old(Settled()) ==> (Settled() <==> lock[b].Some? || CleanAt(b))
    {
      UnpinLogs(key, pinned, log, home, b);
      refcount := refcount[b := refcount[b] - 1];
      pinned := pinned[b := false];
      home := home + 1;
    }

    /** `log.loghead.count = 0` at the end of commit. */
    method Retire()
      requires Valid() && home == |log|
      modifies this`log, this`home
      ensures Valid() && log == [] && home == 0 && forall i :: 0 <= i < NUMBUF ==> !pinned[i]
    {
      assert log[home..] == [];
      log, home := [], 0;
    }
  }

  // ---- a change that is lost ----

  const FAULTED: Key := Key(1, 100)
  const OTHER: Key := Key(1, 101)

  /** The run of a write whose copy faults inside a block that is not in the log, from boot: 29 other processes have a
      buffer in use when the write is made, so that the next block read takes the buffer over. Between `seen` and
      `later` nobody writes. */
  method LostWrite() returns (c: Cache, seen: Block, later: Block)
    ensures c.Valid() && seen == Blit(ZeroBlock(), 0, [1]) && later == ZeroBlock() && seen != later
    ensures exists b ::
              0 <= b < NUMBUF == |c.valid| == |c.data| && c.key[b] == FAULTED && c.valid[b] && c.data[b] == later
  {
    c := new Cache(map[]);
    ghost var b := c.Occupy();
    c.FaultingWrite(b);
    seen := c.Look(b, FAULTED);
    later := c.Look(b, OTHER);
    later := c.Look(b, FAULTED);
    assert seen[0] == 1 && later[0] == 0;
    assert c.key[b] == FAULTED && c.data[b] == later;
  }

  /** Recycling a buffer changes no block's contents if and only if the buffer equals its disk block. */
  lemma RecycleLosslessIff(key: seq<Key>, valid: seq<bool>, data: seq<Block>, disk: map<Key, Block>, b: nat)
    requires |key| == |valid| == |data| && OnePerKey(key) && b < NUMBUF
    ensures Change(AllViews(key, valid, data, disk), key[b], At(disk, key[b])) == AllViews(key, valid, data, disk)
      <==> Clean(key, valid, data, disk, b)
  {
    var v := AllViews(key, valid, data, disk);
    if key[b] != ZERO {
      if valid[b] { ViewCached(key, valid, data, disk, b); } else { assert forall i :: !Caches(key, valid, key[b], i); }
      assert Change(v, key[b], At(disk, key[b]))[key[b]] == At(disk, key[b]);
    }
  }

  /** In a settled cache a buffer nobody refers to is a copy of its disk block. */
  lemma UnreferencedEqualsDisk(key: seq<Key>, valid: seq<bool>, data: seq<Block>, disk: map<Key, Block>,
                               refcount: seq<nat>, users: seq<set<nat>>, pinned: seq<bool>, lock: seq<Option<nat>>,
                                   b: nat)
    requires Settles(key, valid, data, disk, pinned, lock) && Counted(refcount, users, pinned, lock)
    requires b < NUMBUF && refcount[b] == 0 && valid[b] && key[b] != ZERO
    ensures data[b] == At(disk, key[b])
  {
    Unreferenced(refcount, users, pinned, lock, b);
    assert Clean(key, valid, data, disk, b);
  }

  // ---- when buffer_get panics ----

  ghost function PinnedSet(pinned: seq<bool>): (r: set<nat>)
    ensures forall i: nat :: i in r <==> i < |pinned| && pinned[i]
  {
    set i: nat | i < |pinned| && pinned[i]
  }

  /** Buffers in use that the log does not pin. */
  ghost function HeldSet(pinned: seq<bool>, users: seq<set<nat>>): (r: set<nat>)
    requires |pinned| == |users|
    ensures forall i: nat :: i in r <==> i < |pinned| && !pinned[i] && users[i] != {}
  {
    set i: nat | i < |pinned| && !pinned[i] && users[i] != {}
  }

  /** Buffer i is the only one for block k. */
  ghost predicate Sole(key: seq<Key>, k: Key, i: nat) {
    i < NUMBUF == |key| && key[i] == k && forall j :: 0 <= j < NUMBUF && key[j] == k ==> j == i
  }

  /** One pinned buffer per logged block still to be installed. */
  lemma {:induction false} PinnedCount(key: seq<Key>, s: set<nat>, keys: seq<Key>)
    requires |key| == NUMBUF && (forall i, j :: 0 <= i < j < |keys| ==> keys[i] != keys[j])
    requires forall i: nat :: i in s <==> i < NUMBUF && key[i] in keys
    requires forall k :: k in keys ==> exists i: nat :: Sole(key, k, i)
    ensures |s| == |keys|
    decreases |keys|
  {
    if keys == [] {
      assert s == {};
    } else {
      var k, rest := keys[0], keys[1..];
      assert k in keys;
      var i: nat :| Sole(key, k, i);
      assert keys == [k] + rest && k !in rest;
      assert forall l :: l in rest ==> l in keys;
      PinnedCount(key, s - {i}, rest);
    }
  }

  lemma PinnedPerBlock(key: seq<Key>, pinned: seq<bool>, log: seq<Key>, home: nat)
    requires OnePerKey(key) && Logs(key, pinned, log, home)
    ensures |PinnedSet(pinned)| == |log| - home
  {
    var keys := log[home..];
    forall k | k in keys ensures exists i: nat :: Sole(key, k, i) {
      assert k in key;
      var i :| 0 <= i < |key| && key[i] == k;
      assert k != ZERO;
      assert Sole(key, k, i);
    }
    PinnedCount(key, PinnedSet(pinned), keys);
  }

  /** Every buffer is referred to, so that buffer_get of a block not cached panics, if and only if the logged blocks not
      yet installed and the other buffers processes hold add up to all buffers. */
  lemma PanicIff(key: seq<Key>, refcount: seq<nat>, users: seq<set<nat>>, pinned: seq<bool>, lock: seq<Option<nat>>,
                 log: seq<Key>, home: nat)
    requires OnePerKey(key) && Logs(key, pinned, log, home) && Counted(refcount, users, pinned, lock)
    ensures InUse(refcount) <==> |log| - home + |HeldSet(pinned, users)| == NUMBUF
  {
    PinnedPerBlock(key, pinned, log, home);
    AllReferred(refcount, users, pinned, lock);
    hide OnePerKey, Logs, Counted, InUse, Below, PinnedSet, HeldSet;
    TwoParts(PinnedSet(pinned), HeldSet(pinned, users), Below(NUMBUF));
  }

  lemma TwoParts(a: set<nat>, b: set<nat>, all: set<nat>)
    requires a !! b && a <= all && b <= all
    ensures a + b == all <==> |a| + |b| == |all|
  {
    assert |a + b| == |a| + |b|;
    if |a| + |b| == |all| { SubsetCard(a + b, all); }
  }

  lemma AllReferred(refcount: seq<nat>, users: seq<set<nat>>, pinned: seq<bool>, lock: seq<Option<nat>>)
    requires Counted(refcount, users, pinned, lock)
    ensures InUse(refcount) <==> PinnedSet(pinned) + HeldSet(pinned, users) == Below(NUMBUF)
  {
    var a, b, all := PinnedSet(pinned), HeldSet(pinned, users), Below(NUMBUF);
    forall i: nat | i < NUMBUF ensures refcount[i] > 0 <==> i in a + b {
      Unreferenced(refcount, users, pinned, lock, i);
    }
    if InUse(refcount) {
      forall i: nat ensures i in a + b <==> i in all {}
    } else {
      var i: nat :| i < NUMBUF && refcount[i] == 0;
      assert i in all && i !in a + b;
    }
  }

  lemma SomeFree(refcount: seq<nat>, taken: set<nat>)
    requires |refcount| == NUMBUF && |taken| < NUMBUF && forall i :: 0 <= i < NUMBUF ==>
             (i in taken <==> refcount[i] > 0)
    ensures !InUse(refcount)
  {
    hide Below;
    if InUse(refcount) {
      assert Below(NUMBUF) <= taken;
      SubsetCard(Below(NUMBUF), taken);
    }
  }

  /** Exactly the buffers in taken are in use, by processes other than 1, for blocks up to n. */
  ghost predicate Taken(taken: set<nat>, n: nat, key: seq<Key>, refcount: seq<nat>, users: seq<set<nat>>) {
    && |key| == |refcount| == |users| == NUMBUF && (forall i :: i in taken ==> i < NUMBUF)
    && (forall i :: 0 <= i < NUMBUF ==> (i in taken <==> refcount[i] > 0) && 1 !in users[i])
    && (forall i :: 0 <= i < NUMBUF ==> key[i] == ZERO || (key[i].dev == 1 && key[i].block <= n))
  }

  lemma GotOne(s: Snap, t: Snap, disk: map<Key, Block>, b: nat, taken: set<nat>, n: nat)
    requires Taken(taken, n, s.key, s.refcount, s.users) && Got(s, t, disk, n + 2, Key(1, n + 1), b)
    ensures b !in taken && Taken(taken + {b}, n + 1, t.key, t.refcount, t.users)
  {
    assert Key(1, n + 1) !in s.key;
  }

  lemma LastFree(taken: set<nat>) returns (b: nat)
    requires |taken| == NUMBUF - 1 && forall i :: i in taken ==> i < NUMBUF
    ensures b < NUMBUF && b !in taken && forall i: nat :: i < NUMBUF && i != b ==> i in taken
  {
    hide Below;
    var all := Below(NUMBUF);
    assert taken <= all;
    var rest := all - taken;
    assert all == taken + rest;
    assert |rest| == 1;
    b :| b in rest;
    SubsetCard({b}, rest);
  }

  /** A log as long as there are buffers leaves none to read any other block into, not even a block of the log. */
  lemma FullLogPanics(key: seq<Key>, refcount: seq<nat>, users: seq<set<nat>>, pinned: seq<bool>,
                      lock: seq<Option<nat>>, log: seq<Key>)
    requires OnePerKey(key) && Logs(key, pinned, log, 0) && Counted(refcount, users, pinned, lock) && |log| == LOGSIZE
    ensures InUse(refcount) && forall k :: k !in log ==> k !in key
  {
    PinnedPerBlock(key, pinned, log, 0);
    AllPinned(pinned);
    assert log[0..] == log;
  }

  lemma AllPinned(pinned: seq<bool>)
    requires |pinned| == |PinnedSet(pinned)| == NUMBUF
    ensures forall i :: 0 <= i < NUMBUF ==> pinned[i]
  {
    hide Below;
    assert PinnedSet(pinned) <= Below(NUMBUF);
    SubsetCard(PinnedSet(pinned), Below(NUMBUF));
    forall i | 0 <= i < NUMBUF ensures pinned[i] {
      assert i in Below(NUMBUF);
    }
  }

  lemma CountedGet(refcount: seq<nat>, users: seq<set<nat>>, pinned: seq<bool>, lock: seq<Option<nat>>, b: nat, p: nat)
    requires Counted(refcount, users, pinned, lock) && b < NUMBUF && p !in users[b]
    ensures Counted(refcount[b := refcount[b] + 1], users[b := users[b] + {p}], pinned, lock)
  {}

  lemma CountedDrop(refcount: seq<nat>, users: seq<set<nat>>, pinned: seq<bool>, lock: seq<Option<nat>>, b: nat, p: nat)
    requires Counted(refcount, users, pinned, lock) && b < NUMBUF && p in users[b] && lock[b] != Some(p)
    ensures refcount[b] > 0
    ensures Counted(refcount[b := refcount[b] - 1], users[b := users[b] - {p}], pinned, lock)
  {
    assert |users[b]| == |users[b] - {p}| + 1;
  }

  lemma Unreferenced(refcount: seq<nat>, users: seq<set<nat>>, pinned: seq<bool>, lock: seq<Option<nat>>, b: nat)
    requires Counted(refcount, users, pinned, lock) && b < NUMBUF
    ensures refcount[b] == 0 <==> !pinned[b] && users[b] == {}
    ensures refcount[b] == 0 ==> lock[b] == None
  {
    assert |users[b]| == 0 <==> users[b] == {};
  }

  lemma Uncached(key: seq<Key>, valid: seq<bool>, data: seq<Block>, disk: map<Key, Block>, k: Key)
    requires |key| == |valid| == |data| && k !in key
    ensures View(key, valid, data, disk, k) == At(disk, k)
  {
    assert forall i :: !Caches(key, valid, k, i);
  }

  lemma RecycleKeys(key: seq<Key>, pinned: seq<bool>, log: seq<Key>, home: nat, b: nat, k: Key)
    requires OnePerKey(key) && Logs(key, pinned, log, home) && b < NUMBUF && !pinned[b] && k !in key
    ensures OnePerKey(key[b := k]) && Logs(key[b := k], pinned, log, home)
  {
    forall l | l in log[home..] ensures l in key[b := k] {
      var i :| 0 <= i < NUMBUF && key[i] == l;
      assert key[b := k][i] == l;
    }
  }

  lemma RecycleView(key: seq<Key>, valid: seq<bool>, data: seq<Block>, disk: map<Key, Block>, b: nat, k: Key)
    requires |key| == |valid| == |data| == NUMBUF && OnePerKey(key) && b < NUMBUF && OnePerKey(key[b := k]) && k !in key
    ensures AllViews(key[b := k], valid[b := false], data, disk) == Change(AllViews(key, valid, data, disk), key[b],
            At(disk, key[b]))
  {
    var key', valid' := key[b := k], valid[b := false];
    forall l | l != ZERO
        ensures View(key', valid', data, disk, l) == if l == key[b]
        then At(disk, l) else View(key, valid, data, disk, l) {
      if l == key[b] {
        assert forall i :: !Caches(key', valid', l, i);
      } else {
        forall i ensures Caches(key, valid, l, i) <==> Caches(key', valid', l, i) {}
        ViewFrame(key, valid, data, disk, key', valid', data, disk, l);
      }
    }
  }

  lemma RecycleSettles(key: seq<Key>, valid: seq<bool>, data: seq<Block>, disk: map<Key, Block>, pinned: seq<bool>,
                       lock: seq<Option<nat>>, b: nat, k: Key)
    requires |key| == |valid| == |data| == NUMBUF && OnePerKey(key) && b < NUMBUF && |pinned| == |lock| == NUMBUF &&
             !pinned[b] && lock[b] == None
    requires Settles(key, valid, data, disk, pinned, lock)
    ensures Settles(key[b := k], valid[b := false], data, disk, pinned, lock)
    ensures Change(AllViews(key, valid, data, disk), key[b], At(disk, key[b])) == AllViews(key, valid, data, disk)
  {
    if key[b] != ZERO {
      assert Clean(key, valid, data, disk, b);
      if valid[b] {
        ViewCached(key, valid, data, disk, b);
      } else {
        assert forall i :: !Caches(key, valid, key[b], i);
      }
    }
  }

  lemma FillView(key: seq<Key>, valid: seq<bool>, data: seq<Block>, disk: map<Key, Block>, b: nat)
    requires |key| == |valid| == |data| == NUMBUF && OnePerKey(key) && b < NUMBUF
    ensures !valid[b] ==>
            AllViews(key, valid[b := true], data[b := At(disk, key[b])], disk) == AllViews(key, valid, data, disk)
    ensures key[b] != ZERO ==>
            AllViews(key, valid, data, disk)[key[b]] == if valid[b] then data[b] else At(disk, key[b])
  {
    if key[b] != ZERO {
      if valid[b] { ViewCached(key, valid, data, disk, b); } else { assert forall i :: !Caches(key, valid, key[b], i); }
    }
    if !valid[b] {
      var valid', data' := valid[b := true], data[b := At(disk, key[b])];
      forall l | l != ZERO ensures View(key, valid', data', disk, l) == View(key, valid, data, disk, l) {
        if l == key[b] {
          ViewCached(key, valid', data', disk, b);
        } else {
          forall i ensures Caches(key, valid, l, i) <==> Caches(key, valid', l, i) {}
          ViewFrame(key, valid, data, disk, key, valid', data', disk, l);
        }
      }
    }
  }

  lemma ModifyView(key: seq<Key>, valid: seq<bool>, data: seq<Block>, disk: map<Key, Block>, b: nat, d: Block)
    requires |key| == |valid| == |data| == NUMBUF && OnePerKey(key) && b < NUMBUF && valid[b]
    ensures AllViews(key, valid, data[b := d], disk) == Change(AllViews(key, valid, data, disk), key[b], d)
  {
    var data' := data[b := d];
    forall l | l != ZERO
        ensures View(key, valid, data', disk, l) == if l == key[b] then d else View(key, valid, data, disk, l) {
      if l == key[b] { ViewCached(key, valid, data', disk, b); }
          else { ViewFrame(key, valid, data, disk, key, valid, data', disk, l); }
    }
  }

  lemma WriteView(key: seq<Key>, valid: seq<bool>, data: seq<Block>, disk: map<Key, Block>, b: nat)
    requires |key| == |valid| == |data| == NUMBUF && OnePerKey(key) && b < NUMBUF
    ensures AllViews(key, valid, data, disk[key[b] := data[b]]) == Change(AllViews(key, valid, data, disk), key[b],
            data[b])
  {
    var disk' := disk[key[b] := data[b]];
    forall l | l != ZERO
        ensures View(key, valid, data, disk', l) == if l == key[b] then data[b] else View(key, valid, data, disk, l) {
      if l != key[b] {
        ViewFrame(key, valid, data, disk, key, valid, data, disk', l);
      } else if valid[b] {
        ViewCached(key, valid, data, disk', b);
      } else {
        assert forall i :: !Caches(key, valid, l, i);
      }
    }
  }

  lemma CleanStays(key: seq<Key>, valid: seq<bool>, data: seq<Block>, disk: map<Key, Block>, f: nat, t: nat)
    requires |key| == |valid| == |data| == NUMBUF && OnePerKey(key) && f < NUMBUF && t < NUMBUF && f != t &&
             key[f] != ZERO
    ensures Clean(key, valid, data[t := data[f]], disk[key[t] := data[f]], f) == Clean(key, valid, data, disk, f)
  {}

  lemma PinLogs(key: seq<Key>, pinned: seq<bool>, log: seq<Key>, b: nat)
    requires Logs(key, pinned, log, 0) && OnePerKey(key) && b < NUMBUF && key[b] != ZERO && key[b] !in log &&
             |log| < LOGSIZE
    ensures !pinned[b] && Logs(key, pinned[b := true], log + [key[b]], 0)
  {
    assert log[0..] == log && (log + [key[b]])[0..] == log + [key[b]];
  }

  lemma UnpinLogs(key: seq<Key>, pinned: seq<bool>, log: seq<Key>, home: nat, b: nat)
    requires Logs(key, pinned, log, home) && OnePerKey(key) && b < NUMBUF && home < |log| && key[b] == log[home]
    ensures pinned[b] && Logs(key, pinned[b := false], log, home + 1)
  {
    assert log[home..] == [log[home]] + log[home + 1..];
    assert log[home] !in log[home + 1..];
  }

  lemma MovedFront(ring: seq<nat>, stamp: seq<nat>, clock: nat, k: nat)
    requires Ordered(ring, stamp, clock) && 0 < k < |ring| && Distinct(ring) && ring[0] == HEAD
    ensures Ordered([HEAD, ring[k]] + (ring[..k] + ring[k + 1..])[1..], stamp[ring[k] := clock], clock + 1)
    ensures ring[k] !in ring[..k] + ring[k + 1..]
  {
    var r := [HEAD, ring[k]] + (ring[..k] + ring[k + 1..])[1..];
    assert forall j :: 2 <= j < |r| ==> r[j] == ring[if j <= k then j - 1 else j];
    assert r[1] == ring[k];
    forall i: nat | i < NUMBUF ensures i in r {
      var l := Pos(ring, i);
      assert r[if l == k then 1 else if l < k then l + 1 else l] == i;
    }
  }
}
