/** The write-ahead log of src/kernel/filesys.c.

    The device is a sequence of blocks; one device write is one atomic step and a crash can fall between any two.
    `LogLayer.trace` records the device after every write, each point tagged with the committed
    state that replaying the on-disk header must restore. */
module Log {
  import opened Common
  import opened Blocks

  // ---------------------------------------------------------------- replay, the meaning of a log on disk

  /** The log region is `LOGSIZE` blocks: the header and the slots after it. */
  predicate Home(start: nat, b: nat) {
    b < start || start + LOGSIZE <= b
  }

  ghost predicate HomeEq(start: nat, d: Disk, e: Disk) {
    |d| == |e| && forall b :: 0 <= b < |d| && Home(start, b) ==> d[b] == e[b]
  }

  /** `block[0 .. n-1]` of a header block. */
  function Entries(h: Block, n: nat): (s: seq<nat>)
    requires n < WORDS
    ensures |s| == n && forall i :: 0 <= i < n ==> s[i] == GetWord(h, 1 + i)
  {
    seq(n, i requires 0 <= i < n => GetWord(h, 1 + i))
  }

  ghost predicate AllHome(start: nat, size: nat, homes: seq<nat>) {
    forall i :: 0 <= i < |homes| ==> homes[i] < size && Home(start, homes[i])
  }

  /** The home blocks an on-disk header names. */
  ghost function Homes(d: Disk, start: nat): (s: seq<nat>)
    requires HeaderOk(d, start)
    ensures |s| == GetWord(d[start], 0) && AllHome(start, |d|, s)
  {
    Entries(d[start], GetWord(d[start], 0))
  }

  /** Copy slots 0 .. n-1 to their home blocks, in order. */
  function Install(d: Disk, start: nat, homes: seq<nat>, n: nat): (e: Disk)
    requires n <= |homes| && start + n < |d|
    requires forall i :: 0 <= i < n ==> homes[i] < |d|
    ensures |e| == |d|
  {
    if n == 0 then d else
      var e := Install(d, start, homes, n - 1);
      e[homes[n - 1] := e[start + n]]
  }

  /** A header a commit can have written: fewer than LOGSIZE entries, each naming a home block. */
  ghost predicate HeaderOk(d: Disk, start: nat) {
    && start + LOGSIZE <= |d|
    && GetWord(d[start], 0) < LOGSIZE
    && AllHome(start, |d|, Entries(d[start], GetWord(d[start], 0)))
  }

  /** What recovery has to leave behind. */
  ghost function Replay(d: Disk, start: nat): (e: Disk)
    requires HeaderOk(d, start)
    ensures |e| == |d|
  {
    Install(d, start, Homes(d, start), |Homes(d, start)|)
  }

  /** The last slot whose home is b, or -1. */
  ghost function LastSlot(homes: seq<nat>, n: nat, b: nat): (k: int)
    requires n <= |homes|
    ensures -1 <= k < n
    ensures k >= 0 ==> homes[k] == b
    ensures forall j :: k < j < n ==> homes[j] != b
  {
    if n == 0 then -1 else if homes[n - 1] == b then n - 1 else LastSlot(homes, n - 1, b)
  }

  lemma {:induction false} InstallAt(d: Disk, start: nat, homes: seq<nat>, n: nat, b: nat)
    requires n <= |homes| && n < LOGSIZE && start + LOGSIZE <= |d| && b < |d|
    requires AllHome(start, |d|, homes[..n])
    ensures var k := LastSlot(homes, n, b);
            Install(d, start, homes, n)[b] == if k >= 0 then d[start + 1 + k] else d[b]
  {
    assert forall i :: 0 <= i < n ==> homes[i] == homes[..n][i];
    if n > 0 {
      assert homes[..n][..n - 1] == homes[..n - 1];
      InstallAt(d, start, homes, n - 1, b);
      InstallAt(d, start, homes, n - 1, start + n);
    }
  }

  /** Copying home never writes the log region. */
  lemma {:induction false} InstallKeepsLog(d: Disk, start: nat, homes: seq<nat>, n: nat, b: nat)
    requires n <= |homes| && n < LOGSIZE && start + LOGSIZE <= |d| && b < |d| && !Home(start, b)
    requires forall i :: 0 <= i < n ==> homes[i] < |d| && Home(start, homes[i])
    ensures Install(d, start, homes, n)[b] == d[b]
  {
    if n > 0 {
      InstallKeepsLog(d, start, homes, n - 1, b);
    }
  }

  lemma RestartAt(d: Disk, start: nat, homes: seq<nat>, k: nat, b: nat)
    requires k <= |homes| < LOGSIZE && start + LOGSIZE <= |d| && b < |d| && AllHome(start, |d|, homes)
    ensures Install(Install(d, start, homes, k), start, homes, |homes|)[b] == Install(d, start, homes, |homes|)[b]
  {
    var e, n := Install(d, start, homes, k), |homes|;
    assert homes[..n] == homes;
    InstallAt(d, start, homes, n, b);
    InstallAt(e, start, homes, n, b);
    var s := LastSlot(homes, n, b);
    if s >= 0 {
      InstallKeepsLog(d, start, homes, k, start + 1 + s);
    } else {
      InstallAt(d, start, homes, k, b);
    }
  }

  /** A replay that crashes after k copies can be started again from the beginning. */
  lemma ReplayRestart(d: Disk, start: nat, k: nat)
    requires HeaderOk(d, start) && k <= |Homes(d, start)|
    ensures var e := Install(d, start, Homes(d, start), k);
            HeaderOk(e, start) && e[start] == d[start] && Replay(e, start) == Replay(d, start)
  {
    var homes := Homes(d, start);
    InstallKeepsLog(d, start, homes, k, start);
    forall b | 0 <= b < |d|
      ensures Install(Install(d, start, homes, k), start, homes, |homes|)[b] == Install(d, start, homes, |homes|)[b]
    {
      RestartAt(d, start, homes, k, b);
    }
  }

  lemma EmptyReplay(d: Disk, start: nat)
    requires start + LOGSIZE <= |d| && GetWord(d[start], 0) == 0
    ensures HeaderOk(d, start) && Replay(d, start) == d
  {
  }

  /** Any number of crashed replays in a row, each cut at an arbitrary point. */
  ghost function CrashedReplays(d: Disk, start: nat, cuts: seq<nat>): Disk
    requires HeaderOk(d, start)
    requires forall i :: 0 <= i < |cuts| ==> cuts[i] <= |Homes(d, start)|
    decreases |cuts|
  {
    if cuts == [] then d else
      ReplayRestart(d, start, cuts[0]);
      CrashedReplays(Install(d, start, Homes(d, start), cuts[0]), start, cuts[1..])
  }

  lemma {:induction false} CrashedReplaysConverge(d: Disk, start: nat, cuts: seq<nat>)
    requires HeaderOk(d, start)
    requires forall i :: 0 <= i < |cuts| ==> cuts[i] <= |Homes(d, start)|
    ensures var e := CrashedReplays(d, start, cuts);
            HeaderOk(e, start) && Replay(e, start) == Replay(d, start)
    decreases |cuts|
  {
    if cuts != [] {
      ReplayRestart(d, start, cuts[0]);
      CrashedReplaysConverge(Install(d, start, Homes(d, start), cuts[0]), start, cuts[1..]);
    }
  }

  // ---------------------------------------------------------------- crash points of a commit

  datatype CrashPoint = CrashPoint(disk: Disk, epoch: nat)

  /** Replaying after a crash at p restores the committed state p is tagged with. */
  ghost predicate Recovers(p: CrashPoint, start: nat, committed: seq<Disk>) {
    && HeaderOk(p.disk, start)
    && p.epoch < |committed|
    && HomeEq(start, Replay(p.disk, start), committed[p.epoch])
  }

  /** Every crash point of the run recovers to a committed state, and never to an older one than an earlier point. */
  ghost predicate CrashSafe(trace: seq<CrashPoint>, start: nat, committed: seq<Disk>) {
    && (forall i :: 0 <= i < |trace| ==> Recovers(trace[i], start, committed))
    && (forall i, j :: 0 <= i < j < |trace| ==> trace[i].epoch <= trace[j].epoch)
  }

  /** All of these points recover to committed state e. */
  ghost predicate AllRecover(points: seq<CrashPoint>, start: nat, committed: seq<Disk>, e: nat) {
    forall i :: 0 <= i < |points| ==> points[i].epoch == e && Recovers(points[i], start, committed)
  }

  /** Later points may be added to a crash-safe run. */
  lemma CrashSafeAppend(t: seq<CrashPoint>, u: seq<CrashPoint>, start: nat, committed: seq<Disk>, e: nat)
    requires CrashSafe(t, start, committed) && AllRecover(u, start, committed, e)
    requires forall i :: 0 <= i < |t| ==> t[i].epoch <= e
    ensures CrashSafe(t + u, start, committed)
  {
  }

  /** Committing a further state leaves earlier crash points safe. */
  lemma CrashSafeGrow(t: seq<CrashPoint>, start: nat, committed: seq<Disk>, d: Disk)
    requires CrashSafe(t, start, committed)
    ensures CrashSafe(t, start, committed + [d])
  {
    forall i | 0 <= i < |t| ensures Recovers(t[i], start, committed + [d]) {
      assert Recovers(t[i], start, committed);
    }
  }

  /** The device after the first n slot writes of write_log, from cached contents v. */
  ghost function Slots(d: Disk, v: Disk, start: nat, homes: seq<nat>, n: nat): (e: Disk)
    requires n <= |homes| && start + n < |d| && forall i :: 0 <= i < n ==> homes[i] < |v|
    ensures |e| == |d|
  {
    if n == 0 then d else Slots(d, v, start, homes, n - 1)[start + n := v[homes[n - 1]]]
  }

  lemma {:induction false} SlotsAt(d: Disk, v: Disk, start: nat, homes: seq<nat>, n: nat, b: nat)
    requires n <= |homes| && start + n < |d| && b < |d| && forall i :: 0 <= i < n ==> homes[i] < |v|
    ensures Slots(d, v, start, homes, n)[b] == if start < b <= start + n then v[homes[b - start - 1]] else d[b]
  {
    if n > 0 {
      SlotsAt(d, v, start, homes, n - 1, b);
    }
  }

  ghost function SlotPoints(d: Disk, v: Disk, start: nat, homes: seq<nat>, n: nat, e: nat): (t: seq<CrashPoint>)
    requires n <= |homes| && start + n < |d| && forall i :: 0 <= i < n ==> homes[i] < |v|
    ensures |t| == n
  {
    if n == 0 then [] else
      SlotPoints(d, v, start, homes, n - 1, e) + [CrashPoint(Slots(d, v, start, homes, n), e)]
  }

  ghost function HomePoints(d: Disk, start: nat, homes: seq<nat>, n: nat, e: nat): (t: seq<CrashPoint>)
    requires n <= |homes| && start + n < |d| && forall i :: 0 <= i < n ==> homes[i] < |d|
    ensures |t| == n
  {
    if n == 0 then [] else
      HomePoints(d, start, homes, n - 1, e) + [CrashPoint(Install(d, start, homes, n), e)]
  }

  /** While the header is clear, slot writes change no home block. */
  lemma {:induction false} SlotPointsRecover(d: Disk, v: Disk, start: nat, homes: seq<nat>, n: nat, e: nat,
                                             committed: seq<Disk>)
    requires n <= |homes| && n < LOGSIZE && start + LOGSIZE <= |d| && forall i :: 0 <= i < n ==> homes[i] < |v|
    requires GetWord(d[start], 0) == 0 && e < |committed| && HomeEq(start, d, committed[e])
    ensures AllRecover(SlotPoints(d, v, start, homes, n, e), start, committed, e)
  {
    if n > 0 {
      SlotPointsRecover(d, v, start, homes, n - 1, e, committed);
      var s := Slots(d, v, start, homes, n);
      forall b | 0 <= b < |d| ensures s[b] == if start < b <= start + n then v[homes[b - start - 1]] else d[b] {
        SlotsAt(d, v, start, homes, n, b);
      }
      EmptyReplay(s, start);
      assert Recovers(CrashPoint(s, e), start, committed);
    }
  }

  /** While the header stays, every prefix of the copy home replays to the same state. */
  lemma {:induction false} HomePointsRecover(d: Disk, start: nat, n: nat, e: nat, committed: seq<Disk>)
    requires HeaderOk(d, start) && n <= |Homes(d, start)|
    requires Recovers(CrashPoint(d, e), start, committed)
    ensures AllRecover(HomePoints(d, start, Homes(d, start), n, e), start, committed, e)
  {
    if n > 0 {
      HomePointsRecover(d, start, n - 1, e, committed);
      ReplayRestart(d, start, n);
      assert Recovers(CrashPoint(Install(d, start, Homes(d, start), n), e), start, committed);
    }
  }

  /** With the slots written, a header naming the homes makes replay produce the cached contents. */
  lemma ReplayOfNewHeader(d: Disk, v: Disk, start: nat, homes: seq<nat>)
    requires |d| == |v| && HeaderOk(d, start) && Homes(d, start) == homes
    requires forall s :: start < s <= start + |homes| ==> d[s] == v[homes[s - start - 1]]
    requires forall b :: 0 <= b < |d| && Home(start, b) && b !in homes ==> d[b] == v[b]
    ensures HomeEq(start, Replay(d, start), v)
  {
    assert homes[..|homes|] == homes;
    forall b | 0 <= b < |d| && Home(start, b) ensures Replay(d, start)[b] == v[b] {
      InstallAt(d, start, homes, |homes|, b);
    }
  }

  // ---------------------------------------------------------------- the log layer

  class LogLayer {
    const start: nat              // log.start
    var disk: Disk                // the device
    var view: Disk                // what buffer_read returns: the cached block, else the device's
    var block: seq<nat>           // log.loghead.block
    var count: nat                // log.loghead.count
    ghost var committed: seq<Disk>
    ghost var trace: seq<CrashPoint>
    ghost var stale: set<nat>     // changed in the cache by a copy that faulted, and released without log_write

    ghost predicate Shape()
      reads this
    {
      && start + LOGSIZE <= |disk| && |disk| == |view| && |disk| < 0x8000_0000
      && |block| == LOGSIZE && count <= LOGSIZE
      && AllHome(start, |disk|, block[..count])
    }

    /** Between commits: nothing to replay, only logged and stale blocks differ from the device,
        and every crash point so far is safe. */
    ghost predicate Valid()
      reads this
    {
      && Shape() && Distinct(block[..count])
      && GetWord(disk[start], 0) == 0
      && (forall b :: 0 <= b < |disk| && b !in block[..count] && b !in stale ==> view[b] == disk[b])
      && (forall b :: b in stale ==> b < |disk| && Home(start, b) && b !in block[..count])
      && 0 < |committed| && HomeEq(start, disk, committed[|committed| - 1])
      && CrashSafe(trace, start, committed)
    }

    constructor (d: Disk, logStart: nat)
      requires logStart + LOGSIZE <= |d| < 0x8000_0000 && GetWord(d[logStart], 0) == 0
      ensures Valid() && start == logStart && disk == view == d && count == 0 && committed == [d] && trace == [] &&
              stale == {}
    {
      start, disk, view, block, count := logStart, d, d, seq(LOGSIZE, i => 0), 0;
      committed, trace, stale := [d], [], {};
    }

    /** log_write: panics on a full log, against log.size, and outside a transaction; a block already in the
        transaction is absorbed. */
    method Record(b: nat, size: int, syscalls: int) returns (ok: bool)
      requires |block| == LOGSIZE && count <= LOGSIZE
      modifies this`block, this`count
      ensures ok <==> old(count) < LOGSIZE && old(count) < size - 1 && syscalls >= 1
      ensures |block| == LOGSIZE && count <= LOGSIZE
      ensures ok ==> block[..count] == if b in old(block[..count])
                     then old(block[..count]) else old(block[..count]) + [b]
      ensures !ok ==> block == old(block) && count == old(count)
    {
      if count >= LOGSIZE || count >= size - 1 || syscalls < 1 {
        return false;
      }
      var i := 0;
      while i < count && block[i] != b
        invariant 0 <= i <= count
        invariant b !in block[..i]
      {
        i := i + 1;
      }
      assert i < count ==> block[..count][i] == b;
      block := block[i := b];
      if i == count {
        count := count + 1;
      }
      ok := true;
    }

    /** A buffer is given new contents and passed to log_write. log.size is the size of the device, not of the log, so
        its test adds nothing. */
    method LogWrite(b: nat, data: Block, syscalls: int) returns (ok: bool)
      requires Valid() && b < |disk| && Home(start, b)
      modifies this`view, this`block, this`count, this`stale
      ensures ok <==> old(count) < LOGSIZE && syscalls >= 1
      ensures view == old(view)[b := data]
      ensures ok ==> Valid() && stale == old(stale) - {b}
      ensures ok ==> block[..count] == if b in old(block[..count])
                     then old(block[..count]) else old(block[..count]) + [b]
    {
      hide CrashSafe, HomeEq, GetWord;
      view := view[b := data];
      ok := Record(b, |disk|, syscalls);
      if ok { stale := stale - {b}; }
    }

    /** A buffer is given new contents and released without log_write, as write_inode does when its copy faults. */
    method Abandon(b: nat, data: Block)
      requires Valid() && b < |disk| && Home(start, b)
      modifies this`view, this`stale
      ensures Valid() && view == old(view)[b := data]
      ensures stale == if b in block[..count] then old(stale) else old(stale) + {b}
    {
      hide CrashSafe, HomeEq, GetWord;
      view := view[b := data];
      if b !in block[..count] { stale := stale + {b}; }
    }

    /** The buffer of a block that is not pinned is recycled. */
    method Evict(b: nat)
      requires Valid() && b < |disk| && b !in block[..count]
      modifies this`view, this`stale
      ensures Valid() && view == old(view)[b := disk[b]] && stale == old(stale) - {b}
      ensures b !in old(stale) ==> view == old(view)
    {
      hide CrashSafe, HomeEq, GetWord;
      view := view[b := disk[b]];
      stale := stale - {b};
    }

    /** buffer_write: the device and the cached copy get the block; one crash point is added. */
    method BufferWrite(b: nat, data: Block, ghost epoch: nat)
      requires b < |disk| && |disk| == |view|
      modifies this`disk, this`view, this`trace
      ensures disk == old(disk)[b := data] && view == old(view)[b := data]
      ensures trace == old(trace) + [CrashPoint(disk, epoch)]
    {
      disk, view := disk[b := data], view[b := data];
      trace := trace + [CrashPoint(disk, epoch)];
    }

    method WriteLog(ghost epoch: nat)
      requires Shape() && count < LOGSIZE
      modifies this`disk, this`view, this`trace
      ensures disk == Slots(old(disk), old(view), start, block[..count], count)
      ensures view == Slots(old(view), old(view), start, block[..count], count)
      ensures trace == old(trace) + SlotPoints(old(disk), old(view), start, block[..count], count, epoch)
    {
      ghost var homes := block[..count];
      var i := 0;
      while i < count
        invariant 0 <= i <= count
        invariant disk == Slots(old(disk), old(view), start, homes, i)
        invariant view == Slots(old(view), old(view), start, homes, i)
        invariant trace == old(trace) + SlotPoints(old(disk), old(view), start, homes, i, epoch)
      {
        assert block[i] == homes[i];
        SlotsAt(old(view), old(view), start, homes, i, block[i]);
        BufferWrite(start + i + 1, view[block[i]], epoch);
        i := i + 1;
      }
    }

    /** The header block takes the in-memory count and entries; later entries keep their old words. */
    method HeaderImage() returns (h: Block)
      requires Shape()
      ensures GetWord(h, 0) == count && Entries(h, count) == block[..count]
      ensures forall i :: count < i < WORDS ==> GetWord(h, i) == GetWord(view[start], i)
    {
      h := PutWord(view[start], 0, count);
      forall j | 0 <= j < WORDS ensures GetWord(h, j) == if j == 0 then count else GetWord(view[start], j) {
        PutGet(view[start], 0, count, j);
      }
      var i := 0;
      while i < count
        invariant 0 <= i <= count
        invariant GetWord(h, 0) == count
        invariant forall j :: 0 < j <= i ==> GetWord(h, j) == block[j - 1]
        invariant forall j :: i < j < WORDS ==> GetWord(h, j) == GetWord(view[start], j)
      {
        var g := h;
        assert block[i] == block[..count][i];
        h := PutWord(g, 1 + i, block[i]);
        forall j | 0 <= j < WORDS ensures GetWord(h, j) == if j == 1 + i then block[i] else GetWord(g, j) {
          PutGet(g, 1 + i, block[i], j);
        }
        i := i + 1;
      }
    }

    method WriteHeader(ghost epoch: nat) returns (h: Block)
      requires Shape()
      modifies this`disk, this`view, this`trace
      ensures GetWord(h, 0) == count && Entries(h, count) == block[..count]
      ensures disk == old(disk)[start := h] && view == old(view)[start := h]
      ensures trace == old(trace) + [CrashPoint(disk, epoch)]
    {
      h := HeaderImage();
      BufferWrite(start, h, epoch);
    }

    method CpyLogToHome(ghost epoch: nat)
      requires Shape() && count < LOGSIZE
      requires forall s :: start < s <= start + count ==> view[s] == disk[s]
      modifies this`disk, this`view, this`trace
      ensures disk == Install(old(disk), start, block[..count], count)
      ensures view == Install(old(view), start, block[..count], count)
      ensures trace == old(trace) + HomePoints(old(disk), start, block[..count], count, epoch)
    {
      ghost var homes := block[..count];
      var i := 0;
      while i < count
        invariant 0 <= i <= count
        invariant disk == Install(old(disk), start, homes, i)
        invariant view == Install(old(view), start, homes, i)
        invariant trace == old(trace) + HomePoints(old(disk), start, homes, i, epoch)
      {
        assert block[i] == homes[i];
        InstallKeepsLog(old(disk), start, homes, i, start + 1 + i);
        InstallKeepsLog(old(view), start, homes, i, start + 1 + i);
        BufferWrite(block[i], view[start + i + 1], epoch);
        i := i + 1;
      }
    }

    /** write_log, then write_header: the transaction becomes durable with the last of these writes. Of the cached
        contents only the logged blocks matter; w is any state that agrees on them. */
    method Publish(ghost epoch: nat, ghost w: Disk) returns (h: Block)
      requires Shape() && ReadyToCommit(disk, w, start, block[..count]) && epoch > 0 && AgreeOn(view, w, block[..count])
      modifies this`disk, this`view, this`trace
      ensures Shape() && HeaderFor(h, block[..count])
      ensures disk == Logged(old(disk), w, start, block[..count], h)
      ensures view == Slots(old(view), old(view), start, block[..count], count)[start := h]
      ensures trace == old(trace) + SlotPoints(old(disk), w, start, block[..count], count,
              epoch - 1) + [CrashPoint(disk, epoch)]
    {
      SlotsAgree(disk, view, w, start, block[..count], count, epoch - 1);
      WriteLog(epoch - 1);
      h := WriteHeader(epoch);
    }

    /** cpy_log_to_home, then the header with count zero. */
    method Retire(ghost epoch: nat) returns (h0: Block)
      requires Shape() && count < LOGSIZE
      requires forall s :: start < s <= start + count ==> view[s] == disk[s]
      modifies this`disk, this`view, this`trace, this`count
      ensures Shape() && count == 0 && GetWord(h0, 0) == 0
      ensures disk == Install(old(disk), start, old(block[..count]), old(count))[start := h0]
      ensures view == Install(old(view), start, old(block[..count]), old(count))[start := h0]
      ensures trace == old(trace) + LatePoints(old(disk), start, old(block[..count]), h0, epoch)
    {
      CpyLogToHome(epoch);
      count := 0;
      h0 := WriteHeader(epoch);
    }

    /** The whole of commit, as a function of the state it starts from. */
    method CommitWrites(ghost epoch: nat, ghost w: Disk) returns (h: Block, h0: Block)
      requires Shape() && ReadyToCommit(disk, w, start, block[..count]) && epoch > 0 && AgreeOn(view, w, block[..count])
      requires forall b :: 0 <= b < |view| && !Home(start, b) ==> view[b] == w[b]
      modifies this`disk, this`view, this`trace, this`count
      ensures Shape() && count == 0 && HeaderFor(h, old(block[..count])) && GetWord(h0, 0) == 0
      ensures |disk| == |old(disk)| && disk[start] == h0 && HomeEq(start, disk, w)
      ensures |view| == |disk| && forall b :: 0 <= b < |disk| ==>
              view[b] == if old(view)[b] != w[b] then old(view)[b] else disk[b]
      ensures trace == old(trace) + CommitPoints(old(disk), w, start, old(block[..count]), h, h0, epoch)
    {
      ghost var homes, v := block[..count], view;
      hide Install, Slots, LatePoints, SlotPoints, GetWord, HeaderFor;
      h := Publish(epoch, w);
      ViewSynced(old(disk), v, w, start, homes, h);
      h0 := Retire(epoch);
      CommitFinal(old(disk), v, w, start, homes, h, h0);
      Regroup(old(trace), SlotPoints(old(disk), w, start, homes, |homes|, epoch - 1),
              [CrashPoint(Logged(old(disk), w, start, homes, h), epoch)],
              LatePoints(Logged(old(disk), w, start, homes, h), start, homes, h0, epoch));
    }

    /** Crash atomicity. The 2*count+2 device writes of a commit are, in order, the slots, the header, the
        home blocks and the cleared header. A crash before the header write recovers to the old
        committed state, one from the header write on recovers to the new state, and at return
        the new state is on the home blocks. The new state is what the cache shows, but for stale blocks,
        which keep their device contents. */
    method Commit()
      requires Valid() && count < LOGSIZE
      modifies this
      ensures Valid() && count == 0 && stale == old(stale)
      ensures HomeEq(start, disk, Durable(old(view), old(disk), stale)) && HomeEq(start, view, old(view))
      ensures HomeEq(start, disk, old(view)) <==> forall b :: b in stale ==> old(view)[b] == old(disk)[b]
      ensures old(trace) <= trace
      ensures old(count) == 0 ==> committed == old(committed) && trace == old(trace)
      ensures old(count) > 0 ==>
                && committed == old(committed) + [Durable(old(view), old(disk), stale)]
                && |trace| == |old(trace)| + 2 * old(count) + 2
                && forall i :: |old(trace)| <= i < |trace| ==>
                     trace[i].epoch == if i < |old(trace)| + old(count) then |old(committed)| - 1 else |old(committed)|
    {
      ghost var v, d := view, disk;
      if count > 0 {
        hide CrashSafe, HomeEq, GetWord, Durable;
        CommitSome();
      } else {
        assert HomeEq(start, d, Durable(v, d, stale));
      }
      DurableIff(start, v, d, stale, disk, Durable(v, d, stale));
    }

    method CommitSome()
      requires Valid() && 0 < count < LOGSIZE
      modifies this`disk, this`view, this`trace, this`count, this`committed
      ensures Valid() && count == 0
      ensures HomeEq(start, disk, Durable(old(view), old(disk), stale)) && HomeEq(start, view, old(view))
      ensures old(trace) <= trace && committed == old(committed) + [Durable(old(view), old(disk), stale)]
      ensures |trace| == |old(trace)| + 2 * old(count) + 2
      ensures forall i :: |old(trace)| <= i < |trace| ==>
                trace[i].epoch == if i < |old(trace)| + old(count) then |old(committed)| - 1 else |old(committed)|
    {
      ghost var w := Durable(view, disk, stale);
      ghost var t, d, v, c, homes := trace, disk, view, committed, block[..count];
      assert ReadyToCommit(d, w, start, homes) && HomeEq(start, d, c[|c| - 1]) && CrashSafe(t, start, c);
      hide CrashSafe, ReadyToCommit, HeaderFor, CommitPoints, GetWord, HomeEq;
      var h, h0 := CommitWrites(|c|, w);
      CommitPointsRecover(t, d, w, start, homes, h, h0, c);
      ViewKept(start, v, d, stale, w, disk, view);
      committed := c + [w];
      assert block[..count] == [];
    }

    /** read_header as the source has it: the loop is bounded by the in-memory count, which is never loaded. */
    method ReadHeader()
      requires |block| == LOGSIZE && count <= LOGSIZE && start < |view|
      modifies this`block
      ensures |block| == LOGSIZE && block[count..] == old(block)[count..]
      ensures block[..count] == Entries(view[start], count)
    {
      var i := 0;
      while i < count
        invariant 0 <= i <= count && |block| == LOGSIZE
        invariant block[count..] == old(block)[count..]
        invariant forall j :: 0 <= j < i ==> block[j] == Entries(view[start], count)[j]
      {
        block := block[i := GetWord(view[start], 1 + i)];
        i := i + 1;
      }
    }

    /** recover_from_log as the source has it, at boot, when the in-memory count is still zero:
        one device write, which erases the header; no home block changes. */
    method RecoverFromLog(ghost epoch: nat)
      requires Shape() && count == 0
      modifies this`disk, this`view, this`block, this`trace
      ensures exists h: Block :: GetWord(h, 0) == 0 && disk == old(disk)[start := h]
      ensures HomeEq(start, disk, old(disk))
      ensures trace == old(trace) + [CrashPoint(disk, epoch)]
    {
      ReadHeader();
      CpyLogToHome(epoch);
      var h := WriteHeader(epoch);
    }

    /** Recovery with the count read from the device, which is what the replay argument needs.
        It ends in the replayed state, and every crash point inside it replays to that same state. */
    method RecoverIntended(ghost epoch: nat)
      requires Shape() && view == disk && HeaderOk(disk, start)
      requires Recovers(CrashPoint(disk, epoch), start, committed)
      modifies this`disk, this`view, this`block, this`count, this`trace
      ensures Shape() && count == 0 && view == disk && GetWord(disk[start], 0) == 0
      ensures HomeEq(start, disk, Replay(old(disk), start))
      ensures |trace| == |old(trace)| + GetWord(old(disk)[start], 0) + 1 && old(trace) <= trace
      ensures AllRecover(trace[|old(trace)|..], start, committed, epoch)
    {
      count := GetWord(view[start], 0);
      ReadHeader();
      ghost var homes := Homes(disk, start);
      assert block[..count] == homes;
      var h := Retire(epoch);
      LatePointsRecover(old(disk), start, h, epoch, committed);
    }
  }

  function OnesBlock(): Block {
    seq(BLOCK_SIZE, i => 1)
  }

  /** A device with given header, ones in the log slots and zeros elsewhere. */
  ghost function SlotsOfOnes(size: nat, start: nat, h: Block): (d: Disk)
    requires start < size
    ensures |d| == size
  {
    seq(size, b requires 0 <= b < size => if b == start then h else if Home(start, b) then ZeroBlock() else OnesBlock())
  }

  /** RecoverFromLog leaves home blocks as it finds them. That equals replay on every device
      carrying header h exactly when h's count is zero: a committed, uninstalled transaction is lost. */
  lemma WrittenRecoveryExact(h: Block, start: nat, size: nat)
    requires start + LOGSIZE <= size && GetWord(h, 0) < LOGSIZE && AllHome(start, size, Entries(h, GetWord(h, 0)))
    ensures (forall d: Disk :: |d| == size && d[start] == h ==> HomeEq(start, d, Replay(d, start))) <==>
            GetWord(h, 0) == 0
  {
    if GetWord(h, 0) == 0 {
      forall d: Disk | |d| == size && d[start] == h ensures HomeEq(start, d, Replay(d, start)) {
        EmptyReplay(d, start);
      }
    } else {
      var d := SlotsOfOnes(size, start, h);
      var homes := Homes(d, start);
      assert homes[..|homes|] == homes;
      InstallAt(d, start, homes, |homes|, homes[0]);
      assert ZeroBlock()[0] != OnesBlock()[0];
      assert !HomeEq(start, d, Replay(d, start));
    }
  }

  /** Crash atomicity of the slot writes, for all contents. log_write admits LOGSIZE blocks, but
      the last slot of a full log is the first block after the log region: atomic iff one slot is left free. */
  lemma SlotWritesAtomicIff(start: nat, homes: seq<nat>, size: nat)
    requires start + LOGSIZE < size && 0 < |homes| <= LOGSIZE && Distinct(homes) && AllHome(start, size, homes)
    ensures (forall d: Disk, v: Disk, k: nat ::
               |d| == |v| == size && k <= |homes| && (forall b :: 0 <= b < size && b !in homes ==> v[b] == d[b]) ==>
               var e := Slots(d, v, start, homes, k);
               HomeEq(start, e, d) || HomeEq(start, e, v))
            <==> |homes| < LOGSIZE
  {
    if |homes| < LOGSIZE {
      forall d: Disk, v: Disk, k: nat | |d| == |v| == size && k <= |homes|
        ensures HomeEq(start, Slots(d, v, start, homes, k), d)
      {
        forall b | 0 <= b < size ensures Home(start, b) ==> Slots(d, v, start, homes, k)[b] == d[b] {
          SlotsAt(d, v, start, homes, k, b);
        }
      }
    } else {
      var d: Disk := seq(size, b => ZeroBlock());
      var v: Disk := seq(size, b => if b in homes then OnesBlock() else ZeroBlock());
      var e := Slots(d, v, start, homes, LOGSIZE);
      var b := if homes[0] == start + LOGSIZE then homes[1] else homes[0];
      assert homes[LOGSIZE - 1] in homes && b in homes;
      SlotsAt(d, v, start, homes, LOGSIZE, start + LOGSIZE);
      SlotsAt(d, v, start, homes, LOGSIZE, b);
      assert ZeroBlock()[0] != OnesBlock()[0];
      assert Home(start, start + LOGSIZE) && Home(start, b);
      assert !HomeEq(start, e, d) && !HomeEq(start, e, v);
    }
  }

  lemma Regroup<T>(a: seq<T>, b: seq<T>, c: seq<T>, d: seq<T>)
    ensures a + b + c + d == a + (b + (c + d))
  {
  }

  /** What a crash or an eviction leaves of cached contents v: stale blocks are as on the device. */
  ghost function Durable(v: Disk, d: Disk, stale: set<nat>): (w: Disk)
    requires |v| == |d|
    ensures |w| == |v| && forall b :: 0 <= b < |v| ==> w[b] == if b in stale then d[b] else v[b]
  {
    seq(|v|, b requires 0 <= b < |v| => if b in stale then d[b] else v[b])
  }

  lemma DurableIff(start: nat, v: Disk, d: Disk, stale: set<nat>, e: Disk, w: Disk)
    requires |v| == |d| == |e| && w == Durable(v, d, stale) && HomeEq(start, e, w) && forall b :: b in stale ==>
             b < |d| && Home(start, b)
    ensures HomeEq(start, e, v) <==> forall b :: b in stale ==> v[b] == d[b]
  {
    if HomeEq(start, e, v) {
      forall b | b in stale ensures v[b] == d[b] {
        assert e[b] == w[b];
      }
    }
  }

  lemma ViewKept(start: nat, v: Disk, d: Disk, stale: set<nat>, w: Disk, e: Disk, u: Disk)
    requires |v| == |d| == |e| == |u| && w == Durable(v, d, stale) && HomeEq(start, e, w)
    requires forall b :: 0 <= b < |v| ==> u[b] == if v[b] != w[b] then v[b] else e[b]
    ensures HomeEq(start, u, v) && forall b :: 0 <= b < |v| && b !in stale ==> u[b] == e[b]
  {}

  ghost predicate AgreeOn(v: Disk, w: Disk, homes: seq<nat>) {
    |v| == |w| && forall i :: 0 <= i < |homes| ==> homes[i] < |v| && v[homes[i]] == w[homes[i]]
  }

  lemma {:induction false} SlotsAgree(d: Disk, v: Disk, w: Disk, start: nat, homes: seq<nat>, n: nat, e: nat)
    requires n <= |homes| && start + n < |d| && AgreeOn(v, w, homes)
    ensures Slots(d, v, start, homes, n) == Slots(d, w, start, homes, n)
    ensures SlotPoints(d, v, start, homes, n, e) == SlotPoints(d, w, start, homes, n, e)
  {
    if n > 0 { SlotsAgree(d, v, w, start, homes, n - 1, e); }
  }

  lemma ViewSynced(d: Disk, v: Disk, w: Disk, start: nat, homes: seq<nat>, h: Block)
    requires ReadyToCommit(d, w, start, homes) && HeaderFor(h, homes) && AgreeOn(v, w, homes)
    ensures |Slots(v, v, start, homes, |homes|)| == |d|
    ensures forall s :: start < s <= start + |homes| ==>
      Slots(v, v, start, homes, |homes|)[start := h][s] == Logged(d, w, start, homes, h)[s]
  {
    forall s | start < s <= start + |homes|
        ensures Slots(v, v, start, homes, |homes|)[s] == Slots(d, w, start, homes, |homes|)[s] {
      SlotsAt(v, v, start, homes, |homes|, s);
      SlotsAt(d, w, start, homes, |homes|, s);
    }
  }

  lemma CommitFinal(d: Disk, v: Disk, w: Disk, start: nat, homes: seq<nat>, h: Block, h0: Block)
    requires ReadyToCommit(d, w, start, homes) && HeaderFor(h, homes) && AgreeOn(v, w, homes)
    requires forall b :: 0 <= b < |v| && !Home(start, b) ==> v[b] == w[b]
    ensures var d4 := Install(Logged(d, w, start, homes, h), start, homes, |homes|)[start := h0];
            var v4 := Install(Slots(v, v, start, homes, |homes|)[start := h], start, homes, |homes|)[start := h0];
            && |d4| == |v4| == |v| && HomeEq(start, d4, w)
            && forall b :: 0 <= b < |v| ==> v4[b] == if v[b] != w[b] then v[b] else d4[b]
  {
    CommitResult(d, w, start, homes, h, h0);
    CommitAgrees(v, w, start, homes, h, h0);
  }

  /** Where two cached states differ, off the logged blocks, commit leaves them as they were; elsewhere it makes them
      agree. */
  lemma CommitAgrees(v: Disk, w: Disk, start: nat, homes: seq<nat>, h: Block, h0: Block)
    requires |homes| < LOGSIZE && start + LOGSIZE <= |v| && AllHome(start, |v|, homes) && AgreeOn(v, w, homes)
    requires forall b :: 0 <= b < |v| && !Home(start, b) ==> v[b] == w[b]
    ensures var v4 := Install(Slots(v, v, start, homes, |homes|)[start := h], start, homes, |homes|)[start := h0];
            var w4 := Install(Slots(w, w, start, homes, |homes|)[start := h], start, homes, |homes|)[start := h0];
            forall b :: 0 <= b < |v| ==> v4[b] == if v[b] != w[b] then v[b] else w4[b]
  {
    var v2, w2 := Slots(v, v, start, homes, |homes|)[start := h], Slots(w, w, start, homes, |homes|)[start := h];
    forall b | 0 <= b < |v| && b != start
        ensures v2[b] == if start < b <= start + |homes| then v[homes[b - start - 1]] else v[b] {
      SlotsAt(v, v, start, homes, |homes|, b);
    }
    forall b | 0 <= b < |v| && b != start
        ensures w2[b] == if start < b <= start + |homes| then w[homes[b - start - 1]] else w[b] {
      SlotsAt(w, w, start, homes, |homes|, b);
    }
    forall b | 0 <= b < |v| && b != start
      ensures Install(v2, start, homes, |homes|)[b] == if v[b] != w[b]
              then v[b] else Install(w2, start, homes, |homes|)[b]
    {
      InstallAt(v2, start, homes, |homes|, b);
      InstallAt(w2, start, homes, |homes|, b);
    }
  }

  lemma SlotsSynced(d: Disk, v: Disk, start: nat, homes: seq<nat>)
    requires |homes| < LOGSIZE && start + LOGSIZE <= |d| == |v| && AllHome(start, |d|, homes)
    ensures forall s :: start < s <= start + |homes| ==>
              && Slots(d, v, start, homes, |homes|)[s] == Slots(v, v, start, homes, |homes|)[s]
              && Slots(d, v, start, homes, |homes|)[s] == v[homes[s - start - 1]]
  {
    forall s | start < s <= start + |homes|
      ensures Slots(d, v, start, homes, |homes|)[s] == Slots(v, v, start, homes, |homes|)[s] == v[homes[s - start - 1]]
    {
      SlotsAt(d, v, start, homes, |homes|, s);
      SlotsAt(v, v, start, homes, |homes|, s);
    }
  }

  /** State of device and cache when commit starts: header clear, only logged blocks differ. */
  ghost predicate ReadyToCommit(d: Disk, v: Disk, start: nat, homes: seq<nat>) {
    && |homes| < LOGSIZE && start + LOGSIZE <= |d| == |v| && AllHome(start, |d|, homes)
    && GetWord(d[start], 0) == 0
    && (forall b :: 0 <= b < |d| && b !in homes ==> v[b] == d[b])
  }

  ghost predicate HeaderFor(h: Block, homes: seq<nat>) {
    |homes| < WORDS && GetWord(h, 0) == |homes| && Entries(h, |homes|) == homes
  }

  /** The device once the header naming the homes is written. */
  ghost function Logged(d: Disk, v: Disk, start: nat, homes: seq<nat>, h: Block): (e: Disk)
    requires ReadyToCommit(d, v, start, homes) && HeaderFor(h, homes)
    ensures |e| == |d| && HeaderOk(e, start) && Homes(e, start) == homes
  {
    Slots(d, v, start, homes, |homes|)[start := h]
  }

  lemma LoggedReplaysToView(d: Disk, v: Disk, start: nat, homes: seq<nat>, h: Block)
    requires ReadyToCommit(d, v, start, homes) && HeaderFor(h, homes)
    ensures HomeEq(start, Replay(Logged(d, v, start, homes, h), start), v)
  {
    var e := Logged(d, v, start, homes, h);
    forall b | 0 <= b < |d| && b != start
      ensures e[b] == if start < b <= start + |homes| then v[homes[b - start - 1]] else d[b]
    {
      SlotsAt(d, v, start, homes, |homes|, b);
    }
    ReplayOfNewHeader(e, v, start, homes);
  }

  /** The crash points of the copy home and of the write that clears the header. */
  ghost function LatePoints(d: Disk, start: nat, homes: seq<nat>, h0: Block, e: nat): (t: seq<CrashPoint>)
    requires start + |homes| < |d| && forall i :: 0 <= i < |homes| ==> homes[i] < |d|
    ensures |t| == |homes| + 1
  {
    HomePoints(d, start, homes, |homes|, e) + [CrashPoint(Install(d, start, homes, |homes|)[start := h0], e)]
  }

  lemma LatePointsRecover(d: Disk, start: nat, h0: Block, e: nat, committed: seq<Disk>)
    requires Recovers(CrashPoint(d, e), start, committed) && GetWord(h0, 0) == 0
    ensures AllRecover(LatePoints(d, start, Homes(d, start), h0, e), start, committed, e)
  {
    var homes := Homes(d, start);
    HomePointsRecover(d, start, |homes|, e, committed);
    EmptyReplay(Install(d, start, homes, |homes|)[start := h0], start);
  }

  /** The crash points of one commit, in order. */
  ghost function CommitPoints(d: Disk, v: Disk, start: nat, homes: seq<nat>, h: Block, h0: Block,
                              e: nat): (t: seq<CrashPoint>)
    requires ReadyToCommit(d, v, start, homes) && HeaderFor(h, homes)
    requires e > 0
    ensures |t| == 2 * |homes| + 2
  {
    var d2 := Logged(d, v, start, homes, h);
    SlotPoints(d, v, start, homes, |homes|, e - 1) + ([CrashPoint(d2, e)] + LatePoints(d2, start, homes, h0, e))
  }

  lemma RecoverConcat(t: seq<CrashPoint>, p: seq<CrashPoint>, q: seq<CrashPoint>, start: nat, committed: seq<Disk>,
                      e: nat)
    requires CrashSafe(t, start, committed) && forall i :: 0 <= i < |t| ==> t[i].epoch <= e
    requires AllRecover(p, start, committed, e) && AllRecover(q, start, committed, e + 1)
    ensures CrashSafe(t + (p + q), start, committed)
    ensures forall i :: 0 <= i < |p + q| ==> (p + q)[i].epoch == if i < |p| then e else e + 1
  {
    CrashSafeAppend(t, p, start, committed, e);
    CrashSafeAppend(t + p, q, start, committed, e + 1);
    Regroup(t, p, q, []);
  }

  /** Before the header write the points recover to the old state, from it on to the new one. */
  lemma CommitPointsRecover(trace: seq<CrashPoint>, d: Disk, v: Disk, start: nat, homes: seq<nat>, h: Block, h0: Block,
                            committed: seq<Disk>)
    requires ReadyToCommit(d, v, start, homes) && HeaderFor(h, homes)
    requires GetWord(h0, 0) == 0
    requires 0 < |committed| && HomeEq(start, d, committed[|committed| - 1]) && CrashSafe(trace, start, committed)
    ensures var e := |committed|;
            var points := CommitPoints(d, v, start, homes, h, h0, e);
            && CrashSafe(trace + points, start, committed + [v])
            && forall i :: 0 <= i < |points| ==> points[i].epoch == if i < |homes| then e - 1 else e
  {
    var e, all := |committed|, committed + [v];
    var d2 := Logged(d, v, start, homes, h);
    var p1 := SlotPoints(d, v, start, homes, |homes|, e - 1);
    var p2 := [CrashPoint(d2, e)] + LatePoints(d2, start, homes, h0, e);
    SlotPointsRecover(d, v, start, homes, |homes|, e - 1, all);
    assert AllRecover(p2, start, all, e) by {
      LoggedReplaysToView(d, v, start, homes, h);
      LatePointsRecover(d2, start, h0, e, all);
    }
    CrashSafeGrow(trace, start, committed, v);
    RecoverConcat(trace, p1, p2, start, all, e - 1);
  }

  /** After the last write the home blocks hold the cached contents, on the device and in the cache. */
  lemma CommitResult(d: Disk, v: Disk, start: nat, homes: seq<nat>, h: Block, h0: Block)
    requires ReadyToCommit(d, v, start, homes) && HeaderFor(h, homes)
    ensures var d4 := Install(Logged(d, v, start, homes, h), start, homes, |homes|)[start := h0];
            var v4 := Install(Slots(v, v, start, homes, |homes|)[start := h], start, homes, |homes|)[start := h0];
            d4 == v4 && HomeEq(start, d4, v)
  {
    var d2, v2 := Logged(d, v, start, homes, h), Slots(v, v, start, homes, |homes|)[start := h];
    LoggedReplaysToView(d, v, start, homes, h);
    assert homes[..|homes|] == homes;
    forall b | 0 <= b < |d|
      ensures Install(d2, start, homes, |homes|)[b] == Install(v2, start, homes, |homes|)[b]
    {
      InstallAt(d2, start, homes, |homes|, b);
      InstallAt(v2, start, homes, |homes|, b);
      SlotsSynced(d, v, start, homes);
      SlotsAt(d, v, start, homes, |homes|, b);
      SlotsAt(v, v, start, homes, |homes|, b);
    }
  }
}
