/** The user-space allocator of src/user/malloc.c: a circular free list kept in address order.

    Addresses count header-sized units (8 bytes), which is the granularity of every pointer the
    allocator forms; sbrk regions are taken to start on a unit. A block is the address of its header. */
module Malloc {
  import opened Common

  const UNIT: nat := 8
  const WORD: nat := 0x1_0000_0000
  const MIN_CORE: nat := 4096

  datatype Header = Header(ptr: int, size: nat)
  /** `nunits` for a request, in the 32-bit arithmetic of the source. */
  function NUnits(nbytes: nat): (n: nat)
    requires nbytes < WORD
    ensures 1 <= n <= WORD / UNIT
  {
    (nbytes + UNIT - 1) % WORD / UNIT + 1
  }

  /** No smaller number of units would do. */
  lemma NUnitsLeast(nbytes: nat)
    requires nbytes <= WORD - UNIT
    ensures (NUnits(nbytes) - 1) * UNIT >= nbytes && (nbytes > 0 ==> (NUnits(nbytes) - 2) * UNIT < nbytes)
    ensures nbytes == 0 ==> NUnits(nbytes) == 1
  {
    assert (nbytes + UNIT - 1) % WORD == nbytes + UNIT - 1;
  }

  /** The payload of an n-unit block holds the request exactly when the rounding does not wrap. */
  lemma PayloadFitsIff(nbytes: nat)
    requires nbytes < WORD
    ensures (NUnits(nbytes) - 1) * UNIT >= nbytes <==> nbytes <= WORD - UNIT
  {
    if nbytes > WORD - UNIT {
      assert (nbytes + UNIT - 1) % WORD == nbytes + UNIT - 1 - WORD;
    }
  }

  // ---------------------------------------------------------------- the abstract heap

  /** Header memory together with the free list in address order, the live blocks, and for every unit obtained
      from sbrk the block it belongs to. */
  datatype Heap = Heap(mem: map<int, Header>, ring: seq<int>, live: set<int>, owner: map<int, int>)

  function Nxt(i: nat, n: nat): (j: nat)
    requires i < n
    ensures j < n
  {
    if i + 1 < n then i + 1 else 0
  }

  ghost predicate Sorted(s: seq<int>) {
    forall i, j :: 0 <= i < j < |s| ==> s[i] < s[j]
  }

  ghost function InsertAt(s: seq<int>, k: nat, x: int): (r: seq<int>)
    requires k <= |s|
    ensures |r| == |s| + 1
    ensures forall i {:trigger r[i]} :: 0 <= i < |r| ==> r[i] == if i < k then s[i] else if i == k then x else s[i - 1]
  {
    s[..k] + [x] + s[k..]
  }

  ghost function RemoveAt(s: seq<int>, k: nat): (r: seq<int>)
    requires k < |s|
    ensures |r| == |s| - 1
    ensures forall i {:trigger r[i]} :: 0 <= i < |r| ==> r[i] == if i < k then s[i] else s[i + 1]
  {
    s[..k] + s[k + 1..]
  }

  lemma InsertFacts(s: seq<int>, k: nat, x: int)
    requires Sorted(s) && k <= |s| && (k > 0 ==> s[k - 1] < x) && (k < |s| ==> x < s[k])
    ensures Sorted(InsertAt(s, k, x)) && forall b :: b in InsertAt(s, k, x) <==> b in s || b == x
  {
    var r := InsertAt(s, k, x);
    forall i, j | 0 <= i < j < |r| ensures r[i] < r[j] {
      assert i < k ==> s[i] <= s[k - 1];
      assert k < j ==> s[k] <= s[j - 1];
    }
    forall b | b in s ensures b in r {
      var i :| 0 <= i < |s| && s[i] == b;
      assert r[if i < k then i else i + 1] == b;
    }
    assert r[k] == x;
  }

  lemma RemoveFacts(s: seq<int>, k: nat)
    requires Sorted(s) && k < |s|
    ensures Sorted(RemoveAt(s, k)) && forall b :: b in RemoveAt(s, k) <==> b in s && b != s[k]
  {
    var r := RemoveAt(s, k);
    forall b | b in s && b != s[k] ensures b in r {
      var i :| 0 <= i < |s| && s[i] == b;
      assert r[if i < k then i else i - 1] == b;
    }
  }

  /** A block of sbrk'd units, live or free; the static `base` header is not one. */
  ghost predicate IsBlock(h: Heap, base: int, b: int) {
    b in h.mem && (b in h.live || (b in h.ring && b != base))
  }

  ghost predicate LinkAt(h: Heap, i: int) {
    0 <= i < |h.ring| && h.ring[i] in h.mem ==> h.mem[h.ring[i]].ptr == h.ring[Nxt(i, |h.ring|)]
  }

  /** One address-ordered cycle starting at base. */
  ghost predicate Cycle(h: Heap, base: int) {
    && |h.ring| >= 1 && h.ring[0] == base && Sorted(h.ring)
    && (forall i :: 0 <= i < |h.ring| ==> h.ring[i] in h.mem)
    && (forall i :: LinkAt(h, i))
    && h.mem[base].size == 0
    && (forall b :: b in h.live ==> b in h.mem && b !in h.ring)
  }

  ghost predicate Covers(h: Heap, base: int, b: int, u: int) {
    IsBlock(h, base, b) && b <= u < b + h.mem[b].size
  }

  /** Blocks are disjoint and cover exactly the units obtained from sbrk. */
  ghost predicate Tiled(h: Heap, base: int) {
    && (forall b :: IsBlock(h, base, b) ==> h.mem[b].size >= 1)
    && (forall u :: u in h.owner ==> base < u && Covers(h, base, h.owner[u], u))
    && (forall b, u :: Covers(h, base, b, u) ==> u in h.owner && h.owner[u] == b)
  }

  ghost predicate Ok(h: Heap, base: int) {
    Cycle(h, base) && Tiled(h, base)
  }

  /** Free block i does not touch its successor. */
  ghost predicate ApartAt(h: Heap, i: int) {
    1 <= i && i + 1 < |h.ring| && h.ring[i] in h.mem ==> h.ring[i] + h.mem[h.ring[i]].size < h.ring[i + 1]
  }

  ghost predicate Apart(h: Heap) {
    forall i :: ApartAt(h, i)
  }

  /** Consecutive free blocks never overlap, so not touching means apart. */
  lemma Below(h: Heap, base: int, i: nat)
    requires Ok(h, base) && 1 <= i && i + 1 < |h.ring|
    ensures h.ring[i] + h.mem[h.ring[i]].size <= h.ring[i + 1]
  {
    var b, c := h.ring[i], h.ring[i + 1];
    assert Covers(h, base, c, c) && b < c;
    assert !Covers(h, base, b, c);
  }

  // ---------------------------------------------------------------- transitions of the abstract heap

  /** Link live block bp after ring[g]. */
  ghost function Insert(h: Heap, bp: int, g: nat): Heap
    requires g < |h.ring| && bp in h.mem && h.ring[g] in h.mem
  {
    var next := h.ring[Nxt(g, |h.ring|)];
    Heap(h.mem[bp := Header(next, h.mem[bp].size)][h.ring[g] := Header(bp, h.mem[h.ring[g]].size)],
         InsertAt(h.ring, g + 1, bp), h.live - {bp}, h.owner)
  }

  /** The place of an address in the ring. */
  ghost predicate Gap(ring: seq<int>, bp: int, g: nat) {
    g < |ring| && ring[g] < bp && (g + 1 < |ring| ==> bp < ring[g + 1])
  }

  lemma InsertOk(h: Heap, base: int, bp: int, g: nat)
    requires Ok(h, base) && bp in h.live && Gap(h.ring, bp, g)
    ensures Ok(Insert(h, bp, g), base)
  {
    var k := Insert(h, bp, g);
    InsertFacts(h.ring, g + 1, bp);
    assert Cycle(k, base) by {
      InsertLinks(h, k, base, bp, g);
    }
    assert Tiled(k, base) by {
      SameTiling(h, k, base);
    }
  }

  /** Tiling depends only on which addresses are blocks, their sizes and the owner map. */
  lemma SameTiling(h: Heap, k: Heap, base: int)
    requires Tiled(h, base) && k.owner == h.owner
    requires forall b :: IsBlock(k, base, b) <==> IsBlock(h, base, b)
    requires forall b :: b in h.mem && b in k.mem ==> k.mem[b].size == h.mem[b].size
    ensures Tiled(k, base)
  {
    assert forall b, u :: Covers(k, base, b, u) <==> Covers(h, base, b, u);
  }

  lemma InsertLinks(h: Heap, k: Heap, base: int, bp: int, g: nat)
    requires Cycle(h, base) && bp in h.live && Gap(h.ring, bp, g)
    requires k.mem == h.mem[bp := Header(h.ring[Nxt(g, |h.ring|)], h.mem[bp].size)][h.ring[g] := Header(bp,
             h.mem[h.ring[g]].size)]
    requires |k.ring| == |h.ring| + 1
    requires forall i {:trigger k.ring[i]} :: 0 <= i < |k.ring| ==>
             k.ring[i] == if i <= g then h.ring[i] else if i == g + 1 then bp else h.ring[i - 1]
    ensures forall i :: LinkAt(k, i)
  {
    forall i | 0 <= i < |k.ring| ensures LinkAt(k, i) {
      var j := if i <= g then i else i - 1;
      assert LinkAt(h, j) && h.ring[j] != bp && (j != g ==> h.ring[j] != h.ring[g]);
      assert k.ring[Nxt(i, |k.ring|)] == if i == g then bp else h.ring[Nxt(j, |h.ring|)];
    }
  }

  /** Absorb ring[i+1] into the free block ring[i] it touches. */
  ghost function Merge(h: Heap, i: nat): Heap
    requires i + 1 < |h.ring| && h.ring[i] in h.mem && h.ring[i + 1] in h.mem
  {
    var b, c := h.ring[i], h.ring[i + 1];
    Heap(h.mem[b := Header(h.mem[c].ptr, h.mem[b].size + h.mem[c].size)],
         RemoveAt(h.ring, i + 1), h.live,
         map u | u in h.owner :: if h.owner[u] == c then b else h.owner[u])
  }

  /** Taking ring[i+1] out of the cycle: its predecessor inherits its pointer. */
  lemma UnlinkLinks(h: Heap, k: Heap, base: int, i: nat)
    requires Cycle(h, base) && i + 1 < |h.ring|
    requires k.mem.Keys == h.mem.Keys && k.mem[h.ring[i]].ptr == h.mem[h.ring[i + 1]].ptr
    requires forall b :: b in h.mem && b != h.ring[i] ==> k.mem[b] == h.mem[b]
    requires |k.ring| == |h.ring| - 1
    requires forall j {:trigger k.ring[j]} :: 0 <= j < |k.ring| ==>
             k.ring[j] == if j <= i then h.ring[j] else h.ring[j + 1]
    ensures forall j :: LinkAt(k, j)
  {
    forall j | 0 <= j < |k.ring| ensures LinkAt(k, j) {
      var m := if j <= i then j else j + 1;
      assert LinkAt(h, m) && LinkAt(h, i + 1) && (j != i ==> h.ring[m] != h.ring[i]);
      assert k.ring[Nxt(j, |k.ring|)] == h.ring[Nxt(if j == i then i + 1 else m, |h.ring|)];
    }
  }

  lemma MergeOk(h: Heap, base: int, i: nat)
    requires Ok(h, base) && 1 <= i && i + 1 < |h.ring|
    requires h.ring[i] + h.mem[h.ring[i]].size == h.ring[i + 1]
    ensures Ok(Merge(h, i), base)
  {
    var k, b, c := Merge(h, i), h.ring[i], h.ring[i + 1];
    RemoveFacts(h.ring, i + 1);
    assert Cycle(k, base) by {
      UnlinkLinks(h, k, base, i);
    }
    assert Tiled(k, base) by {
      MergeTiled(h, k, base, b, c);
    }
  }

  lemma MergeTiled(h: Heap, k: Heap, base: int, b: int, c: int)
    requires Tiled(h, base) && IsBlock(h, base, b) && IsBlock(h, base, c) && b + h.mem[b].size == c
    requires forall a :: IsBlock(k, base, a) <==> IsBlock(h, base, a) && a != c
    requires forall a :: IsBlock(k, base, a) ==>
                 k.mem[a].size == if a == b then h.mem[b].size + h.mem[c].size else h.mem[a].size
    requires k.owner == map u | u in h.owner :: if h.owner[u] == c then b else h.owner[u]
    ensures Tiled(k, base)
  {
    assert forall a, u :: Covers(k, base, a, u) <==>
        a != c && (Covers(h, base, a, u) || (a == b && Covers(h, base, c, u)));
  }

  /** Give out the whole free block ring[i]. */
  ghost function TakeWhole(h: Heap, i: nat): Heap
    requires 1 <= i < |h.ring| && h.ring[i - 1] in h.mem && h.ring[i] in h.mem
  {
    Heap(h.mem[h.ring[i - 1] := h.mem[h.ring[i - 1]].(ptr := h.mem[h.ring[i]].ptr)],
         RemoveAt(h.ring, i), h.live + {h.ring[i]}, h.owner)
  }

  lemma TakeWholeOk(h: Heap, base: int, i: nat)
    requires Ok(h, base) && 1 <= i < |h.ring|
    ensures Ok(TakeWhole(h, i), base)
  {
    var k := TakeWhole(h, i);
    RemoveFacts(h.ring, i);
    assert Cycle(k, base) by {
      UnlinkLinks(h, k, base, i - 1);
    }
    assert Tiled(k, base) by {
      SameTiling(h, k, base);
    }
  }

  /** Cut n units off the end of the larger free block ring[i]. */
  ghost function TakeTail(h: Heap, i: nat, n: nat): Heap
    requires 1 <= i < |h.ring| && h.ring[i] in h.mem && n < h.mem[h.ring[i]].size
  {
    var b := h.ring[i];
    var q := b + h.mem[b].size - n;
    var ptr := if q in h.mem then h.mem[q].ptr else 0;
    Heap(h.mem[b := h.mem[b].(size := h.mem[b].size - n)][q := Header(ptr, n)],
         h.ring, h.live + {q},
         map u | u in h.owner :: if q <= u < q + n then q else h.owner[u])
  }

  lemma TakeTailOk(h: Heap, base: int, i: nat, n: nat)
    requires Ok(h, base) && 1 <= i < |h.ring| && 1 <= n < h.mem[h.ring[i]].size
    ensures Ok(TakeTail(h, i, n), base)
    ensures !IsBlock(h, base, h.ring[i] + h.mem[h.ring[i]].size - n)
  {
    var b := h.ring[i];
    var q, k := b + h.mem[b].size - n, TakeTail(h, i, n);
    assert IsBlock(h, base, b);
    assert Covers(h, base, b, q);
    assert IsBlock(h, base, q) ==> Covers(h, base, q, q);
    assert q !in h.live && q !in h.ring;
    forall j ensures LinkAt(k, j) {
      assert LinkAt(h, j);
    }
    SplitTiled(h, k, base, b, n);
  }

  lemma SplitTiled(h: Heap, k: Heap, base: int, b: int, n: nat)
    requires Tiled(h, base) && IsBlock(h, base, b) && 1 <= n < h.mem[b].size
    requires var q := b + h.mem[b].size - n;
             && !IsBlock(h, base, q)
             && (forall a :: IsBlock(k, base, a) <==> IsBlock(h, base, a) || a == q)
             && (forall a :: IsBlock(k, base, a) ==>
                   k.mem[a].size == if a == q then n else if a == b then h.mem[b].size - n else h.mem[a].size)
             && k.owner == map u | u in h.owner :: if q <= u < q + n then q else h.owner[u]
    ensures Tiled(k, base)
  {
    var q := b + h.mem[b].size - n;
    forall u | q <= u < q + n ensures u in h.owner && h.owner[u] == b {
      assert Covers(h, base, b, u);
    }
    forall a, u ensures Covers(k, base, a, u) <==>
        (if a == q then q <= u < q + n else Covers(h, base, a, u) && !(q <= u < q + n)) {
      assert IsBlock(k, base, a) <==> IsBlock(h, base, a) || a == q;
      if a != q && a != b {
        assert q <= u < q + n ==> !Covers(h, base, a, u);
      }
    }
  }

  /** sbrk returned nu fresh units at hp. */
  ghost predicate FreshRegion(h: Heap, base: int, hp: int, nu: nat) {
    base < hp && forall u :: hp <= u < hp + nu ==> u !in h.owner
  }

  ghost predicate InRegion(hp: int, nu: nat, u: int) {
    hp <= u < hp + nu
  }

  /** The new region as one live block, as morecore hands it to free. */
  ghost function Grow(h: Heap, hp: int, nu: nat): Heap {
    Heap(h.mem[hp := Header(if hp in h.mem then h.mem[hp].ptr else 0, nu)], h.ring, h.live + {hp},
         h.owner + map u | hp <= u < hp + nu && InRegion(hp, nu, u) :: hp)
  }

  lemma GrowOk(h: Heap, base: int, hp: int, nu: nat)
    requires Ok(h, base) && FreshRegion(h, base, hp, nu) && nu >= 1
    ensures Ok(Grow(h, hp, nu), base) && !IsBlock(h, base, hp)
  {
    var k := Grow(h, hp, nu);
    assert IsBlock(h, base, hp) ==> Covers(h, base, hp, hp);
    assert hp !in h.ring && hp !in h.live;
    forall j ensures LinkAt(k, j) {
      assert LinkAt(h, j);
    }
    GrowTiled(h, k, base, hp, nu);
  }

  lemma GrowTiled(h: Heap, k: Heap, base: int, hp: int, nu: nat)
    requires Tiled(h, base) && FreshRegion(h, base, hp, nu) && nu >= 1
    requires forall a :: IsBlock(k, base, a) <==> IsBlock(h, base, a) || a == hp
    requires forall a :: IsBlock(k, base, a) ==> k.mem[a].size == if a == hp then nu else h.mem[a].size
    requires k.owner == h.owner + map u | hp <= u < hp + nu && InRegion(hp, nu, u) :: hp
    ensures Tiled(k, base)
  {
    assert IsBlock(h, base, hp) ==> Covers(h, base, hp, hp);
    forall a, u ensures Covers(k, base, a, u) <==> if a == hp then InRegion(hp, nu, u) else Covers(h, base, a, u) {
    }
  }

  // ---------------------------------------------------------------- free

  ghost predicate TouchesNext(h: Heap, i: nat) {
    1 <= i && i + 1 < |h.ring| && h.ring[i] in h.mem && h.ring[i] + h.mem[h.ring[i]].size == h.ring[i + 1]
  }

  /** Merge ring[i] with its successor if they touch. */
  ghost function Join(h: Heap, base: int, i: nat): (k: Heap)
    requires Ok(h, base) && i < |h.ring|
    ensures Ok(k, base) && i < |k.ring| && k.ring[..i + 1] == h.ring[..i + 1]
    ensures k.live == h.live && k.owner.Keys == h.owner.Keys
    ensures forall b :: b in h.mem && b != h.ring[i] ==> b in k.mem && k.mem[b] == h.mem[b]
    ensures h.mem[h.ring[i]].size <= k.mem[h.ring[i]].size
  {
    if TouchesNext(h, i) then MergeOk(h, base, i); Merge(h, i) else h
  }

  /** The heap after bp is put back at gap g: linked, joined with its upper neighbour, then with its lower one. */
  ghost function Freed(h: Heap, base: int, bp: int, g: nat): (k: Heap)
    requires Ok(h, base) && bp in h.live && Gap(h.ring, bp, g)
    ensures Ok(k, base)
  {
    InsertOk(h, base, bp, g);
    Join(Join(Insert(h, bp, g), base, g + 1), base, g)
  }

  ghost predicate ApartExcept(h: Heap, x: set<int>) {
    forall i :: i !in x ==> ApartAt(h, i)
  }

  lemma InsertApart(h: Heap, base: int, bp: int, g: nat)
    requires Ok(h, base) && Apart(h) && bp in h.live && Gap(h.ring, bp, g)
    ensures ApartExcept(Insert(h, bp, g), {g, g + 1})
  {
    var k := Insert(h, bp, g);
    forall i | i != g && i != g + 1 ensures ApartAt(k, i) {
      assert ApartAt(h, if i <= g then i else i - 1);
      assert 0 <= i < |k.ring| && k.ring[i] in k.mem && k.ring[i] in h.mem ==>
          k.mem[k.ring[i]].size == h.mem[k.ring[i]].size;
    }
  }

  /** A join settles the pair it looks at and leaves the others as they were. */
  lemma JoinApart(h: Heap, base: int, i: nat, x: set<int>)
    requires Ok(h, base) && i < |h.ring| && ApartExcept(h, x) && forall j :: j in x ==> j <= i
    ensures ApartExcept(Join(h, base, i), x - {i})
  {
    if TouchesNext(h, i) {
      var k := Merge(h, i);
      forall j | j !in x - {i} ensures ApartAt(k, j) {
        assert ApartAt(h, if j < i then j else j + 1);
        if 1 <= j && j + 1 < |k.ring| && j != i {
          assert k.mem[k.ring[j]].size == h.mem[k.ring[j]].size;
        }
      }
    } else if 1 <= i && i + 1 < |h.ring| {
      Below(h, base, i);
    }
  }

  lemma FreedApart(h: Heap, base: int, bp: int, g: nat)
    requires Ok(h, base) && Apart(h) && bp in h.live && Gap(h.ring, bp, g)
    ensures Apart(Freed(h, base, bp, g))
  {
    InsertOk(h, base, bp, g);
    InsertApart(h, base, bp, g);
    hide Ok, ApartAt, Gap;
    TwoJoins(Insert(h, bp, g), base, g);
  }

  lemma TwoJoins(k: Heap, base: int, g: nat)
    requires Ok(k, base) && g + 1 < |k.ring| && ApartExcept(k, {g, g + 1})
    ensures Apart(Join(Join(k, base, g + 1), base, g))
  {
    hide Ok, ApartAt, Join;
    JoinApart(k, base, g + 1, {g, g + 1});
    assert {g, g + 1} - {g + 1} == {g};
    JoinApart(Join(k, base, g + 1), base, g, {g});
    assert {g} - {g} == {};
  }

  /** Freeing touches no other live header and leaves the freed units in one free block. */
  lemma FreedFrame(h: Heap, base: int, bp: int, g: nat)
    requires Ok(h, base) && bp in h.live && Gap(h.ring, bp, g)
    ensures var k := Freed(h, base, bp, g);
            && k.live == h.live - {bp} && k.owner.Keys == h.owner.Keys
            && (forall b :: b in k.live ==> b in h.mem && k.mem[b] == h.mem[b])
            && h.ring[g] in k.ring
            && HasFit(k, h.mem[bp].size)
  {
    InsertOk(h, base, bp, g);
    var k1 := Insert(h, bp, g);
    var k2 := Join(k1, base, g + 1);
    var k3 := Join(k2, base, g);
    assert k2.ring[..g + 2][g] == k2.ring[g] == h.ring[g] && k2.ring[..g + 2][g + 1] == k2.ring[g + 1] == bp;
    assert k3.ring[..g + 1][g] == k3.ring[g] == h.ring[g];
    if TouchesNext(k2, g) {
      assert k3.mem[k3.ring[g]].size >= h.mem[bp].size;
    } else {
      assert k3.mem[k3.ring[g + 1]].size >= h.mem[bp].size;
    }
  }

  /** The header writes of free after the search has stopped at p: first the block's header, then p's. */
  function LinkUp(mem: map<int, Header>, bp: int, next: int): (m: map<int, Header>)
    requires bp in mem && next in mem
    ensures m.Keys == mem.Keys
  {
    if bp + mem[bp].size == next
    then mem[bp := Header(mem[next].ptr, mem[bp].size + mem[next].size)]
    else mem[bp := Header(next, mem[bp].size)]
  }

  function LinkDown(m: map<int, Header>, bp: int, p: int): map<int, Header>
    requires bp in m && p in m
  {
    if p + m[p].size == bp
    then m[p := Header(m[bp].ptr, m[p].size + m[bp].size)]
    else m[p := Header(bp, m[p].size)]
  }

  /** What joining does to the headers. */
  ghost function Joined(k: Heap, i: nat): map<int, Header>
    requires i < |k.ring| && k.ring[i] in k.mem && (i + 1 < |k.ring| ==> k.ring[i + 1] in k.mem)
  {
    if TouchesNext(k, i)
    then k.mem[k.ring[i] := Header(k.mem[k.ring[i + 1]].ptr, k.mem[k.ring[i]].size + k.mem[k.ring[i + 1]].size)]
    else k.mem
  }

  lemma JoinMem(k: Heap, base: int, i: nat)
    requires Ok(k, base) && i < |k.ring|
    ensures k.ring[i] in k.mem && (i + 1 < |k.ring| ==> k.ring[i + 1] in k.mem) && Join(k, base, i).mem == Joined(k, i)
  {
    assert LinkAt(k, i) && (i + 1 < |k.ring| ==> LinkAt(k, i + 1));
    hide Ok;
  }

  lemma InsertedMem(h: Heap, base: int, bp: int, g: nat)
    requires Ok(h, base) && bp in h.live && Gap(h.ring, bp, g)
    ensures var p, next := h.ring[g], h.ring[Nxt(g, |h.ring|)];
            && p in h.mem && bp in h.mem && next in h.mem
            && var k := Insert(h, bp, g);
            && k.ring[g + 1] in k.mem && (g + 2 < |k.ring| ==> k.ring[g + 2] in k.mem)
            && Joined(k, g + 1) == LinkUp(h.mem, bp, next)[p := Header(bp, h.mem[p].size)]
  {
    assert LinkAt(h, g) && LinkAt(h, Nxt(g, |h.ring|));
    var k, p, next := Insert(h, bp, g), h.ring[g], h.ring[Nxt(g, |h.ring|)];
    var size, psize := h.mem[bp].size, h.mem[p].size;
    assert k.ring[g + 1] == bp && p < bp;
    assert g + 1 < |h.ring| ==> k.ring[g + 2] == next;
    if g + 1 < |h.ring| && bp + size == next {
      Overwrite(h.mem, bp, Header(next, size), p, Header(bp, psize),
                Header(h.mem[next].ptr, size + h.mem[next].size));
    } else {
      assert bp + size != next;
    }
  }

  lemma Overwrite(m: map<int, Header>, x: int, a: Header, y: int, b: Header, c: Header)
    requires x != y
    ensures m[x := a][y := b][x := c] == m[x := c][y := b]
  {
  }

  lemma LinkDownIsJoin(k: Heap, m: map<int, Header>, base: int, bp: int, g: nat)
    requires Ok(k, base) && g + 1 < |k.ring| && k.ring[g + 1] == bp && bp in m && k.ring[g] in m
    requires k.mem == m[k.ring[g] := Header(bp, m[k.ring[g]].size)]
    ensures Join(k, base, g).mem == LinkDown(m, bp, k.ring[g])
  {
    var p := k.ring[g];
    assert p != bp;
    assert TouchesNext(k, g) <==> p + m[p].size == bp;
  }

  lemma LinksAreFreed(h: Heap, base: int, bp: int, g: nat)
    requires Ok(h, base) && bp in h.live && Gap(h.ring, bp, g)
    ensures var p := h.ring[g];
            && h.mem[p].ptr in h.mem
            && LinkDown(LinkUp(h.mem, bp, h.mem[p].ptr), bp, p) == Freed(h, base, bp, g).mem
  {
    assert LinkAt(h, g);
    InsertOk(h, base, bp, g);
    var i := Insert(h, bp, g);
    JoinedUp(h, base, bp, g, i);
    assert h.ring[g] != bp;
    hide Ok, Gap, Insert, Join, LinkUp, LinkDown;
    LinkDownIsJoin(Join(i, base, g + 1), LinkUp(h.mem, bp, h.mem[h.ring[g]].ptr), base, bp, g);
  }

  /** The upper half of free, on the list and on the headers. */
  lemma JoinedUp(h: Heap, base: int, bp: int, g: nat, i: Heap)
    requires Ok(h, base) && bp in h.live && Gap(h.ring, bp, g) && i == Insert(h, bp, g) && Ok(i, base)
    requires h.mem[h.ring[g]].ptr == h.ring[Nxt(g, |h.ring|)]
    ensures h.ring[g] in h.mem && bp in h.mem && h.mem[h.ring[g]].ptr in h.mem && g + 1 < |i.ring|
    ensures var k := Join(i, base, g + 1);
            && g + 1 < |k.ring| && k.ring[g] == h.ring[g] && k.ring[g + 1] == bp
            && k.mem == LinkUp(h.mem, bp, h.mem[h.ring[g]].ptr)[h.ring[g] := Header(bp, h.mem[h.ring[g]].size)]
  {
    InsertedRing(h, base, bp, g);
    hide Ok, Gap, Insert, LinkUp, Joined, Join;
    InsertedMem(h, base, bp, g);
    JoinMem(i, base, g + 1);
    JoinKeepsFront(i, base, g);
  }

  lemma InsertedRing(h: Heap, base: int, bp: int, g: nat)
    requires Ok(h, base) && bp in h.live && Gap(h.ring, bp, g)
    ensures g < |h.ring| && bp in h.mem && h.ring[g] in h.mem
    ensures var i := Insert(h, bp, g); g + 1 < |i.ring| && i.ring[g] == h.ring[g] && i.ring[g + 1] == bp
  {}

  lemma JoinKeepsFront(i: Heap, base: int, g: nat)
    requires Ok(i, base) && g + 1 < |i.ring|
    ensures var k := Join(i, base, g + 1); g + 1 < |k.ring| && k.ring[g] == i.ring[g] && k.ring[g + 1] == i.ring[g + 1]
  {
    hide Ok, Join;
    var k := Join(i, base, g + 1);
    assert k.ring[..g + 2][g] == i.ring[..g + 2][g] && k.ring[..g + 2][g + 1] == i.ring[..g + 2][g + 1];
  }

  /** Some free block has at least n units. */
  ghost predicate HasFit(h: Heap, n: nat) {
    exists i :: 1 <= i < |h.ring| && h.ring[i] in h.mem && h.mem[h.ring[i]].size >= n
  }

  ghost function GapOf(ring: seq<int>, bp: int): (g: nat)
    requires Sorted(ring) && |ring| >= 1 && ring[0] < bp && bp !in ring
    ensures Gap(ring, bp, g)
    decreases |ring|
  {
    if ring[|ring| - 1] < bp then |ring| - 1 else GapOf(ring[..|ring| - 1], bp)
  }

  lemma GapUnique(ring: seq<int>, bp: int, g: nat, k: nat)
    requires Sorted(ring) && Gap(ring, bp, g) && Gap(ring, bp, k)
    ensures g == k
  {
  }

  class Allocator {
    const base: int               // the address of the static header
    var freep: int                // 0 before the first malloc
    var mem: map<int, Header>     // every header the allocator has written
    ghost var h: Heap

    ghost predicate Valid()
      reads this
    {
      && 0 < base && h.mem == mem
      && if freep == 0 then h.ring == [] && h.live == {} && h.owner == map[]
         else Ok(h, base) && Apart(h) && freep in h.ring
    }

    constructor (b: int)
      requires 0 < b
      ensures Valid() && base == b && freep == 0
    {
      base, freep, mem := b, 0, map[];
      h := Heap(map[], [], {}, map[]);
    }

    /** The search of free: it goes round the cycle at most once and stops at the block's place. */
    method FindPlace(bp: int) returns (p: int, ghost g: nat)
      requires Valid() && bp in h.live
      ensures Gap(h.ring, bp, g) && p == h.ring[g]
    {
      assert Covers(h, base, bp, bp);
      g := GapOf(h.ring, bp);
      ghost var n := |h.ring|;
      p := freep;
      ghost var k :| 0 <= k < n && h.ring[k] == p;
      while !(bp > p && bp < mem[p].ptr)
        invariant 0 <= k < n && p == h.ring[k]
        decreases if k <= g then g - k else g - k + n
      {
        assert LinkAt(h, k);
        if p >= mem[p].ptr && (bp > p || bp < mem[p].ptr) {
          break;
        }
        p := mem[p].ptr;
        k := Nxt(k, n);
      }
      assert LinkAt(h, k);
      GapUnique(h.ring, bp, g, k);
    }

    /** free(ap): the block's units go back to the free list, which stays one coalesced address-ordered cycle. */
    method Free(ap: int)
      requires Valid() && ap - 1 in h.live
      modifies this
      ensures Valid() && freep != 0
      ensures h.live == old(h.live) - {ap - 1} && h.owner.Keys == old(h.owner.Keys)
      ensures forall b :: b in h.live ==> b in old(mem) && mem[b] == old(mem[b])
      ensures HasFit(h, old(mem[ap - 1].size))
    {
      var bp := ap - 1;
      var p; ghost var g;
      p, g := FindPlace(bp);
      LinksAreFreed(h, base, bp, g);
      FreedApart(h, base, bp, g);
      FreedFrame(h, base, bp, g);
      ghost var k := Freed(h, base, bp, g);
      assert Ok(k, base) && Apart(k) && p in k.ring;
      mem := Link(mem, bp, p);
      h, freep := k, p;
    }

    /** The two conditional joins of free. */
    static method Link(mem: map<int, Header>, bp: int, p: int) returns (m: map<int, Header>)
      requires bp in mem && p in mem && mem[p].ptr in mem && p != bp
      ensures m == LinkDown(LinkUp(mem, bp, mem[p].ptr), bp, p)
    {
      m := mem;
      if bp + m[bp].size == m[p].ptr {
        m := m[bp := m[bp].(size := m[bp].size + m[m[p].ptr].size)];
        m := m[bp := m[bp].(ptr := m[m[p].ptr].ptr)];
      } else {
        m := m[bp := m[bp].(ptr := m[p].ptr)];
      }
      if p + m[p].size == bp {
        m := m[p := m[p].(size := m[p].size + m[bp].size)];
        m := m[p := m[p].(ptr := m[bp].ptr)];
      } else {
        m := m[p := m[p].(ptr := bp)];
      }
    }

    /** morecore: ask for at least 4096 units and free them into the list. */
    method MoreCore(nu: nat, grant: Option<int>) returns (p: int)
      requires Valid() && freep != 0 && nu >= 1
      requires grant.Some? ==> FreshRegion(h, base, grant.value, CoreSize(nu))
      modifies this
      ensures grant.None? ==> p == 0 && h == old(h) && freep == old(freep) && mem == old(mem)
      ensures grant.Some? ==>
                && Valid() && p == freep && p != 0
                && h.live == old(h.live) && (forall b :: b in h.live ==> mem[b] == old(h.mem[b]))
                && h.owner.Keys == old(h.owner.Keys) + Region(grant.value, CoreSize(nu))
                && HasFit(h, nu)
    {
      if grant.None? {
        return 0;
      }
      var n := CoreSize(nu);
      var hp := grant.value;
      GrowOk(h, base, hp, n);
      assert Apart(Grow(h, hp, n)) by {
        GrowApart(h, base, hp, n);
      }
      ghost var live := h.live;
      h := Grow(h, hp, n);
      mem := mem[hp := Header(if hp in mem then mem[hp].ptr else 0, n)];
      Free(hp + 1);
      assert h.live == live;
      p := freep;
      FitMonotone(h, n, nu);
    }

    /** malloc's block choice: all of free block i, or its tail. */
    method Take(prevp: int, p: int, n: nat, ghost i: nat) returns (q: int)
      requires Valid() && freep != 0 && 1 <= i < |h.ring| && p == h.ring[i] && prevp == h.ring[i - 1]
      requires p in mem && 1 <= n <= mem[p].size
      modifies this
      ensures Valid() && freep == prevp
      ensures q !in old(h.live) && h.live == old(h.live) + {q} && q in mem && mem[q].size == n && q > 0
      ensures q == p + old(mem[p].size) - n
      ensures forall b :: b in old(h.live) ==> b in old(mem) && mem[b] == old(mem[b])
      ensures h.owner.Keys == old(h.owner.Keys)
    {
      TakeFrame(h, base, i, n);
      q := p;
      if mem[p].size == n {
        h := TakeWhole(h, i);
        mem := mem[prevp := mem[prevp].(ptr := mem[p].ptr)];
      } else {
        h := TakeTail(h, i, n);
        mem := mem[p := mem[p].(size := mem[p].size - n)];
        q := p + mem[p].size;
        mem := mem[q := Header(if q in mem then mem[q].ptr else 0, n)];
      }
      freep := prevp;
    }

    /** What a request for n units must have done to heap k. */
    ghost predicate Served(k: Heap, grant: Option<int>, n: nat, ap: int)
      reads this
    {
      && Valid() && freep != 0
      && (ap == 0 <==> !HasFit(k, n) && grant.None?)
      && (if ap == 0 then h.live == k.live
          else h.live == k.live + {ap - 1} && ap - 1 !in k.live && ap - 1 in mem && mem[ap - 1].size == n)
      && (forall b :: b in k.live ==> b in k.mem && b in mem && mem[b] == k.mem[b])
      && h.owner.Keys == if HasFit(k, n) || grant.None? then k.owner.Keys
                         else k.owner.Keys + Region(grant.value, CoreSize(n))
    }

    /** The heap is k, or k grown once by sbrk because nothing fitted. */
    ghost predicate GrownFrom(k: Heap, grant: Option<int>, n: nat, grown: bool)
      reads this
    {
      && Valid() && freep != 0 && h.live == k.live
      && (forall b :: b in k.live ==> b in k.mem && b in mem && mem[b] == k.mem[b])
      && if !grown then h == k else
           && !HasFit(k, n) && HasFit(h, n) && grant.Some?
           && h.owner.Keys == k.owner.Keys + Region(grant.value, CoreSize(n))
    }

    method TakeFit(prevp: int, p: int, n: nat, ghost i: nat, ghost k: Heap, grant: Option<int>, ghost grown: bool)
                   returns (ap: int)
      requires GrownFrom(k, grant, n, grown)
      requires 1 <= i < |h.ring| && p == h.ring[i] && prevp == h.ring[i - 1] && p in mem && 1 <= n <= mem[p].size
      requires !grown ==> FirstFit(k, freep, n, i)
      modifies this
      ensures Served(k, grant, n, ap) && (!grown ==> FromFirstFit(k, old(freep), n, ap))
    {
      assert HasFit(h, n);
      var q := Take(prevp, p, n, i);
      ap := q + 1;
    }

    /** The first call makes the static header a cycle of its own. */
    method Start(n: nat)
      requires Valid() && n >= 1
      modifies this
      ensures Valid() && freep != 0
      ensures h.live == old(h.live) && h.owner == old(h.owner) && (HasFit(h, n) <==> HasFit(old(h), n))
      ensures old(freep) != 0 ==> h == old(h) && freep == old(freep)
      ensures forall b :: b in h.live ==> b in old(mem) && mem[b] == old(mem[b])
    {
      if freep == 0 {
        mem := mem[base := Header(base, 0)];
        freep := base;
        h := Heap(mem, [base], {}, map[]);
        assert Ok(h, base) && Apart(h);
      }
    }

    /** One turn of malloc's loop round the list: it stops at the first block after freep that fits, or back
        at freep when none does. */
    method Scan(n: nat) returns (found: bool, prevp: int, p: int, ghost i: nat)
      requires Valid() && freep != 0 && n >= 1
      ensures found <==> HasFit(h, n)
      ensures found ==> 1 <= i < |h.ring| && p == h.ring[i] && prevp == h.ring[i - 1] && p in mem && mem[p].size >= n
      ensures found ==> FirstFit(h, freep, n, i)
    {
      ghost var f: nat :| f < |h.ring| && h.ring[f] == freep;
      ghost var k: nat := f;
      assert LinkAt(h, k);
      prevp, i := freep, 0;
      p := mem[prevp].ptr;
      while mem[p].size < n
        invariant k < |h.ring| && prevp == h.ring[k] && p == h.ring[Nxt(k, |h.ring|)]
        invariant forall i :: 0 <= i < |h.ring| && Visited(f, k, i) ==> h.ring[i] in h.mem && h.mem[h.ring[i]].size < n
        decreases Remaining(f, k, |h.ring|)
      {
        if p == freep {
          AllVisited(h, base, f, k, n);
          return false, prevp, p, 0;
        }
        Advance(h, f, k, n);
        k := Nxt(k, |h.ring|);
        assert LinkAt(h, k);
        prevp, p := p, mem[p].ptr;
      }
      i := Nxt(k, |h.ring|);
      assert HasFit(h, n);
      IsFirstFit(h, base, freep, n, f, k);
      found := true;
    }

    /** The loop of malloc. Coming back to freep it asks for more core once; the next turn cannot fail. */
    method Search(n: nat, grant: Option<int>) returns (ap: int)
      requires Valid() && freep != 0 && n >= 1
      requires grant.Some? ==> FreshRegion(h, base, grant.value, CoreSize(n))
      modifies this
      ensures Served(old(h), grant, n, ap) && FromFirstFit(old(h), old(freep), n, ap)
    {
      ghost var h0, grown := h, false;
      var found, prevp, p; ghost var i;
      found, prevp, p, i := Scan(n);
      if !found {
        p := MoreCore(n, grant);
        if p == 0 {
          return 0;
        }
        grown := true;
        found, prevp, p, i := Scan(n);
      }
      ap := TakeFit(prevp, p, n, i, h0, grant, grown);
    }

    /** Where the block came from when nothing had to be added: the end of the first fit. */
    ghost predicate FromFirstFit(k: Heap, fp: int, n: nat, ap: int)
      reads this
    {
      HasFit(k, n) ==> exists i: nat :: FirstFit(k, fp, n, i) && ap - 1 == k.ring[i] + k.mem[k.ring[i]].size - n &&
                                        freep == k.ring[i - 1]
    }

    /** malloc: fails exactly when no free block fits and sbrk refuses, and otherwise hands out a block
        of nunits units; no other live block's header or units change. */
    method Malloc(nbytes: nat, grant: Option<int>) returns (ap: int)
      requires Valid() && nbytes < WORD
      requires grant.Some? ==> FreshRegion(h, base, grant.value, CoreSize(NUnits(nbytes)))
      modifies this
      ensures Served(old(h), grant, NUnits(nbytes), ap)
      ensures old(freep) != 0 ==> FromFirstFit(old(h), old(freep), NUnits(nbytes), ap)
      ensures !HasFit(old(h), NUnits(nbytes)) && grant.Some? ==>
                forall u :: u in h.owner <==>
                  u in old(h.owner) ||
                      grant.value <= u < grant.value + (if NUnits(nbytes) < 4096 then 4096 else NUnits(nbytes))
    {
      var nunits := NUnits(nbytes);
      Start(nunits);
      ap := Search(nunits, grant);
    }
  }

  function CoreSize(nu: nat): nat {
    if nu < MIN_CORE then MIN_CORE else nu
  }

  /** The 32-bit arithmetic of malloc and morecore is exact, so that the block holds the request and sbrk is asked for
      as many bytes as the new block is given, exactly when the request is at most 2^32 - 16. */
  lemma ArithmeticExactIff(nbytes: nat)
    requires nbytes < WORD
    ensures (NUnits(nbytes) - 1) * UNIT >= nbytes &&
            CoreSize(NUnits(nbytes)) * UNIT % WORD == CoreSize(NUnits(nbytes)) * UNIT
      <==> nbytes <= WORD - 2 * UNIT
  {
    PayloadFitsIff(nbytes);
    if nbytes <= WORD - UNIT {
      assert (nbytes + UNIT - 1) % WORD == nbytes + UNIT - 1;
    }
  }

  ghost function Region(hp: int, nu: nat): set<int> {
    set u | hp <= u < hp + nu && InRegion(hp, nu, u)
  }

  /** Ring place i is the first after fp, going round, whose block has at least n units. */
  ghost predicate FirstFit(k: Heap, fp: int, n: nat, i: nat) {
    && 1 <= i < |k.ring| && k.ring[i] in k.mem && k.mem[k.ring[i]].size >= n
    && forall f, j :: 0 <= f < |k.ring| && 0 <= j < |k.ring| && k.ring[f] == fp && Between(f, i, j) ==>
         k.ring[j] in k.mem && k.mem[k.ring[j]].size < n
  }

  /** Going round from f, place j comes after f and before i. */
  predicate Between(f: int, i: int, j: int) {
    if f < i then f < j < i else j > f || j < i
  }

  lemma IsFirstFit(h: Heap, base: int, fp: int, n: nat, f: nat, k: nat)
    requires Ok(h, base) && f < |h.ring| && k < |h.ring| && h.ring[f] == fp && n >= 1
    requires forall i :: 0 <= i < |h.ring| && Visited(f, k, i) ==> h.ring[i] in h.mem && h.mem[h.ring[i]].size < n
    requires h.ring[Nxt(k, |h.ring|)] in h.mem && h.mem[h.ring[Nxt(k, |h.ring|)]].size >= n
    ensures FirstFit(h, fp, n, Nxt(k, |h.ring|))
  {
    var i := Nxt(k, |h.ring|);
    assert i != 0;
    forall g, j | 0 <= g < |h.ring| && 0 <= j < |h.ring| && h.ring[g] == fp && Between(g, i, j)
      ensures h.ring[j] in h.mem && h.mem[h.ring[j]].size < n
    {
      assert g == f;
      assert Visited(f, k, j);
    }
  }

  /** Free blocks the scan has passed since it left freep. */
  ghost predicate Visited(f: nat, k: nat, i: int) {
    if f <= k then f < i <= k else i > f || i <= k
  }

  ghost function Remaining(f: nat, k: nat, n: nat): nat
    requires f < n && k < n
  {
    if k >= f then n - k + f else f - k
  }

  /** Passing a block that is too small and is not freep. */
  lemma Advance(h: Heap, f: nat, k: nat, n: nat)
    requires f < |h.ring| && k < |h.ring| && Nxt(k, |h.ring|) != f
    requires forall i :: 0 <= i < |h.ring| && Visited(f, k, i) ==> h.ring[i] in h.mem && h.mem[h.ring[i]].size < n
    requires h.ring[Nxt(k, |h.ring|)] in h.mem && h.mem[h.ring[Nxt(k, |h.ring|)]].size < n
    ensures var j := Nxt(k, |h.ring|);
            && Remaining(f, j, |h.ring|) < Remaining(f, k, |h.ring|)
            && forall i :: 0 <= i < |h.ring| && Visited(f, j, i) ==> h.ring[i] in h.mem && h.mem[h.ring[i]].size < n
  {
    var j := Nxt(k, |h.ring|);
    forall i | 0 <= i < |h.ring| && Visited(f, j, i) ensures h.ring[i] in h.mem && h.mem[h.ring[i]].size < n {
      assert i == j || Visited(f, k, i);
    }
  }

  lemma AllVisited(h: Heap, base: int, f: nat, k: nat, n: nat)
    requires Cycle(h, base) && f < |h.ring| && k < |h.ring| && Nxt(k, |h.ring|) == f
    requires forall i :: 0 <= i < |h.ring| && Visited(f, k, i) ==> h.mem[h.ring[i]].size < n
    requires h.mem[h.ring[f]].size < n
    ensures !HasFit(h, n)
  {
  }

  lemma FitMonotone(h: Heap, n: nat, m: nat)
    requires HasFit(h, n) && m <= n
    ensures HasFit(h, m)
  {
    var i :| 1 <= i < |h.ring| && h.ring[i] in h.mem && h.mem[h.ring[i]].size >= n;
  }

  lemma GrowApart(h: Heap, base: int, hp: int, nu: nat)
    requires Ok(h, base) && Apart(h) && hp !in h.ring
    ensures Apart(Grow(h, hp, nu))
  {
    forall i ensures ApartAt(Grow(h, hp, nu), i) {
      assert ApartAt(h, i);
    }
  }

  lemma TakeFrame(h: Heap, base: int, i: nat, n: nat)
    requires Ok(h, base) && Apart(h) && 1 <= i < |h.ring| && 1 <= n <= h.mem[h.ring[i]].size
    ensures base < h.ring[i] && h.ring[i] !in h.live
    ensures h.mem[h.ring[i]].size == n ==>
            Ok(TakeWhole(h, i), base) && Apart(TakeWhole(h, i)) && h.ring[i - 1] in TakeWhole(h, i).ring
    ensures h.mem[h.ring[i]].size > n ==>
              && Ok(TakeTail(h, i, n), base) && Apart(TakeTail(h, i, n))
              && h.ring[i] + h.mem[h.ring[i]].size - n !in h.live
  {
    if h.mem[h.ring[i]].size == n {
      TakeWholeOk(h, base, i);
      RemoveFacts(h.ring, i);
      var k := TakeWhole(h, i);
      forall j ensures ApartAt(k, j) {
        assert ApartAt(h, if j < i then j else j + 1);
      }
    } else {
      TakeTailOk(h, base, i, n);
      var k := TakeTail(h, i, n);
      forall j ensures ApartAt(k, j) {
        assert ApartAt(h, j);
      }
    }
  }

  // ---------------------------------------------------------------- the free list is a function of what is live

  /** Unit u belongs to a free block. */
  ghost predicate FreeUnit(h: Heap, u: int) {
    u in h.owner && h.owner[u] !in h.live
  }

  /** A free block is a maximal run of free units. */
  lemma MaximalRun(h: Heap, base: int, u: int)
    requires Ok(h, base) && Apart(h)
    ensures u in h.ring && u != base <==> FreeUnit(h, u) && !FreeUnit(h, u - 1)
    ensures u in h.ring && u != base ==> !FreeUnit(h, u + h.mem[u].size)
    ensures u in h.ring && u != base ==> forall v :: u <= v < u + h.mem[u].size ==> FreeUnit(h, v)
  {
    if u in h.ring && u != base {
      assert Covers(h, base, u, u);
      NoneBelow(h, base, u);
      NoneAbove(h, base, u);
      forall v | u <= v < u + h.mem[u].size ensures FreeUnit(h, v) {
        assert Covers(h, base, u, v);
      }
    } else if FreeUnit(h, u) && !FreeUnit(h, u - 1) {
      var b := h.owner[u];
      assert Covers(h, base, b, u);
      assert b < u ==> Covers(h, base, b, u - 1);
    }
  }

  lemma NoneBelow(h: Heap, base: int, u: int)
    requires Ok(h, base) && Apart(h) && u in h.ring && u != base
    ensures !FreeUnit(h, u - 1)
  {
    if u - 1 in h.owner && h.owner[u - 1] != base {
      var c := h.owner[u - 1];
      assert Covers(h, base, c, u - 1) && Covers(h, base, u, u);
      assert c != u && !Covers(h, base, c, u);
      if c in h.ring {
        NotTouching(h, base, c, u);
      }
    }
  }

  lemma NoneAbove(h: Heap, base: int, u: int)
    requires Ok(h, base) && Apart(h) && u in h.ring && u != base
    ensures !FreeUnit(h, u + h.mem[u].size)
  {
    var v := u + h.mem[u].size;
    assert Covers(h, base, u, v - 1);
    if v in h.owner {
      var c := h.owner[v];
      assert Covers(h, base, c, v) && !Covers(h, base, u, v);
      assert c < v ==> Covers(h, base, c, v - 1);
      if c in h.ring {
        NotTouching(h, base, u, c);
      }
    }
  }

  lemma NotTouching(h: Heap, base: int, b: int, c: int)
    requires Ok(h, base) && Apart(h) && b in h.ring && c in h.ring && b != base
    ensures b + h.mem[b].size != c
  {
    var i :| 0 <= i < |h.ring| && h.ring[i] == b;
    var j :| 0 <= j < |h.ring| && h.ring[j] == c;
    assert IsBlock(h, base, b);
    assert ApartAt(h, i);
    assert i + 1 < j ==> h.ring[i + 1] < h.ring[j];
  }

  lemma AllButLast(s: seq<int>)
    requires Sorted(s) && s != []
    ensures forall x :: x in s[..|s| - 1] <==> x in s && x != s[|s| - 1]
  {
    assert s == s[..|s| - 1] + [s[|s| - 1]];
  }

  lemma {:induction false} SortedUnique(s: seq<int>, t: seq<int>)
    requires Sorted(s) && Sorted(t) && forall x :: x in s <==> x in t
    ensures s == t
  {
    assert t != [] ==> t[0] in t && t[0] in s;
    if s != [] {
      assert s[0] in s && s[0] in t;
      var m, n := |s| - 1, |t| - 1;
      assert s[m] in t && t[n] in s;
      assert s[m] == t[n];
      AllButLast(s);
      AllButLast(t);
      forall x ensures x in s[..m] <==> x in t[..n] {
        assert x in s[..m] <==> x in s && x != s[m];
        assert x in t[..n] <==> x in t && x != t[n];
      }
      SortedUnique(s[..m], t[..n]);
      assert s == s[..m] + [s[m]] && t == t[..n] + [t[n]];
    }
  }

  /** The free list does not depend on the order of calls that led to it: two heaps with the same live blocks and the
      same sbrk'd units have the same free list, blocks and sizes. In particular malloc followed by free
      without growth restores it. */
  lemma HistoryIndependent(h: Heap, k: Heap, base: int)
    requires Ok(h, base) && Apart(h) && Ok(k, base) && Apart(k)
    requires h.live == k.live && h.owner.Keys == k.owner.Keys
    requires forall b :: b in h.live ==> h.mem[b].size == k.mem[b].size
    ensures h.ring == k.ring
    ensures forall i :: 0 <= i < |h.ring| ==> h.mem[h.ring[i]] == k.mem[h.ring[i]]
  {
    SameFreeUnits(h, k, base);
    SameFreeUnits(k, h, base);
    forall u ensures u in h.ring <==> u in k.ring {
      MaximalRun(h, base, u);
      MaximalRun(k, base, u);
    }
    SortedUnique(h.ring, k.ring);
    forall i | 0 <= i < |h.ring| ensures h.mem[h.ring[i]] == k.mem[h.ring[i]] {
      assert LinkAt(h, i) && LinkAt(k, i);
      if h.ring[i] != base {
        SameSize(h, k, base, h.ring[i]);
      }
    }
  }

  lemma SameFreeUnits(h: Heap, k: Heap, base: int)
    requires Ok(h, base) && Ok(k, base) && h.live == k.live && h.owner.Keys == k.owner.Keys
    requires forall b :: b in h.live ==> h.mem[b].size == k.mem[b].size
    ensures forall u :: FreeUnit(h, u) ==> FreeUnit(k, u)
  {
    forall u | FreeUnit(h, u) ensures FreeUnit(k, u) {
      assert u in k.owner.Keys;
      assert Covers(k, base, k.owner[u], u);
      assert k.owner[u] in k.live ==> Covers(h, base, k.owner[u], u);
    }
  }

  lemma SameSize(h: Heap, k: Heap, base: int, b: int)
    requires Ok(h, base) && Apart(h) && Ok(k, base) && Apart(k) && b in h.ring && b in k.ring && b != base
    requires forall u :: FreeUnit(h, u) <==> FreeUnit(k, u)
    ensures h.mem[b].size == k.mem[b].size
  {
    MaximalRun(h, base, b);
    MaximalRun(k, base, b);
    var m, n := h.mem[b].size, k.mem[b].size;
    assert !(b <= b + m < b + n) && !(b <= b + n < b + m);
  }
}
