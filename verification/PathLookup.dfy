/** Path names and the in-memory inode table of src/kernel/filesys.c.

    A path is its bytes up to the terminating NUL. The tree maps a device and inode number to the inode's kind, link
    count and directory entries; it does not change during a lookup. Panic is an outcome of its own. */
module PathLookup {
  import opened Common
  import opened Blocks

  const SLASH: Byte := 47
  const DIRSIZE: nat := 14
  const DIR_TYPE: nat := 1
  const NUMINODE: nat := 50
  const MAXENTRIES: nat := 268 * 1024 / 16     // a directory is a file of at most MAXFILE blocks
  const ROOT: Key := Key(1, 1)         // ROOTDEV, ROOTING

  datatype Key = Key(dev: nat, inum: nat)
  datatype DirEntry = DirEntry(inum: nat, name: seq<Byte>)      // the name field is DIRSIZE bytes
  datatype Node = Node(kind: nat, links: nat, entries: seq<DirEntry>)

  type Tree = map<Key, Node>

  function At(t: Tree, k: Key): Node {
    if k in t then t[k] else Node(0, 0, [])
  }

  // ---- splitting a path ----

  /** Length of the leading run of bytes other than '/'. */
  function Run(s: seq<Byte>): (n: nat)
    ensures n <= |s| && (n < |s| ==> s[n] == SLASH) && forall i :: 0 <= i < n ==> s[i] != SLASH
  {
    if s == [] || s[0] == SLASH then 0 else 1 + Run(s[1..])
  }

  /** The names between slashes. */
  function Components(s: seq<Byte>): (c: seq<seq<Byte>>)
    decreases |s|
  {
    if s == [] then [] else if s[0] == SLASH then Components(s[1..]) else [s[..Run(s)]] + Components(s[Run(s)..])
  }

  lemma {:induction false} RunAppend(a: seq<Byte>, b: seq<Byte>)
    ensures Run(a + [SLASH] + b) == Run(a)
  {
    if a != [] && a[0] != SLASH {
      assert (a + [SLASH] + b)[1..] == a[1..] + [SLASH] + b;
      RunAppend(a[1..], b);
    }
  }

  /** A slash separates: with this, and one name being its own split, the split is determined. */
  lemma {:induction false} SplitAtSlash(a: seq<Byte>, b: seq<Byte>)
    ensures Components(a + [SLASH] + b) == Components(a) + Components(b)
    decreases |a|
  {
    var s := a + [SLASH] + b;
    if a == [] {
      assert s[1..] == b;
    } else if a[0] == SLASH {
      assert s[1..] == a[1..] + [SLASH] + b;
      SplitAtSlash(a[1..], b);
    } else {
      RunAppend(a, b);
      var n := Run(a);
      assert s[..n] == a[..n] && s[n..] == a[n..] + [SLASH] + b;
      SplitAtSlash(a[n..], b);
      assert [a[..n]] + Components(a[n..]) + Components(b) == [a[..n]] + (Components(a[n..]) + Components(b));
    }
  }

  ghost predicate IsName(s: seq<Byte>) {
    s != [] && forall i :: 0 <= i < |s| ==> s[i] != SLASH && s[i] != 0
  }

  lemma {:induction false} SplitName(s: seq<Byte>)
    requires IsName(s)
    ensures Components(s) == [s]
  {
    assert Run(s) == |s|;
    assert s[..|s|] == s && s[|s|..] == [];
  }

  /** Every component of a NUL-free path is a name. */
  lemma {:induction false} ComponentsAreNames(s: seq<Byte>)
    requires forall i :: 0 <= i < |s| ==> s[i] != 0
    ensures forall k :: 0 <= k < |Components(s)| ==> IsName(Components(s)[k])
    decreases |s|
  {
    if s != [] {
      if s[0] == SLASH {
        ComponentsAreNames(s[1..]);
      } else {
        ComponentsAreNames(s[Run(s)..]);
        assert IsName(s[..Run(s)]);
      }
    }
  }

  function Cut(s: seq<Byte>): (r: seq<Byte>)
    ensures |r| <= DIRSIZE
  {
    if |s| >= DIRSIZE then s[..DIRSIZE] else s
  }

  /** skip_elem: the next name and where the rest of the path starts; None at the end. */
  method SkipElem(path: seq<Byte>, start: nat) returns (pos: Option<nat>, name: seq<Byte>)
    requires start <= |path|
    ensures pos.None? <==> Components(path[start..]) == []
    ensures pos.Some? ==> start < pos.value <= |path| && name == Cut(Components(path[start..])[0])
    ensures pos.Some? ==> Components(path[pos.value..]) == Components(path[start..])[1..]
    ensures pos.Some? ==> (pos.value == |path| <==> Components(path[pos.value..]) == [])
  {
    hide Components, Run;
    var p := SkipSlashes(path, start);
    NoneLeft(path, p);
    name := [];
    if p == |path| { return None, name; }
    var s := p;
    while p < |path| && path[p] != SLASH
      invariant s <= p <= |path| && forall i :: s <= i < p ==> path[i] != SLASH
    {
      p := p + 1;
    }
    NextComponent(path, s, p);
    var len := p - s;
    name := if len >= DIRSIZE then path[s..s + DIRSIZE] else path[s..p];
    p := SkipSlashes(path, p);
    NoneLeft(path, p);
    pos := Some(p);
  }

  lemma NextComponent(path: seq<Byte>, s: nat, p: nat)
    requires s < p <= |path| && (forall i :: s <= i < p ==> path[i] != SLASH) && (p < |path| ==> path[p] == SLASH)
    ensures Components(path[s..]) == [path[s..p]] + Components(path[p..])
  {
    RunIs(path, s, p);
    assert path[s..][..p - s] == path[s..p] && path[s..][p - s..] == path[p..];
  }

  lemma NoneLeft(path: seq<Byte>, p: nat)
    requires p <= |path| && (p < |path| ==> path[p] != SLASH)
    ensures Components(path[p..]) == [] <==> p == |path|
  {}

  method SkipSlashes(path: seq<Byte>, start: nat) returns (p: nat)
    requires start <= |path|
    ensures start <= p <= |path| && (p < |path| ==> path[p] != SLASH) &&
            Components(path[p..]) == Components(path[start..])
  {
    p := start;
    while p < |path| && path[p] == SLASH
      invariant start <= p <= |path| && Components(path[p..]) == Components(path[start..])
    {
      assert path[p..][1..] == path[p + 1..];
      p := p + 1;
    }
  }

  lemma {:induction false} RunIs(path: seq<Byte>, s: nat, p: nat)
    requires s <= p <= |path| && (forall i :: s <= i < p ==> path[i] != SLASH) && (p < |path| ==> path[p] == SLASH)
    ensures Run(path[s..]) == p - s
    decreases p - s
  {
    if s < p {
      assert path[s..][1..] == path[s + 1..];
      RunIs(path, s + 1, p);
    }
  }

  // ---- directories ----

  /** A stored name ends at its first NUL. */
  function Stored(raw: seq<Byte>): (r: seq<Byte>)
    ensures |r| <= |raw|
  {
    if raw == [] || raw[0] == 0 then [] else [raw[0]] + Stored(raw[1..])
  }

  /** strncmp(name, raw, DIRSIZE) == 0, where the name buffer is NUL-terminated if shorter than DIRSIZE. */
  method SameName(name: seq<Byte>, raw: seq<Byte>) returns (same: bool)
    requires |name| <= DIRSIZE == |raw| && forall i :: 0 <= i < |name| ==> name[i] != 0
    ensures same <==> name == Stored(raw)
  {
    hide Stored;
    StoredEmpty();
    var i := 0;
    assert raw[0..] == raw;
    while i < DIRSIZE && i < |name| && name[i] == raw[i]
      invariant i <= |name| && name[..i] == raw[..i]
      invariant Stored(raw) == raw[..i] + Stored(raw[i..])
    {
      StoredStep(raw, i);
      assert raw[..i + 1] == raw[..i] + [raw[i]] && name[..i + 1] == name[..i] + [name[i]];
      i := i + 1;
    }
    if i == DIRSIZE {
      assert name == name[..i] && raw[i..] == [];
      return true;
    }
    var a := if i < |name| then name[i] else 0;
    same := a == raw[i];
    Differs(name, raw, i);
  }

  lemma StoredEmpty()
    ensures Stored([]) == []
  {}

  lemma StoredStep(raw: seq<Byte>, i: nat)
    requires i < |raw| && raw[i] != 0 && Stored(raw) == raw[..i] + Stored(raw[i..])
    ensures Stored(raw) == raw[..i + 1] + Stored(raw[i + 1..])
  {
    assert raw[i..][0] == raw[i] && raw[i..][1..] == raw[i + 1..];
    assert raw[..i] + ([raw[i]] + Stored(raw[i + 1..])) == raw[..i + 1] + Stored(raw[i + 1..]);
  }

  lemma Differs(name: seq<Byte>, raw: seq<Byte>, i: nat)
    requires |name| <= |raw| && i <= |name| && i < |raw| && name[..i] == raw[..i] &&
             Stored(raw) == raw[..i] + Stored(raw[i..])
    requires forall j :: 0 <= j < |name| ==> name[j] != 0
    requires i < |name| ==> name[i] != raw[i]
    ensures name == Stored(raw) <==> i == |name| && raw[i] == 0
  {
    assert raw[i..][0] == raw[i];
    if i < |name| {
      assert raw[i] != 0 ==> Stored(raw)[i] == raw[i];
    } else {
      assert name == raw[..i];
      assert raw[i] != 0 ==> |Stored(raw)| > i;
    }
  }

  ghost predicate WellFormed(t: Tree) {
    forall k, i :: k in t && 0 <= i < |t[k].entries| ==> |t[k].entries[i].name| == DIRSIZE
  }

  /** The inode number of the first entry in use with this name. */
  function Find(entries: seq<DirEntry>, name: seq<Byte>): Option<nat> {
    if entries == [] then None
    else if entries[0].inum != 0 && Stored(entries[0].name) == name then Some(entries[0].inum)
    else Find(entries[1..], name)
  }

  datatype Outcome = Found(key: Key) | Missing | Panic

  /** Folding directory lookup over the components; for a parent lookup the last one is left. */
  function Resolve(t: Tree, k: Key, names: seq<seq<Byte>>, parent: bool): Outcome
    decreases |names|
  {
    if names == [] then (if parent then Missing else Found(k))
    else if At(t, k).kind == 0 then Panic
    else if At(t, k).kind != DIR_TYPE then Missing
    else if parent && |names| == 1 then Found(k)
    else
      var next := Find(At(t, k).entries, Cut(names[0]));
      if next.None? then Missing else Resolve(t, Key(k.dev, next.value), names[1..], parent)
  }

  /** Looking a path up is looking up its directory part and then the last name there. */
  lemma {:induction false} ResolveParent(t: Tree, k: Key, names: seq<seq<Byte>>)
    requires names != []
    ensures var d := Resolve(t, k, names, true);
      Resolve(t, k, names, false) == if d.Found? then Resolve(t, d.key, names[|names| - 1..], false) else d
    decreases |names|
  {
    if |names| == 1 {
      assert names[0..] == names;
    } else if At(t, k).kind == DIR_TYPE {
      var next := Find(At(t, k).entries, Cut(names[0]));
      if next.Some? {
        ResolveParent(t, Key(k.dev, next.value), names[1..]);
        assert names[1..][|names| - 2..] == names[|names| - 1..];
      }
    }
  }

  // ---- what a lookup means on bytes and inodes ----

  /** Entry e is in use and its field holds the name: all of its bytes, and a NUL after it if there is room. */
  ghost predicate Bears(e: DirEntry, name: seq<Byte>) {
    && e.inum != 0 && |name| <= |e.name| && (forall j :: 0 <= j < |name| ==> e.name[j] == name[j])
    && (|name| < |e.name| ==> e.name[|name|] == 0)
  }

  lemma {:induction false} StoredIs(raw: seq<Byte>, name: seq<Byte>)
    requires forall j :: 0 <= j < |name| ==> name[j] != 0
    ensures Stored(raw) == name <==> |name| <= |raw| && name == raw[..|name|] && (|name| < |raw| ==> raw[|name|] == 0)
    decreases |raw|
  {
    if raw != [] && raw[0] != 0 {
      if name != [] {
        StoredIs(raw[1..], name[1..]);
        assert name == [name[0]] + name[1..];
        if |name| <= |raw| { assert raw[..|name|] == [raw[0]] + raw[1..][..|name| - 1]; }
      }
    } else if raw != [] && name != [] && |name| <= |raw| {
      assert raw[..|name|][0] == 0 != name[0];
    }
  }

  /** Entry i is the first that bears the name. */
  ghost predicate FirstBearing(es: seq<DirEntry>, name: seq<Byte>, i: nat) {
    i < |es| && Bears(es[i], name) && forall j :: 0 <= j < i ==> !Bears(es[j], name)
  }

  /** dir_lookup's answer is the number in the first entry that bears the name, and there is none exactly if no entry
      does. */
  lemma {:induction false} FindIs(es: seq<DirEntry>, name: seq<Byte>)
    requires forall j :: 0 <= j < |name| ==> name[j] != 0
    ensures Find(es, name).None? <==> forall i :: 0 <= i < |es| ==> !Bears(es[i], name)
    ensures forall i: nat :: FirstBearing(es, name, i) ==> Find(es, name) == Some(es[i].inum)
    ensures Find(es, name).Some? ==> exists i: nat :: FirstBearing(es, name, i) && es[i].inum == Find(es, name).value
    decreases |es|
  {
    if es != [] {
      StoredIs(es[0].name, name);
      assert Bears(es[0], name) <==> es[0].inum != 0 && Stored(es[0].name) == name;
      var rest := es[1..];
      FindIs(rest, name);
      if Bears(es[0], name) {
        assert FirstBearing(es, name, 0);
      } else {
        assert forall i :: 0 <= i < |rest| ==> rest[i] == es[i + 1];
        forall i: nat | FirstBearing(es, name, i) ensures Find(es, name) == Some(es[i].inum) {
          assert FirstBearing(rest, name, i - 1);
        }
        if Find(es, name).Some? {
          var i: nat :| FirstBearing(rest, name, i) && rest[i].inum == Find(es, name).value;
          assert FirstBearing(es, name, i + 1);
        }
        if forall i :: 0 <= i < |es| ==> !Bears(es[i], name) {
          assert forall i :: 0 <= i < |rest| ==> !Bears(rest[i], name);
        }
      }
    }
  }

  /** One step of a walk: from a directory by the first entry that bears the name, cut to 14 bytes. */
  ghost predicate StepTo(t: Tree, a: Key, name: seq<Byte>, b: Key) {
    var short := name[..if |name| < 14 then |name| else 14];
    && At(t, a).kind == 1 && b.dev == a.dev
    && exists i: nat :: FirstBearing(At(t, a).entries, short, i) && At(t, a).entries[i].inum == b.inum
  }

  /** The chain of inodes from the first to the last, one step for each name. */
  ghost predicate Walks(t: Tree, chain: seq<Key>, names: seq<seq<Byte>>) {
    |chain| == |names| + 1 && forall i :: 0 <= i < |names| ==> StepTo(t, chain[i], names[i], chain[i + 1])
  }

  lemma WalksFrom(t: Tree, k: Key, names: seq<seq<Byte>>, chain: seq<Key>)
    requires names != [] && Walks(t, chain, names[1..]) && StepTo(t, k, names[0], chain[0])
    ensures Walks(t, [k] + chain, names)
  {
    var c := [k] + chain;
    forall i | 0 <= i < |names| ensures StepTo(t, c[i], names[i], c[i + 1]) {
      if i > 0 { assert StepTo(t, chain[i - 1], names[1..][i - 1], chain[i]); }
    }
  }

  lemma OneStep(t: Tree, k: Key, names: seq<seq<Byte>>, parent: bool)
    requires names != [] && IsName(names[0]) && At(t, k).kind == 1 && !(parent && |names| == 1)
    ensures match Find(At(t, k).entries, Cut(names[0]))
      case None => Resolve(t, k, names, parent) == Missing && forall b :: !StepTo(t, k, names[0], b)
      case Some(n) =>
        && Resolve(t, k, names, parent) == Resolve(t, Key(k.dev, n), names[1..], parent)
        && forall b :: StepTo(t, k, names[0], b) <==> b == Key(k.dev, n)
  {
    var short := names[0][..if |names[0]| < 14 then |names[0]| else 14];
    assert short == Cut(names[0]);
    FindIs(At(t, k).entries, short);
  }

  /** Where a lookup finds something, it walked there. */
  lemma {:induction false} ResolveWalked(t: Tree, k: Key, names: seq<seq<Byte>>) returns (chain: seq<Key>)
    requires Resolve(t, k, names, false).Found? && forall i :: 0 <= i < |names| ==> IsName(names[i])
    ensures Walks(t, chain, names) && chain[0] == k && chain[|names|] == Resolve(t, k, names, false).key
    decreases |names|
  {
    if names == [] {
      chain := [k];
    } else {
      OneStep(t, k, names, false);
      var next := Key(k.dev, Find(At(t, k).entries, Cut(names[0])).value);
      hide StepTo, Find;
      var rest := ResolveWalked(t, next, names[1..]);
      chain := [k] + rest;
      WalksFrom(t, k, names, rest);
    }
  }

  lemma {:induction false} ParentWalked(t: Tree, k: Key, names: seq<seq<Byte>>) returns (chain: seq<Key>)
    requires Resolve(t, k, names, true).Found? && forall i :: 0 <= i < |names| ==> IsName(names[i])
    ensures names != [] && Walks(t, chain, names[..|names| - 1]) && chain[0] == k
    ensures chain[|names| - 1] == Resolve(t, k, names, true).key && At(t, chain[|names| - 1]).kind == 1
    decreases |names|
  {
    if |names| == 1 {
      chain := [k];
    } else {
      OneStep(t, k, names, true);
      var next := Key(k.dev, Find(At(t, k).entries, Cut(names[0])).value);
      hide StepTo, Find;
      var rest := ParentWalked(t, next, names[1..]);
      chain := [k] + rest;
      var front := names[..|names| - 1];
      assert front[1..] == names[1..][..|names| - 2];
      WalksFrom(t, k, front, rest);
    }
  }

  /** A walk is found; for a parent lookup, one by all names but the last that ends in a directory; and a walk that
      reaches an inode of no type with names left is where the kernel panics. */
  lemma {:induction false} WalkResolves(t: Tree, chain: seq<Key>, names: seq<seq<Byte>>, parent: bool, m: nat)
    requires m <= |names| && Walks(t, chain, names[..m]) && forall i :: 0 <= i < |names| ==> IsName(names[i])
    requires parent ==> m < |names|
    ensures m == |names| && !parent ==> Resolve(t, chain[0], names, parent) == Found(chain[m])
    ensures parent && m == |names| - 1 && At(t, chain[m]).kind == 1 ==>
            Resolve(t, chain[0], names, parent) == Found(chain[m])
    ensures m < |names| && At(t, chain[m]).kind == 0 ==> Resolve(t, chain[0], names, parent) == Panic
    ensures m < |names| && At(t, chain[m]).kind != 0 && At(t, chain[m]).kind != 1 ==>
            Resolve(t, chain[0], names, parent) == Missing
    decreases m
  {
    if m > 0 {
      assert StepTo(t, chain[0], names[..m][0], chain[1]);
      OneStep(t, chain[0], names, parent);
      hide StepTo, Find;
      assert names[1..][..m - 1] == names[..m][1..];
      assert Walks(t, chain[1..], names[1..][..m - 1]) by {
        forall i | 0 <= i < m - 1 ensures StepTo(t, chain[1..][i], names[1..][..m - 1][i], chain[1..][i + 1]) {
          assert StepTo(t, chain[i + 1], names[..m][i + 1], chain[i + 2]);
        }
      }
      WalkResolves(t, chain[1..], names[1..], parent, m - 1);
    }
  }

  // ---- the inode table ----

  type Refs = map<Key, nat>

  function Inc(r: Refs, k: Key): Refs {
    r[k := if k in r then r[k] + 1 else 1]
  }

  function Dec(r: Refs, k: Key): Refs
    requires k in r && r[k] > 0
  {
    if r[k] == 1 then r - {k} else r[k := r[k] - 1]
  }

  ghost predicate Positive(r: Refs) {
    forall k :: k in r ==> r[k] > 0
  }

  /** A reference moves from one inode to the next. */
  lemma Passed(r: Refs, k: Key, next: Key)
    requires Positive(r)
    ensures var q := Inc(Inc(r, k), next); Positive(q) && k in q && q[k] > 0 && Dec(q, k) == Inc(r, next)
  {}

  lemma Returned(r: Refs, k: Key)
    requires Positive(r)
    ensures k in Inc(r, k) && Inc(r, k)[k] > 0 && Dec(Inc(r, k), k) == r
  {}

  /** Live entries name different inodes, and refs counts exactly the references they hold. */
  ghost predicate Counts(key: seq<Key>, refcount: seq<nat>, refs: Refs) {
    && |key| == |refcount| == NUMINODE && Positive(refs)
    && (forall i, j :: 0 <= i < j < NUMINODE && refcount[i] > 0 && refcount[j] > 0 ==> key[i] != key[j])
    && (forall i :: 0 <= i < NUMINODE && refcount[i] > 0 ==> key[i] in refs && refs[key[i]] == refcount[i])
    && (forall k :: k in refs ==> exists i :: 0 <= i < NUMINODE && refcount[i] > 0 && key[i] == k)
  }

  lemma CountsSet(key: seq<Key>, refcount: seq<nat>, refs: Refs, i: nat, n: nat)
    requires Counts(key, refcount, refs) && i < NUMINODE && refcount[i] > 0
    ensures Counts(key, refcount[i := n], if n == 0 then refs - {key[i]} else refs[key[i] := n])
  {
    var rc, rs := refcount[i := n], if n == 0 then refs - {key[i]} else refs[key[i] := n];
    forall k | k in rs ensures exists j :: 0 <= j < NUMINODE && rc[j] > 0 && key[j] == k {
      var j :| 0 <= j < NUMINODE && refcount[j] > 0 && key[j] == k;
      assert rc[j] > 0 && key[j] == k;
    }
  }

  lemma CountsInc(key: seq<Key>, refcount: seq<nat>, refs: Refs, i: nat)
    requires Counts(key, refcount, refs) && i < NUMINODE && refcount[i] > 0
    ensures Counts(key, refcount[i := refcount[i] + 1], Inc(refs, key[i]))
  {
    CountsSet(key, refcount, refs, i, refcount[i] + 1);
  }

  lemma CountsDec(key: seq<Key>, refcount: seq<nat>, refs: Refs, i: nat)
    requires Counts(key, refcount, refs) && i < NUMINODE && refcount[i] > 0
    ensures key[i] in refs && refs[key[i]] == refcount[i] &&
            Counts(key, refcount[i := refcount[i] - 1], Dec(refs, key[i]))
  {
    CountsSet(key, refcount, refs, i, refcount[i] - 1);
  }

  lemma CountsAbsent(key: seq<Key>, refcount: seq<nat>, refs: Refs, k: Key)
    requires Counts(key, refcount, refs) && forall j :: 0 <= j < NUMINODE && refcount[j] > 0 ==> key[j] != k
    ensures k !in refs
  {}

  lemma LoadedFree(t: Tree, key: seq<Key>, refcount: seq<nat>, valid: seq<bool>, refs: Refs, i: nat)
    requires Counts(key, refcount, refs) && Loaded(t, key, refcount, valid) && i < NUMINODE && refcount[i] > 0
    ensures Loaded(t, key, refcount[i := refcount[i] - 1], valid)
    ensures Loaded(t[key[i] := Node(0, 0, [])], key, refcount[i := refcount[i] - 1], valid[i := false])
  {
    forall j | 0 <= j < NUMINODE && j != i && refcount[j] > 0 ensures key[j] != key[i] {}
  }

  lemma StillWellFormed(t: Tree, k: Key)
    requires WellFormed(t)
    ensures WellFormed(t[k := Node(0, 0, [])])
  {}

  lemma CountsNew(key: seq<Key>, refcount: seq<nat>, refs: Refs, i: nat, k: Key)
    requires Counts(key, refcount, refs) && i < NUMINODE && refcount[i] == 0 && k !in refs
    ensures Counts(key[i := k], refcount[i := 1], Inc(refs, k))
  {
    var ks, rc := key[i := k], refcount[i := 1];
    forall q | q in Inc(refs, k) ensures exists j :: 0 <= j < NUMINODE && rc[j] > 0 && ks[j] == q {
      if q == k {
        assert rc[i] > 0 && ks[i] == q;
      } else {
        var j :| 0 <= j < NUMINODE && refcount[j] > 0 && key[j] == q;
        assert rc[j] > 0 && ks[j] == q;
      }
    }
  }

  /** Every name in a directory leads to an inode that counts it as a link. */
  ghost predicate LinksCounted(t: Tree) {
    && At(t, ROOT).links > 0
    && forall k, i :: k in t && 0 <= i < |t[k].entries| && t[k].entries[i].inum != 0 ==>
         At(t, Key(k.dev, t[k].entries[i].inum)).links > 0
  }

  ghost predicate Loaded(t: Tree, key: seq<Key>, refcount: seq<nat>, valid: seq<bool>) {
    && |key| == |refcount| == |valid| == NUMINODE
    && forall i :: 0 <= i < NUMINODE && valid[i] && refcount[i] > 0 ==> At(t, key[i]).kind != 0
  }

  class InodeTable {
    var tree: Tree
    var key: seq<Key>
    var refcount: seq<nat>
    var valid: seq<bool>
    var locked: seq<bool>      // sleep locks held by the process
    ghost var refs: Refs

    ghost predicate Valid()
      reads this
    {
      && |key| == |refcount| == |valid| == |locked| == NUMINODE
      && Counts(key, refcount, refs) && Loaded(tree, key, refcount, valid) && WellFormed(tree)
    }

    /** inode_init */
    constructor (tree: Tree)
      requires WellFormed(tree)
      ensures Valid() && refs == map[] && this.tree == tree
      ensures forall i :: 0 <= i < NUMINODE ==> refcount[i] == 0 && !locked[i] && !valid[i]
    {
      this.tree, key, refcount := tree, seq(NUMINODE, i => ROOT), seq(NUMINODE, i => 0);
      valid, locked, refs := seq(NUMINODE, i => false), seq(NUMINODE, i => false), map[];
    }

    /** inode_get; None where it panics. */
    method Get(k: Key) returns (r: Option<nat>)
      requires Valid()
      modifies this`key, this`refcount, this`valid, this`refs
      ensures Valid() && (r.None? <==> NoEntryFor(old(key), old(refcount), k))
      ensures r.None? ==> Full(refcount)
      ensures r.None? ==> refs == old(refs) && key == old(key) && refcount == old(refcount) && valid == old(valid)
      ensures r.Some? ==> r.value < NUMINODE && key[r.value] == k && refcount[r.value] > 0 && refs == Inc(old(refs), k)
      ensures r.Some? ==> forall i :: 0 <= i < NUMINODE && old(refcount)[i] > 0 ==>
                          key[i] == old(key)[i] && refcount[i] > 0
    {
      hide Counts, Inc;
      var hit, empty := Scan(k);
      if hit.Some? {
        Dup(hit.value);
        return hit;
      }
      if empty.None? { return None; }
      var i := empty.value;
      CountsAbsent(key, refcount, refs, k);
      CountsNew(key, refcount, refs, i, k);
      key := key[i := k];
      refcount := refcount[i := 1];
      valid := valid[i := false];
      refs := Inc(refs, k);
      return empty;
    }

    /** The search in inode_get: the live entry for k, or else the first unused one. */
    method Scan(k: Key) returns (hit: Option<nat>, empty: Option<nat>)
      requires |key| == |refcount| == NUMINODE
      ensures hit.Some? ==> hit.value < NUMINODE && refcount[hit.value] > 0 && key[hit.value] == k
      ensures hit.None? ==> forall j :: 0 <= j < NUMINODE && refcount[j] > 0 ==> key[j] != k
      ensures hit.None? && empty.None? ==> forall j :: 0 <= j < NUMINODE ==> refcount[j] > 0
      ensures hit.None? && empty.Some? ==> empty.value < NUMINODE && refcount[empty.value] == 0
    {
      empty := None;
      for i := 0 to NUMINODE
        invariant forall j :: 0 <= j < i && refcount[j] > 0 ==> key[j] != k
        invariant empty.None? ==> forall j :: 0 <= j < i ==> refcount[j] > 0
        invariant empty.Some? ==> empty.value < NUMINODE && refcount[empty.value] == 0
      {
        if refcount[i] > 0 && key[i] == k { return Some(i), empty; }
        if empty.None? && refcount[i] == 0 { empty := Some(i); }
      }
      hit := None;
    }

    /** inode_dup */
    method Dup(i: nat)
      requires Valid() && i < NUMINODE && refcount[i] > 0
      modifies this`refcount, this`refs
      ensures Valid() && refcount == old(refcount)[i := old(refcount)[i] + 1] && refs == Inc(old(refs), key[i])
    {
      CountsInc(key, refcount, refs, i);
      refcount := refcount[i := refcount[i] + 1];
      refs := Inc(refs, key[i]);
    }

    /** inode_lock; false where it panics. */
    method Lock(i: nat) returns (ok: bool)
      requires Valid() && i < NUMINODE && !locked[i]
      modifies this`locked, this`valid
      ensures ok <==> refcount[i] > 0 && At(tree, key[i]).kind != 0
      ensures ok ==> Valid() && locked == old(locked)[i := true] && valid == old(valid)[i := true]
    {
      if refcount[i] < 1 { return false; }
      locked := locked[i := true];
      if !valid[i] {
        valid := valid[i := true];
        if At(tree, key[i]).kind == 0 { return false; }
      }
      return true;
    }

    /** inode_unlock; false where it panics. */
    method Unlock(i: nat) returns (ok: bool)
      requires Valid() && i < NUMINODE
      modifies this`locked
      ensures ok <==> old(locked)[i] && refcount[i] > 0
      ensures Valid() && locked == if ok then old(locked)[i := false] else old(locked)
    {
      if !locked[i] || refcount[i] < 1 { return false; }
      locked := locked[i := false];
      return true;
    }

    /** inode_put: the last reference to an inode with no links frees it. */
    method Put(i: nat) returns (freed: bool)
      requires Valid() && i < NUMINODE && refcount[i] > 0
      modifies this`tree, this`refcount, this`valid, this`refs
      ensures Valid() && old(key[i] in refs && refs[key[i]] > 0) && refs == Dec(old(refs), key[i])
      ensures freed <==> old(refcount)[i] == 1 && old(valid)[i] && At(old(tree), key[i]).links == 0
      ensures tree == if freed then old(tree)[key[i] := Node(0, 0, [])] else old(tree)
      ensures refcount == old(refcount)[i := old(refcount)[i] - 1]
      ensures valid == if freed then old(valid)[i := false] else old(valid)
    {
      CountsDec(key, refcount, refs, i);
      LoadedFree(tree, key, refcount, valid, refs, i);
      StillWellFormed(tree, key[i]);
      hide Counts, Dec, Loaded, WellFormed;
      freed := refcount[i] == 1 && valid[i] && At(tree, key[i]).links == 0;
      if freed {
        tree := tree[key[i] := Node(0, 0, [])];
        valid := valid[i := false];
      }
      refs := Dec(refs, key[i]);
      refcount := refcount[i := refcount[i] - 1];
    }

    /** dir_lookup on a locked directory. */
    method DirLookup(i: nat, name: seq<Byte>) returns (r: Option<nat>, full: bool)
      requires Valid() && i < NUMINODE && refcount[i] > 0 && |name| <= DIRSIZE && forall j :: 0 <= j < |name| ==>
               name[j] != 0
      modifies this`key, this`refcount, this`valid, this`refs
      ensures Valid() && (full ==> Full(refcount))
      ensures full <==> FindsNoRoom(At(tree, old(key)[i]), old(key)[i].dev, name, old(key), old(refcount))
      ensures !full ==> r.Some? == Find(At(tree, old(key)[i]).entries, name).Some?
      ensures r.None? ==> refs == old(refs) && key == old(key) && refcount == old(refcount) && valid == old(valid)
      ensures r.Some? ==>
              !full && Find(At(tree, old(key)[i]).entries, name).Some? && r.value < NUMINODE && refcount[r.value] > 0
      ensures r.Some? ==>
              key[r.value] == Key(old(key)[i].dev, Find(At(tree, old(key)[i]).entries, name).value) &&
              refs == Inc(old(refs), key[r.value])
      ensures r.Some? ==> forall j :: 0 <= j < NUMINODE && old(refcount)[j] > 0 ==>
                          key[j] == old(key)[j] && refcount[j] > 0
    {
      hide Counts, Loaded, Inc;
      var entries := At(tree, key[i]).entries;
      var n := 0;
      assert entries[0..] == entries;
      while n < |entries|
        invariant n <= |entries| && Valid() && key == old(key) && refcount == old(refcount) && valid == old(valid) &&
                  refs == old(refs)
        invariant Find(entries, name) == Find(entries[n..], name)
      {
        assert entries[n..][0] == entries[n] && entries[n..][1..] == entries[n + 1..];
        if entries[n].inum != 0 {
          var same := SameName(name, entries[n].name);
          if same {
            r := Get(Key(key[i].dev, entries[n].inum));
            full := r.None?;
            return;
          }
        }
        n := n + 1;
      }
      return None, false;
    }

    /** inode_unlock and inode_put on the way out of an inode that cannot be freed. */
    method Leave(i: nat)
      requires Valid() && i < NUMINODE && refcount[i] > 0 && locked[i] && key[i] in refs
      requires At(tree, key[i]).links > 0 || refs[key[i]] > 1
      modifies this`locked, this`tree, this`refcount, this`valid, this`refs
      ensures Valid() && locked == old(locked)[i := false] && tree == old(tree)
      ensures old(refs)[key[i]] > 0 && refs == Dec(old(refs), key[i])
      ensures refcount == old(refcount)[i := old(refcount)[i] - 1]
    {
      hide Counts, Loaded, Dec, WellFormed, At;
      var ok := Unlock(i);
      PutBack(i);
    }

    /** inode_put where it only gives up a reference. */
    method PutBack(i: nat)
      requires Valid() && i < NUMINODE && refcount[i] > 0 && key[i] in refs
      requires At(tree, key[i]).links > 0 || refs[key[i]] > 1
      modifies this`tree, this`refcount, this`valid, this`refs
      ensures Valid() && tree == old(tree)
      ensures old(refs)[key[i]] > 0 && refs == Dec(old(refs), key[i])
      ensures refcount == old(refcount)[i := old(refcount)[i] - 1]
    {
      RefIs(key, refcount, refs, i);
      hide Counts, Loaded, Dec, WellFormed, Positive, At;
      var freed := Put(i);
    }

    /** name_fetch: the result is the fold of directory lookup over the path's names; the returned inode, and no other,
        has one reference more, and no lock is left held. */
    method NameFetch(path: seq<Byte>, parent: bool, cwd: nat) returns (out: Outcome, slot: nat, name: seq<Byte>)
      requires Valid() && cwd < NUMINODE && refcount[cwd] > 0 && LinksCounted(tree)
      requires (forall i :: 0 <= i < |path| ==> path[i] != 0) && forall i :: 0 <= i < NUMINODE ==> !locked[i]
      modifies this
      ensures out.Found? ==>
              Valid() && slot < NUMINODE && key[slot] == out.key && refcount[slot] > 0 &&
              refs == Inc(old(refs), out.key)
      ensures out.Missing? ==> Valid() && refs == old(refs)
      ensures !out.Panic? ==> tree == old(tree) && locked == old(locked)
      ensures !out.Panic? ==> out == Resolve(tree, Start(path, old(key)[cwd]), Components(path), parent)
      ensures out.Panic? ==>
              Full(refcount) || Resolve(old(tree), Start(path, old(key)[cwd]), Components(path), parent) == Panic
      ensures out.Found? && parent ==> Components(path) != [] && name == Cut(Components(path)[|Components(path)| - 1])
    {
      RefIs(key, refcount, refs, cwd);
      hide Counts, Loaded, Inc, Dec, Resolve, Components, At;
      name := [];
      if |path| > 0 && path[0] == SLASH {
        var r := Get(ROOT);
        if r.None? { return Panic, 0, name; }
        slot := r.value;
      } else {
        Dup(cwd);
        slot := cwd;
      }
      assert path[0..] == path;
      out, slot, name := Descend(path, parent, slot, old(refs));
    }

    /** The body of name_fetch's loop: leaves the directory for the inode that name leads to, or ends the lookup. */
    method Enter(i: nat, name: seq<Byte>, atParent: bool, ghost refs0: Refs) returns (out: Outcome, r: Option<nat>)
      requires Valid() && i < NUMINODE && refcount[i] > 0 && LinksCounted(tree) && Positive(refs0)
      requires refs == Inc(refs0, key[i]) && (At(tree, key[i]).links > 0 || key[i] in refs0)
      requires |name| <= DIRSIZE && (forall j :: 0 <= j < |name| ==> name[j] != 0) && forall j :: 0 <= j < NUMINODE ==>
               !locked[j]
      modifies this
      ensures r.None? && out.Panic? ==> Full(refcount) || At(old(tree), old(key)[i]).kind == 0
      ensures r.Some? || !out.Panic? ==>
              Valid() && tree == old(tree) && locked == old(locked) && At(tree, old(key)[i]).kind != 0
      ensures r.None? && out.Missing? ==> refs == refs0
      ensures r.None? && out.Missing? && At(tree, old(key)[i]).kind == DIR_TYPE ==>
              !atParent && Find(At(tree, old(key)[i]).entries, name).None?
      ensures r.None? && out.Found? ==> out.key == old(key)[i] == key[i] && refcount[i] > 0 && refs == old(refs)
      ensures r.Some? || out.Found? ==> At(tree, old(key)[i]).kind == DIR_TYPE && (r.Some? <==> !atParent)
      ensures r.Some? ==>
              r.value < NUMINODE && refcount[r.value] > 0 && refs == Inc(refs0, key[r.value]) &&
              At(tree, key[r.value]).links > 0
      ensures r.Some? ==> Find(At(tree, old(key)[i]).entries, name).Some?
      ensures r.Some? ==> key[r.value] == Key(old(key)[i].dev, Find(At(tree, old(key)[i]).entries, name).value)
    {
      hide Counts, Loaded, Inc, Dec, At, LinksCounted, WellFormed, Find;
      ghost var t, k := tree, key[i];
      r := None;
      var ok := Lock(i);
      if !ok { return Panic, r; }
      HeldTwice(refs0, k);
      if At(tree, key[i]).kind != DIR_TYPE {
        Leave(i);
        Returned(refs0, k);
        return Missing, r;
      }
      if atParent {
        ok := Unlock(i);
        return Found(key[i]), r;
      }
      var full;
      r, full := DirLookup(i, name);
      if full { return Panic, r; }
      out := Missing;
      if r.None? {
        Leave(i);
        Returned(refs0, k);
        return;
      }
      FindLinked(t, k, name);
      HeldThrough(refs0, k, key[r.value]);
      Passed(refs0, k, key[r.value]);
      RefIs(key, refcount, refs, r.value);
      Leave(i);
    }

    /** The loop of name_fetch. */
    method Descend(path: seq<Byte>, parent: bool, start: nat, ghost refs0: Refs)
                   returns (out: Outcome, slot: nat, name: seq<Byte>)
      requires Valid() && start < NUMINODE && refcount[start] > 0 && LinksCounted(tree) && Positive(refs0)
      requires refs == Inc(refs0, key[start]) && (At(tree, key[start]).links > 0 || key[start] in refs0)
      requires (forall i :: 0 <= i < |path| ==> path[i] != 0) && forall i :: 0 <= i < NUMINODE ==> !locked[i]
      modifies this
      ensures out.Found? ==>
              Valid() && slot < NUMINODE && key[slot] == out.key && refcount[slot] > 0 && refs == Inc(refs0, out.key)
      ensures out.Missing? ==> Valid() && refs == refs0
      ensures !out.Panic? ==> tree == old(tree) && locked == old(locked)
      ensures !out.Panic? ==> out == Resolve(tree, old(key)[start], Components(path), parent)
      ensures out.Panic? ==> Full(refcount) || Resolve(old(tree), old(key)[start], Components(path), parent) == Panic
      ensures out.Found? && parent ==> Components(path) != [] && name == Cut(Components(path)[|Components(path)| - 1])
    {
      hide Counts, Loaded, Inc, Dec, Resolve, Components, At, LinksCounted, WellFormed, Full, Find, Cut;
      ghost var t, names := tree, Components(path);
      ghost var goal := Resolve(t, key[start], names, parent);
      var pos: nat, i: nat := 0, start;
      name := [];
      assert path[0..] == path;
      while true
        invariant Valid() && i < NUMINODE && refcount[i] > 0 && tree == t && pos <= |path| && locked == old(locked)
        invariant refs == Inc(refs0, key[i]) && (At(t, key[i]).links > 0 || key[i] in refs0)
        invariant Resolve(t, key[i], Components(path[pos..]), parent) == goal
        invariant Components(path[pos..]) != [] ==> SameLast(names, Components(path[pos..]))
        decreases |path| - pos
      {
        ghost var rest := Components(path[pos..]);
        Unfold(t, key[i], rest, parent);
        var next;
        next, name := SkipElem(path, pos);
        if next.None? { break; }
        FirstName(path, pos);
        pos := next.value;
        LastShifts(names, rest);
        var r;
        out, r := Enter(i, name, parent && pos == |path|, refs0);
        if r.None? { return out, i, name; }
        i := r.value;
      }
      if parent {
        Abandon(i, refs0);
        return Missing, 0, name;
      }
      return Found(key[i]), i, name;
    }

    /** inode_put at the end of a parent lookup of a path without names. */
    method Abandon(i: nat, ghost refs0: Refs)
      requires Valid() && i < NUMINODE && refcount[i] > 0 && Positive(refs0)
      requires refs == Inc(refs0, key[i]) && (At(tree, key[i]).links > 0 || key[i] in refs0)
      modifies this`tree, this`refcount, this`valid, this`refs
      ensures Valid() && tree == old(tree) && refs == refs0
    {
      HeldTwice(refs0, key[i]);
      RefIs(key, refcount, refs, i);
      hide Counts, Loaded, Inc, Dec, At, WellFormed;
      ghost var k := key[i];
      var freed := Put(i);
      Returned(refs0, k);
    }

    /** dir_link on a locked directory; false where inode_get or write_inode makes it panic. junk is what the entry
        buffer held before. */
    method DirLink(i: nat, name: seq<Byte>, inum: nat, junk: seq<Byte>) returns (ok: bool)
      requires Valid() && i < NUMINODE && refcount[i] > 0 && key[i] in tree && LinksCounted(tree) && inum != 0
      requires |name| <= DIRSIZE == |junk| && forall j :: 0 <= j < |name| ==> name[j] != 0
      modifies this
      ensures ok ==> Valid() && refs == old(refs) && locked == old(locked)
      ensures ok ==> tree == old(tree)[old(key)[i] := LinkedNode(At(old(tree), old(key)[i]), name, inum, junk)]
      ensures !ok <==> FindsNoRoom(At(old(tree), old(key)[i]), old(key)[i].dev, name, old(key), old(refcount)) ||
                       NoSlot(At(old(tree), old(key)[i]))
    {
      hide Counts, Loaded, LinksCounted, WellFormed, LinkedNode, Find, NoSlot, FindsNoRoom;
      ok := Probe(i, name);
      if ok { ok := WriteEntry(i, name, inum, junk); }
    }

    /** dir_link looks the name up first, and drops what it finds. */
    method Probe(i: nat, name: seq<Byte>) returns (ok: bool)
      requires Valid() && i < NUMINODE && refcount[i] > 0 && LinksCounted(tree)
      requires |name| <= DIRSIZE && forall j :: 0 <= j < |name| ==> name[j] != 0
      modifies this`tree, this`key, this`refcount, this`valid, this`refs
      ensures ok ==> Valid() && refs == old(refs) && tree == old(tree) && key[i] == old(key)[i]
      ensures !ok ==> Full(refcount)
      ensures !ok <==> FindsNoRoom(At(old(tree), old(key)[i]), old(key)[i].dev, name, old(key), old(refcount))
    {
      ghost var refs0, t, k := refs, tree, key[i];
      RefIs(key, refcount, refs, i);
      hide Counts, Loaded, LinksCounted, WellFormed, Inc, Dec, Find, At, FindsNoRoom;
      var r, full := DirLookup(i, name);
      if full { return false; }
      if r.Some? {
        FindLinked(t, k, name);
        Returned(refs0, key[r.value]);
        var freed := Put(r.value);
      }
      ok := true;
    }

    /** The rest of dir_link. */
    method WriteEntry(i: nat, name: seq<Byte>, inum: nat, junk: seq<Byte>) returns (ok: bool)
      requires Valid() && i < NUMINODE && key[i] in tree && |name| <= DIRSIZE == |junk| &&
               forall j :: 0 <= j < |name| ==> name[j] != 0
      modifies this`tree
      ensures ok <==> !NoSlot(At(old(tree), key[i]))
      ensures ok ==> Valid() && tree == old(tree)[key[i] := LinkedNode(At(old(tree), key[i]), name, inum, junk)]
    {
      var entries := At(tree, key[i]).entries;
      var n := 0;
      while n < |entries| && entries[n].inum != 0
        invariant n <= |entries| && forall m :: 0 <= m < n ==> entries[m].inum != 0
      {
        n := n + 1;
      }
      FreeSlotIs(entries, n);
      if n == |entries| && n >= MAXENTRIES { return false; }
      var field := StrCpy(name, junk);
      var e := DirEntry(inum, field);
      entries := if n < |entries| then entries[n := e] else entries + [e];
      LinkedLoaded(tree, key, refcount, valid, key[i], At(tree, key[i]).(entries := entries));
      hide Counts, Loaded, WellFormed;
      tree := tree[key[i] := At(tree, key[i]).(entries := entries)];
      ok := true;
    }
  }

  /** The characters of a name that strcpy keeps. */
  function Kept(name: seq<Byte>): (c: seq<Byte>)
    ensures |c| < DIRSIZE
  {
    if |name| >= DIRSIZE then name[..DIRSIZE - 1] else name
  }

  /** The name field after strcpy(de.name, name, DIRSIZE): the characters kept, a NUL, and a second NUL after a name
      that ended by itself; the rest is what the buffer held before. */
  function Field(name: seq<Byte>, junk: seq<Byte>): (r: seq<Byte>)
    requires |junk| == DIRSIZE
    ensures |r| == DIRSIZE
  {
    Kept(name) + [0] + Tail(Kept(name), junk)
  }

  function Tail(c: seq<Byte>, junk: seq<Byte>): seq<Byte>
    requires |c| < DIRSIZE == |junk|
  {
    if |c| + 1 < DIRSIZE then [0] + junk[|c| + 2..] else []
  }

  /** strcpy with n = DIRSIZE, of a name whose buffer is NUL-terminated if shorter than that. */
  method StrCpy(name: seq<Byte>, junk: seq<Byte>) returns (r: seq<Byte>)
    requires |name| <= DIRSIZE == |junk| && forall j :: 0 <= j < |name| ==> name[j] != 0
    ensures r == Field(name, junk)
  {
    hide Field;
    r := junk;
    var n, s := DIRSIZE - 1, 0;
    while n > 0
      invariant 0 <= n == DIRSIZE - 1 - s && s <= |name| && r == name[..s] + junk[s..]
    {
      var c: Byte := if s < |name| then name[s] else 0;
      Overwritten(name[..s], junk, c);
      r := r[s := c];
      s := s + 1;
      if c == 0 {
        assert name[..s - 1] == name;
        Overwritten(name + [0], junk, 0);
        r := r[s := 0];
        ShortField(name, junk);
        return;
      }
      assert name[..s] == name[..s - 1] + [c];
      n := n - 1;
    }
    Overwritten(name[..s], junk, 0);
    r := r[s := 0];
    LongField(name, junk);
  }

  lemma ShortField(name: seq<Byte>, junk: seq<Byte>)
    requires |name| + 1 < DIRSIZE == |junk|
    ensures Field(name, junk) == name + [0] + [0] + junk[|name| + 2..]
  {}

  lemma LongField(name: seq<Byte>, junk: seq<Byte>)
    requires |name| >= DIRSIZE - 1 && |junk| == DIRSIZE
    ensures Field(name, junk) == name[..DIRSIZE - 1] + [0] + junk[DIRSIZE..]
  {
    assert name[..DIRSIZE - 1] + [0] + [] == name[..DIRSIZE - 1] + [0] + junk[DIRSIZE..];
  }

  lemma Overwritten(a: seq<Byte>, junk: seq<Byte>, c: Byte)
    requires |a| < |junk|
    ensures (a + junk[|a|..])[|a| := c] == a + [c] + junk[|a| + 1..]
  {}

  /** The first entry not in use, or the end. */
  function FreeSlot(entries: seq<DirEntry>): (n: nat)
    ensures n <= |entries|
  {
    if entries == [] || entries[0].inum == 0 then 0 else 1 + FreeSlot(entries[1..])
  }

  lemma {:induction false} FreeSlotIs(entries: seq<DirEntry>, n: nat)
    requires n <= |entries| && (n < |entries| ==> entries[n].inum == 0) && forall m :: 0 <= m < n ==>
             entries[m].inum != 0
    ensures FreeSlot(entries) == n
    decreases n
  {
    if n > 0 { FreeSlotIs(entries[1..], n - 1); }
  }

  /** The directory has no free entry and cannot grow. */
  predicate NoSlot(d: Node) {
    FreeSlot(d.entries) == |d.entries| >= MAXENTRIES
  }

  function LinkedEntries(entries: seq<DirEntry>, name: seq<Byte>, inum: nat, junk: seq<Byte>): seq<DirEntry>
    requires |junk| == DIRSIZE
  {
    var n, e := FreeSlot(entries), DirEntry(inum, Field(name, junk));
    if n < |entries| then entries[n := e] else entries + [e]
  }

  function LinkedNode(d: Node, name: seq<Byte>, inum: nat, junk: seq<Byte>): Node
    requires |junk| == DIRSIZE
  {
    d.(entries := LinkedEntries(d.entries, name, inum, junk))
  }

  lemma LinkedLoaded(t: Tree, key: seq<Key>, refcount: seq<nat>, valid: seq<bool>, k: Key, d: Node)
    requires Loaded(t, key, refcount, valid) && WellFormed(t) && k in t && d.kind == t[k].kind
    requires forall j :: 0 <= j < |d.entries| ==> |d.entries[j].name| == DIRSIZE
    ensures Loaded(t[k := d], key, refcount, valid) && WellFormed(t[k := d])
  {}

  lemma {:induction false} StoredPrefix(c: seq<Byte>, rest: seq<Byte>)
    requires forall j :: 0 <= j < |c| ==> c[j] != 0
    ensures Stored(c + [0] + rest) == c
  {
    if c != [] {
      assert (c + [0] + rest)[1..] == c[1..] + [0] + rest;
      StoredPrefix(c[1..], rest);
    }
  }

  /** Searching past a front part. */
  lemma {:induction false} FindSplit(a: seq<DirEntry>, b: seq<DirEntry>, name: seq<Byte>)
    ensures Find(a + b, name) == if Find(a, name).Some? then Find(a, name) else Find(b, name)
    decreases |a|
  {
    if a == [] {
      assert a + b == b;
    } else {
      assert (a + b)[1..] == a[1..] + b;
      FindSplit(a[1..], b, name);
    }
  }

  lemma LinkedShape(es: seq<DirEntry>, name: seq<Byte>, inum: nat, junk: seq<Byte>)
    requires |junk| == DIRSIZE
    ensures var n := FreeSlot(es);
            LinkedEntries(es, name, inum,
            junk) == es[..n] + ([DirEntry(inum, Field(name, junk))] + es[if n < |es| then n + 1 else n..])
  {
    hide Field, FreeSlot;
    Replaced(es, FreeSlot(es), DirEntry(inum, Field(name, junk)));
  }

  lemma Replaced<T>(s: seq<T>, n: nat, e: T)
    requires n <= |s|
    ensures (if n < |s| then s[n := e] else s + [e]) == s[..n] + ([e] + s[if n < |s| then n + 1 else n..])
  {}

  /** Under which name a new link is found: the one it stores, up to DIRSIZE - 1 characters. Every other name is
      looked up as before. */
  lemma LinkKeepsOthers(es: seq<DirEntry>, name: seq<Byte>, inum: nat, junk: seq<Byte>, other: seq<Byte>)
    requires |junk| == DIRSIZE && inum != 0 && |name| <= DIRSIZE && forall j :: 0 <= j < |name| ==> name[j] != 0
    requires other != Kept(name)
    ensures Find(LinkedEntries(es, name, inum, junk), other) == Find(es, other)
  {
    var n := FreeSlot(es);
    StoredPrefix(Kept(name), Tail(Kept(name), junk));
    LinkedShape(es, name, inum, junk);
    var tail := es[if n < |es| then n + 1 else n..];
    FindSplit(es[..n], [DirEntry(inum, Field(name, junk))] + tail, other);
    FindSplit(es[..n], es[n..], other);
    assert es == es[..n] + es[n..];
    UnusedSlot(es);
  }

  lemma {:induction false} UnusedSlot(es: seq<DirEntry>)
    ensures var n := FreeSlot(es); n < |es| ==> es[n].inum == 0 && es[n..][1..] == es[n + 1..]
  {
    if es != [] && es[0].inum != 0 {
      UnusedSlot(es[1..]);
      var n := FreeSlot(es[1..]);
      assert n < |es| - 1 ==> es[1..][n] == es[n + 1];
    }
  }

  /** dir_link neither rejects a name in use nor keeps a name of full length: a name not yet linked to this inode leads
      to it afterwards exactly when it has fewer than DIRSIZE characters and no entry before the free slot has it. */
  lemma LinkFoundIff(es: seq<DirEntry>, name: seq<Byte>, inum: nat, junk: seq<Byte>)
    requires |junk| == DIRSIZE && inum != 0 && |name| <= DIRSIZE && forall j :: 0 <= j < |name| ==> name[j] != 0
    requires forall j :: 0 <= j < |es| && Stored(es[j].name) == name ==> es[j].inum != inum
    ensures Find(LinkedEntries(es, name, inum, junk), name) == Some(inum)
      <==> |name| < DIRSIZE && Find(es[..FreeSlot(es)], name).None?
  {
    var n := FreeSlot(es);
    var front := es[..n];
    if |name| < DIRSIZE {
      StoredPrefix(name, Tail(name, junk));
      LinkedShape(es, name, inum, junk);
      FindSplit(front, [DirEntry(inum, Field(name, junk))] + es[if n < |es| then n + 1 else n..], name);
      NotFound(front, name, inum);
    } else {
      LinkKeepsOthers(es, name, inum, junk, name);
      NotFound(es, name, inum);
    }
  }

  lemma {:induction false} NotFound(es: seq<DirEntry>, name: seq<Byte>, inum: nat)
    requires forall j :: 0 <= j < |es| && Stored(es[j].name) == name ==> es[j].inum != inum
    ensures Find(es, name) != Some(inum)
  {
    if es != [] { NotFound(es[1..], name, inum); }
  }

  /** Every entry of the table is in use. */
  ghost predicate Full(refcount: seq<nat>) {
    |refcount| == NUMINODE && forall i :: 0 <= i < NUMINODE ==> refcount[i] > 0
  }

  /** Where inode_get panics: no entry of the table is free, and none holds this inode. */
  ghost predicate NoEntryFor(key: seq<Key>, refcount: seq<nat>, k: Key) {
    |key| == NUMINODE && Full(refcount) && forall i :: 0 <= i < NUMINODE ==> key[i] != k
  }

  /** Where dir_lookup panics: it finds the name, and inode_get has no entry for it. */
  ghost predicate FindsNoRoom(d: Node, dev: nat, name: seq<Byte>, key: seq<Key>, refcount: seq<nat>) {
    Find(d.entries, name).Some? && NoEntryFor(key, refcount, Key(dev, Find(d.entries, name).value))
  }

  lemma RefIs(key: seq<Key>, refcount: seq<nat>, refs: Refs, i: nat)
    requires Counts(key, refcount, refs) && i < NUMINODE && refcount[i] > 0
    ensures Positive(refs) && key[i] in refs && refs[key[i]] == refcount[i]
  {}

  lemma HeldTwice(r: Refs, k: Key)
    requires Positive(r)
    ensures k in Inc(r, k) && (k in r ==> Inc(r, k)[k] > 1)
  {}

  lemma HeldThrough(r: Refs, k: Key, next: Key)
    requires Positive(r)
    ensures var q := Inc(Inc(r, k), next); k in q && next in q && (k in r ==> q[k] > 1) && (k == next ==> q[k] > 1)
  {}

  ghost predicate SameLast(a: seq<seq<Byte>>, b: seq<seq<Byte>>) {
    a != [] && b != [] && a[|a| - 1] == b[|b| - 1]
  }

  lemma LastShifts(a: seq<seq<Byte>>, b: seq<seq<Byte>>)
    requires SameLast(a, b)
    ensures b[1..] != [] ==> SameLast(a, b[1..])
    ensures b[1..] == [] <==> |b| == 1
    ensures |b| == 1 ==> b[0] == a[|a| - 1]
  {}

  lemma FirstName(path: seq<Byte>, pos: nat)
    requires pos <= |path| && (forall i :: 0 <= i < |path| ==> path[i] != 0) && Components(path[pos..]) != []
    ensures var c := Cut(Components(path[pos..])[0]); |c| <= DIRSIZE && forall i :: 0 <= i < |c| ==> c[i] != 0
  {
    ComponentsAreNames(path[pos..]);
    assert IsName(Components(path[pos..])[0]);
  }

  lemma {:induction false} FindIn(entries: seq<DirEntry>, name: seq<Byte>)
    requires Find(entries, name).Some?
    ensures exists i :: 0 <= i < |entries| && entries[i].inum != 0 && Find(entries, name) == Some(entries[i].inum)
  {
    if !(entries[0].inum != 0 && Stored(entries[0].name) == name) {
      FindIn(entries[1..], name);
      var i :| 0 <= i < |entries| - 1 && entries[1..][i].inum != 0 &&
          Find(entries[1..], name) == Some(entries[1..][i].inum);
      assert entries[i + 1] == entries[1..][i];
    }
  }

  lemma FindLinked(t: Tree, k: Key, name: seq<Byte>)
    requires LinksCounted(t) && Find(At(t, k).entries, name).Some?
    ensures At(t, Key(k.dev, Find(At(t, k).entries, name).value)).links > 0
  {
    FindIn(At(t, k).entries, name);
  }

  /** One step of the fold. */
  lemma Unfold(t: Tree, k: Key, names: seq<seq<Byte>>, parent: bool)
    ensures names == [] ==> Resolve(t, k, names, parent) == if parent then Missing else Found(k)
    ensures names != [] && At(t, k).kind == 0 ==> Resolve(t, k, names, parent) == Panic
    ensures names != [] && At(t, k).kind != 0 && At(t, k).kind != DIR_TYPE ==> Resolve(t, k, names, parent) == Missing
    ensures names != [] && At(t, k).kind == DIR_TYPE ==>
      Resolve(t, k, names, parent) ==
      if parent && |names| == 1 then Found(k)
      else
        var next := Find(At(t, k).entries, Cut(names[0]));
        if next.None? then Missing else Resolve(t, Key(k.dev, next.value), names[1..], parent)
  {}

  /** Where a lookup starts. */
  function Start(path: seq<Byte>, cwd: Key): Key {
    if path != [] && path[0] == SLASH then ROOT else cwd
  }
}
