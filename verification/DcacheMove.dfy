/** Renaming: a dentry and everything below it moves, the dentry it replaces is freed, and the file
    system follows (vfs_rename, dcache_move, dcache_delete). */
module DcacheMove {
  import opened Prelude
  import opened Dcache

  // ----- above and below

  /** Going up at most `n` steps from `x` meets `a`. */
  predicate Climbs(t: Table, x: Id, a: Id, n: nat)
    decreases n
  {
    x == a || (n > 0 && x in t && Climbs(t, t[x].parent, a, n - 1))
  }

  ghost predicate Below(w: World, x: Id, a: Id) { x in w.depth && Climbs(w.t, x, a, w.depth[x]) }

  lemma BelowParent(w: World, x: Id, a: Id)
    requires Tree(w) && x in w.live && x != ROOT && x != a
    ensures x in w.t && (Below(w, x, a) <==> Below(w, w.t[x].parent, a))
  {
    assert TreeAt(w, x);
  }

  lemma RootAlone(w: World, a: Id)
    requires Tree(w)
    ensures Below(w, ROOT, a) <==> a == ROOT
  {
    assert TreeAt(w, ROOT);
  }

  lemma {:induction false} BelowIsDeeper(w: World, x: Id, a: Id)
    requires Tree(w) && x in w.live && a in w.live && Below(w, x, a)
    ensures a in w.depth && x in w.depth && w.depth[a] <= w.depth[x] && (w.depth[a] == w.depth[x] ==> x == a)
    decreases if x in w.depth then w.depth[x] else 0
  {
    assert TreeAt(w, x) && TreeAt(w, a);
    RootAlone(w, a);
    if x != a {
      BelowParent(w, x, a);
      BelowIsDeeper(w, w.t[x].parent, a);
    }
  }

  /** Below a dentry with no entries everything is negative. */
  lemma {:induction false} BelowEmpty(w: World, x: Id, a: Id)
    requires Inv(w) && a in w.live && a != ROOT && Dir(w, a) == map[] && x in w.live && x != a && Below(w, x, a)
    ensures x in w.t && w.t[x].inode.None?
    decreases if x in w.depth then w.depth[x] else 0
  {
    RootAlone(w, a);
    BelowParent(w, x, a);
    assert TreeAt(w, x) && CoherentAt(w, x);
    var y := w.t[x].parent;
    if y != a { BelowEmpty(w, y, a); }
  }

  // ----- the table

  /** dentry_unlink. */
  function Unlinked(t: Table, x: Id): Table
    requires x in t && t[x].parent in t
  {
    var p := t[x].parent;
    var d := t[p].(kids := Without(t[p].kids, x));
    t[p := if t[x].inode.Some? then d.(positive := d.positive - 1) else d.(negative := d.negative - 1)]
  }

  /** dentry_link. */
  function Linked(t: Table, q: Id, x: Id): Table
    requires x in t && q in t && x != q
  {
    var d := t[q].(kids := [x] + t[q].kids);
    t[x := t[x].(parent := q)]
     [q := if t[x].inode.Some? then d.(positive := d.positive + 1) else d.(negative := d.negative + 1)]
  }

  /** What the two calls of vfs_rename do to one dentry. */
  ghost predicate MovedAt(t: Table, src: Id, dst: Id, t': Table, y: Id)
    requires src in t && dst in t && y in t
  {
    var p, q, d := t[src].parent, t[dst].parent, t[y];
    && y in t'
    && t'[y].name == (if y == src then t[dst].name else d.name)
    && t'[y].parent == (if y == src then q else d.parent)
    && t'[y].inode == d.inode && t'[y].cached == d.cached && t'[y].mp == d.mp
    && t'[y].kids == (var rest := if y == p then Without(d.kids, src) else d.kids;
                      if y == q then [src] + Without(rest, dst) else rest)
    && t'[y].positive == d.positive - (if y == p then 1 else 0) + (if y == q then 1 else 0)
                         - (if y == q && t[dst].inode.Some? then 1 else 0)
    && t'[y].negative == d.negative - if y == q && t[dst].inode.None? then 1 else 0
  }

  ghost predicate Moved(t: Table, src: Id, dst: Id, t': Table)
    requires src in t && dst in t
  {
    && t'.Keys == t.Keys - {dst}
    && forall y {:trigger MovedAt(t, src, dst, t', y)} | y in t && y != dst :: MovedAt(t, src, dst, t', y)
  }

  /** Unlink, rename, link, unlink the other and free it: in one step. */
  lemma MoveSteps(w: World, src: Id, dst: Id, t1: Table, t2: Table, t3: Table, t4: Table)
    requires Tree(w) && Child(w, src) && Child(w, dst) && src != dst && w.t[src].inode.Some? && w.t[dst].parent != src
    requires t1 == Unlinked(w.t, src) && t2 == t1[src := t1[src].(name := w.t[dst].name)]
    requires t3 == Linked(t2, w.t[dst].parent, src) && t4 == Unlinked(t3, dst)
    ensures Moved(w.t, src, dst, t4 - {dst})
  {
    forall y | y in w.t && y != dst
      ensures MovedAt(w.t, src, dst, t4 - {dst}, y)
    {
      StepAt(w, src, dst, t1, t2, t3, t4, y);
    }
  }

  lemma StepAt(w: World, src: Id, dst: Id, t1: Table, t2: Table, t3: Table, t4: Table, y: Id)
    requires Tree(w) && Child(w, src) && Child(w, dst) && src != dst && w.t[src].inode.Some? && w.t[dst].parent != src
    requires t1 == Unlinked(w.t, src) && t2 == t1[src := t1[src].(name := w.t[dst].name)]
    requires t3 == Linked(t2, w.t[dst].parent, src) && t4 == Unlinked(t3, dst)
    requires y in w.t && y != dst
    ensures MovedAt(w.t, src, dst, t4 - {dst}, y)
  {
    if y == w.t[dst].parent {
      var rest := if y == w.t[src].parent then Without(w.t[y].kids, src) else w.t[y].kids;
      assert t3[y].kids == [src] + rest && ([src] + rest)[1..] == rest;
    }
  }

  // ----- the world

  /** What rename does to the file system: the new entry is made or replaced, then the old one goes. */
  function FsMove(fs: Fs, from: nat, name: string, into: nat, target: string, e: Ent, replaced: Option<Ent>): Fs
    requires from in fs && into in fs
  {
    var more := fs[into := fs[into][target := e]];
    var less := more[from := more[from] - {name}];
    if replaced.Some? && replaced.value.dir then less - {replaced.value.ino} else less
  }

  /** The checks of vfs_rename and the file system, and what the walks to both names establish. */
  ghost predicate CanMove(w: World, src: Id, dst: Id) {
    && Inv(w) && Child(w, src) && Child(w, dst) && src != dst && w.t[src].inode.Some?
    && Directory(w, w.t[src].parent) && Directory(w, w.t[dst].parent)
    && (w.t[dst].inode.Some? ==> w.t[dst].inode.value.dir == w.t[src].inode.value.dir)
    && w.t[src].mp == w.t[dst].mp && Dir(w, dst) == map[] && !Below(w, w.t[dst].parent, src)
  }

  /** A dentry keeps its depth, unless it moves along. */
  ghost function NewDepth(w: World, src: Id, q: Id, x: Id): nat
    requires x in w.depth && src in w.depth && q in w.depth
  {
    if Below(w, x, src) && w.depth[x] >= w.depth[src] then w.depth[x] - w.depth[src] + w.depth[q] + 1 else w.depth[x]
  }

  ghost predicate Renamed(w: World, src: Id, dst: Id, w': World)
    requires CanMove(w, src, dst)
  {
    var p, q, e := w.t[src].parent, w.t[dst].parent, w.t[src].inode.value;
    var pi, qi := ParentIno(w, src), ParentIno(w, dst);
    && Moved(w.t, src, dst, w'.t) && w'.mounts == w.mounts && w'.at == w.at
    && w'.fs == FsMove(w.fs, pi, w.t[src].name, qi, w.t[dst].name, e, w.t[dst].inode)
    && w'.live == (set x | x in w.live && !Below(w, x, dst))
    && (forall x {:trigger x in w'.depth} {:trigger w'.depth[x]} |
          x in w'.live && x in w.depth && src in w.depth && q in w.depth ::
          x in w'.depth && w'.depth[x] == NewDepth(w, src, q, x))
    && w'.home == (var h := if e.dir then w.home[e.ino := (qi, w.t[dst].name)] else w.home;
                   if w.t[dst].inode.Some? && w.t[dst].inode.value.dir then h - {w.t[dst].inode.value.ino} else h)
  }

  /** The source and both parents stay. */
  lemma Stay(w: World, src: Id, dst: Id)
    requires CanMove(w, src, dst)
    ensures var p, q := w.t[src].parent, w.t[dst].parent;
            && !Below(w, src, dst) && !Below(w, p, dst) && !Below(w, q, dst)
            && p != dst && q != src && p != ROOT && q != ROOT && p != src && q != dst
  {
    var p, q := w.t[src].parent, w.t[dst].parent;
    assert TreeAt(w, src) && TreeAt(w, dst) && TreeAt(w, q);
    if Below(w, src, dst) { BelowEmpty(w, src, dst); }
    BelowParent(w, src, dst);
    if Below(w, q, dst) { BelowIsDeeper(w, q, dst); }
  }

  lemma MoveTreeAt(w: World, src: Id, dst: Id, w': World, x: Id)
    requires CanMove(w, src, dst) && Renamed(w, src, dst, w') && x in w'.live
    ensures TreeAt(w', x)
  {
    var p, q := w.t[src].parent, w.t[dst].parent;
    Stay(w, src, dst);
    assert TreeAt(w, x) && TreeAt(w, src) && TreeAt(w, q) && TreeAt(w, dst) && TreeAt(w, p);
    assert MovedAt(w.t, src, dst, w'.t, x);
    MoveKidsAt(w, src, dst, w', x);
    RootAlone(w, src);
    RootAlone(w, dst);
    if x != ROOT {
      MoveParentAt(w, src, dst, w', x);
    }
  }

  lemma MoveKidsAt(w: World, src: Id, dst: Id, w': World, x: Id)
    requires CanMove(w, src, dst) && Renamed(w, src, dst, w') && x in w'.live
    ensures x in w'.t && NoDup(w'.t[x].kids)
    ensures forall k | k in w'.t[x].kids ::
              k in w'.live && k in w'.t && k != ROOT && !IsMount(w', k) && w'.t[k].parent == x
  {
    var p, q := w.t[src].parent, w.t[dst].parent;
    Stay(w, src, dst);
    assert TreeAt(w, x) && TreeAt(w, src) && MovedAt(w.t, src, dst, w'.t, x);
    WithoutNoDup(w.t[x].kids, src);
    WithoutNoDup(if x == p then Without(w.t[x].kids, src) else w.t[x].kids, dst);
    forall k | k in w'.t[x].kids
      ensures k in w'.live && k in w'.t && k != ROOT && !IsMount(w', k) && w'.t[k].parent == x
    {
      assert TreeAt(w, k);
      assert k != dst;
      assert MovedAt(w.t, src, dst, w'.t, k);
      if k != src { BelowParent(w, k, dst); }
    }
  }

  lemma MoveParentAt(w: World, src: Id, dst: Id, w': World, x: Id)
    requires CanMove(w, src, dst) && Renamed(w, src, dst, w') && x in w'.live && x != ROOT
    ensures x in w'.t && x in w'.depth && ParentOk(w', x)
  {
    var p, q := w.t[src].parent, w.t[dst].parent;
    Stay(w, src, dst);
    assert TreeAt(w, x) && TreeAt(w, src) && TreeAt(w, q) && TreeAt(w, dst);
    assert MovedAt(w.t, src, dst, w'.t, x) && MovedAt(w.t, src, dst, w'.t, q);
    if x != src {
      var y := w.t[x].parent;
      assert TreeAt(w, y);
      BelowParent(w, x, dst);
      BelowParent(w, x, src);
      assert MovedAt(w.t, src, dst, w'.t, y);
      if Below(w, x, src) {
        BelowIsDeeper(w, x, src);
        BelowIsDeeper(w, y, src);
      }
    }
  }

  lemma MovePlacedAt(w: World, src: Id, dst: Id, w': World, x: Id)
    requires CanMove(w, src, dst) && Renamed(w, src, dst, w') && x in w'.live
    ensures PlacedAt(w', x)
  {
    Stay(w, src, dst);
    assert TreeAt(w, x) && PlacedAt(w, x) && PlacedAt(w, dst) && MovedAt(w.t, src, dst, w'.t, x);
    if x != ROOT {
      MoveParentAt(w, src, dst, w', x);
      assert MovedAt(w.t, src, dst, w'.t, w'.t[x].parent);
    }
  }

  lemma MoveNamesAt(w: World, src: Id, dst: Id, w': World, x: Id)
    requires CanMove(w, src, dst) && Renamed(w, src, dst, w') && x in w'.live
    ensures NamesAt(w', x)
  {
    Stay(w, src, dst);
    assert TreeAt(w, x) && NamesAt(w, x) && TreeAt(w, src) && TreeAt(w, dst) && MovedAt(w.t, src, dst, w'.t, x);
    forall a, b | a in w'.t[x].kids && b in w'.t[x].kids && a in w'.t && b in w'.t && w'.t[a].name == w'.t[b].name
      ensures a == b
    {
      assert MovedAt(w.t, src, dst, w'.t, a) && MovedAt(w.t, src, dst, w'.t, b);
      assert a != src ==> a in w.t[x].kids && a != dst;
      assert b != src ==> b in w.t[x].kids && b != dst;
    }
  }

  lemma MoveCountedAt(w: World, src: Id, dst: Id, w': World, x: Id)
    requires CanMove(w, src, dst) && Renamed(w, src, dst, w') && x in w'.live
    ensures CountedAt(w', x)
  {
    assert TreeAt(w, x);
    var p, q, kids := w.t[src].parent, w.t[dst].parent, w.t[x].kids;
    Stay(w, src, dst);
    assert CountedAt(w, x) && TreeAt(w, src) && TreeAt(w, dst) && MovedAt(w.t, src, dst, w'.t, x);
    forall k | k == src || (k in kids && k != dst) ensures Positive(w.t, k) == Positive(w'.t, k) {
      assert MovedAt(w.t, src, dst, w'.t, k);
    }
    MovedCount(w.t, w'.t, kids, src, dst, x == p, x == q);
  }

  predicate Positive(t: Table, k: Id) { k in t && t[k].inode.Some? }

  /** The positive children among `kids` once `src` has left or come and `dst` is gone. */
  lemma MovedCount(t: Table, t': Table, kids: seq<Id>, src: Id, dst: Id, from: bool, to: bool)
    requires NoDup(kids) && src != dst && Positive(t, src) && (from <==> src in kids) && (to <==> dst in kids)
    requires forall k | k == src || (k in kids && k != dst) :: Positive(t, k) == Positive(t', k)
    ensures var rest := if from then Without(kids, src) else kids;
            var last := if to then [src] + Without(rest, dst) else rest;
            && CountPositive(t', last) == CountPositive(t, kids) - (if from then 1 else 0) + (if to then 1 else 0)
                                          - (if to && Positive(t, dst) then 1 else 0)
            && |last| == |kids| - if from then 1 else 0
  {
    var rest := if from then Without(kids, src) else kids;
    CountWithout(t, kids, src);
    WithoutNoDup(kids, src);
    CountWithout(t, rest, dst);
    var last := if to then Without(rest, dst) else rest;
    forall k | k in last ensures Positive(t, k) == Positive(t', k) { assert k in kids && k != dst; }
    CountSame(t, t', last);
    assert ([src] + last)[1..] == last;
  }

  /** The entries of every directory that stays, as rename leaves them. */
  lemma MoveDir(w: World, src: Id, dst: Id, w': World, x: Id)
    requires CanMove(w, src, dst) && Renamed(w, src, dst, w') && x in w'.live
    ensures var p, q := w.t[src].parent, w.t[dst].parent;
            var more := if x == q then Dir(w, x)[w.t[dst].name := w.t[src].inode.value] else Dir(w, x);
            Dir(w', x) == if x == p then more - {w.t[src].name} else more
  {
    var p, q := w.t[src].parent, w.t[dst].parent;
    Stay(w, src, dst);
    assert MovedAt(w.t, src, dst, w'.t, x) by { assert TreeAt(w, x); }
    assert InodeAt(w, dst) && InodeAt(w, p) && InodeAt(w, q) && InodeAt(w, x);
    if Directory(w, x) {
      if x != p { DirectoriesDiffer(w, x, p); }
      if x != q { DirectoriesDiffer(w, x, q); }
      if Directory(w, dst) { DirectoriesDiffer(w, x, dst); }
      if p != q { DirectoriesDiffer(w, p, q); }
    }
  }

  lemma MoveCoherentAt(w: World, src: Id, dst: Id, w': World, x: Id)
    requires CanMove(w, src, dst) && Renamed(w, src, dst, w') && x in w'.live
    ensures CoherentAt(w', x)
  {
    Stay(w, src, dst);
    assert TreeAt(w, x) && CoherentAt(w, x) && TreeAt(w, src) && TreeAt(w, dst) && MovedAt(w.t, src, dst, w'.t, x);
    if x != ROOT && !IsMount(w, x) {
      MoveParentAt(w, src, dst, w', x);
      var y := w'.t[x].parent;
      MoveDir(w, src, dst, w', y);
      assert NamesAt(w, y);
      assert x == src ==> w.t[src].parent == y ==> w.t[src].name != w.t[dst].name;
    }
  }

  lemma MoveCompleteAt(w: World, src: Id, dst: Id, w': World, x: Id)
    requires CanMove(w, src, dst) && Renamed(w, src, dst, w') && x in w'.live
    ensures CompleteAt(w', x)
  {
    Stay(w, src, dst);
    assert TreeAt(w, x) && CompleteAt(w, x) && TreeAt(w, src) && TreeAt(w, dst) && MovedAt(w.t, src, dst, w'.t, x);
    MoveDir(w, src, dst, w', x);
    assert MovedAt(w.t, src, dst, w'.t, src);
    forall n | n in Dir(w', x) && w.t[x].cached
      ensures HasKid(w', x, n)
    {
      if x == w.t[dst].parent && n == w.t[dst].name {
        assert src in w'.t[x].kids && w'.t[src].name == n;
      } else {
        assert HasKid(w, x, n);
        var k :| k in w.t[x].kids && k in w.t && w.t[k].name == n;
        assert k != dst;
        assert MovedAt(w.t, src, dst, w'.t, k);
        assert k in w'.t[x].kids && w'.t[k].name == n;
      }
    }
  }

  lemma MoveInodeAt(w: World, src: Id, dst: Id, w': World, x: Id)
    requires CanMove(w, src, dst) && Renamed(w, src, dst, w') && x in w'.live
    ensures InodeAt(w', x)
  {
    assert TreeAt(w, x) && MovedAt(w.t, src, dst, w'.t, x);
    assert InodeAt(w, x) && InodeAt(w, dst) && TreeAt(w, dst);
  }

  lemma MoveEntryAt(w: World, src: Id, dst: Id, w': World, i: nat, n: string)
    requires CanMove(w, src, dst) && Renamed(w, src, dst, w')
    ensures EntryAt(w', i, n)
  {
    var pi, qi := ParentIno(w, src), ParentIno(w, dst);
    assert CoherentAt(w, src) && CoherentAt(w, dst) && InodeAt(w, src) && InodeAt(w, dst);
    assert EntryAt(w, i, n) && EntryAt(w, pi, w.t[src].name) && EntryAt(w, qi, w.t[dst].name);
    assert pi == qi ==> w.t[src].name != w.t[dst].name by { OtherName(w, src, dst); }
  }

  /** Two children of one directory have different names. */
  lemma OtherName(w: World, src: Id, dst: Id)
    requires CanMove(w, src, dst)
    ensures ParentIno(w, src) == ParentIno(w, dst) ==> w.t[src].name != w.t[dst].name
  {
    var p, q := w.t[src].parent, w.t[dst].parent;
    if p != q { DirectoriesDiffer(w, p, q); }
    assert TreeAt(w, src) && TreeAt(w, dst) && NamesAt(w, p);
  }

  lemma MoveMountAt(w: World, src: Id, dst: Id, w': World, x: Id)
    requires CanMove(w, src, dst) && Renamed(w, src, dst, w') && IsMount(w', x)
    ensures MountAt(w', x)
  {
    assert MountAt(w, x) && InodeAt(w, x) && InodeAt(w, src) && InodeAt(w, dst) && TreeAt(w, x);
    RootAlone(w, dst);
    BelowParent(w, x, dst);
    assert MovedAt(w.t, src, dst, w'.t, x);
  }

  /** A successful rename keeps everything the cache promises. */
  lemma RenameKeeps(w: World, src: Id, dst: Id, w': World)
    requires CanMove(w, src, dst) && Renamed(w, src, dst, w')
    ensures Inv(w')
  {
    RootAlone(w, dst);
    forall x | x in w'.live ensures TreeAt(w', x) { MoveTreeAt(w, src, dst, w', x); }
    forall x | x in w'.live ensures PlacedAt(w', x) { MovePlacedAt(w, src, dst, w', x); }
    forall x | x in w'.live ensures NamesAt(w', x) { MoveNamesAt(w, src, dst, w', x); }
    forall x | x in w'.live ensures CoherentAt(w', x) { MoveCoherentAt(w, src, dst, w', x); }
    forall x | x in w'.live ensures CountedAt(w', x) { MoveCountedAt(w, src, dst, w', x); }
    forall x | x in w'.live ensures CompleteAt(w', x) { MoveCompleteAt(w, src, dst, w', x); }
    forall x | x in w'.live ensures InodeAt(w', x) { MoveInodeAt(w, src, dst, w', x); }
    forall i, n ensures EntryAt(w', i, n) { MoveEntryAt(w, src, dst, w', i, n); }
    forall x | IsMount(w', x) ensures MountAt(w', x) { MoveMountAt(w, src, dst, w', x); }
  }

  // ----- who may be renamed

  /** A dentry lies under the root of its mount. */
  lemma {:induction false} MountAbove(w: World, x: Id)
    requires Inv(w) && x in w.live && x != ROOT
    ensures x in w.t && IsMount(w, w.t[x].mp) && Below(w, x, w.t[x].mp)
    decreases if x in w.depth then w.depth[x] else 0
  {
    assert TreeAt(w, x) && PlacedAt(w, x);
    if !IsMount(w, x) {
      MountAbove(w, w.t[x].parent);
      if w.t[x].mp != x { BelowParent(w, x, w.t[x].mp); }
    }
  }

  /** Neither the top nor the root of a mount passes the checks of vfs_rename. */
  lemma NotRoots(w: World, src: Id, dst: Id)
    requires Inv(w) && src in w.live && src in w.t && w.t[src].inode.Some? && dst in w.live && dst in w.t && src != dst
    requires w.t[src].mp == w.t[dst].mp && Dir(w, dst) == map[]
    requires w.t[src].inode.value.dir ==> !Below(w, w.t[dst].parent, src)
    ensures src != ROOT && dst != ROOT && !IsMount(w, src) && !IsMount(w, dst)
  {
    assert PlacedAt(w, src) && PlacedAt(w, dst);
    if dst != ROOT {
      MountAbove(w, dst);
      assert MountAt(w, w.t[dst].mp);
    }
    if src != ROOT {
      MountAbove(w, src);
      assert MountAt(w, w.t[src].mp);
    }
    if IsMount(w, src) { BelowParent(w, dst, src); }
    if IsMount(w, dst) { BelowEmpty(w, src, dst); }
  }

  /** The checks are enough. */
  lemma ChecksSuffice(w: World, src: Id, dst: Id)
    requires Inv(w) && src in w.live && src in w.t && w.t[src].inode.Some? && dst in w.live && dst in w.t && src != dst
    requires w.t[src].mp == w.t[dst].mp && Dir(w, dst) == map[]
    requires w.t[src].inode.value.dir ==> !Below(w, w.t[dst].parent, src)
    requires w.t[dst].inode.None? ==> Directory(w, w.t[dst].parent)
    requires w.t[dst].inode.Some? ==> w.t[dst].inode.value.dir == w.t[src].inode.value.dir
    ensures CanMove(w, src, dst)
  {
    NotRoots(w, src, dst);
    assert TreeAt(w, src) && TreeAt(w, dst) && CoherentAt(w, src) && CoherentAt(w, dst);
    var q := w.t[dst].parent;
    if !w.t[src].inode.value.dir && Below(w, q, src) { BelowEmpty(w, q, src); }
  }

  ghost function After(w: World, src: Id, dst: Id, t': Table): World
    requires CanMove(w, src, dst) && src in w.depth && w.t[dst].parent in w.depth
  {
    var q, e := w.t[dst].parent, w.t[src].inode.value;
    var pi, qi := ParentIno(w, src), ParentIno(w, dst);
    var live := set x | x in w.live && !Below(w, x, dst);
    var h := if e.dir then w.home[e.ino := (qi, w.t[dst].name)] else w.home;
    World(t', FsMove(w.fs, pi, w.t[src].name, qi, w.t[dst].name, e, w.t[dst].inode), w.mounts, live,
          map x | x in live && x in w.depth :: NewDepth(w, src, q, x), w.at,
          if w.t[dst].inode.Some? && w.t[dst].inode.value.dir then h - {w.t[dst].inode.value.ino} else h)
  }

  lemma AfterKeeps(w: World, src: Id, dst: Id, t': Table)
    requires CanMove(w, src, dst) && src in w.depth && w.t[dst].parent in w.depth && Moved(w.t, src, dst, t')
    ensures Renamed(w, src, dst, After(w, src, dst, t')) && Inv(After(w, src, dst, t'))
  {
    RenameKeeps(w, src, dst, After(w, src, dst, t'));
  }
}
