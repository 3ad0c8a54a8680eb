/** The cache of directory entries: what it may say about the file system under it, and what each
    change to both keeps (dcache.c, and the operations of vfs.c on it). */
module Dcache {
  import opened Prelude

  type Id = nat
  const ROOT: Id := 0

  /** What a name stands for: an inode number, and whether it is a directory. */
  datatype Ent = Ent(ino: nat, dir: bool)

  datatype Dentry = Dentry(name: string, parent: Id, kids: seq<Id>, positive: int, negative: int,
                           cached: bool, inode: Option<Ent>, mp: nat)

  type Table = map<Id, Dentry>
  type Entries = map<string, Ent>
  type Fs = map<nat, Entries>

  /** The cache and the file system, with what ties them together: the dentries reachable from the
      root and how deep they are, the dentry of each directory inode, and the only entry that names
      a directory inode. */
  datatype World = World(t: Table, fs: Fs, mounts: map<string, Id>,
                         live: set<Id>, depth: map<Id, nat>, at: map<nat, Id>, home: map<nat, (nat, string)>)

  ghost predicate Directory(w: World, x: Id) {
    && x in w.t && x != ROOT && w.t[x].inode.Some?
    && w.t[x].inode.value.dir && w.t[x].inode.value.ino in w.fs
  }

  /** The entries under a dentry; none if it is negative or a file. */
  ghost function Dir(w: World, x: Id): Entries {
    if Directory(w, x) then w.fs[w.t[x].inode.value.ino] else map[]
  }

  function Look(d: Entries, name: string): Option<Ent> { if name in d then Some(d[name]) else None }

  ghost predicate IsMount(w: World, x: Id) { x in w.mounts.Values }

  // ----- the invariant, dentry by dentry

  ghost predicate TreeAt(w: World, x: Id) {
    && x in w.t && x in w.depth && NoDup(w.t[x].kids)
    && (x == ROOT ==> w.t[x].kids == [] && w.depth[x] == 0 && w.t[x].parent == ROOT
                      && w.t[x].inode.Some? && w.t[x].inode.value.dir)
    && (x != ROOT ==> ParentOk(w, x))
    && (forall k | k in w.t[x].kids :: k in w.live && k in w.t && k != ROOT && !IsMount(w, k) && w.t[k].parent == x)
  }

  ghost predicate ParentOk(w: World, x: Id)
    requires x in w.t && x in w.depth
  {
    var p := w.t[x].parent;
    && p in w.live && p in w.t && p in w.depth && w.depth[x] == w.depth[p] + 1
    && if IsMount(w, x) then p == ROOT else p != ROOT && x in w.t[p].kids
  }

  /** No two dentries of a directory have the same name. */
  ghost predicate NamesAt(w: World, x: Id) {
    x in w.t && forall a, b | a in w.t[x].kids && b in w.t[x].kids && a in w.t && b in w.t ::
      w.t[a].name == w.t[b].name ==> a == b
  }

  /** A dentry says what the file system says: positive with the entry, or negative without. */
  ghost predicate CoherentAt(w: World, x: Id) {
    x in w.t && (x != ROOT && !IsMount(w, x) ==> w.t[x].inode == Look(Dir(w, w.t[x].parent), w.t[x].name))
  }

  function CountPositive(t: Table, kids: seq<Id>): nat {
    if kids == [] then 0
    else (if kids[0] in t && t[kids[0]].inode.Some? then 1 else 0) + CountPositive(t, kids[1..])
  }

  ghost predicate CountedAt(w: World, x: Id) {
    && x in w.t
    && w.t[x].positive == CountPositive(w.t, w.t[x].kids)
    && w.t[x].negative == |w.t[x].kids| - CountPositive(w.t, w.t[x].kids)
  }

  ghost predicate HasKid(w: World, x: Id, name: string) {
    x in w.t && exists k :: k in w.t[x].kids && k in w.t && w.t[k].name == name
  }

  /** The flag is set only if every entry of the directory has a dentry. */
  ghost predicate CompleteAt(w: World, x: Id) {
    x in w.t && (w.t[x].cached ==> forall n {:trigger HasKid(w, x, n)} | n in Dir(w, x) :: HasKid(w, x, n))
  }

  ghost predicate InodeAt(w: World, x: Id) {
    && x in w.t
    && (x != ROOT && w.t[x].inode.Some? && w.t[x].inode.value.dir ==>
          var i := w.t[x].inode.value.ino; i in w.fs && i in w.at && w.at[i] == x)
  }

  /** A directory inode is named by one entry. */
  ghost predicate EntryAt(w: World, p: nat, n: string) {
    p in w.fs && n in w.fs[p] && w.fs[p][n].dir ==>
      var i := w.fs[p][n].ino; i in w.fs && i in w.home && w.home[i] == (p, n)
  }

  ghost predicate MountAt(w: World, x: Id) {
    && x in w.live && x != ROOT && x in w.t && w.t[x].inode.Some? && w.t[x].inode.value.dir
    && w.t[x].inode.value.ino in w.fs && w.t[x].inode.value.ino !in w.home
  }

  /** A dentry belongs to the mount it is under. */
  ghost predicate PlacedAt(w: World, x: Id) {
    x in w.t && if x == ROOT then w.t[x].mp == ROOT
                else if IsMount(w, x) then w.t[x].mp == x
                else w.t[x].parent in w.t && w.t[x].mp == w.t[w.t[x].parent].mp
  }

  ghost predicate Tree(w: World) { ROOT in w.live && forall x {:trigger TreeAt(w, x)} | x in w.live :: TreeAt(w, x) }

  ghost predicate Names(w: World) { forall x {:trigger NamesAt(w, x)} | x in w.live :: NamesAt(w, x) }

  ghost predicate Coherent(w: World) { forall x {:trigger CoherentAt(w, x)} | x in w.live :: CoherentAt(w, x) }

  ghost predicate Counted(w: World) { forall x {:trigger CountedAt(w, x)} | x in w.live :: CountedAt(w, x) }

  ghost predicate Complete(w: World) { forall x {:trigger CompleteAt(w, x)} | x in w.live :: CompleteAt(w, x) }

  ghost predicate Inodes(w: World) { forall x {:trigger InodeAt(w, x)} | x in w.live :: InodeAt(w, x) }

  ghost predicate Entered(w: World) { forall p, n {:trigger EntryAt(w, p, n)} :: EntryAt(w, p, n) }

  ghost predicate Mounted(w: World) { forall x {:trigger MountAt(w, x)} | IsMount(w, x) :: MountAt(w, x) }

  ghost predicate Placed(w: World) { forall x {:trigger PlacedAt(w, x)} | x in w.live :: PlacedAt(w, x) }

  ghost predicate Inv(w: World) {
    && Placed(w) && Tree(w) && Names(w) && Coherent(w) && Counted(w) && Complete(w) && Inodes(w) && Entered(w)
        && Mounted(w)
  }

  // ----- counting

  lemma {:induction false} CountSame(t: Table, t': Table, kids: seq<Id>)
    requires forall k | k in kids :: (k in t && t[k].inode.Some?) == (k in t' && t'[k].inode.Some?)
    ensures CountPositive(t', kids) == CountPositive(t, kids)
  {
    if kids != [] {
      assert kids[0] in kids;
      assert forall k | k in kids[1..] :: k in kids;
      CountSame(t, t', kids[1..]);
    }
  }

  /** Turning one of them positive or negative changes the count by one. */
  lemma {:induction false} CountFlip(t: Table, t': Table, kids: seq<Id>, x: Id)
    requires NoDup(kids) && x in kids && x in t && x in t' && t[x].inode.None? && t'[x].inode.Some?
    requires forall k | k in kids && k != x :: (k in t && t[k].inode.Some?) == (k in t' && t'[k].inode.Some?)
    ensures CountPositive(t', kids) == CountPositive(t, kids) + 1
  {
    NoDupTail(kids);
    if kids[0] == x {
      CountSame(t, t', kids[1..]);
    } else {
      CountFlip(t, t', kids[1..], x);
    }
  }

  lemma {:induction false} CountWithout(t: Table, kids: seq<Id>, x: Id)
    requires NoDup(kids)
    ensures x in kids ==> |Without(kids, x)| == |kids| - 1
    ensures x !in kids ==> Without(kids, x) == kids
    ensures CountPositive(t, Without(kids, x)) ==
            CountPositive(t, kids) - if x in kids && x in t && t[x].inode.Some? then 1 else 0
  {
    if kids != [] {
      NoDupTail(kids);
      CountWithout(t, kids[1..], x);
      if kids[0] != x { assert Without(kids, x)[1..] == Without(kids[1..], x); }
    }
  }

  // ----- one more dentry

  ghost function Appended(w: World, p: Id, c: Id, name: string, inode: Option<Ent>): World
    requires p in w.t && p in w.depth
  {
    var d := w.t[p];
    var d' := if inode.Some? then d.(kids := [c] + d.kids, positive := d.positive + 1)
              else d.(kids := [c] + d.kids, negative := d.negative + 1);
    w.(t := w.t[c := Dentry(name, p, [], 0, 0, false, inode, d.mp)][p := d'],
       live := w.live + {c}, depth := w.depth[c := w.depth[p] + 1],
       at := if inode.Some? && inode.value.dir then w.at[inode.value.ino := c] else w.at)
  }

  /** A new dentry that says what the file system says (dcache_append). */
  lemma AppendKeeps(w: World, p: Id, c: Id, name: string, inode: Option<Ent>, w': World)
    requires Inv(w) && p in w.live && p in w.t && p in w.depth && p != ROOT && c !in w.t && c != ROOT
    requires inode == Look(Dir(w, p), name) && !HasKid(w, p, name) && w' == Appended(w, p, c, name, inode)
    ensures Inv(w')
  {
    assert TreeAt(w, p);
    AppendTree(w, p, c, name, inode, w');
    AppendTells(w, p, c, name, inode, w');
    AppendInodes(w, p, c, name, inode, w');
  }

  lemma AppendTree(w: World, p: Id, c: Id, name: string, inode: Option<Ent>, w': World)
    requires Inv(w) && p in w.live && p in w.t && p in w.depth && p != ROOT && c !in w.t && c != ROOT
    requires !HasKid(w, p, name) && w' == Appended(w, p, c, name, inode)
    ensures Placed(w') && Tree(w') && Names(w') && Counted(w')
  {
    forall x | x in w'.live ensures TreeAt(w', x) { AppendTreeAt(w, p, c, name, inode, w', x); }
    forall x | x in w'.live ensures PlacedAt(w', x) { assert PlacedAt(w, x) || x == c; assert PlacedAt(w, p); }
    forall x | x in w'.live ensures NamesAt(w', x) { AppendNamesAt(w, p, c, name, inode, w', x); }
    forall x | x in w'.live ensures CountedAt(w', x) { AppendCountedAt(w, p, c, name, inode, w', x); }
  }

  lemma AppendNamesAt(w: World, p: Id, c: Id, name: string, inode: Option<Ent>, w': World, x: Id)
    requires Tree(w) && Names(w) && p in w.t && p in w.depth && p != ROOT && c !in w.t && c != ROOT
    requires !HasKid(w, p, name) && w' == Appended(w, p, c, name, inode) && x in w'.live
    ensures NamesAt(w', x)
  {
    if x != c { assert TreeAt(w, x) && NamesAt(w, x); }
  }

  lemma AppendCountedAt(w: World, p: Id, c: Id, name: string, inode: Option<Ent>, w': World, x: Id)
    requires Tree(w) && Counted(w) && p in w.t && p in w.depth && p != ROOT && c !in w.t && c != ROOT
    requires w' == Appended(w, p, c, name, inode) && x in w'.live
    ensures CountedAt(w', x)
  {
    if x != c {
      assert TreeAt(w, x) && CountedAt(w, x);
      CountSame(w.t, w'.t, w.t[x].kids);
      assert w'.t[x].kids == if x == p then [c] + w.t[x].kids else w.t[x].kids;
      assert ([c] + w.t[x].kids)[1..] == w.t[x].kids;
    }
  }

  lemma AppendTreeAt(w: World, p: Id, c: Id, name: string, inode: Option<Ent>, w': World, x: Id)
    requires Tree(w) && Mounted(w) && p in w.live && p in w.t && p in w.depth && p != ROOT && c !in w.t && c != ROOT
    requires w' == Appended(w, p, c, name, inode) && x in w'.live
    ensures TreeAt(w', x)
  {
    assert IsMount(w, c) ==> MountAt(w, c);
    assert TreeAt(w, p);
    if x != c { assert TreeAt(w, x); }
  }

  lemma AppendTells(w: World, p: Id, c: Id, name: string, inode: Option<Ent>, w': World)
    requires Inv(w) && p in w.live && p in w.t && p in w.depth && p != ROOT && c !in w.t && c != ROOT
    requires inode == Look(Dir(w, p), name) && w' == Appended(w, p, c, name, inode)
    ensures Coherent(w') && Complete(w')
  {
    forall x | x in w'.live ensures CoherentAt(w', x) { AppendCoherentAt(w, p, c, name, inode, w', x); }
    forall x | x in w'.live ensures CompleteAt(w', x) { AppendCompleteAt(w, p, c, name, inode, w', x); }
  }

  lemma AppendCoherentAt(w: World, p: Id, c: Id, name: string, inode: Option<Ent>, w': World, x: Id)
    requires Tree(w) && Coherent(w) && p in w.t && p in w.depth && p != ROOT && c !in w.t && c != ROOT
    requires inode == Look(Dir(w, p), name) && w' == Appended(w, p, c, name, inode) && x in w'.live
    ensures CoherentAt(w', x)
  {
    assert Dir(w', p) == Dir(w, p);
    if x != c {
      assert TreeAt(w, x) && CoherentAt(w, x);
      assert x != ROOT ==> Dir(w', w.t[x].parent) == Dir(w, w.t[x].parent);
    }
  }

  lemma AppendCompleteAt(w: World, p: Id, c: Id, name: string, inode: Option<Ent>, w': World, x: Id)
    requires Tree(w) && Complete(w) && p in w.t && p in w.depth && p != ROOT && c !in w.t && c != ROOT
    requires w' == Appended(w, p, c, name, inode) && x in w'.live
    ensures CompleteAt(w', x)
  {
    if x != c {
      assert TreeAt(w, x) && CompleteAt(w, x) && Dir(w', x) == Dir(w, x);
      forall n | HasKid(w, x, n) ensures HasKid(w', x, n) {
        var k :| k in w.t[x].kids && k in w.t && w.t[k].name == n;
        assert k in w'.t[x].kids && w'.t[k].name == n;
      }
    }
  }

  /** The dentry of a directory inode is the one for the only entry that names it. */
  lemma OneDentry(w: World, p: Id, name: string, y: Id)
    requires Inv(w) && p in w.live && name in Dir(w, p) && Dir(w, p)[name].dir
    requires y in w.live && y in w.t && y != ROOT && w.t[y].inode.Some? && w.t[y].inode.value.dir
    requires w.t[y].inode.value.ino == Dir(w, p)[name].ino
    ensures !IsMount(w, y) && w.t[y].parent == p && w.t[y].name == name
  {
    var pi := w.t[p].inode.value.ino;
    assert InodeAt(w, p) && EntryAt(w, pi, name);
    assert IsMount(w, y) ==> MountAt(w, y);
    if !IsMount(w, y) {
      var q := w.t[y].parent;
      assert TreeAt(w, y) && CoherentAt(w, y);
      assert InodeAt(w, q) && EntryAt(w, w.t[q].inode.value.ino, w.t[y].name);
    }
  }

  lemma AppendInodes(w: World, p: Id, c: Id, name: string, inode: Option<Ent>, w': World)
    requires Inv(w) && p in w.live && p in w.t && p in w.depth && p != ROOT && c !in w.t && c != ROOT
    requires inode == Look(Dir(w, p), name) && !HasKid(w, p, name) && w' == Appended(w, p, c, name, inode)
    ensures Inodes(w') && Entered(w') && Mounted(w')
  {
    forall x | x in w'.live
      ensures InodeAt(w', x)
    {
      if x == c {
        assert InodeAt(w, p);
        if inode.Some? && inode.value.dir { assert EntryAt(w, w.t[p].inode.value.ino, name); }
      } else {
        assert InodeAt(w, x) && TreeAt(w, x);
        if inode.Some? && inode.value.dir && x != ROOT && w.t[x].inode == inode {
          OneDentry(w, p, name, x);
        }
      }
    }
    forall q, n ensures EntryAt(w', q, n) { assert EntryAt(w, q, n); }
    forall x | IsMount(w', x) ensures MountAt(w', x) { assert MountAt(w, x); }
  }

  // ----- a dentry turned positive or negative

  /** dcache_mark_positive and dcache_mark_negative. */
  function Flipped(t: Table, x: Id, inode: Option<Ent>): Table
    requires x in t && t[x].parent in t
  {
    var p := t[x].parent;
    var more := if inode.Some? then 1 else -1;
    t[x := t[x].(inode := inode)][p := t[p].(positive := t[p].positive + more, negative := t[p].negative - more)]
  }

  /** A dentry below another one, with that one's inode. */
  ghost predicate Child(w: World, x: Id) {
    && x in w.live && x in w.t && x != ROOT && !IsMount(w, x)
    && w.t[x].parent in w.t && w.t[x].parent != x && w.t[x].parent in w.live
  }

  ghost predicate SameShape(w: World, w': World) {
    && w'.live == w.live && w'.depth == w.depth && w'.mounts == w.mounts && w'.t.Keys == w.t.Keys
    && forall y {:trigger w'.t[y]} | y in w.t ::
         w'.t[y].parent == w.t[y].parent && w'.t[y].kids == w.t[y].kids && w'.t[y].name == w.t[y].name
         && w'.t[y].mp == w.t[y].mp
  }

  lemma ShapeKeeps(w: World, w': World)
    requires Tree(w) && Names(w) && Placed(w) && SameShape(w, w')
    requires ROOT in w.t && w'.t[ROOT].inode == w.t[ROOT].inode
    ensures Tree(w') && Names(w') && Placed(w')
  {
    forall x | x in w'.live ensures PlacedAt(w', x) { assert PlacedAt(w, x); }
    forall x | x in w'.live ensures TreeAt(w', x) { assert TreeAt(w, x); }
    forall x | x in w'.live ensures NamesAt(w', x) { assert NamesAt(w, x); }
  }

  lemma FlipCounts(w: World, x: Id, inode: Option<Ent>, w': World)
    requires Tree(w) && Counted(w) && Child(w, x) && SameShape(w, w') && w'.t == Flipped(w.t, x, inode)
    requires inode.Some? != w.t[x].inode.Some?
    ensures Counted(w')
  {
    forall y | y in w'.live ensures CountedAt(w', y) { FlipCountsAt(w, x, inode, w', y); }
  }

  lemma FlipCountsAt(w: World, x: Id, inode: Option<Ent>, w': World, y: Id)
    requires Tree(w) && Counted(w) && Child(w, x) && SameShape(w, w') && w'.t == Flipped(w.t, x, inode)
    requires inode.Some? != w.t[x].inode.Some? && y in w.live
    ensures CountedAt(w', y)
  {
    assert TreeAt(w, x) && TreeAt(w, y) && CountedAt(w, y);
    if y == w.t[x].parent {
      if inode.Some? { CountFlip(w.t, w'.t, w.t[y].kids, x); } else { CountFlip(w'.t, w.t, w.t[y].kids, x); }
    } else {
      assert x !in w.t[y].kids;
      CountSame(w.t, w'.t, w.t[y].kids);
    }
  }

  /** The directory of `x`'s parent says something else about its name, and `x` follows. */
  ghost predicate Follows(w: World, x: Id, w': World)
    requires Child(w, x)
  {
    var p, name := w.t[x].parent, w.t[x].name;
    && SameShape(w, w') && x in w'.t && w'.t[x].inode == Look(Dir(w', p), name)
    && (forall y {:trigger w'.t[y]} | y in w.t && y != x :: w'.t[y].inode == w.t[y].inode)
    && (forall y {:trigger w'.t[y]} | y in w.t :: w'.t[y].cached == w.t[y].cached)
    && (forall y {:trigger Dir(w', y)} | y in w.live && y != p :: Dir(w', y) == Dir(w, y))
    && (forall n {:trigger n in Dir(w', p)} | n != name :: Look(Dir(w', p), n) == Look(Dir(w, p), n))
  }

  lemma FollowsTells(w: World, x: Id, w': World)
    requires Inv(w) && Child(w, x) && Follows(w, x, w')
    ensures Coherent(w') && Complete(w')
  {
    forall y | y in w'.live ensures CoherentAt(w', y) { FollowsCoherentAt(w, x, w', y); }
    forall y | y in w'.live ensures CompleteAt(w', y) { FollowsCompleteAt(w, x, w', y); }
  }

  lemma FollowsCoherentAt(w: World, x: Id, w': World, y: Id)
    requires Inv(w) && Child(w, x) && Follows(w, x, w') && y in w.live
    ensures CoherentAt(w', y)
  {
    assert TreeAt(w, x) && TreeAt(w, y) && CoherentAt(w, y);
    if y != x && y != ROOT && !IsMount(w, y) {
      var q := w.t[y].parent;
      if q == w.t[x].parent {
        assert NamesAt(w, q);
        assert w.t[y].name in Dir(w', q) <==> w.t[y].name in Dir(w, q);
      } else {
        assert Dir(w', q) == Dir(w, q);
      }
    }
  }

  lemma FollowsCompleteAt(w: World, x: Id, w': World, y: Id)
    requires Inv(w) && Child(w, x) && Follows(w, x, w') && y in w.live
    ensures CompleteAt(w', y)
  {
    assert TreeAt(w, x) && TreeAt(w, y) && CompleteAt(w, y);
    forall n | n in Dir(w', y) && w.t[y].cached
      ensures HasKid(w', y, n)
    {
      if y == w.t[x].parent && n == w.t[x].name {
        assert x in w'.t[y].kids && w'.t[x].name == n;
      } else {
        assert n in Dir(w, y) && HasKid(w, y, n);
        var k :| k in w.t[y].kids && k in w.t && w.t[k].name == n;
        assert k in w'.t[y].kids && w'.t[k].name == n;
      }
    }
  }

  // ----- creating and removing an entry

  ghost function ParentIno(w: World, x: Id): nat
    requires Child(w, x) && w.t[w.t[x].parent].inode.Some?
  {
    w.t[w.t[x].parent].inode.value.ino
  }

  /** What the file system does for create and mkdir. */
  function FsAdd(fs: Fs, dir: nat, name: string, e: Ent): Fs
    requires dir in fs
  {
    var more := fs[dir := fs[dir][name := e]];
    if e.dir then more[e.ino := map[]] else more
  }

  /** ... and for unlink and rmdir. */
  function FsDrop(fs: Fs, dir: nat, name: string, e: Ent): Fs
    requires dir in fs
  {
    var less := fs[dir := fs[dir] - {name}];
    if e.dir then less - {e.ino} else less
  }

  ghost function Created(w: World, x: Id, e: Ent): World
    requires Child(w, x) && Directory(w, w.t[x].parent)
  {
    var i, name := ParentIno(w, x), w.t[x].name;
    w.(t := Flipped(w.t, x, Some(e)), fs := FsAdd(w.fs, i, name, e),
       home := if e.dir then w.home[e.ino := (i, name)] else w.home,
       at := if e.dir then w.at[e.ino := x] else w.at)
  }

  ghost function Removed(w: World, x: Id): World
    requires Child(w, x) && Directory(w, w.t[x].parent) && w.t[x].inode.Some?
  {
    var i, name, e := ParentIno(w, x), w.t[x].name, w.t[x].inode.value;
    w.(t := Flipped(w.t, x, None), fs := FsDrop(w.fs, i, name, e),
       home := if e.dir then w.home - {e.ino} else w.home)
  }

  /** Two dentries of directories have different inodes. */
  lemma DirectoriesDiffer(w: World, x: Id, y: Id)
    requires Inodes(w) && x in w.live && y in w.live && Directory(w, x) && Directory(w, y) && x != y
    ensures w.t[x].inode.value.ino != w.t[y].inode.value.ino
  {
    assert InodeAt(w, x) && InodeAt(w, y);
  }

  /** Creating a file or directory with a new inode number. */
  lemma CreateKeeps(w: World, x: Id, e: Ent, w': World)
    requires Inv(w) && Child(w, x) && w.t[x].inode.None? && Directory(w, w.t[x].parent) && e.ino !in w.fs
    requires w' == Created(w, x, e)
    ensures Inv(w')
  {
    assert TreeAt(w, ROOT);
    ShapeKeeps(w, w');
    FlipCounts(w, x, Some(e), w');
    CreateDirs(w, x, e, w');
    FollowsTells(w, x, w');
    CreateInodes(w, x, e, w');
  }

  lemma CreateDirs(w: World, x: Id, e: Ent, w': World)
    requires Inv(w) && Child(w, x) && w.t[x].inode.None? && Directory(w, w.t[x].parent) && e.ino !in w.fs
    requires w' == Created(w, x, e)
    ensures Follows(w, x, w')
  {
    var p := w.t[x].parent;
    assert Dir(w', p) == Dir(w, p)[w.t[x].name := e];
    forall n | n != w.t[x].name ensures Look(Dir(w', p), n) == Look(Dir(w, p), n) {
      assert n in Dir(w', p) <==> n in Dir(w, p);
    }
    forall y | y in w.live && y != p
      ensures Dir(w', y) == Dir(w, y)
    {
      if Directory(w, y) { DirectoriesDiffer(w, y, p); }
    }
  }

  lemma CreateInodes(w: World, x: Id, e: Ent, w': World)
    requires Inv(w) && Child(w, x) && w.t[x].inode.None? && Directory(w, w.t[x].parent) && e.ino !in w.fs
    requires w' == Created(w, x, e)
    ensures Inodes(w') && Entered(w') && Mounted(w')
  {
    forall y | y in w'.live ensures InodeAt(w', y) { assert InodeAt(w, y); }
    forall q, n ensures EntryAt(w', q, n) { assert EntryAt(w, q, n); }
    forall y | IsMount(w', y) ensures MountAt(w', y) { assert MountAt(w, y); }
  }

  /** Removing a file, or a directory with nothing in it. */
  lemma RemoveKeeps(w: World, x: Id, w': World)
    requires Inv(w) && Child(w, x) && w.t[x].inode.Some? && Directory(w, w.t[x].parent) && Dir(w, x) == map[]
    requires w' == Removed(w, x)
    ensures Inv(w')
  {
    assert CoherentAt(w, x) && InodeAt(w, x) && TreeAt(w, ROOT);
    ShapeKeeps(w, w');
    FlipCounts(w, x, None, w');
    RemoveDirs(w, x, w');
    FollowsTells(w, x, w');
    RemoveInodes(w, x, w');
  }

  lemma RemoveDirs(w: World, x: Id, w': World)
    requires Inv(w) && Child(w, x) && w.t[x].inode.Some? && Directory(w, w.t[x].parent) && Dir(w, x) == map[]
    requires w' == Removed(w, x)
    ensures Follows(w, x, w')
  {
    var p := w.t[x].parent;
    assert InodeAt(w, x) && InodeAt(w, p);
    forall y | y in w.live && y != p
      ensures Dir(w', y) == Dir(w, y)
    {
      if Directory(w, y) {
        DirectoriesDiffer(w, y, p);
        if Directory(w, x) && y != x { DirectoriesDiffer(w, y, x); }
      }
    }
    if Directory(w, x) { DirectoriesDiffer(w, x, p); }
    assert Dir(w', p) == Dir(w, p) - {w.t[x].name};
    forall n | n != w.t[x].name ensures Look(Dir(w', p), n) == Look(Dir(w, p), n) {
      assert n in Dir(w', p) <==> n in Dir(w, p);
    }
  }

  lemma RemoveInodes(w: World, x: Id, w': World)
    requires Inv(w) && Child(w, x) && w.t[x].inode.Some? && Directory(w, w.t[x].parent)
    requires w' == Removed(w, x)
    ensures Inodes(w') && Entered(w') && Mounted(w')
  {
    var i, name, e := ParentIno(w, x), w.t[x].name, w.t[x].inode.value;
    assert CoherentAt(w, x) && InodeAt(w, x) && EntryAt(w, i, name);
    forall y | y in w'.live ensures InodeAt(w', y) { assert InodeAt(w, y); }
    forall q, n ensures EntryAt(w', q, n) { assert EntryAt(w, q, n); }
    forall y | IsMount(w', y) ensures MountAt(w', y) { assert MountAt(w, y) && InodeAt(w, y); }
  }

  // ----- when all entries are cached

  /** The names of the positive ones among some dentries. */
  ghost function PositiveNames(t: Table, kids: seq<Id>): set<string> {
    if kids == [] then {}
    else (if kids[0] in t && t[kids[0]].inode.Some? then {t[kids[0]].name} else {}) + PositiveNames(t, kids[1..])
  }

  lemma {:induction false} PositiveNamesAre(t: Table, kids: seq<Id>)
    ensures forall n | n in PositiveNames(t, kids) ::
              exists k :: k in kids && k in t && t[k].inode.Some? && t[k].name == n
  {
    if kids != [] {
      PositiveNamesAre(t, kids[1..]);
      forall n | n in PositiveNames(t, kids)
        ensures exists k :: k in kids && k in t && t[k].inode.Some? && t[k].name == n
      {
        if n in PositiveNames(t, kids[1..]) {
          var k :| k in kids[1..] && k in t && t[k].inode.Some? && t[k].name == n;
          assert k in kids;
        } else {
          assert kids[0] in kids;
        }
      }
    }
  }

  lemma {:induction false} CountIsNames(t: Table, kids: seq<Id>)
    requires NoDup(kids)
    requires forall a, b | a in kids && b in kids && a in t && b in t :: t[a].name == t[b].name ==> a == b
    ensures |PositiveNames(t, kids)| == CountPositive(t, kids)
  {
    if kids != [] {
      NoDupTail(kids);
      assert forall a | a in kids[1..] :: a in kids;
      CountIsNames(t, kids[1..]);
      PositiveNamesAre(t, kids[1..]);
      if kids[0] in t && t[kids[0]].inode.Some? {
        var n := t[kids[0]].name;
        assert kids[0] in kids;
        assert n !in PositiveNames(t, kids[1..]);
        assert |{n} + PositiveNames(t, kids[1..])| == 1 + |PositiveNames(t, kids[1..])|;
      }
    }
  }

  lemma SubsetFull<T>(a: set<T>, b: set<T>)
    requires a <= b && |b| <= |a|
    ensures a == b
  {
    assert |b| == |a| + |b - a| by { assert b == a + (b - a); }
  }

  /** As many positive dentries as entries: then every entry has a dentry. */
  lemma AllEntries(w: World, x: Id)
    requires Inv(w) && x in w.live && x != ROOT && x in w.t && |Dir(w, x)| <= w.t[x].positive
    ensures forall n | n in Dir(w, x) :: HasKid(w, x, n)
    ensures w.t[x].positive == |Dir(w, x)|
  {
    var kids := w.t[x].kids;
    assert TreeAt(w, x) && NamesAt(w, x) && CountedAt(w, x);
    CountIsNames(w.t, kids);
    PositiveNamesAre(w.t, kids);
    var names := PositiveNames(w.t, kids);
    forall n | n in names
      ensures n in Dir(w, x)
    {
      var k :| k in kids && k in w.t && w.t[k].inode.Some? && w.t[k].name == n;
      assert CoherentAt(w, k);
    }
    assert Dir(w, x).Keys >= names && |Dir(w, x).Keys| == |Dir(w, x)|;
    SubsetFull(names, Dir(w, x).Keys);
    forall n | n in Dir(w, x)
      ensures HasKid(w, x, n)
    {
      assert n in names;
      var k :| k in kids && k in w.t && w.t[k].inode.Some? && w.t[k].name == n;
      assert k in w.t[x].kids;
    }
  }

  /** In a cached directory the positive dentries are exactly the entries. */
  lemma CachedIsExact(w: World, x: Id)
    requires Inv(w) && x in w.live && x != ROOT && x in w.t && w.t[x].cached
    ensures PositiveNames(w.t, w.t[x].kids) == Dir(w, x).Keys && w.t[x].positive == |Dir(w, x)|
  {
    var kids := w.t[x].kids;
    assert TreeAt(w, x) && NamesAt(w, x) && CountedAt(w, x) && CompleteAt(w, x);
    CountIsNames(w.t, kids);
    PositiveNamesAre(w.t, kids);
    forall n | n in PositiveNames(w.t, kids)
      ensures n in Dir(w, x)
    {
      var k :| k in kids && k in w.t && w.t[k].inode.Some? && w.t[k].name == n;
      assert CoherentAt(w, k);
    }
    forall n | n in Dir(w, x)
      ensures n in PositiveNames(w.t, kids)
    {
      assert HasKid(w, x, n);
      var k :| k in kids && k in w.t && w.t[k].name == n;
      assert CoherentAt(w, k);
      PositiveNamed(w.t, kids, k);
    }
    assert |Dir(w, x).Keys| == |Dir(w, x)|;
  }

  lemma {:induction false} PositiveNamed(t: Table, kids: seq<Id>, k: Id)
    requires k in kids && k in t && t[k].inode.Some?
    ensures t[k].name in PositiveNames(t, kids)
  {
    if kids[0] != k { PositiveNamed(t, kids[1..], k); }
  }

  /** Setting the flag is right when every entry has a dentry. */
  lemma CachedKeeps(w: World, x: Id, w': World)
    requires Inv(w) && x in w.live && x in w.t && w' == w.(t := w.t[x := w.t[x].(cached := true)])
    requires forall n | n in Dir(w, x) :: HasKid(w, x, n)
    ensures Inv(w')
  {
    assert TreeAt(w, ROOT);
    ShapeKeeps(w, w');
    forall y | y in w.live ensures CountedAt(w', y) {
      assert TreeAt(w, y) && CountedAt(w, y); CountSame(w.t, w'.t, w.t[y].kids);
    }
    forall y | y in w.live ensures CompleteAt(w', y) { CachedCompleteAt(w, x, w', y); }
    CachedTells(w, x, w');
  }

  lemma CachedTells(w: World, x: Id, w': World)
    requires Inv(w) && x in w.live && x in w.t && w' == w.(t := w.t[x := w.t[x].(cached := true)])
    ensures Coherent(w') && Inodes(w') && Entered(w') && Mounted(w')
  {
    forall y | y in w.live ensures CoherentAt(w', y) {
      assert CoherentAt(w, y) && Dir(w', w.t[y].parent) == Dir(w, w.t[y].parent);
    }
    forall y | y in w.live ensures InodeAt(w', y) { assert InodeAt(w, y); }
    forall p, n ensures EntryAt(w', p, n) { assert EntryAt(w, p, n); }
    forall y | IsMount(w', y) ensures MountAt(w', y) { assert MountAt(w, y); }
  }

  lemma CachedCompleteAt(w: World, x: Id, w': World, y: Id)
    requires Inv(w) && x in w.live && x in w.t && w' == w.(t := w.t[x := w.t[x].(cached := true)]) && y in w.live
    requires forall n | n in Dir(w, x) :: HasKid(w, x, n)
    ensures CompleteAt(w', y)
  {
    assert TreeAt(w, y) && CompleteAt(w, y) && Dir(w', y) == Dir(w, y);
    forall n | n in Dir(w', y) && w'.t[y].cached
      ensures HasKid(w', y, n)
    {
      assert HasKid(w, y, n);
      var k :| k in w.t[y].kids && k in w.t && w.t[k].name == n;
      assert k in w'.t[y].kids && w'.t[k].name == n;
    }
  }
}
