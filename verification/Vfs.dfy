/** The virtual file system: path walks through the name cache, directory listings, and the
    operations that change names (vfs.c). */
module Vfs {
  import opened Prelude
  import opened Dcache
  import opened DcacheMove
  import opened Environment
  import opened FileRefs
  import Path

  // ----- walks on the file system itself, without any cache

  /** A place in the file system: above all mounts, an inode, or a name missing in a directory. */
  datatype Spot = Top | At(e: Ent) | Gone(dir: nat, name: string)

  datatype Outcome = Arrived(spot: Spot) | Fails(errno: int)

  /** The parent of a directory: where its only entry is, or the top for the root of a mount. */
  ghost function Up(home: map<nat, (nat, string)>, i: nat): Spot {
    if i in home then At(Ent(home[i].0, true)) else Top
  }

  /** One component of a path; `last` if nothing follows. */
  ghost function FsStep(fs: Fs, home: map<nat, (nat, string)>, tops: map<string, Ent>, spot: Spot, name: string,
      last: bool): Outcome {
    match spot
    case Top =>
      if name == ".." then Arrived(Top) else if name in tops then Arrived(At(tops[name])) else Fails(-ENOENT)
    case At(e) =>
      if !e.dir then Fails(-ENOTDIR)
      else if name == ".." then Arrived(Up(home, e.ino))
      else if e.ino in fs && name in fs[e.ino] then Arrived(At(fs[e.ino][name]))
      else if last then Arrived(Gone(e.ino, name)) else Fails(-ENOENT)
    case Gone(_, _) => Fails(-ENOENT)
  }

  /** The components from number `i` on. */
  ghost function FsWalk(fs: Fs, home: map<nat, (nat, string)>, tops: map<string, Ent>, spot: Spot, parts: seq<string>,
      i: nat): Outcome
    requires i <= |parts|
    decreases |parts| - i
  {
    if i == |parts| then Arrived(spot)
    else
      var next := FsStep(fs, home, tops, spot, parts[i], i + 1 == |parts|);
      if next.Fails? then next else FsWalk(fs, home, tops, next.spot, parts, i + 1)
  }

  /** What a dentry stands for. */
  ghost function SpotOf(w: World, x: Id): Spot
    requires x in w.t
  {
    if x == ROOT then Top
    else if w.t[x].inode.Some? then At(w.t[x].inode.value)
    else
      var p := w.t[x].parent;
      Gone(if p in w.t && w.t[p].inode.Some? then w.t[p].inode.value.ino else 0, w.t[x].name)
  }

  ghost function Tops(w: World): map<string, Ent> {
    map n | n in w.mounts && w.mounts[n] in w.t && w.t[w.mounts[n]].inode.Some? :: w.t[w.mounts[n]].inode.value
  }

  /** From a directory, the parent pointer leads where the file system says. */
  lemma UpAgrees(w: World, x: Id)
    requires Inv(w) && x in w.live && Directory(w, x)
    ensures w.t[x].parent in w.live && w.t[x].parent in w.t
    ensures SpotOf(w, w.t[x].parent) == Up(w.home, w.t[x].inode.value.ino)
  {
    assert TreeAt(w, x) && InodeAt(w, x);
    if IsMount(w, x) {
      assert MountAt(w, x);
    } else {
      var p := w.t[x].parent;
      assert CoherentAt(w, x) && InodeAt(w, p);
      assert EntryAt(w, w.t[p].inode.value.ino, w.t[x].name);
    }
  }

  /** A dentry found under a directory stands for what the file system finds there. */
  lemma ChildAgrees(w: World, p: Id, c: Id, name: string, last: bool)
    requires Inv(w) && p in w.live && Directory(w, p) && c in w.t[p].kids && c in w.t && w.t[c].name == name
      && name != ".."
    ensures c in w.live && Child(w, c) && w.t[c].parent == p
    ensures w.t[c].inode.Some? || last ==>
              FsStep(w.fs, w.home, Tops(w), SpotOf(w, p), name, last) == Arrived(SpotOf(w, c))
    ensures w.t[c].inode.None? && !last ==> FsStep(w.fs, w.home, Tops(w), SpotOf(w, p), name, last) == Fails(-ENOENT)
  {
    assert TreeAt(w, p) && CoherentAt(w, c);
    assert TreeAt(w, c);
  }

  // ----- what a walk leaves alone

  /** Every dentry is still there and says the same. */
  ghost predicate Still(w: World, w': World) {
    && w'.fs == w.fs && w'.home == w.home && w'.mounts == w.mounts && w.live <= w'.live
    && forall x {:trigger StillAt(w, w', x)} | x in w.live :: StillAt(w, w', x)
  }

  ghost predicate StillAt(w: World, w': World, x: Id) {
    && x in w.t && x in w'.t && w'.t[x].inode == w.t[x].inode && w'.t[x].parent == w.t[x].parent
    && w'.t[x].name == w.t[x].name && w'.t[x].mp == w.t[x].mp
  }

  lemma AppendStill(w: World, p: Id, c: Id, name: string, inode: Option<Ent>, w': World)
    requires Inv(w) && p in w.live && p in w.t && p in w.depth && c !in w.t && w' == Appended(w, p, c, name, inode)
    ensures Still(w, w') && forall x | Held(w, x) :: Held(w', x)
  {
    forall x | x in w.live ensures StillAt(w, w', x) { assert TreeAt(w, x); }
  }

  /** ... and so walks from it lead to the same place. */
  lemma StillTops(w: World, w': World)
    requires Inv(w) && Inv(w') && Still(w, w')
    ensures Tops(w') == Tops(w)
  {
    forall n | n in w.mounts
      ensures w.mounts[n] in w.t && w.mounts[n] in w'.t && w'.t[w.mounts[n]].inode == w.t[w.mounts[n]].inode
    {
      assert IsMount(w, w.mounts[n]) && MountAt(w, w.mounts[n]) && StillAt(w, w', w.mounts[n]);
    }
  }

  lemma StillSelf(w: World)
    requires Inv(w)
    ensures Still(w, w)
  {
    forall x | x in w.live ensures StillAt(w, w, x) { assert TreeAt(w, x); }
  }

  ghost function Stepped(w: World, x: Id, name: string, last: bool): Outcome
    requires x in w.t
  {
    FsStep(w.fs, w.home, Tops(w), SpotOf(w, x), name, last)
  }

  /** The parent of a positive dentry is positive. */
  lemma HeldParent(w: World, x: Id)
    requires Inv(w) && Held(w, x)
    ensures Held(w, w.t[x].parent)
  {
    assert TreeAt(w, x) && CoherentAt(w, x) && TreeAt(w, ROOT);
  }

  /** Marking positive and back again changes nothing. */
  lemma FlipBack(t: Table, x: Id, e: Ent)
    requires x in t && t[x].parent in t && t[x].parent != x && t[x].inode.None?
    ensures Flipped(Flipped(t, x, Some(e)), x, None) == t
  {
  }

  /** Turning a dentry that nobody uses does not touch those in use. */
  lemma FlipShared(w: World, x: Id, w': World, u: Users)
    requires Shared(w, u) && w'.live == w.live && w'.t.Keys == w.t.Keys
    requires forall y | y in w.t && y != x :: w'.t[y].inode == w.t[y].inode
    requires Held(w', x) || ((forall f | f in u.files :: u.files[f] != x) && forall p | p in u.cwds :: u.cwds[p] != x)
    ensures Shared(w', u)
  {
    forall f | f in u.files ensures Held(w', u.files[f]) { assert FileAt(w, u, f); }
    forall p | p in u.cwds ensures Held(w', u.cwds[p]) { assert CwdAt(w, u, p); }
    TreeChange(w, w', u);
  }

  /** Nothing in use is below the dentry that a rename frees. */
  lemma MoveShared(w: World, src: Id, dst: Id, w': World, u: Users)
    requires CanMove(w, src, dst) && Renamed(w, src, dst, w') && Shared(w, u)
    requires dst in u.numfd && u.numfd[dst] == 0
    ensures Shared(w', u)
  {
    Unused(w, u, dst);
    forall y | Held(w, y) && y != dst
      ensures Held(w', y)
    {
      if Below(w, y, dst) { BelowEmpty(w, y, dst); }
      assert MovedAt(w.t, src, dst, w'.t, y);
    }
    forall f | f in u.files ensures Held(w', u.files[f]) { assert FileAt(w, u, f); }
    forall p | p in u.cwds ensures Held(w', u.cwds[p]) { assert CwdAt(w, u, p); }
    TreeChange(w, w', u);
  }

  /** The entry a rename takes from a directory, and the one it makes in another. */
  datatype Move = Move(from: nat, name: string, into: nat, target: string)

  ghost function MoveOf(w: World, src: Id, dst: Id): Move
    requires CanMove(w, src, dst)
  {
    Move(ParentIno(w, src), w.t[src].name, ParentIno(w, dst), w.t[dst].name)
  }

  ghost function RenamedFs(fs: Fs, m: Move, e: Ent, replaced: Option<Ent>): Fs {
    if m.from in fs && m.into in fs then FsMove(fs, m.from, m.name, m.into, m.target, e, replaced) else fs
  }

  /** What a directory has under a name. */
  ghost function Entry(fs: Fs, dir: nat, name: string): Option<Ent> {
    if dir in fs then Look(fs[dir], name) else None
  }

  /** One entry more, and its directory if it is one; nothing else changes. */
  ghost predicate Gains(fs: Fs, dir: nat, name: string, e: Ent, fs': Fs) {
    && dir in fs && fs'.Keys == fs.Keys + (if e.dir then {e.ino} else {})
    && forall p, n :: Entry(fs', p, n) == if p == dir && n == name then Some(e) else Entry(fs, p, n)
  }

  /** One entry less, and its directory if it was one. */
  ghost predicate Loses(fs: Fs, dir: nat, name: string, e: Ent, fs': Fs) {
    && Entry(fs, dir, name) == Some(e) && fs'.Keys == fs.Keys - (if e.dir then {e.ino} else {})
    && forall p, n :: Entry(fs', p, n) == if p == dir && n == name then None else Entry(fs, p, n)
  }

  lemma AddGains(fs: Fs, dir: nat, name: string, e: Ent)
    requires dir in fs && e.ino !in fs
    ensures Gains(fs, dir, name, e, FsAdd(fs, dir, name, e))
  {
  }

  lemma DropLoses(fs: Fs, dir: nat, name: string, e: Ent)
    requires dir in fs && name in fs[dir] && fs[dir][name] == e && (e.dir ==> e.ino in fs && fs[e.ino] == map[])
    ensures Loses(fs, dir, name, e, FsDrop(fs, dir, name, e))
  {
  }

  /** The file system moved the entry the first path leads to, to where the second one leads. */
  ghost predicate Carried(fs: Fs, m: Move, o: Outcome, o': Outcome, fs': Fs) {
    && m.from in fs && m.name in fs[m.from] && m.into in fs && (m.name != m.target || m.from != m.into)
    && var e, replaced := fs[m.from][m.name], Look(fs[m.into], m.target);
       && o == Arrived(At(e))
       && o' == Arrived(if replaced.Some? then At(replaced.value) else Gone(m.into, m.target))
       && fs'.Keys == fs.Keys - (if replaced.Some? && replaced.value.dir then {replaced.value.ino} else {})
       && forall p, n :: Entry(fs', p, n) ==
            if p == m.into && n == m.target then Some(e)
            else if p == m.from && n == m.name then None else Entry(fs, p, n)
  }

  lemma CarriedOut(w: World, src: Id, dst: Id, m: Move, fs': Fs)
    requires CanMove(w, src, dst) && m == MoveOf(w, src, dst)
    requires fs' == RenamedFs(w.fs, m, w.t[src].inode.value, w.t[dst].inode)
    ensures Carried(w.fs, m, Arrived(SpotOf(w, src)), Arrived(SpotOf(w, dst)), fs')
  {
    assert CoherentAt(w, src) && CoherentAt(w, dst);
    assert InodeAt(w, dst);
    OtherName(w, src, dst);
  }

  /** Only the top has no mount. */
  lemma NotTop(w: World, x: Id)
    requires Inv(w) && x in w.live && x != ROOT
    ensures x in w.t && ROOT in w.t && w.t[x].mp != w.t[ROOT].mp
  {
    assert TreeAt(w, ROOT) && PlacedAt(w, ROOT);
    MountAbove(w, x);
    assert MountAt(w, w.t[x].mp);
  }

  /** Names and parents stay, and so does what a positive dentry says. */
  ghost predicate Unmoved(w: World, w': World) {
    w.live <= w'.live && forall x {:trigger UnmovedAt(w, w', x)} | x in w.live :: UnmovedAt(w, w', x)
  }

  ghost predicate UnmovedAt(w: World, w': World, x: Id) {
    && x in w.t && x in w'.t && w'.t[x].parent == w.t[x].parent && w'.t[x].name == w.t[x].name
    && (w.t[x].inode.Some? ==> w'.t[x].inode == w.t[x].inode)
  }

  lemma StillUnmoved(w: World, w': World)
    requires Still(w, w')
    ensures Unmoved(w, w')
  {
    forall x | x in w.live ensures UnmovedAt(w, w', x) { assert StillAt(w, w', x); }
  }

  lemma CreateUnmoved(w: World, mid: World, x: Id, e: Ent, w': World)
    requires Still(w, mid) && Inv(mid) && Child(mid, x) && mid.t[x].inode.None? && Directory(mid, mid.t[x].parent)
    requires w' == Created(mid, x, e)
    ensures Unmoved(w, w')
  {
    forall y | y in w.live ensures UnmovedAt(w, w', y) { assert StillAt(w, mid, y); }
  }

  /** A dentry under the directory and with the name where a walk found nothing. */
  ghost predicate StandsAt(w: World, x: Id, gone: Spot) {
    && gone.Gone? && Child(w, x) && w.t[x].name == gone.name
    && Directory(w, w.t[x].parent) && w.t[w.t[x].parent].inode.value.ino == gone.dir
  }

  /** There is only one such dentry. */
  lemma SameDentry(w: World, w': World, x: Id, y: Id)
    requires Inv(w) && Inv(w') && Unmoved(w, w') && Child(w, x) && Directory(w, w.t[x].parent) && w.t[x].inode.None?
    requires StandsAt(w', y, SpotOf(w, x))
    ensures x == y
  {
    var p, q := w.t[x].parent, w'.t[y].parent;
    assert UnmovedAt(w, w', x) && UnmovedAt(w, w', p);
    assert InodeAt(w', p) && InodeAt(w', q);
    assert TreeAt(w, x) && TreeAt(w', x) && TreeAt(w', y);
    assert IsMount(w', x) ==> MountAt(w', x);
    assert NamesAt(w', q);
  }

  /** The order in which a file system gives the entries of a directory. */
  predicate IsListing(listing: seq<string>, entries: Entries) {
    && NoDup(listing)
    && (forall n | n in listing :: n in entries) && forall n | n in entries :: n in listing
  }

  lemma ListingSize(listing: seq<string>, entries: Entries)
    requires IsListing(listing, entries)
    ensures |listing| == |entries|
  {
    ListedOnce(listing);
    assert (set n | n in listing) == entries.Keys;
  }

  lemma {:induction false} ListedOnce(listing: seq<string>)
    requires NoDup(listing)
    ensures |set n | n in listing| == |listing|
  {
    if listing != [] {
      NoDupTail(listing);
      ListedOnce(listing[1..]);
      assert (set n | n in listing) == (set n | n in listing[1..]) + {listing[0]};
    }
  }

  /** A directory still has its entries. */
  lemma StillDir(w: World, w': World, x: Id)
    requires Still(w, w') && x in w.live
    ensures Dir(w', x) == Dir(w, x) && (Directory(w, x) ==> Directory(w', x))
  {
    assert StillAt(w, w', x);
  }

  /** Somebody has the dentry open or works in it. */
  ghost predicate InUse(u: Users, x: Id) {
    (exists f :: f in u.files && u.files[f] == x) || exists p :: p in u.cwds && u.cwds[p] == x
  }

  lemma CounterTells(u: Users, x: Id)
    requires CountAt(u, x)
    ensures u.numfd[x] != 0 <==> InUse(u, x)
  {
    UsesNone(u.files, x);
    UsesNone(u.cwds, x);
  }

  /** What rename objects to before it asks the driver, if it does not turn out that nothing is to be done. */
  ghost function Objection(w: World, u: Users, src: Id, dst: Id, supported: bool): int
    requires src in w.t && dst in w.t && w.t[src].inode.Some?
  {
    var s, d := w.t[src], w.t[dst];
    if InUse(u, dst) then -EBUSY
    else if src == dst then 0
    else if d.inode.Some? && d.inode.value.dir != s.inode.value.dir then -EINVAL
    else if s.mp != d.mp then -EXDEV
    else if s.inode.value.dir && Below(w, d.parent, src) then -EINVAL
    else if !supported then -ENOTSUP
    else 0
  }

  /** Where the two walks of a rename end. */
  datatype Pair = Pair(w: World, src: Id, dst: Id)

  /** How a rename of two dentries ends, if the driver `fails` or not. */
  ghost function Verdict(p: Pair, u: Users, supported: bool, fails: bool): int
    requires p.src in p.w.t && p.dst in p.w.t && p.w.t[p.src].inode.Some?
  {
    var no := Objection(p.w, u, p.src, p.dst, supported);
    if no != 0 || p.src == p.dst then no
    else if fails then -EIO
    else if Dir(p.w, p.dst) != map[] then -ENOTEMPTY
    else 0
  }

  /** How rmdir and unlink end on a dentry, if the driver does not fail. */
  ghost function Refusal(w: World, u: Users, x: Id, rmdir: bool, supported: bool): int
    requires x in w.t && w.t[x].inode.Some?
  {
    if w.t[x].inode.value.dir != rmdir then (if rmdir then -ENOTDIR else -EISDIR)
    else if InUse(u, x) then -EBUSY
    else if !supported || x == ROOT || IsMount(w, x) then -ENOTSUP
    else if Dir(w, x) != map[] then -ENOTEMPTY
    else 0
  }

  /** What open is asked for, and what the file system can do. */
  datatype Flags = Flags(directory: bool, create: bool, read: bool, write: bool, trunc: bool)
  datatype Ops = Ops(create: bool, read: bool, write: bool, trunc: bool)

  /** What open says of an inode that is there. */
  ghost function Unfit(dir: bool, flags: Flags, ops: Ops): int {
    if flags.directory != dir then (if dir then -EISDIR else -ENOTDIR)
    else if (flags.read && !ops.read) || (flags.write && !ops.write) then -ENOTSUP
    else if flags.trunc && !flags.write then -EINVAL
    else if flags.trunc && !ops.trunc then -ENOTSUP
    else 0
  }

  /** How open ends, by where the path leads, if neither driver nor allocator fails. */
  ghost function OpenStatus(o: Outcome, flags: Flags, ops: Ops): int {
    if flags.directory && flags != Flags(true, false, false, false, false) then -EINVAL
    else match o
      case Fails(errno) => errno
      case Arrived(Top) => Unfit(true, flags, ops)
      case Arrived(At(e)) => Unfit(e.dir, flags, ops)
      case Arrived(Gone(_, _)) =>
        if !flags.create then -ENOENT else if !ops.create then -ENOTSUP else Unfit(false, flags, ops)
  }

  /** No driver and no allocation has failed yet. */
  ghost predicate Calm(drv: Answers, mem: Answers)
    reads drv, mem
  {
    drv != mem && drv.Valid() && mem.Valid() && !drv.failed && !mem.failed
  }

  /** A status says whether one has. */
  ghost predicate Reported(drv: Answers, mem: Answers, status: int)
    reads drv, mem
  {
    && drv.Valid() && mem.Valid()
    && (status == -EIO <==> drv.failed) && (status == -ENOMEM <==> mem.failed)
  }

  /** A system call: by which process, and whether its path is absolute. */
  datatype Call =
    | Making(p: nat, absolute: bool, parts: seq<string>, e: Ent, supported: bool)
    | Removing(p: nat, absolute: bool, parts: seq<string>, rmdir: bool, supported: bool)
    | Renaming(p: nat, absolute: bool, parts: seq<string>, again: bool, target: seq<string>, supported: bool)
    | Opening(p: nat, absolute: bool, parts: seq<string>, flags: Flags, ops: Ops, e: Ent, f: nat, k: nat)
    | Closing(p: nat, absolute: bool, k: nat)
    | Moving(p: nat, absolute: bool, parts: seq<string>)
    | Listing(p: nat, absolute: bool, k: nat, seek: nat, size: nat, listing: seq<string>)
    | Forking(p: nat, absolute: bool, child: nat)
    | Sharing(p: nat, absolute: bool, k: nat, child: nat, k': nat)
    | Ending(p: nat, absolute: bool)

  /** The room that the positive ones among the first `n` dentries take in a caller's buffer. */
  ghost function Room(t: Table, kids: seq<Id>, n: nat): nat
    requires n <= |kids|
  {
    if n == 0 then 0
    else Room(t, kids, n - 1) + if kids[n - 1] in t && t[kids[n - 1]].inode.Some? then 5 + |t[kids[n - 1]].name| else 0
  }

  /** The room that the two dots take. */
  const DOTS := 13

  ghost predicate Fits(w: World, d: Id, size: nat) {
    d in w.t && DOTS + Room(w.t, w.t[d].kids, |w.t[d].kids|) < size
  }

  lemma {:induction false} RoomMono(t: Table, kids: seq<Id>, i: nat, n: nat)
    requires i <= n <= |kids|
    ensures Room(t, kids, i) <= Room(t, kids, n)
  {
    if i < n { RoomMono(t, kids, i, n - 1); }
  }

  /** The names of the positive ones among the first `n` dentries, in order. */
  ghost function Positives(t: Table, kids: seq<Id>, n: nat): seq<string>
    requires n <= |kids|
  {
    if n == 0 then []
    else Positives(t, kids, n - 1) + if kids[n - 1] in t && t[kids[n - 1]].inode.Some? then [t[kids[n - 1]].name]
        else []
  }

  lemma {:induction false} PositivesGrow(t: Table, kids: seq<Id>, i: nat, n: nat)
    requires i <= n <= |kids|
    ensures Positives(t, kids, i) <= Positives(t, kids, n)
  {
    if i < n { PositivesGrow(t, kids, i, n - 1); }
  }

  lemma {:induction false} PositivesAre(t: Table, kids: seq<Id>, n: nat)
    requires n <= |kids|
    ensures forall x :: x in Positives(t, kids, n) <==>
              exists j :: 0 <= j < n && kids[j] in t && t[kids[j]].inode.Some? && t[kids[j]].name == x
  {
    if n > 0 { PositivesAre(t, kids, n - 1); }
  }

  lemma {:induction false} PositivesOnce(t: Table, kids: seq<Id>, n: nat)
    requires n <= |kids| && NoDup(kids)
    requires forall a, b | a in kids && b in kids && a in t && b in t :: t[a].name == t[b].name ==> a == b
    ensures NoDup(Positives(t, kids, n))
  {
    if n > 0 {
      PositivesOnce(t, kids, n - 1);
      PositivesAre(t, kids, n - 1);
      assert kids[n - 1] in kids && forall j | 0 <= j < n - 1 :: kids[j] in kids;
      var less := Positives(t, kids, n - 1);
      assert forall j | 0 <= j < |less| :: less[j] in less;
    }
  }

  /** In a cached directory these are its entries, each once. */
  lemma PositivesExact(w: World, d: Id)
    requires Inv(w) && d in w.live && d in w.t && d != ROOT && w.t[d].cached
    ensures IsListing(Positives(w.t, w.t[d].kids, |w.t[d].kids|), Dir(w, d))
  {
    var kids := w.t[d].kids;
    assert TreeAt(w, d) && NamesAt(w, d);
    PositivesOnce(w.t, kids, |kids|);
    PositivesAre(w.t, kids, |kids|);
    CachedIsExact(w, d);
    PositiveNamesAre(w.t, kids);
    forall n | n in Dir(w, d)
      ensures n in Positives(w.t, kids, |kids|)
    {
      var k :| k in kids && k in w.t && w.t[k].inode.Some? && w.t[k].name == n;
      var j :| 0 <= j < |kids| && kids[j] == k;
    }
    forall n | n in Positives(w.t, kids, |kids|)
      ensures n in Dir(w, d)
    {
      var j :| 0 <= j < |kids| && kids[j] in w.t && w.t[kids[j]].inode.Some? && w.t[kids[j]].name == n;
      PositiveNamed(w.t, kids, kids[j]);
    }
  }

  /** What a listing gives at position `j`: the two dots, then the entries in the file system's order. */
  ghost function NameAt(listing: seq<string>, j: nat): string
    requires j < |listing| + 2
  {
    if j == 0 then "." else if j == 1 then ".." else listing[j - 2]
  }

  /** Exactly the names from one position up to another have been given. */
  ghost predicate Emitted(listing: seq<string>, seek0: nat, seek: nat, out: seq<string>) {
    && seek == seek0 + |out|
    && forall j | 0 <= j < |out| :: seek0 + j < |listing| + 2 && out[j] == NameAt(listing, seek0 + j)
  }

  /** The room that the first `n` names take in a caller's buffer. */
  ghost function Width(names: seq<string>, n: nat): nat
    requires n <= |names|
  {
    if n == 0 then 0 else Width(names, n - 1) + 5 + |names[n - 1]|
  }

  lemma {:induction false} WidthMono(names: seq<string>, i: nat, n: nat)
    requires i <= n <= |names|
    ensures Width(names, i) <= Width(names, n)
  {
    if i < n { WidthMono(names, i, n - 1); }
  }

  /** How a listing ends if nothing fails: at its end with 0, without room for one name with an error, and
      otherwise with the bytes given; with enough room it gives all there is. */
  ghost predicate Listed(listing: seq<string>, seek0: nat, seek: nat, size: nat, out: seq<string>, status: int) {
    && (status == 0 <==> seek0 >= |listing| + 2)
    && (seek0 < |listing| + 2 ==> if out == [] then status == -EINVAL else status > 0)
    && (DOTS + Width(listing, |listing|) < size && seek0 <= |listing| + 2 ==> seek == |listing| + 2)
  }

  /** A listing under way: what was given, and that it takes no more room than its names. */
  ghost predicate Giving(listing: seq<string>, seek0: nat, seek: nat, pos: nat, out: seq<string>) {
    && Emitted(listing, seek0, seek, out) && seek >= 2 && (pos == 0 <==> out == [])
    && (seek - 2 <= |listing| ==> pos <= DOTS + Width(listing, seek - 2))
  }

  /** The next name does not fit. */
  ghost predicate Full(listing: seq<string>, seek: nat, pos: nat, size: nat, status: int) {
    && seek < |listing| + 2 && status == (if pos == 0 then -EINVAL else pos)
    && DOTS + Width(listing, |listing|) >= size
  }

  lemma GivingMore(listing: seq<string>, seek0: nat, seek: nat, pos: nat, size: nat, out: seq<string>)
    requires Giving(listing, seek0, seek, pos, out) && seek < |listing| + 2
    ensures var name := listing[seek - 2];
            && Giving(listing, seek0, seek + 1, pos + 5 + |name|, out + [name])
            && (pos + 5 + |name| >= size ==> Full(listing, seek, pos, size, if pos == 0 then -EINVAL else pos))
  {
    WidthMono(listing, seek - 1, |listing|);
    EmittedMore(listing, seek0, seek, out, out + [listing[seek - 2]]);
  }

  /** A dentry for every entry: then there are as many positive ones. */
  lemma AllKnown(w: World, x: Id)
    requires Inv(w) && x in w.live && x in w.t && x != ROOT && forall n | n in Dir(w, x) :: HasKid(w, x, n)
    ensures w.t[x].positive == |Dir(w, x)|
  {
    var w' := w.(t := w.t[x := w.t[x].(cached := true)]);
    CachedKeeps(w, x, w');
    CachedIsExact(w', x);
  }

  lemma EmittedBounds(listing: seq<string>, seek0: nat, seek: nat, out: seq<string>)
    requires Emitted(listing, seek0, seek, out)
    ensures out != [] ==> seek0 < |listing| + 2 && seek <= |listing| + 2
  {
    if out != [] {
      var j := |out| - 1;
      assert out[j] in out && seek0 + j < |listing| + 2;
    }
  }

  lemma EmittedMore(listing: seq<string>, seek0: nat, seek: nat, out: seq<string>, out': seq<string>)
    requires Emitted(listing, seek0, seek, out) && seek < |listing| + 2
    requires out' == out || out' == out + [NameAt(listing, seek)]
    ensures Emitted(listing, seek0, seek0 + |out'|, out')
  {
  }

  /** The status of a walk, by where the file system leads. */
  ghost function WalkStatus(o: Outcome, mustexist: bool): int {
    if o.Fails? then o.errno else if mustexist && o.spot.Gone? then -ENOENT else 0
  }

  /** How a walk ends if nothing fails. */
  ghost predicate Ends(o: Outcome, status: int, mustexist: bool, w: World, dp: Id) {
    && status == WalkStatus(o, mustexist)
    && (status == 0 ==> dp in w.t && o == Arrived(SpotOf(w, dp)))
  }

  lemma StillTrans(a: World, b: World, c: World)
    requires Still(a, b) && Still(b, c)
    ensures Still(a, c)
  {
    forall x | x in a.live ensures StillAt(a, c, x) { assert StillAt(a, b, x) && StillAt(b, c, x); }
  }

  /** vfs_put_dirent, as far as the caller's buffer goes. */
  method Put(name: string, seek0: nat, pos0: nat, size: nat, out0: seq<string>)
    returns (status: int, seek: nat, pos: nat, out: seq<string>, ok: bool)
    ensures ok <==> pos0 + 5 + |name| < size
    ensures ok ==> seek == seek0 + 1 && pos == pos0 + 5 + |name| && status == pos && out == out0 + [name]
    ensures !ok ==> seek == seek0 && pos == pos0 && out == out0 && status == if pos == 0 then -EINVAL else pos
  {
    var len := 1 + 4 + |name|;
    seek, pos, out, ok := seek0, pos0, out0, pos0 + len < size;
    if ok {
      seek, pos, out := seek + 1, pos + len, out + [name];
      status := pos;
    } else {
      status := if pos == 0 then -EINVAL else pos;
    }
  }

  /** The two entries every directory begins with. */
  method PutDots(seek0: nat, size: nat, ghost listing: seq<string>)
    returns (status: int, seek: nat, pos: nat, out: seq<string>, ok: bool)
    ensures ok ==> seek >= 2
    ensures status == 0 <==> seek0 >= 2
    ensures status == 0 ==> ok && pos == 0 && seek == seek0 && out == []
    ensures pos == 0 ==> out == []
    ensures ok ==> status == pos && pos <= DOTS
    ensures !ok ==> seek < 2 && size <= DOTS && status == (if out == [] then -EINVAL else pos)
    ensures out != [] ==> pos > 0
    ensures Emitted(listing, seek0, seek, out)
  {
    status, seek, pos, out, ok := 0, seek0, 0, [], true;
    if seek == 0 { status, seek, pos, out, ok := Put(".", seek, pos, size, out); }
    if ok && seek == 1 { status, seek, pos, out, ok := Put("..", seek, pos, size, out); }
  }

  /** The loop over the children of a cached directory. */
  method Emit(t: Table, kids: seq<Id>, first: nat, ghost seek0: nat, seek1: nat, pos1: nat, size: nat,
              out1: seq<string>, ghost all: seq<string>)
    returns (status: int, seek: nat, out: seq<string>)
    requires (forall k | k in kids :: k in t) && first <= |kids| && pos1 <= DOTS
    requires all == Positives(t, kids, |kids|) && seek1 >= 2 && Emitted(all, seek0, seek1, out1)
    requires pos1 == 0 <==> out1 == []
    requires seek1 - 2 == |Positives(t, kids, first)| || (first == |kids| && seek1 - 2 > |all|)
    ensures Emitted(all, seek0, seek, out)
    ensures status == 0 <==> seek0 >= |all| + 2
    ensures status == -EINVAL <==> seek0 < |all| + 2 && out == []
    ensures DOTS + Room(t, kids, |kids|) < size && seek0 <= |all| + 2 ==> seek == |all| + 2
  {
    var i, pos: nat, ok := first, pos1, true;
    seek, status, out := seek1, pos1, out1;
    while i < |kids| && ok
      invariant 0 <= i <= |kids| && seek >= 2 && Emitted(all, seek0, seek, out) && (pos == 0 <==> out == [])
      invariant ok ==> status == pos && pos <= DOTS + Room(t, kids, i)
      invariant ok ==> seek - 2 == |Positives(t, kids, i)| || (i == |kids| && seek - 2 > |all|)
      invariant !ok ==> seek - 2 < |all| && status == (if pos == 0 then -EINVAL else pos)
      invariant DOTS + Room(t, kids, |kids|) < size ==> ok
      decreases |kids| - i
    {
      var k := kids[i];
      RoomMono(t, kids, i + 1, |kids|);
      PositivesGrow(t, kids, i + 1, |kids|);
      if t[k].inode.Some? {
        ghost var given, at := out, seek;
        assert all[at - 2] == t[k].name;
        status, seek, pos, out, ok := Put(t[k].name, seek, pos, size, out);
        EmittedMore(all, seek0, at, given, out);
      }
      i := i + 1;
    }
    EmittedBounds(all, seek0, seek, out);
  }

  /** The checks of vfs_open on the inode it found, and what the driver says. */
  method Check(dir: bool, flags: Flags, ops: Ops, drv: Answers) returns (status: int)
    requires drv.Valid() && !drv.failed
    modifies drv
    ensures drv.Valid() && status == if drv.failed then -EIO else Unfit(dir, flags, ops)
    ensures drv.failed ==> Unfit(dir, flags, ops) == 0
  {
    if flags.directory {
      if !dir { return -ENOTDIR; }
    } else {
      if dir { return -EISDIR; }
    }
    if flags.read && !ops.read { return -ENOTSUP; }
    if flags.write && !ops.write { return -ENOTSUP; }
    if flags.trunc {
      if !flags.write { return -EINVAL; }
      if !ops.trunc { return -ENOTSUP; }
    }
    var ok := drv.Ask();
    if !ok { return -EIO; }
    if flags.trunc {
      ok := drv.Ask();
      if !ok { return -EIO; }
    }
    status := 0;
  }

  class FileSystem {
    var t: Table
    var fs: Fs
    var mounts: map<string, Id>
    var next: Id
    var u: Users
    /** The same cache and file system, with the bookkeeping of the proof. */
    ghost var w: World

    ghost predicate Valid()
      reads this
    {
      && Inv(w) && Shared(w, u) && w.t == t && w.fs == fs && w.mounts == mounts
      && next > ROOT && forall x | x in t :: x < next
    }

    /** dcache_lookup. */
    method FindKid(p: Id, name: string) returns (found: bool, c: Id)
      requires Valid() && p in w.live
      ensures p in t && (found <==> HasKid(w, p, name))
      ensures found ==> c in t[p].kids && c in t && t[c].name == name
    {
      assert TreeAt(w, p);
      var i := 0;
      found, c := false, ROOT;
      while i < |t[p].kids|
        invariant 0 <= i <= |t[p].kids|
        invariant forall j | 0 <= j < i :: t[t[p].kids[j]].name != name
      {
        c := t[p].kids[i];
        if t[c].name == name { return true, c; }
        i := i + 1;
      }
    }

    /** dcache_append. */
    method Append(p: Id, name: string, inode: Option<Ent>) returns (c: Id)
      requires Valid() && p in w.live && p in t && p != ROOT && inode == Look(Dir(w, p), name) && !HasKid(w, p, name)
      modifies this`t, this`next, this`u, this`w
      ensures Valid() && Still(old(w), w) && u == old(u).(numfd := u.numfd)
      ensures c in w.live && c in t && p in t && c in t[p].kids && t[c].name == name && t[c].inode == inode
      ensures t[p].cached == old(t)[p].cached
    {
      assert TreeAt(w, p);
      c := next;
      next := next + 1;
      assert c in w.live ==> TreeAt(w, c);
      Attach(p, c, name, inode);
      u := u.(numfd := u.numfd[c := 0]);
      NewDentry(old(w), w, old(u), c, u);
    }

    method Attach(p: Id, c: Id, name: string, inode: Option<Ent>)
      requires Inv(w) && w.t == t && p in w.live && p in t && p in w.depth && p != ROOT && c !in t && c != ROOT
      requires inode == Look(Dir(w, p), name) && !HasKid(w, p, name)
      modifies this`t, this`w
      ensures w == Appended(old(w), p, c, name, inode) && w.t == t && Inv(w) && Still(old(w), w)
      ensures forall x | Held(old(w), x) :: Held(w, x)
    {
      var d := t[p];
      var d' := if inode.Some? then d.(kids := [c] + d.kids, positive := d.positive + 1)
                else d.(kids := [c] + d.kids, negative := d.negative + 1);
      t := t[c := Dentry(name, p, [], 0, 0, false, inode, d.mp)][p := d'];
      w := Appended(w, p, c, name, inode);
      AppendKeeps(old(w), p, c, name, inode, w);
      AppendStill(old(w), p, c, name, inode, w);
    }

    /** One component that is neither the parent nor a mount: the cache, or else the file system. */
    method Enter(p: Id, name: string, drv: Answers, mem: Answers) returns (status: int, c: Id)
      requires Valid() && p in w.live && Directory(w, p) && name != ".." && Calm(drv, mem)
      modifies this`t, this`next, this`u, this`w, drv, mem
      ensures Reported(drv, mem, status)
      ensures Valid() && Still(old(w), w) && u == old(u).(numfd := u.numfd)
      ensures status == 0 || status == -ENOENT ==> c in w.live && c in t && t[c].name == name
      ensures status == 0 || status == -ENOENT ==> p in t && c in t[p].kids
      ensures status == 0 ==> t[c].inode.Some?
      ensures status == -ENOENT ==> t[c].inode.None?
      ensures status == 0 || status == -ENOENT || status == -EIO || status == -ENOMEM
      ensures HasKid(old(w), p, name) ==> drv.asked == old(drv.asked) && mem.asked == old(mem.asked)
    {
      StillSelf(w);
      assert TreeAt(w, p);
      var found;
      found, c := FindKid(p, name);
      if found {
        status := if t[c].inode.Some? then 0 else -ENOENT;
        assert TreeAt(w, c);
        return;
      }
      var ok := drv.Ask();
      if !ok { return -EIO, ROOT; }
      var inode := Look(fs[t[p].inode.value.ino], name);
      ok := mem.Ask();
      if !ok { return -ENOMEM, ROOT; }
      c := Append(p, name, inode);
      status := if inode.Some? then 0 else -ENOENT;
    }

    /** One component of a path, as the file system itself would take it. With `stop` the walk fails at
        once; without it and with an error, the component is missing. */
    method Component(p: Id, name: string, drv: Answers, mem: Answers, ghost last: bool)
        returns (status: int, c: Id, stop: bool)
      requires Valid() && Held(w, p) && Calm(drv, mem)
      modifies this`t, this`next, this`u, this`w, drv, mem
      ensures Reported(drv, mem, status)
      ensures Valid() && Still(old(w), w) && u == old(u).(numfd := u.numfd) && Tops(w) == Tops(old(w))
      ensures stop ==> status < 0
      ensures stop && !drv.failed && !mem.failed ==> Stepped(old(w), p, name, last) == Fails(status)
      ensures !stop ==> c in w.live && c in t && (status == 0 || status == -ENOENT)
      ensures !stop && status == 0 ==> t[c].inode.Some? && Stepped(old(w), p, name, last) == Arrived(SpotOf(w, c))
      ensures !stop && status != 0 ==> t[c].inode.None? && Child(w, c) && Directory(w, t[c].parent)
      ensures !stop && status != 0 ==> Stepped(old(w), p, name, last) == if last then Arrived(SpotOf(w, c))
        else Fails(-ENOENT)
    {
      StillSelf(w);
      assert TreeAt(w, p) && InodeAt(w, p);
      c := p;
      if !t[p].inode.value.dir { return -ENOTDIR, p, true; }
      if name == ".." {
        if p != ROOT { UpAgrees(w, p); }
        c := t[p].parent;
        assert TreeAt(w, c);
        HeldParent(w, p);
        return 0, c, false;
      }
      if p == ROOT {
        if name !in mounts { return -ENOENT, p, true; }
        c := mounts[name];
        assert IsMount(w, c) && MountAt(w, c);
        return 0, c, false;
      }
      status, c := Enter(p, name, drv, mem);
      StillTops(old(w), w);
      stop := status == -EIO || status == -ENOMEM;
      if !stop {
        assert StillAt(old(w), w, p);
        ChildAgrees(w, p, c, name, last);
      }
    }

    /** vfs_walk_path. Whatever is in the cache, the walk ends where the file system itself leads. */
    method Walk(start: Id, parts: seq<string>, mustexist: bool, drv: Answers, mem: Answers)
        returns (status: int, dp: Id)
      requires Valid() && Held(w, start) && Calm(drv, mem)
      modifies this`t, this`next, this`u, this`w, drv, mem
      ensures Reported(drv, mem, status)
      ensures Valid() && Still(old(w), w) && u == old(u).(numfd := u.numfd)
      ensures status == 0 ==> dp in w.live && dp in t && (mustexist ==> t[dp].inode.Some?)
      ensures status == 0 && t[dp].inode.None? ==> Child(w, dp) && Directory(w, t[dp].parent)
      ensures status <= 0
      ensures !drv.failed && !mem.failed ==>
                Ends(FsWalk(fs, w.home, Tops(w), SpotOf(old(w), start), parts, 0), status, mustexist, w, dp)
    {
      ghost var tops := Tops(w);
      StillSelf(w);
      dp, status := start, 0;
      var i := 0;
      while i < |parts| && status == 0
        invariant 0 <= i <= |parts| && Calm(drv, mem)
        invariant Valid() && Still(old(w), w) && u == old(u).(numfd := u.numfd) && Tops(w) == tops
        invariant dp in w.live && dp in t
        invariant status == 0 ==> t[dp].inode.Some?
        invariant status == 0 ==>
                    FsWalk(fs, w.home, tops, SpotOf(old(w), start), parts, 0) ==
                    FsWalk(fs, w.home, tops, SpotOf(w, dp), parts, i)
        invariant status != 0 ==> status == -ENOENT && t[dp].inode.None? && Child(w, dp) && Directory(w, t[dp].parent)
        invariant status != 0 ==> FsWalk(fs, w.home, tops, SpotOf(old(w), start), parts, 0) ==
                                  if i == |parts| then Arrived(SpotOf(w, dp)) else Fails(-ENOENT)
        decreases |parts| - i
      {
        var stop;
        ghost var before := w;
        status, dp, stop := Component(dp, parts[i], drv, mem, i + 1 == |parts|);
        StillTrans(old(w), before, w);
        StillTops(before, w);
        if stop { return; }
        i := i + 1;
      }
      if status == 0 { return; }
      if i == |parts| && !mustexist { status := 0; }
    }

    /** vfs_walk_path from the text of a path: an absolute one from the top, a relative one from the working
        directory. */
    method WalkPath(cwd: Id, path: string, mustexist: bool, drv: Answers, mem: Answers) returns (status: int, dp: Id)
      requires Valid() && Held(w, cwd) && '\0' !in path && Calm(drv, mem)
      modifies this`t, this`next, this`u, this`w, drv, mem
      ensures Reported(drv, mem, status)
      ensures Valid() && Still(old(w), w) && u == old(u).(numfd := u.numfd)
      ensures status == 0 ==> dp in w.live && dp in t && (mustexist ==> t[dp].inode.Some?)
      ensures !drv.failed && !mem.failed ==>
                var spot := if path != [] && path[0] == '/' then Top else SpotOf(old(w), cwd);
                var parts := Path.Words(Path.Clean(Path.Parts(path)).out);
                Ends(FsWalk(fs, w.home, Tops(w), spot, parts, 0), status, mustexist, w, dp)
    {
      assert TreeAt(w, ROOT);
      var start := if path != [] && path[0] == '/' then ROOT else cwd;
      var parts, depth := Path.ReadPath(path);
      status, dp := Walk(start, parts, mustexist, drv, mem);
    }

    /** vfs_create and vfs_mkdir; `e` is the inode the file system gives out. */
    method Create(start: Id, parts: seq<string>, e: Ent, supported: bool, drv: Answers, mem: Answers)
        returns (status: int, dp: Id)
      requires Valid() && Held(w, start) && e.ino !in fs && Calm(drv, mem)
      modifies this`t, this`next, this`u, this`w, this`fs, drv, mem
      ensures Valid() && status <= 0 && u == old(u).(numfd := u.numfd) && w.mounts == old(w.mounts)
      ensures Unmoved(old(w), w)
      ensures Reported(drv, mem, status)
      ensures !drv.failed && !mem.failed ==>
                var o := old(WalkFrom(start, parts));
                status == if o.Fails? then o.errno else if !o.spot.Gone? then -EEXIST
                          else if !supported then -ENOTSUP else 0
      ensures status == 0 ==> dp in w.live && dp in t && t[dp].inode == Some(e)
      ensures status == 0 ==> var o := old(WalkFrom(start, parts));
                o.Arrived? && o.spot.Gone? && StandsAt(w, dp, o.spot)
                    && Gains(old(fs), o.spot.dir, o.spot.name, e, fs)
      ensures status < 0 ==> fs == old(fs) && w.home == old(w.home)
    {
      status, dp := Walk(start, parts, false, drv, mem);
      StillTops(old(w), w);
      StillUnmoved(old(w), w);
      if status < 0 { return; }
      assert TreeAt(w, ROOT);
      if t[dp].inode.Some? { return -EEXIST, dp; }
      if !supported { return -ENOTSUP, dp; }
      ghost var before := w;
      status := Make(dp, e, drv);
      if status == 0 { CreateUnmoved(old(w), before, dp, e, w); }
    }

    /** A new entry: the dentry turns positive, and back again if the driver fails. */
    method Make(dp: Id, e: Ent, drv: Answers) returns (status: int)
      requires Valid() && e.ino !in fs && drv.Valid() && !drv.failed
      requires Child(w, dp) && t[dp].inode.None? && Directory(w, t[dp].parent)
      modifies this`t, this`w, this`fs, drv
      ensures Valid() && drv.Valid() && status == if drv.failed then -EIO else 0
      ensures status == 0 ==> w == Created(old(w), dp, e)
      ensures status == 0 ==> Gains(old(fs), old(w).t[old(w).t[dp].parent].inode.value.ino, old(w).t[dp].name, e, fs)
      ensures status < 0 ==> w == old(w) && fs == old(fs)
    {
      ghost var was := t;
      assert InodeAt(w, t[dp].parent);
      t := Flipped(t, dp, Some(e));
      var ok := drv.Ask();
      if !ok {
        t := Flipped(t, dp, None);
        FlipBack(was, dp, e);
        return -EIO;
      }
      AddGains(fs, t[t[dp].parent].inode.value.ino, t[dp].name, e);
      fs := FsAdd(fs, t[t[dp].parent].inode.value.ino, t[dp].name, e);
      w := Created(w, dp, e);
      CreateKeeps(old(w), dp, e, w);
      FlipShared(old(w), dp, w, u);
      status := 0;
    }

    /** Where a path leads on the file system itself. */
    ghost function WalkFrom(start: Id, parts: seq<string>): Outcome
      requires start in w.t
      reads this
    {
      FsWalk(fs, w.home, Tops(w), SpotOf(w, start), parts, 0)
    }

    /** vfs_remove and vfs_rmdir. */
    method Remove(start: Id, parts: seq<string>, rmdir: bool, supported: bool, drv: Answers, mem: Answers)
        returns (status: int, dp: Id, ghost at: World)
      requires Valid() && Held(w, start) && Calm(drv, mem)
      modifies this`t, this`next, this`u, this`w, this`fs, drv, mem
      ensures Valid() && status <= 0 && u == old(u).(numfd := u.numfd)
      ensures Still(old(w), at) && Reported(drv, mem, status)
      ensures !drv.failed && !mem.failed ==>
                var o := old(WalkFrom(start, parts));
                if WalkStatus(o, true) < 0 then status == WalkStatus(o, true)
                else Held(at, dp) && o == Arrived(SpotOf(at, dp)) && status == Refusal(at, old(u), dp, rmdir, supported)
      ensures status == 0 ==> dp in t && t[dp].inode.None? && Held(at, dp) && Child(at, dp)
      ensures status == 0 ==> Directory(at, at.t[dp].parent)
      ensures status == 0 ==> Loses(old(fs), ParentIno(at, dp), at.t[dp].name, at.t[dp].inode.value, fs)
      ensures status < 0 ==> fs == old(fs)
    {
      status, dp := Walk(start, parts, true, drv, mem);
      StillTops(old(w), w);
      at := w;
      if status < 0 { return; }
      status := Unlink(dp, rmdir, supported, drv);
    }

    /** A dentry in use is left alone; the file system keeps a directory that is not empty, and its own root. */
    method Unlink(dp: Id, rmdir: bool, supported: bool, drv: Answers) returns (status: int)
      requires Valid() && Held(w, dp) && drv.Valid() && !drv.failed
      modifies this`t, this`w, this`fs, drv
      ensures Valid() && status <= 0 && drv.Valid() && (status == -EIO <==> drv.failed) && status != -ENOMEM
      ensures !drv.failed ==> status == Refusal(old(w), u, dp, rmdir, supported)
      ensures status == 0 ==> dp in t && t[dp].inode.None? && Child(old(w), dp)
      ensures status == 0 ==> Directory(old(w), old(w).t[dp].parent)
      ensures status == 0 ==> Loses(old(fs), ParentIno(old(w), dp), old(t)[dp].name, old(t)[dp].inode.value, fs)
      ensures status < 0 ==> fs == old(fs)
    {
      var e := t[dp].inode.value;
      if !rmdir && e.dir { return -EISDIR; }
      if rmdir && !e.dir { return -ENOTDIR; }
      assert CountAt(u, dp);
      CounterTells(u, dp);
      if u.numfd[dp] != 0 { return -EBUSY; }
      if !supported || dp == ROOT || dp in mounts.Values { return -ENOTSUP; }
      var ok := drv.Ask();
      if !ok { return -EIO; }
      assert TreeAt(w, dp) && CoherentAt(w, dp) && InodeAt(w, dp);
      if rmdir && fs[e.ino] != map[] { return -ENOTEMPTY; }
      Forget(dp);
      status := 0;
    }

    method Forget(dp: Id)
      requires Valid() && Held(w, dp) && Child(w, dp) && Dir(w, dp) == map[] && dp in u.numfd && u.numfd[dp] == 0
      modifies this`t, this`w, this`fs
      ensures Valid() && dp in t && t[dp].inode.None? && Directory(old(w), old(w).t[dp].parent)
      ensures Loses(old(fs), ParentIno(old(w), dp), old(t)[dp].name, old(t)[dp].inode.value, fs)
    {
      assert TreeAt(w, dp) && CoherentAt(w, dp) && InodeAt(w, dp);
      var p, e := t[dp].parent, t[dp].inode.value;
      DropLoses(fs, t[p].inode.value.ino, t[dp].name, e);
      fs := FsDrop(fs, t[p].inode.value.ino, t[dp].name, e);
      t := Flipped(t, dp, None);
      w := Removed(w, dp);
      RemoveKeeps(old(w), dp, w);
      Unused(old(w), u, dp);
      FlipShared(old(w), dp, w, u);
    }

    /** The walk up from the target's parent in vfs_rename; it ends because the cache is a tree. */
    method IsAbove(src: Id, q: Id) returns (above: bool)
      requires Valid() && q in w.live && src != ROOT
      ensures above <==> Below(w, q, src)
    {
      var tmp := q;
      assert TreeAt(w, tmp);
      while tmp != ROOT
        invariant tmp in w.live && tmp in t && tmp in w.depth
        invariant Below(w, q, src) <==> Below(w, tmp, src)
        decreases w.depth[tmp]
      {
        if tmp == src { return true; }
        BelowParent(w, tmp, src);
        assert TreeAt(w, tmp);
        tmp := t[tmp].parent;
        assert TreeAt(w, tmp);
      }
      RootAlone(w, src);
      above := false;
    }

    /** dcache_move and dcache_delete, once the file system has renamed. */
    method MoveDentry(src: Id, dst: Id)
      requires Valid() && CanMove(w, src, dst) && u.numfd.Keys >= {dst} && u.numfd[dst] == 0
      modifies this`t, this`fs, this`w
      ensures Valid() && w.mounts == old(w.mounts) && src in w.live && src in t
      ensures fs == FsMove(old(fs), ParentIno(old(w), src), old(t)[src].name, ParentIno(old(w), dst), old(t)[dst].name,
                           old(t)[src].inode.value, old(t)[dst].inode)
    {
      assert TreeAt(w, src) && TreeAt(w, dst) && TreeAt(w, t[dst].parent);
      var q := t[dst].parent;
      fs := FsMove(fs, t[t[src].parent].inode.value.ino, t[src].name, t[q].inode.value.ino, t[dst].name,
                   t[src].inode.value, t[dst].inode);
      t := Relinked(src, dst);
      w := After(w, src, dst, t);
      AfterKeeps(old(w), src, dst, t);
      MoveShared(old(w), src, dst, w, u);
      Stay(old(w), src, dst);
      assert MovedAt(old(t), src, dst, t, src);
    }

    method Relinked(src: Id, dst: Id) returns (r: Table)
      requires Inv(w) && w.t == t && CanMove(w, src, dst)
      ensures Moved(t, src, dst, r)
    {
      Stay(w, src, dst);
      var q, name := t[dst].parent, t[dst].name;
      var t1 := Unlinked(t, src);
      var t2 := t1[src := t1[src].(name := name)];
      var t3 := Linked(t2, q, src);
      var t4 := Unlinked(t3, dst);
      MoveSteps(w, src, dst, t1, t2, t3, t4);
      r := t4 - {dst};
    }

    /** vfs_rename. */
    method Rename(start: Id, parts: seq<string>, start': Id, parts': seq<string>, supported: bool,
                  drv: Answers, mem: Answers)
        returns (status: int, ghost pair: Option<Pair>, ghost move: Option<Move>)
      requires Valid() && Held(w, start) && Held(w, start') && Calm(drv, mem)
      modifies this`t, this`next, this`u, this`w, this`fs, drv, mem
      ensures Valid() && status <= 0 && u == old(u).(numfd := u.numfd)
      ensures Reported(drv, mem, status)
      ensures pair.None? && !drv.failed && !mem.failed ==>
                var o, o' := old(WalkFrom(start, parts)), old(WalkFrom(start', parts'));
                status < 0 && status == if WalkStatus(o, true) < 0 then WalkStatus(o, true) else WalkStatus(o', false)
      ensures pair.Some? ==> var at := pair.value;
                && Still(old(w), at.w) && Held(at.w, at.src) && at.dst in at.w.t
                && old(WalkFrom(start, parts)) == Arrived(SpotOf(at.w, at.src))
                && old(WalkFrom(start', parts')) == Arrived(SpotOf(at.w, at.dst))
                && status == Verdict(at, old(u), supported, drv.failed)
      ensures pair.None? ==> status < 0
      ensures status == 0 ==> (move.None? <==> pair.value.src == pair.value.dst)
      ensures status < 0 || move.None? ==> fs == old(fs)
      ensures status == 0 && move.Some?
        ==> Carried(old(fs), move.value, old(WalkFrom(start, parts)), old(WalkFrom(start', parts')), fs)
    {
      pair, move := None, None;
      var src, dst;
      status, src, dst := Both(start, parts, start', parts', drv, mem);
      if status < 0 { return; }
      ghost var before := w;
      pair := Some(Pair(w, src, dst));
      status, move := Exchange(src, dst, supported, drv);
      if status == 0 && move.Some? { CarriedOut(before, src, dst, move.value, fs); }
    }

    /** The two walks. */
    method Both(start: Id, parts: seq<string>, start': Id, parts': seq<string>, drv: Answers, mem: Answers)
        returns (status: int, src: Id, dst: Id)
      requires Valid() && Held(w, start) && Held(w, start') && Calm(drv, mem)
      modifies this`t, this`next, this`u, this`w, drv, mem
      ensures Valid() && Still(old(w), w) && status <= 0 && u == old(u).(numfd := u.numfd)
      ensures Reported(drv, mem, status)
      ensures !drv.failed && !mem.failed ==>
                var o, o' := old(WalkFrom(start, parts)), old(WalkFrom(start', parts'));
                status == if WalkStatus(o, true) < 0 then WalkStatus(o, true) else WalkStatus(o', false)
      ensures status == 0 ==> Held(w, src) && dst in w.live && dst in t
      ensures status == 0 && t[dst].inode.None? ==> Directory(w, t[dst].parent)
      ensures status == 0 ==> old(WalkFrom(start, parts)) == Arrived(SpotOf(w, src))
      ensures status == 0 ==> old(WalkFrom(start', parts')) == Arrived(SpotOf(w, dst))
    {
      dst := ROOT;
      status, src := Walk(start, parts, true, drv, mem);
      StillTops(old(w), w);
      if status < 0 { return; }
      ghost var first := w;
      assert StillAt(old(w), w, start');
      status, dst := Walk(start', parts', false, drv, mem);
      StillTrans(old(w), first, w);
      StillTops(first, w);
      if status < 0 { return; }
      assert StillAt(first, w, src);
    }

    /** The checks on the two dentries, and the move. */
    method Exchange(src: Id, dst: Id, supported: bool, drv: Answers) returns (status: int, ghost move: Option<Move>)
      requires Valid() && Held(w, src) && dst in w.live && dst in t && drv.Valid() && !drv.failed
      requires t[dst].inode.None? ==> Directory(w, t[dst].parent)
      modifies this`t, this`w, this`fs, drv
      ensures Valid() && drv.Valid() && status <= 0
      ensures status == Verdict(Pair(old(w), src, dst), u, supported, drv.failed) && (status == -EIO <==> drv.failed)
      ensures status == 0 ==> (move.None? <==> src == dst)
      ensures status < 0 || move.None? ==> fs == old(fs)
      ensures status == 0 && move.Some? ==> CanMove(old(w), src, dst) && move.value == MoveOf(old(w), src, dst)
      ensures status == 0 && move.Some? ==>
                fs == RenamedFs(old(fs), move.value, old(t)[src].inode.value, old(t)[dst].inode)
    {
      move := None;
      assert CountAt(u, dst);
      CounterTells(u, dst);
      if u.numfd[dst] != 0 { return -EBUSY, None; }
      if src == dst { return 0, None; }
      if t[dst].inode.Some? && t[dst].inode.value.dir != t[src].inode.value.dir { return -EINVAL, None; }
      if t[src].mp != t[dst].mp { return -EXDEV, None; }
      status := Allowed(src, dst, supported, drv);
      if status < 0 { return; }
      move := Some(MoveOf(w, src, dst));
      MoveDentry(src, dst);
    }

    /** The rest of the checks: no directory into itself, and then the file system decides; it does not
        replace a directory that is not empty. */
    method Allowed(src: Id, dst: Id, supported: bool, drv: Answers) returns (status: int)
      requires Valid() && Held(w, src) && dst in w.live && dst in t && src != dst && t[src].mp == t[dst].mp
      requires t[dst].inode.None? ==> Directory(w, t[dst].parent)
      requires t[dst].inode.Some? ==> t[dst].inode.value.dir == t[src].inode.value.dir
      requires drv.Valid() && !drv.failed
      modifies drv
      ensures status == 0 ==> CanMove(w, src, dst)
      ensures drv.Valid() && (status == -EIO <==> drv.failed)
      ensures status == if t[src].inode.value.dir && Below(w, t[dst].parent, src) then -EINVAL
                        else if !supported then -ENOTSUP else if drv.failed then -EIO
                        else if Dir(w, dst) != map[] then -ENOTEMPTY else 0
    {
      assert TreeAt(w, src) && TreeAt(w, dst) && InodeAt(w, dst);
      if dst != ROOT { NotTop(w, dst); }
      if t[src].inode.value.dir {
        var above := IsAbove(src, t[dst].parent);
        if above { return -EINVAL; }
      }
      if !supported { return -ENOTSUP; }
      var ok := drv.Ask();
      if !ok { return -EIO; }
      if dst != ROOT && t[dst].inode.Some? && t[dst].inode.value.dir && fs[t[dst].inode.value.ino] != map[] {
        return -ENOTEMPTY;
      }
      ChecksSuffice(w, src, dst);
      status := 0;
    }

    /** The beginning of vfs_open: the dentry found by the first walk is the one that is created. */
    method FindOrCreate(start: Id, parts: seq<string>, create: bool, supported: bool, e: Ent,
                        drv: Answers, mem: Answers) returns (status: int, dp: Id)
      requires Valid() && Held(w, start) && e.ino !in fs && Calm(drv, mem)
      modifies this`t, this`next, this`u, this`w, this`fs, drv, mem
      ensures Valid() && status <= 0 && u == old(u).(numfd := u.numfd)
      ensures Reported(drv, mem, status)
      ensures !drv.failed && !mem.failed ==>
                var o := old(WalkFrom(start, parts));
                status == if o.Fails? then o.errno else if !o.spot.Gone? then 0
                          else if !create then -ENOENT else if !supported then -ENOTSUP else 0
      ensures status < 0 ==> fs == old(fs)
      ensures status == 0 ==> Held(w, dp) && old(WalkFrom(start, parts)).Arrived?
      ensures status == 0 ==> match old(WalkFrom(start, parts)).spot {
                case Top => dp == ROOT && fs == old(fs)
                case At(found) => t[dp].inode == Some(found) && fs == old(fs)
                case Gone(dir, name) => create && t[dp].inode == Some(e) && Gains(old(fs), dir, name, e, fs)
              }
    {
      status, dp := Walk(start, parts, false, drv, mem);
      StillTops(old(w), w);
      if status < 0 { return; }
      assert TreeAt(w, ROOT);
      if t[dp].inode.Some? { return; }
      if !create { return -ENOENT, dp; }
      ghost var first := w;
      assert StillAt(old(w), w, start);
      var again;
      status, again := Create(start, parts, e, supported, drv, mem);
      if status < 0 { return; }
      SameDentry(first, w, dp, again);
    }

    /** vfs_open up to the new file descriptor. A missing file is created if asked for, and stays if a later
        check fails. */
    method Reach(start: Id, parts: seq<string>, flags: Flags, ops: Ops, e: Ent, drv: Answers, mem: Answers)
        returns (status: int, dp: Id)
      requires Valid() && Held(w, start) && e.ino !in fs && !e.dir && Calm(drv, mem)
      modifies this`t, this`next, this`u, this`w, this`fs, drv, mem
      ensures Valid() && status <= 0 && u == old(u).(numfd := u.numfd)
      ensures Reported(drv, mem, status)
      ensures !drv.failed && !mem.failed ==> status == OpenStatus(old(WalkFrom(start, parts)), flags, ops)
      ensures status == 0 ==> Held(w, dp) && t[dp].inode.value.dir == flags.directory
      ensures status == 0 ==> var o := old(WalkFrom(start, parts));
                && o.Arrived? && (o.spot.Top? ==> dp == ROOT) && (o.spot.At? ==> t[dp].inode == Some(o.spot.e))
                && (o.spot.Gone? ==> t[dp].inode == Some(e))
      ensures !drv.failed && !mem.failed ==> var o := old(WalkFrom(start, parts));
                if o.Arrived? && o.spot.Gone? && flags.create && ops.create && !flags.directory
                then Gains(old(fs), o.spot.dir, o.spot.name, e, fs) else fs == old(fs)
    {
      if flags.directory && flags != Flags(true, false, false, false, false) { return -EINVAL, ROOT; }
      status, dp := FindOrCreate(start, parts, flags.create, ops.create, e, drv, mem);
      if status < 0 { return; }
      assert TreeAt(w, ROOT);
      status := Check(t[dp].inode.value.dir, flags, ops, drv);
    }

    /** vfs_open. */
    method Open(start: Id, parts: seq<string>, flags: Flags, ops: Ops, e: Ent, f: nat, k: (nat, nat),
                drv: Answers, mem: Answers) returns (status: int, dp: Id)
      requires Valid() && Held(w, start) && e.ino !in fs && !e.dir && f !in u.files && k !in u.fds && Calm(drv, mem)
      modifies this`t, this`next, this`u, this`w, this`fs, drv, mem
      ensures Valid() && status <= 0
      ensures Reported(drv, mem, status)
      ensures !drv.failed && !mem.failed ==> status == OpenStatus(old(WalkFrom(start, parts)), flags, ops)
      ensures status == 0 ==> Held(w, dp) && t[dp].inode.value.dir == flags.directory
      ensures status == 0 ==> u.fds == old(u).fds[k := f] && u.files == old(u).files[f := dp] && u.cwds == old(u).cwds
      ensures status == 0 ==> var o := old(WalkFrom(start, parts));
                && o.Arrived? && (o.spot.Top? ==> dp == ROOT) && (o.spot.At? ==> t[dp].inode == Some(o.spot.e))
                && (o.spot.Gone? ==> t[dp].inode == Some(e))
      ensures !drv.failed && !mem.failed ==> var o := old(WalkFrom(start, parts));
                if o.Arrived? && o.spot.Gone? && flags.create && ops.create && !flags.directory
                then Gains(old(fs), o.spot.dir, o.spot.name, e, fs) else fs == old(fs)
      ensures status < 0 ==> u == old(u).(numfd := u.numfd)
    {
      status, dp := Reach(start, parts, flags, ops, e, drv, mem);
      if status < 0 { return; }
      assert CountAt(u, dp);
      OpenKeeps(w, u, f, k, dp);
      u := Opened(u, f, k, dp);
    }

    /** vfs_close. */
    method Close(k: (nat, nat), drv: Answers) returns (status: int)
      requires Valid() && drv.Valid() && !drv.failed
      modifies this`u, drv
      ensures Valid() && (status == -EBADF <==> k !in old(u).fds)
      ensures k in old(u).fds ==> u.fds == old(u).fds - {k} && u.cwds == old(u).cwds
      ensures k in old(u).fds ==>
                forall f :: f in u.files <==> (f in old(u).files && (f != old(u).fds[k] || f in u.fds.Values))
      ensures forall f | f in u.files :: f in old(u).files && u.files[f] == old(u).files[f]
      ensures drv.Valid() && status == if k !in old(u).fds then -EBADF else if drv.failed then -EIO else 0
      ensures drv.asked == old(drv.asked) + if k in old(u).fds && old(u).fds[k] !in u.files then 1 else 0
    {
      if k !in u.fds { return -EBADF; }
      assert FdAt(u, k) && FileAt(w, u, u.fds[k]) && CountAt(u, u.files[u.fds[k]]);
      CloseKeeps(w, u, k);
      var f := u.fds[k];
      u := Closed(u, k);
      status := 0;
      if u.refs[f] == 0 {
        var ok := drv.Ask();
        if !ok { status := -EIO; }
      }
      UsesDrop(old(u).fds, k, f);
      UsesNone(u.fds, f);
    }

    /** fd_clone, for a new process. */
    method Clone(k: (nat, nat), k': (nat, nat))
      requires Valid() && k in u.fds && k' !in u.fds
      modifies this`u
      ensures Valid() && u.fds == old(u).fds[k' := old(u).fds[k]]
    {
      assert FdAt(u, k) && FileAt(w, u, u.fds[k]);
      CloneKeeps(w, u, k', u.fds[k]);
      u := Cloned(u, k', u.fds[k]);
    }

    /** vfs_proc_init. */
    method Begin(p: nat, d: Id)
      requires Valid() && p !in u.cwds && Held(w, d)
      modifies this`u
      ensures Valid() && u.cwds == old(u).cwds[p := d]
    {
      assert CountAt(u, d);
      EnterKeeps(w, u, p, d);
      u := Joined(u, p, d);
    }

    /** vfs_proc_fini. */
    method End(p: nat)
      requires Valid() && p in u.cwds
      modifies this`u
      ensures Valid() && u.cwds == old(u).cwds - {p}
    {
      assert CwdAt(w, u, p) && CountAt(u, u.cwds[p]);
      LeaveKeeps(w, u, p);
      u := Left(u, p);
    }

    /** vfs_chdir. */
    method Chdir(p: nat, start: Id, parts: seq<string>, drv: Answers, mem: Answers) returns (status: int)
      requires Valid() && p in u.cwds && Held(w, start) && Calm(drv, mem)
      modifies this`t, this`next, this`u, this`w, drv, mem
      ensures Valid() && status <= 0
      ensures Reported(drv, mem, status)
      ensures !drv.failed && !mem.failed ==>
                var o := old(WalkFrom(start, parts));
                status == if WalkStatus(o, true) < 0 then WalkStatus(o, true)
                          else if o.Arrived? && o.spot.At? && !o.spot.e.dir then -ENOTDIR else 0
      ensures status == 0 ==> p in u.cwds && Held(w, u.cwds[p]) && t[u.cwds[p]].inode.value.dir
      ensures status == 0 ==> old(WalkFrom(start, parts)) == Arrived(SpotOf(w, u.cwds[p]))
      ensures status < 0 ==> u.cwds == old(u).cwds
    {
      var dp;
      status, dp := Walk(start, parts, true, drv, mem);
      StillTops(old(w), w);
      if status < 0 { return; }
      assert TreeAt(w, ROOT);
      if !t[dp].inode.value.dir { return -ENOTDIR; }
      if u.cwds[p] == dp { return 0; }
      End(p);
      Begin(p, dp);
    }

    /** vfs_readdir on a directory that is not yet cached: list from where the file stands, remember every
        entry listed, and at the end see whether all of them are remembered. `listing` is the order in
        which the file system gives its entries. */
    method Readdir(d: Id, seek0: nat, size: nat, listing: seq<string>, drv: Answers, mem: Answers)
        returns (status: int, seek: nat, out: seq<string>)
      requires Valid() && d in w.live && Directory(w, d) && !t[d].cached && IsListing(listing, Dir(w, d))
      requires Calm(drv, mem)
      modifies this`t, this`next, this`u, this`w, drv, mem
      ensures Valid() && u == old(u).(numfd := u.numfd) && d in t && w.fs == old(w.fs)
      ensures t[d].cached <==> status == 0 && seek0 == |listing| + 2 && forall n | n in Dir(w, d) :: HasKid(w, d, n)
      ensures t[d].cached ==> t[d].positive == |Dir(w, d)|
      ensures Emitted(listing, seek0, seek, out) && drv.Valid() && mem.Valid()
      ensures drv.failed ==> status == -EIO
      ensures !drv.failed && mem.failed ==> status == -ENOMEM
      ensures !drv.failed && !mem.failed ==> Listed(listing, seek0, seek, size, out, status)
    {
      StillSelf(w);
      var pos, ok;
      status, seek, pos, out, ok := PutDots(seek0, size, listing);
      if !ok { return; }
      status, seek, out := Gather(d, seek0, seek, pos, size, out, listing, drv, mem);
      StillDir(old(w), w, d);
      EmittedBounds(listing, seek0, seek, out);
      if status == 0 { Settle(d, seek, listing); }
    }

    /** At the end of a listing: all entries are known if there are as many dentries. */
    method Settle(d: Id, seek: nat, ghost listing: seq<string>)
      requires Valid() && d in w.live && d in t && d != ROOT && !t[d].cached && IsListing(listing, Dir(w, d))
      requires seek >= |listing| + 2
      modifies this`t, this`w
      ensures Valid() && d in t && w.fs == old(w.fs)
      ensures t[d].cached <==> seek == |listing| + 2 && forall n | n in Dir(w, d) :: HasKid(w, d, n)
      ensures t[d].cached ==> t[d].positive == |Dir(w, d)|
    {
      ListingSize(listing, Dir(w, d));
      if t[d].positive >= |listing| { AllEntries(w, d); }
      if forall n | n in Dir(w, d) :: HasKid(w, d, n) { AllKnown(w, d); }
      if seek == t[d].positive + 2 {
        MarkCached(d);
        assert CompleteAt(w, d);
      }
    }

    /** The file system's part of a listing: each entry is given and remembered until the buffer is full or
        the driver fails. */
    method Gather(d: Id, ghost seek0: nat, seek1: nat, pos1: nat, size: nat, out1: seq<string>,
                  listing: seq<string>, drv: Answers, mem: Answers)
      returns (status: int, seek: nat, out: seq<string>)
      requires Valid() && d in w.live && d in t && !t[d].cached && IsListing(listing, Dir(w, d)) && Calm(drv, mem)
      requires seek1 >= 2 && Emitted(listing, seek0, seek1, out1) && pos1 <= DOTS && (pos1 == 0 <==> out1 == [])
      modifies this`t, this`next, this`u, this`w, drv, mem
      ensures Valid() && Still(old(w), w) && u == old(u).(numfd := u.numfd) && d in t && !t[d].cached
      ensures Emitted(listing, seek0, seek, out) && drv.Valid() && mem.Valid()
      ensures drv.failed ==> status == -EIO
      ensures !drv.failed && mem.failed ==> status == -ENOMEM
      ensures !drv.failed && !mem.failed ==> Listed(listing, seek0, seek, size, out, status)
    {
      StillSelf(w);
      status, seek, out := pos1, seek1, out1;
      var pos: nat, ok := pos1, true;
      while seek - 2 < |listing| && ok
        invariant Valid() && Still(old(w), w) && u == old(u).(numfd := u.numfd) && d in w.live && d in t && !t[d].cached
        invariant IsListing(listing, Dir(w, d)) && Giving(listing, seek0, seek, pos, out)
        invariant drv.Valid() && mem.Valid() && (ok ==> !drv.failed && !mem.failed && status == pos)
        invariant drv.failed ==> status == -EIO
        invariant !drv.failed && mem.failed ==> status == -ENOMEM
        invariant !ok && !drv.failed && !mem.failed ==> Full(listing, seek, pos, size, status)
        decreases |listing| - seek + 2, ok
      {
        ghost var before := w;
        status, seek, pos, out, ok := GiveNext(d, listing, seek0, seek, pos, size, out, drv, mem);
        StillTrans(old(w), before, w);
      }
      EmittedBounds(listing, seek0, seek, out);
      if drv.failed { return; }
      var answer := drv.Ask();
      if !answer { status := -EIO; }
    }

    method GiveNext(d: Id, listing: seq<string>, ghost seek0: nat, seek1: nat, pos1: nat, size: nat,
                    out1: seq<string>, drv: Answers, mem: Answers)
      returns (status: int, seek: nat, pos: nat, out: seq<string>, ok: bool)
      requires Valid() && d in w.live && d in t && !t[d].cached && IsListing(listing, Dir(w, d)) && Calm(drv, mem)
      requires Giving(listing, seek0, seek1, pos1, out1) && seek1 < |listing| + 2
      modifies this`t, this`next, this`u, this`w, drv, mem
      ensures Valid() && Still(old(w), w) && u == old(u).(numfd := u.numfd) && d in t && !t[d].cached
      ensures IsListing(listing, Dir(w, d)) && Giving(listing, seek0, seek, pos, out)
      ensures drv.Valid() && mem.Valid() && (ok ==> !drv.failed && !mem.failed && status == pos && seek == seek1 + 1)
      ensures seek >= seek1 && (drv.failed ==> status == -EIO)
      ensures !drv.failed && mem.failed ==> status == -ENOMEM
      ensures !ok && !drv.failed && !mem.failed ==> Full(listing, seek, pos, size, status)
    {
      StillSelf(w);
      var answer := drv.Ask();
      if !answer { return -EIO, seek1, pos1, out1, false; }
      GivingMore(listing, seek0, seek1, pos1, size, out1);
      status, seek, pos, out, ok := GiveAndRemember(d, listing[seek1 - 2], seek1, pos1, size, out1, mem);
      StillDir(old(w), w, d);
    }

    /** vfs_put_dirent. */
    method GiveAndRemember(d: Id, name: string, seek0: nat, pos0: nat, size: nat, out0: seq<string>, mem: Answers)
      returns (status: int, seek: nat, pos: nat, out: seq<string>, ok: bool)
      requires Valid() && d in w.live && d in t && !t[d].cached && name in Dir(w, d) && mem.Valid() && !mem.failed
      modifies this`t, this`next, this`u, this`w, mem
      ensures Valid() && Still(old(w), w) && u == old(u).(numfd := u.numfd) && d in t && !t[d].cached
      ensures mem.Valid() && (ok <==> pos0 + 5 + |name| < size && !mem.failed) && (ok ==> HasKid(w, d, name))
      ensures status == if ok then pos else if mem.failed then -ENOMEM else if pos0 == 0 then -EINVAL else pos0
      ensures if ok || mem.failed then seek == seek0 + 1 && pos == pos0 + 5 + |name| && out == out0 + [name]
              else seek == seek0 && pos == pos0 && out == out0
    {
      StillSelf(w);
      status, seek, pos, out, ok := Put(name, seek0, pos0, size, out0);
      if ok {
        ok := Remember(d, name, mem);
        if !ok { status := -ENOMEM; }
      }
    }

    /** vfs_put_dirent, its part for the cache. */
    method Remember(d: Id, name: string, mem: Answers) returns (ok: bool)
      requires Valid() && d in w.live && d in t && name in Dir(w, d) && mem.Valid() && !mem.failed
      modifies this`t, this`next, this`u, this`w, mem
      ensures Valid() && Still(old(w), w) && u == old(u).(numfd := u.numfd) && d in t && t[d].cached == old(t)[d].cached
      ensures mem.Valid() && (ok <==> !mem.failed) && (ok ==> HasKid(w, d, name))
    {
      StillSelf(w);
      var found, c := FindKid(d, name);
      ok := true;
      if !found {
        ok := mem.Ask();
        if ok { c := Append(d, name, Some(fs[t[d].inode.value.ino][name])); }
      }
    }

    method MarkCached(d: Id)
      requires Valid() && d in w.live && d in t && forall n | n in Dir(w, d) :: HasKid(w, d, n)
      modifies this`t, this`w
      ensures Valid() && d in t && t == old(t)[d := old(t)[d].(cached := true)] && w == old(w).(t := t)
    {
      t := t[d := t[d].(cached := true)];
      w := w.(t := t);
      CachedKeeps(old(w), d, w);
      forall f | f in u.files ensures Held(w, u.files[f]) { assert FileAt(old(w), u, f); }
      forall p | p in u.cwds ensures Held(w, u.cwds[p]) { assert CwdAt(old(w), u, p); }
      TreeChange(old(w), w, u);
    }

    /** vfs_readdir on a cached directory: the two dots and the names of its positive dentries, which are the
        entries of the directory, each once; without those listed before, and as far as they fit. */
    method ListCached(d: Id, seek0: nat, size: nat) returns (status: int, seek: nat, out: seq<string>)
      requires Valid() && d in w.live && d in t && d != ROOT && t[d].cached
      ensures var all := Positives(t, t[d].kids, |t[d].kids|);
              && IsListing(all, Dir(w, d)) && Emitted(all, seek0, seek, out)
              && (status == 0 <==> seek0 >= |all| + 2)
              && (status == -EINVAL <==> seek0 < |all| + 2 && out == [])
              && (Fits(w, d, size) && seek0 <= |all| + 2 ==> seek == |all| + 2)
    {
      assert TreeAt(w, d);
      ghost var all := Positives(t, t[d].kids, |t[d].kids|);
      PositivesExact(w, d);
      var pos, ok;
      status, seek, pos, out, ok := PutDots(seek0, size, all);
      if !ok { return; }
      var i, skip := 0, seek - 2;
      while i < |t[d].kids| && skip > 0
        invariant 0 <= i <= |t[d].kids| && skip >= 0
        invariant skip + |Positives(t, t[d].kids, i)| == seek - 2
      {
        assert t[d].kids[i] in t[d].kids;
        if t[t[d].kids[i]].inode.Some? { skip := skip - 1; }
        i := i + 1;
      }
      status, seek, out := Emit(t, t[d].kids, i, seek0, seek, pos, size, out, all);
    }

    /** A mounted file system and a cache that knows nothing of it yet. */
    constructor (name: string, top: nat, fs: Fs, ghost home: map<nat, (nat, string)>)
      requires top in fs && top !in home
      requires forall p, n | p in fs && n in fs[p] && fs[p][n].dir ::
                 fs[p][n].ino in fs && fs[p][n].ino in home && home[fs[p][n].ino] == (p, n)
      ensures Valid() && this.fs == fs && w.home == home && mounts == map[name := 1] && Held(w, ROOT)
    {
      t := map[ROOT := Dentry("", ROOT, [], 0, 0, false, Some(Ent(0, true)), ROOT),
               1 := Dentry(name, ROOT, [], 0, 0, false, Some(Ent(top, true)), 1)];
      this.fs, mounts, next := fs, map[name := 1], 2;
      u := Users(map[ROOT := 0, 1 := 0], map[], map[], map[], map[]);
      w := World(t, fs, mounts, {ROOT, 1}, map[ROOT := 0, 1 := 1], map[top := 1], home);
      new;
      assert w.mounts[name] == 1 && IsMount(w, 1);
      forall x | x in w.live ensures TreeAt(w, x) && NamesAt(w, x) && CoherentAt(w, x) { }
      forall x | x in w.live ensures CountedAt(w, x) && CompleteAt(w, x) && InodeAt(w, x) && PlacedAt(w, x) { }
      forall p, n ensures EntryAt(w, p, n) { }
      forall x | IsMount(w, x) ensures MountAt(w, x) { }
      forall x | x in w.live ensures CountAt(u, x) { UsesNone(u.files, x); UsesNone(u.cwds, x); }
    }

    /** Any sequence of calls by any processes, each from the top or from its working directory, and with
        any failures: the cache always agrees with the file system and the counters with their users. */
    method Run(calls: seq<Call>, driver: nat -> nat -> bool, memory: nat -> nat -> bool)
      requires Valid()
      modifies this
      ensures Valid()
    {
      var i := 0;
      while i < |calls|
        invariant Valid()
      {
        var drv := new Answers(driver(i));
        var mem := new Answers(memory(i));
        Perform(calls[i], drv, mem);
        i := i + 1;
      }
    }

    method Perform(c: Call, drv: Answers, mem: Answers)
      requires Valid() && Calm(drv, mem)
      modifies this, drv, mem
      ensures Valid()
    {
      if c.p !in u.cwds { return; }
      assert CwdAt(w, u, c.p) && TreeAt(w, ROOT);
      var start := if c.absolute then ROOT else u.cwds[c.p];
      match c {
        case Making(_, _, parts, e, supported) =>
          if e.ino !in fs { var _, _ := Create(start, parts, e, supported, drv, mem); }
        case Removing(_, _, parts, rmdir, supported) => var _, _, _ := Remove(start, parts, rmdir, supported, drv, mem);
        case Renaming(_, _, parts, again, parts', supported) =>
          var start' := if again then ROOT else u.cwds[c.p];
          var _, _, _ := Rename(start, parts, start', parts', supported, drv, mem);
        case Opening(_, _, parts, flags, ops, e, f, k) =>
          if e.ino !in fs && !e.dir && f !in u.files && (c.p, k) !in u.fds {
            var _, _ := Open(start, parts, flags, ops, e, f, (c.p, k), drv, mem);
          }
        case Closing(_, _, k) => var _ := Close((c.p, k), drv);
        case Moving(_, _, parts) => var _ := Chdir(c.p, start, parts, drv, mem);
        case Listing(_, _, k, seek, size, listing) =>
          if (c.p, k) in u.fds { List(u.fds[(c.p, k)], seek, size, listing, drv, mem); }
        case Forking(_, _, child) => if child !in u.cwds { Begin(child, u.cwds[c.p]); }
        case Sharing(_, _, k, child, k') =>
          if (c.p, k) in u.fds && (child, k') !in u.fds { Clone((c.p, k), (child, k')); }
        case Ending(_, _) => End(c.p);
      }
    }

    /** vfs_readdir on an open file, if it is a directory other than the top. */
    method List(f: nat, seek: nat, size: nat, listing: seq<string>, drv: Answers, mem: Answers)
      requires Valid() && f in u.fds.Values && Calm(drv, mem)
      modifies this`t, this`next, this`u, this`w, drv, mem
      ensures Valid()
    {
      ghost var k :| k in u.fds && u.fds[k] == f;
      assert FdAt(u, k) && FileAt(w, u, f);
      var d := u.files[f];
      assert InodeAt(w, d);
      if d == ROOT || !t[d].inode.value.dir { return; }
      if t[d].cached {
        var _, _, _ := ListCached(d, seek, size);
      } else if IsListing(listing, fs[t[d].inode.value.ino]) {
        var _, _, _ := Readdir(d, seek, size, listing, drv, mem);
      }
    }
  }
}
