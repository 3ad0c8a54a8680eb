/** Reading and writing the bytes of a file through its block map (ext2_read, ext2_write). */
module FileData {
  import opened Arith
  import opened BlockDist
  import opened BlockTree
  import opened Environment
  import opened Prelude

  type Bytes = seq<bv8>
  type Blocks = seq<Bytes>

  // ----- a file as a sequence of bytes

  /** A data block is where the map says. */
  ghost predicate StoredAt(s: nat, g: Names, disk: map<nat, Bytes>, data: Blocks, o: nat)
    requires s >= 1 && o < |data|
  {
    var x := PathOf(s, o);
    x in g && g[x] in disk && disk[g[x]] == data[o]
  }

  /** The data blocks of a file, in order. */
  ghost predicate Stored(s: nat, g: Names, disk: map<nat, Bytes>, data: Blocks)
    requires s >= 1
  {
    forall o: nat {:trigger StoredAt(s, g, disk, data, o)} | o < |data| :: StoredAt(s, g, disk, data, o)
  }

  ghost predicate Even(view: Blocks, bs: nat) { forall o | 0 <= o < |view| :: |view[o]| == bs }

  /** Byte `k` is in block k / bs at k % bs. */
  ghost function ByteAt(view: Blocks, bs: nat, k: nat): bv8
    requires bs >= 1
  {
    var o, r := Quot(k, bs), Rem(k, bs);
    if o < |view| && r < |view[o]| then view[o][r] else 0
  }

  ghost function Bytes0(view: Blocks, bs: nat, size: nat): Bytes
    requires bs >= 1
  {
    seq(size, k requires 0 <= k < size => ByteAt(view, bs, k))
  }

  lemma ByteIs(view: Blocks, bs: nat, o: nat, r: nat)
    requires bs >= 1 && Even(view, bs) && o < |view| && r < bs
    ensures ByteAt(view, bs, Times(o, bs) + r) == view[o][r]
  {
    TimesIsMul(o, bs);
    QuotUnique(Times(o, bs) + r, bs, o, r);
  }

  /** What byte r of block o must be once the file has been written from `seek` up to `pos`. */
  ghost predicate ByteOk(view: Blocks, was: Blocks, buf: Bytes, seek: nat, pos: nat, size: nat, bs: nat, o: nat, r: nat)
    requires o < |view| == |was| && r < |view[o]| && r < |was[o]| && pos <= seek + |buf|
  {
    var k := Times(o, bs) + r;
    if seek <= k < pos then view[o][r] == buf[k - seek] else k < size ==> view[o][r] == was[o][r]
  }

  ghost predicate Matches(view: Blocks, was: Blocks, buf: Bytes, seek: nat, pos: nat, size: nat, bs: nat) {
    && |view| == |was| && Even(view, bs) && Even(was, bs) && pos <= seek + |buf|
    && forall o: nat, r: nat {:trigger ByteOk(view, was, buf, seek, pos, size, bs, o, r)} | o < |view| && r < bs ::
         ByteOk(view, was, buf, seek, pos, size, bs, o, r)
  }

  /** A new block that holds the next bytes at a..b and, elsewhere, what was there or lies past the end. */
  ghost predicate Merged(nb: Bytes, ob: Bytes, buf: Bytes, seek: nat, size: nat, bs: nat, o: nat, a: nat, b: nat) {
    && |nb| == |ob| == bs && a <= b <= bs && seek <= Times(o, bs) + a && Times(o, bs) + b <= seek + |buf|
    && (forall r | a <= r < b :: nb[r] == buf[Times(o, bs) + r - seek])
    && (forall r | 0 <= r < bs && !(a <= r < b) :: nb[r] == ob[r] || Times(o, bs) + r >= size)
  }

  lemma StepByte(view: Blocks, was: Blocks, buf: Bytes, seek: nat, size: nat, bs: nat,
                 o: nat, a: nat, b: nat, nb: Bytes, o': nat, r: nat)
    requires Even(view, bs) && Even(was, bs) && |view| == |was| && o < |view| && o' < |view| && r < bs
    requires Merged(nb, view[o], buf, seek, size, bs, o, a, b)
    requires a == 0 || seek == Times(o, bs) + a
    requires ByteOk(view, was, buf, seek, Times(o, bs) + a, size, bs, o', r)
    ensures ByteOk(view[o := nb], was, buf, seek, Times(o, bs) + b, size, bs, o', r)
  {
    if o' < o { TimesMono(o', o, bs); } else if o < o' { TimesMono(o, o', bs); }
  }

  lemma StepMatches(view: Blocks, was: Blocks, buf: Bytes, seek: nat, size: nat, bs: nat,
                    o: nat, a: nat, b: nat, nb: Bytes)
    requires o < |view| && Matches(view, was, buf, seek, Times(o, bs) + a, size, bs)
    requires Merged(nb, view[o], buf, seek, size, bs, o, a, b) && (a == 0 || seek == Times(o, bs) + a)
    ensures Matches(view[o := nb], was, buf, seek, Times(o, bs) + b, size, bs)
  {
    var view', pos' := view[o := nb], Times(o, bs) + b;
    forall o': nat, r: nat | o' < |view| && r < bs
      ensures ByteOk(view', was, buf, seek, pos', size, bs, o', r)
    {
      assert ByteOk(view, was, buf, seek, Times(o, bs) + a, size, bs, o', r);
      StepByte(view, was, buf, seek, size, bs, o, a, b, nb, o', r);
    }
  }

  /** `now` is `buf` at `seek` and the old bytes around it; between an old end and a later `seek` it is anything. */
  ghost predicate LaidOver(now: Bytes, was: Bytes, seek: nat, buf: Bytes)
  {
    forall k | 0 <= k < |now| ::
      if seek <= k < seek + |buf| then now[k] == buf[k - seek] else k < |was| ==> now[k] == was[k]
  }

  /** The old bytes with `buf` laid over them at `seek`. */
  ghost function Overlaid(was: Bytes, seek: nat, buf: Bytes): Bytes
    requires seek <= |was|
  {
    was[..seek] + buf + if seek + |buf| < |was| then was[seek + |buf|..] else []
  }

  /** Within the file this leaves nothing open. */
  lemma LaidWithin(now: Bytes, was: Bytes, seek: nat, buf: Bytes)
    requires seek <= |was| && LaidOver(now, was, seek, buf)
    requires |now| == if seek + |buf| > |was| then seek + |buf| else |was|
    ensures now == Overlaid(was, seek, buf)
  {
  }

  lemma MatchesByte(view: Blocks, was: Blocks, buf: Bytes, seek: nat, pos: nat, size: nat, bs: nat, k: nat)
    requires bs >= 1 && k < Times(|view|, bs) && Matches(view, was, buf, seek, pos, size, bs)
    ensures seek <= k < pos ==> ByteAt(view, bs, k) == buf[k - seek]
    ensures !(seek <= k < pos) && k < size ==> ByteAt(view, bs, k) == ByteAt(was, bs, k)
  {
    var o, r := Quot(k, bs), Rem(k, bs);
    QuotRem(k, bs);
    TimesIsMul(o, bs);
    if o >= |view| { TimesMono(|view|, o, bs); }
    assert ByteOk(view, was, buf, seek, pos, size, bs, o, r);
  }

  /** The bytes of a file of `size'` bytes after `done` bytes have been written. */
  lemma MatchesAll(view: Blocks, was: Blocks, buf: Bytes, seek: nat, done: nat, size: nat, bs: nat, size': nat)
    requires bs >= 1 && size' <= Times(|view|, bs) && done <= |buf|
    requires Matches(view, was, buf, seek, seek + done, size, bs)
    ensures LaidOver(Bytes0(view, bs, size'), Bytes0(was, bs, size), seek, buf[..done])
  {
    forall k | 0 <= k < size'
      ensures seek <= k < seek + done ==> ByteAt(view, bs, k) == buf[..done][k - seek]
      ensures !(seek <= k < seek + done) && k < size ==> ByteAt(view, bs, k) == ByteAt(was, bs, k)
    {
      MatchesByte(view, was, buf, seek, seek + done, size, bs, k);
    }
  }

  lemma MatchesSelf(data: Blocks, buf: Bytes, seek: nat, size: nat, bs: nat)
    requires Even(data, bs)
    ensures Matches(data, data, buf, seek, seek, size, bs)
  {
  }

  /** What holds of a grown file holds of the blocks it had before. */
  lemma MatchesBefore(view: Blocks, was: Blocks, buf: Bytes, seek: nat, pos: nat, size: nat, bs: nat,
                      view': Blocks, was': Blocks)
    requires Matches(view, was, buf, seek, pos, size, bs)
    requires was' <= was && |view'| == |was'| && view' == view[..|was'|]
    ensures Matches(view', was', buf, seek, pos, size, bs)
  {
    forall o: nat, r: nat | o < |view'| && r < bs
      ensures ByteOk(view', was', buf, seek, pos, size, bs, o, r)
    {
      assert ByteOk(view, was, buf, seek, pos, size, bs, o, r);
    }
  }

  // ----- block writes

  /** The blocks of a grown file that it had before are where the old map says. */
  lemma StoredBefore(s: nat, g: Names, g': Names, disk: map<nat, Bytes>, data: Blocks, data0: Blocks, kept: Blocks)
    requires s >= 1 && Stored(s, g', disk, data) && Kept(g, g') && |data0| <= |data| && kept == data[..|data0|]
    requires |data0| <= Max(s) && Filled(s, g, |data0|)
    ensures Stored(s, g, disk, kept)
  {
    forall o: nat | o < |kept|
      ensures StoredAt(s, g, disk, kept, o)
    {
      FilledPath(s, g, |data0|, o);
      assert StoredAt(s, g', disk, data, o);
    }
  }

  lemma StillOnDisk(blocks: set<nat>, disk: map<nat, Bytes>, disk': map<nat, Bytes>, mine: set<nat>, bs: nat)
    requires OnDisk(blocks, disk, bs) && OnDisk(mine, disk', bs) && SameElsewhere(disk, disk', mine)
    ensures OnDisk(blocks, disk', bs)
  {
  }

  /** Writing the block at one offset changes that block of the file and no other. */
  lemma StoredPut(s: nat, g: Names, owner: map<nat, Slot>, disk: map<nat, Bytes>, data: Blocks, o: nat, b: nat,
      nb: Bytes)
    requires s >= 1 && |data| <= Max(s) && Filled(s, g, |data|) && Owned(g, owner) && o < |data|
    requires Stored(s, g, disk, data) && PathOf(s, o) in g && b == g[PathOf(s, o)]
    ensures Stored(s, g, disk[b := nb], data[o := nb])
  {
    var disk', data' := disk[b := nb], data[o := nb];
    forall o': nat | o' < |data'|
      ensures StoredAt(s, g, disk', data', o')
    {
      assert StoredAt(s, g, disk, data, o');
      if o' != o { TotalInjective(s, g, owner, |data|, o, o'); }
    }
  }

  /** What is kept of a file beside its data: the inode with its pointer blocks, and the free blocks of the
      volume. */
  datatype Meta = Meta(block: seq<nat>, ptrs: map<nat, seq<nat>>, total: nat, size: nat, free: set<nat>)

  /** A file on a volume. An operation sees and changes `inode`, `bm` and `size` through its cache; the disk has
      `meta` until the operation has succeeded. Data blocks are not cached. */
  class File {
    const bs: nat
    const inode: FileMap
    const bm: Bitmap
    var size: nat
    var blkbuf: Bytes
    var disk: map<nat, Bytes>
    var meta: Meta
    /** The contents of its data blocks. */
    ghost var data: Blocks
    /** The tree that the pointers on the disk make, and the use of each block. */
    ghost var tree: Names
    ghost var users: map<nat, Slot>

    /** What the running operation sees. */
    function View(): Meta
      reads this, inode, bm
    {
      Meta(inode.block, inode.ptrs, inode.total, size, bm.free)
    }

    /** Between operations that is what the disk has. */
    ghost predicate Synced()
      reads this, inode, bm
    {
      View() == meta && inode.g == tree && inode.owner == users
    }

    ghost predicate Valid()
      reads this, inode, bm
    {
      && inode.Valid() && inode.Leafy() && !inode.create && inode.dbCount == 0 && inode.ibCount == 0
      && bs == 4 * inode.s && |blkbuf| == bs && Even(data, bs)
      && |data| <= Max(inode.s) && Filled(inode.s, inode.g, |data|) && inode.total == |data| + Needed(inode.s, |data|)
      && inode.Shares(bm.free, bm.free, inode.owner)
      && OnDisk(inode.stock, disk, bs) && OnDisk(bm.free, disk, bs) && Stored(inode.s, inode.g, disk, data)
      && size <= Times(|data|, bs)
    }

    /** What the file says. */
    ghost function Contents(): Bytes
      requires Valid()
      reads this, inode, bm
    {
      Bytes0(data, bs, size)
    }

    /** An empty file on a volume. */
    constructor (s: nat, disk: map<nat, Bytes>, free: set<nat>, blkbuf: Bytes)
      requires s >= 1 && 0 !in free && OnDisk(free, disk, 4 * s) && |blkbuf| == 4 * s
      ensures Valid() && Synced() && Contents() == [] && bs == 4 * s && data == []
    {
      bs := 4 * s;
      inode := new FileMap(s);
      bm := new Bitmap(free);
      this.disk, size, data := disk, 0, [];
      this.blkbuf := blkbuf;
      new;
      assert inode.stock == {};
      meta, tree, users := View(), inode.g, inode.owner;
    }

    /** One block: find it, read it if asked to, lay the new bytes over it and write it. */
    method PutBlock(dev: Answers, o: nat, a: nat, chunk: Bytes, read: bool) returns (status: int)
      requires dev.Valid() && !dev.failed
      requires Valid() && o < |data| && a + |chunk| <= bs
      modifies this`disk, this`blkbuf, this`data, inode`ptrIdent, inode`ptrIndex, inode`ptrBlock, dev
      ensures dev.Valid() && (status < 0 <==> dev.failed)
      ensures Valid() && status <= 0 && |data| == |old(data)|
      ensures status == 0 ==> data == old(data)[o := blkbuf]
      ensures status < 0 ==> data == old(data)
      ensures status == 0 ==> Laid(blkbuf, old(data)[o], a, chunk, read, bs)
      ensures SameElsewhere(old(disk), disk, inode.stock)
    {
      var b := inode.GetBlock(dev, o, |data|);
      if b == 0 {
        inode.ptrIdent := 0;
        return -EIO;
      }
      status := Rewrite(dev, o, b, a, chunk, read);
    }

    method Rewrite(dev: Answers, o: nat, b: nat, a: nat, chunk: Bytes, read: bool) returns (status: int)
      requires dev.Valid() && !dev.failed
      requires Valid() && o < |data| && a + |chunk| <= bs && PathOf(inode.s, o) in inode.g
      requires b == inode.g[PathOf(inode.s, o)]
      modifies this`disk, this`blkbuf, this`data, dev
      ensures dev.Valid() && (status < 0 <==> dev.failed)
      ensures Valid() && status <= 0
      ensures status == 0 ==> data == old(data)[o := blkbuf] && Laid(blkbuf, old(data)[o], a, chunk, read, bs)
      ensures status < 0 ==> data == old(data)
      ensures SameElsewhere(old(disk), disk, inode.stock)
    {
      assert StoredAt(inode.s, inode.g, disk, data, o);
      var ok;
      if read {
        ok := dev.Ask();
        if !ok { return -EIO; }
        blkbuf := disk[b];
      }
      blkbuf := LayOver(blkbuf, a, chunk);
      ok := dev.Ask();
      if !ok { return -EIO; }
      WriteDirect(o, b);
      status := 0;
    }

    /** ext2_write_direct on the block at an offset. */
    method WriteDirect(o: nat, b: nat)
      requires Valid() && o < |data| && PathOf(inode.s, o) in inode.g && b == inode.g[PathOf(inode.s, o)]
      modifies this`disk, this`data
      ensures Valid() && data == old(data)[o := blkbuf]
      ensures SameElsewhere(old(disk), disk, inode.stock)
    {
      StoredPut(inode.s, inode.g, inode.owner, disk, data, o, b, blkbuf);
      assert b in inode.owner && b in inode.stock;
      disk, data := disk[b := blkbuf], data[o := blkbuf];
    }

    /** The first `done` bytes of `buf` are in the blocks, which were `was` before, and no block of another
        file has changed since the disk was `disk0`. */
    ghost predicate Going(was: Blocks, buf: Bytes, seek: nat, done: nat, disk0: map<nat, Bytes>)
      reads this, inode, bm
    {
      && Valid() && |data| == |was| && Matches(data, was, buf, seek, seek + done, size, bs)
      && SameElsewhere(disk0, disk, inode.stock)
    }

    /** Write the bytes of `buf` that fall in block `o`, from position `a` of it. */
    method PutPart(dev: Answers, o: nat, a: nat, len: nat, read: bool, buf: Bytes, seek: nat, from: nat,
                   ghost was: Blocks, ghost disk0: map<nat, Bytes>)
      returns (status: int)
      requires dev.Valid() && !dev.failed
      requires Going(was, buf, seek, from, disk0)
      requires o < |data| && a + len <= bs && from + len <= |buf| && seek + from == Times(o, bs) + a
      requires (a == 0 || from == 0) && (!read ==> a == 0 && (len == bs || Times(o, bs) >= size))
      modifies this`disk, this`blkbuf, this`data, inode`ptrIdent, inode`ptrIndex, inode`ptrBlock, dev
      ensures dev.Valid() && (status < 0 <==> dev.failed)
      ensures status <= 0 && Going(was, buf, seek, if status == 0 then from + len else from, disk0)
    {
      ghost var view, before := data, disk;
      var chunk := Sub(buf, from, from + len);
      status := PutBlock(dev, o, a, chunk, read);
      SameTrans(disk0, before, disk, inode.stock);
      if status == 0 { PartMatches(view, was, buf, seek, size, bs, o, a, chunk, read, from, blkbuf); }
    }

    /** The loop over whole blocks. */
    method PutWhole(dev: Answers, start: nat, whole: nat, buf: Bytes, seek: nat, at: nat,
                    ghost was: Blocks, ghost disk0: map<nat, Bytes>)
      returns (status: int, offset: nat, from: nat)
      requires dev.Valid() && !dev.failed
      requires Going(was, buf, seek, at, disk0) && start + whole <= |data|
      requires at + Times(whole, bs) <= |buf| && (whole > 0 ==> seek + at == Times(start, bs))
      modifies this`disk, this`blkbuf, this`data, inode`ptrIdent, inode`ptrIndex, inode`ptrBlock, dev
      ensures dev.Valid() && (status < 0 <==> dev.failed)
      ensures status <= 0 && from <= |buf| && Going(was, buf, seek, from, disk0)
      ensures status == 0 ==> offset == start + whole && from == at + Times(whole, bs)
    {
      status, offset, from := 0, start, at;
      var left := whole;
      while left > 0
        invariant dev.Valid() && !dev.failed
        invariant 0 <= left <= whole && status == 0 && offset + left == start + whole
        invariant from + Times(left, bs) == at + Times(whole, bs) && (whole > 0 ==> seek + from == Times(offset, bs))
        invariant from <= |buf| && Going(was, buf, seek, from, disk0)
        decreases left
      {
        status := PutPart(dev, offset, 0, bs, false, buf, seek, from, was, disk0);
        if status < 0 { return; }
        offset, from, left := offset + 1, from + bs, left - 1;
      }
    }

    /** The part of a range in its first block, the whole blocks, and the part in the last. */
    method SplitRange(seek: nat, len: nat) returns (offset: nat, fstart: nat, fsize: nat, whole: nat, esize: nat)
      requires bs >= 1
      ensures Ranged(bs, seek, len, offset, fstart, fsize, whole, esize)
    {
      fsize := 0;
      offset, fstart := DivMod(seek, bs);
      if fstart != 0 {
        fsize := bs - fstart;
        if len < fsize { fsize := len; }
      }
      whole, esize := DivMod(len - fsize, bs);
    }

    /** The three steps of ext2_write, once there are enough blocks. */
    method PutAll(dev: Answers, seek: nat, buf: Bytes) returns (status: int, ghost done: nat)
      requires dev.Valid() && !dev.failed
      requires Valid() && seek + |buf| <= Times(|data|, bs)
      modifies this`disk, this`blkbuf, this`data, inode`ptrIdent, inode`ptrIndex, inode`ptrBlock, dev
      ensures dev.Valid() && (status < 0 <==> dev.failed)
      ensures status <= 0 && done <= |buf| && (status == 0 ==> done == |buf|)
      ensures Going(old(data), buf, seek, done, old(disk))
    {
      var offset, fstart, fsize, whole, esize := SplitRange(seek, |buf|);
      ghost var was, disk0 := data, disk;
      RangeFits(bs, seek, |buf|, offset, fstart, fsize, whole, esize, |data|);
      MatchesSelf(data, buf, seek, size, bs);
      done := 0;
      status := PutFirst(dev, offset, fstart, fsize, buf, seek, was, disk0);
      if status < 0 { return; }
      if fsize > 0 { offset := offset + 1; }
      status, done := PutRest(dev, offset, whole, esize, buf, seek, fsize, was, disk0);
    }

    /** The part of the first block, if the range does not begin with a block. */
    method PutFirst(dev: Answers, offset: nat, fstart: nat, fsize: nat, buf: Bytes, seek: nat,
                    ghost was: Blocks, ghost disk0: map<nat, Bytes>)
      returns (status: int)
      requires dev.Valid() && !dev.failed
      requires Going(was, buf, seek, 0, disk0) && fsize <= |buf|
      requires fsize > 0 ==> offset < |data| && fstart + fsize <= bs && seek == Times(offset, bs) + fstart
      modifies this`disk, this`blkbuf, this`data, inode`ptrIdent, inode`ptrIndex, inode`ptrBlock, dev
      ensures dev.Valid() && (status < 0 <==> dev.failed)
      ensures status <= 0 && Going(was, buf, seek, if status == 0 then fsize else 0, disk0)
    {
      status := 0;
      if fsize > 0 { status := PutPart(dev, offset, fstart, fsize, true, buf, seek, 0, was, disk0); }
    }

    /** The whole blocks and the last part; the last block is read first unless it lies past the old end. */
    method PutRest(dev: Answers, start: nat, whole: nat, esize: nat, buf: Bytes, seek: nat, at: nat,
                   ghost was: Blocks, ghost disk0: map<nat, Bytes>)
      returns (status: int, ghost done: nat)
      requires dev.Valid() && !dev.failed
      requires Going(was, buf, seek, at, disk0)
      requires start + whole <= |data| && (esize > 0 ==> start + whole < |data|) && esize < bs
      requires at + Times(whole, bs) + esize == |buf| && (whole > 0 || esize > 0 ==> seek + at == Times(start, bs))
      requires esize > 0 ==> seek + |buf| - esize == Times(start + whole, bs)
      modifies this`disk, this`blkbuf, this`data, inode`ptrIdent, inode`ptrIndex, inode`ptrBlock, dev
      ensures dev.Valid() && (status < 0 <==> dev.failed)
      ensures status <= 0 && done <= |buf| && (status == 0 ==> done == |buf|)
      ensures Going(was, buf, seek, done, disk0)
    {
      var offset, from;
      status, offset, from := PutWhole(dev, start, whole, buf, seek, at, was, disk0);
      done := from;
      if status < 0 { return; }
      if esize > 0 {
        var read := seek + |buf| - esize < size;
        status := PutPart(dev, offset, 0, esize, read, buf, seek, from, was, disk0);
        if status == 0 { done := |buf|; }
      }
    }

    method BlocksFor(nsize: nat, ghost n: nat, ghost max: nat) returns (nblks: nat)
      requires bs >= 1 && Times(n, bs) < nsize <= Times(max, bs)
      ensures nsize <= Times(nblks, bs) && n < nblks <= max
    {
      nblks := (nsize + bs - 1) / bs;
      RoundUp(nsize, bs, nblks, n, max);
    }

    /** Grow the block map for `nsize` bytes. */
    method Extend(dev: Answers, nsize: nat) returns (status: int)
      requires dev.Valid() && !dev.failed
      requires Valid() && Reversible(inode.s, |data|) && Times(|data|, bs) < nsize <= Times(Max(inode.s), bs)
      modifies this`data, inode, bm, dev
      ensures dev.Valid() && (status == 0 <==> !dev.failed && EnoughFound(bm.log, |old(bm.log)|))
      ensures status == 0 ==> Valid() && nsize <= Times(|data|, bs) && old(data) <= data
      ensures status == 0 ==> inode.stock <= old(inode.stock) + old(bm.free) && Kept(old(inode.g), inode.g)
      ensures status <= 0 && (status < 0 ==> data == old(data))
    {
      var nblks := BlocksFor(nsize, |data|, Max(inode.s));
      ghost var n, owner0, free0, stock0 := |data|, inode.owner, bm.free, inode.stock;
      status := inode.Expand(dev, bm, nblks, n);
      if status != 0 { return; }
      data := Extended(inode.s, inode.g, disk, data, nblks);
      GrownOnDisk(inode.stock, owner0, free0, stock0, disk, bs);
      StoredMore(inode.s, old(inode.g), inode.g, inode.owner, inode.stock, disk, old(data), data, bs);
    }

    /** ext2_write, which may stop anywhere. `kept` is what is then in the blocks the file had before. */
    method TryWrite(dev: Answers, seek: nat, buf: Bytes) returns (status: int, ghost done: nat, ghost kept: Blocks)
      requires dev.Valid() && !dev.failed
      requires Valid() && Reversible(inode.s, |data|) && seek + |buf| <= Times(Max(inode.s), bs)
      modifies this`size, this`blkbuf, this`disk, this`data, inode, bm, dev
      ensures dev.Valid() && (status >= 0 <==> !dev.failed && EnoughFound(bm.log, |old(bm.log)|))
      ensures status >= 0 ==> Valid() && status == |buf| && LaidOver(Contents(), old(Contents()), seek, buf)
      ensures status >= 0 ==> size == if seek + |buf| > old(size) then seek + |buf| else old(size)
      ensures status < 0 ==> size == old(size) && |blkbuf| == bs && done <= |buf|
      ensures status < 0 ==> Stored(inode.s, old(inode.g), disk, kept)
      ensures status < 0 ==> Matches(kept, old(data), buf, seek, seek + done, size, bs)
      ensures status < 0 ==> OnDisk(old(inode.stock), disk, bs) && OnDisk(old(bm.free), disk, bs)
      ensures SameElsewhere(old(disk), disk, old(inode.stock) + old(bm.free))
    {
      ghost var stock0, free0, g0, data0 := inode.stock, bm.free, inode.g, data;
      var inum, dnum := BlocksDist(inode.s, inode.total, true);
      TimesIsMul(dnum, bs);
      var isize, nsize := dnum * bs, seek + |buf|;
      done, kept := 0, data;
      if nsize > isize {
        status := Extend(dev, nsize);
        if status < 0 {
          MatchesSelf(data0, buf, seek, size, bs);
          return;
        }
      }
      SamePrefix(data0, data, bs, size);
      status, done, kept := PutGrown(dev, seek, buf, g0, data0, stock0, free0);
    }

    /** The same once the file has its blocks; `g0`, `data0`, `stock0` and `free0` are from before it got them. */
    method PutGrown(dev: Answers, seek: nat, buf: Bytes, ghost g0: Names, ghost data0: Blocks, ghost stock0: set<nat>,
                    ghost free0: set<nat>)
      returns (status: int, ghost done: nat, ghost kept: Blocks)
      requires dev.Valid() && !dev.failed && Valid() && seek + |buf| <= Times(|data|, bs) && data0 <= data
      requires Kept(g0, inode.g) && |data0| <= Max(inode.s) && Filled(inode.s, g0, |data0|)
      requires inode.stock <= stock0 + free0 && OnDisk(stock0, disk, bs) && OnDisk(free0, disk, bs)
      modifies this`size, this`blkbuf, this`disk, this`data, inode`ptrIdent, inode`ptrIndex, inode`ptrBlock, dev
      ensures dev.Valid() && (status < 0 <==> dev.failed)
      ensures status >= 0 ==> Valid() && status == |buf|
      ensures status >= 0 ==> LaidOver(Contents(), Bytes0(old(data), bs, old(size)), seek, buf)
      ensures status >= 0 ==> size == if seek + |buf| > old(size) then seek + |buf| else old(size)
      ensures status < 0 ==> size == old(size) && |blkbuf| == bs && done <= |buf|
      ensures status < 0 ==> Stored(inode.s, g0, disk, kept) && Matches(kept, data0, buf, seek, seek + done, size, bs)
      ensures status < 0 ==> OnDisk(stock0, disk, bs) && OnDisk(free0, disk, bs)
      ensures SameElsewhere(old(disk), disk, stock0 + free0)
    {
      ghost var grown := data;
      kept := [];
      status, done := PutAll(dev, seek, buf);
      SameMore(old(disk), disk, inode.stock, stock0 + free0);
      if status < 0 {
        kept := data[..|data0|];
        StoredBefore(inode.s, g0, inode.g, disk, data, data0, kept);
        MatchesBefore(data, grown, buf, seek, seek + done, size, bs, kept, data0);
        StillOnDisk(stock0, old(disk), disk, inode.stock, bs);
        StillOnDisk(free0, old(disk), disk, inode.stock, bs);
        return;
      }
      SetSize(grown, seek, buf);
      status := |buf|;
    }

    /** All bytes are in place; the size follows. */
    method SetSize(ghost was: Blocks, seek: nat, buf: Bytes)
      requires Valid() && seek + |buf| <= Times(|data|, bs)
      requires Matches(data, was, buf, seek, seek + |buf|, size, bs)
      modifies this`size
      ensures Valid() && LaidOver(Contents(), Bytes0(was, bs, old(size)), seek, buf)
      ensures size == if seek + |buf| > old(size) then seek + |buf| else old(size)
    {
      var nsize := seek + |buf|;
      MatchesAll(data, was, buf, seek, |buf|, size, bs, if nsize > size then nsize else size);
      assert buf[..|buf|] == buf;
      if nsize > size { size := nsize; }
    }

    /** ext2fs_write: the bytes are laid over the old contents, and the file grows if they reach further.
        After an error the cache is thrown away: on the disk nothing but data blocks has been written, and some
        first part of the bytes is in those the file had before. Blocks of other files are untouched, whatever
        happens. */
    method Write(dev: Answers, seek: nat, buf: Bytes) returns (status: int, ghost done: nat)
      requires dev.Valid() && !dev.failed
      requires Valid() && Synced() && Reversible(inode.s, |data|) && seek + |buf| <= Times(Max(inode.s), bs)
      modifies this, inode, bm, dev
      ensures dev.Valid() && (status >= 0 <==> !dev.failed && EnoughFound(bm.log, |old(bm.log)|))
      ensures Valid() && Synced() && done <= |buf|
      ensures status >= 0 ==> status == |buf| && LaidOver(Contents(), old(Contents()), seek, buf)
      ensures status >= 0 ==> size == if seek + |buf| > old(size) then seek + |buf| else old(size)
      ensures status >= 0 && seek <= old(size) ==> Contents() == Overlaid(old(Contents()), seek, buf)
      ensures status < 0 ==> meta == old(meta) && |data| == |old(data)|
      ensures status < 0 ==> LaidOver(Contents(), old(Contents()), seek, buf[..done])
      ensures SameElsewhere(old(disk), disk, old(inode.stock) + old(bm.free))
    {
      ghost var data0 := data;
      ghost var kept: Blocks;
      assert users.Keys == inode.stock;
      status, done, kept := TryWrite(dev, seek, buf);
      if status < 0 {
        Discard(kept);
        MatchesAll(kept, data0, buf, seek, done, size, bs, size);
      } else {
        done := |buf|;
        Flush();
        if seek <= old(size) { LaidWithin(Contents(), old(Contents()), seek, buf); }
      }
    }

    /** ext2_ctx_free after an operation that went well. */
    method Flush()
      requires Valid()
      modifies this`meta, this`tree, this`users
      ensures Valid() && Synced()
    {
      meta, tree, users := View(), inode.g, inode.owner;
    }

    /** ext2_ctx_free after an error: the next operation begins with what the disk has. */
    method Discard(ghost kept: Blocks)
      requires inode.s >= 1 && bs == 4 * inode.s && |blkbuf| == bs && Whole(inode.s, meta.block, meta.ptrs, tree, users)
      requires |kept| <= Max(inode.s) && Filled(inode.s, tree, |kept|) && meta.total == |kept| + Needed(inode.s, |kept|)
      requires Even(kept, bs) && Stored(inode.s, tree, disk, kept) && meta.size <= Times(|kept|, bs)
      requires OnDisk(users.Keys, disk, bs) && OnDisk(meta.free, disk, bs)
      requires 0 !in meta.free && forall v | v in users :: v !in meta.free
      modifies this`size, this`data, inode, bm
      ensures Valid() && Synced() && data == kept && bm.log == old(bm.log)
    {
      inode.Load(meta.block, meta.ptrs, meta.total, tree, users, users.Keys);
      bm.free, size, data := meta.free, meta.size, kept;
    }

    /** Append part of a block to the bytes read. */
    method GetPart(dev: Answers, o: nat, a: nat, len: nat, out: Bytes, ghost seek: nat)
      returns (status: int, more: Bytes)
      requires dev.Valid() && !dev.failed
      requires Valid() && o < |data| && a + len <= bs && seek + |out| == Times(o, bs) + a && Seen(out, data, bs, seek)
      modifies this`blkbuf, inode`ptrIdent, inode`ptrIndex, inode`ptrBlock, dev
      ensures dev.Valid() && (status < 0 <==> dev.failed)
      ensures Valid() && status <= 0
      ensures status == 0 ==> |more| == |out| + len && Seen(more, data, bs, seek)
    {
      more := out;
      var b := inode.GetBlock(dev, o, |data|);
      if b == 0 {
        inode.ptrIdent := 0;
        return -EIO, out;
      }
      assert StoredAt(inode.s, inode.g, disk, data, o);
      var ok := dev.Ask();
      if !ok { return -EIO, out; }
      blkbuf := disk[b];
      more := out + Sub(blkbuf, a, a + len);
      SeenMore(out, more, data, bs, seek, o, a, len);
      status := 0;
    }

    /** ext2_read: exactly the bytes asked for. */
    method Read(dev: Answers, seek: nat, len: nat) returns (status: int, out: Bytes)
      requires dev.Valid() && !dev.failed
      requires Valid() && seek + len <= size
      modifies this`blkbuf, inode`ptrIdent, inode`ptrIndex, inode`ptrBlock, dev
      ensures dev.Valid() && (status < 0 <==> dev.failed)
      ensures Valid() && Contents() == old(Contents())
      ensures status >= 0 ==> status == len && out == Contents()[seek..seek + len]
    {
      var offset, fstart, fsize, whole, esize := SplitRange(seek, len);
      RangeFits(bs, seek, len, offset, fstart, fsize, whole, esize, |data|);
      status, out := GetFirst(dev, offset, fstart, fsize, seek);
      if status < 0 { return; }
      if fsize > 0 { offset := offset + 1; }
      status, out := GetRest(dev, offset, whole, esize, out, seek);
      if status < 0 { return; }
      status := len;
      SeenAll(out, data, bs, seek, size);
    }

    /** The part of the first block, if the range does not begin with a block. */
    method GetFirst(dev: Answers, offset: nat, fstart: nat, fsize: nat, ghost seek: nat)
      returns (status: int, out: Bytes)
      requires dev.Valid() && !dev.failed && Valid()
      requires fsize > 0 ==> offset < |data| && fstart + fsize <= bs && seek == Times(offset, bs) + fstart
      modifies this`blkbuf, inode`ptrIdent, inode`ptrIndex, inode`ptrBlock, dev
      ensures dev.Valid() && (status < 0 <==> dev.failed)
      ensures Valid() && status <= 0
      ensures status == 0 ==> |out| == fsize && Seen(out, data, bs, seek)
    {
      status, out := 0, [];
      if fsize > 0 { status, out := GetPart(dev, offset, fstart, fsize, out, seek); }
    }

    /** The whole blocks and the last part. */
    method GetRest(dev: Answers, start: nat, whole: nat, esize: nat, init: Bytes, ghost seek: nat)
      returns (status: int, out: Bytes)
      requires dev.Valid() && !dev.failed
      requires Valid() && start + whole <= |data| && (esize > 0 ==> start + whole < |data|) && esize < bs
      requires Seen(init, data, bs, seek) && (whole > 0 ==> seek + |init| == Times(start, bs))
      requires esize > 0 ==> seek + |init| + Times(whole, bs) == Times(start + whole, bs)
      modifies this`blkbuf, inode`ptrIdent, inode`ptrIndex, inode`ptrBlock, dev
      ensures dev.Valid() && (status < 0 <==> dev.failed)
      ensures Valid() && status <= 0
      ensures status == 0 ==> |out| == |init| + Times(whole, bs) + esize && Seen(out, data, bs, seek)
    {
      status, out := GetWhole(dev, start, whole, init, seek);
      if status < 0 { return; }
      if esize > 0 {
        status, out := GetPart(dev, start + whole, 0, esize, out, seek);
      }
    }

    /** The loop over whole blocks. */
    method GetWhole(dev: Answers, start: nat, whole: nat, init: Bytes, ghost seek: nat)
      returns (status: int, out: Bytes)
      requires dev.Valid() && !dev.failed
      requires Valid() && start + whole <= |data| && Seen(init, data, bs, seek)
      requires whole > 0 ==> seek + |init| == Times(start, bs)
      modifies this`blkbuf, inode`ptrIdent, inode`ptrIndex, inode`ptrBlock, dev
      ensures dev.Valid() && (status < 0 <==> dev.failed)
      ensures Valid() && status <= 0
      ensures status == 0 ==> |out| == |init| + Times(whole, bs) && Seen(out, data, bs, seek)
    {
      status, out := 0, init;
      var left, offset := whole, start;
      while left > 0
        invariant dev.Valid() && !dev.failed
        invariant 0 <= left <= whole && status == 0 && offset + left == start + whole
        invariant Valid() && Seen(out, data, bs, seek)
        invariant |out| + Times(left, bs) == |init| + Times(whole, bs)
        invariant whole > 0 ==> seek + |out| == Times(offset, bs)
        decreases left
      {
        status, out := GetPart(dev, offset, 0, bs, out, seek);
        if status < 0 { return; }
        offset, left := offset + 1, left - 1;
      }
    }

    /** What is written is what is read. */
    method WriteThenRead(dev: Answers, seek: nat, buf: Bytes) returns (status: int, out: Bytes)
      requires dev.Valid() && !dev.failed
      requires Valid() && Synced() && Reversible(inode.s, |data|) && seek + |buf| <= Times(Max(inode.s), bs)
      modifies this, inode, bm, dev
      ensures dev.Valid() && (status >= 0 <==> !dev.failed && EnoughFound(bm.log, |old(bm.log)|))
      ensures status >= 0 ==> out == buf
    {
      out := [];
      ghost var done;
      status, done := Write(dev, seek, buf);
      if status >= 0 { status, out := Read(dev, seek, |buf|); }
    }
  }

  /** A block with new bytes from `a` on; if it was read first, the others are unchanged. */
  ghost predicate Laid(nb: Bytes, ob: Bytes, a: nat, chunk: Bytes, read: bool, bs: nat) {
    && |nb| == |ob| == bs && a + |chunk| <= bs
    && (forall r | a <= r < a + |chunk| :: nb[r] == chunk[r - a])
    && (read ==> forall r | 0 <= r < bs && !(a <= r < a + |chunk|) :: nb[r] == ob[r])
  }

  /** memcpy into a block. */
  function LayOver(block: Bytes, a: nat, chunk: Bytes): Bytes
    requires a + |chunk| <= |block|
  {
    seq(|block|, r requires 0 <= r < |block| => if a <= r < a + |chunk| then chunk[r - a] else block[r])
  }

  lemma LaidMerged(nb: Bytes, ob: Bytes, a: nat, chunk: Bytes, read: bool, bs: nat,
                   buf: Bytes, seek: nat, size: nat, o: nat, from: nat)
    requires Laid(nb, ob, a, chunk, read, bs)
    requires seek + from == Times(o, bs) + a && from + |chunk| <= |buf| && chunk == Sub(buf, from, from + |chunk|)
    requires !read ==> a == 0 && (|chunk| == bs || Times(o, bs) >= size)
    ensures Merged(nb, ob, buf, seek, size, bs, o, a, a + |chunk|)
  {
    forall r | a <= r < a + |chunk| ensures nb[r] == buf[Times(o, bs) + r - seek] {
      assert chunk[r - a] == buf[from + (r - a)];
    }
  }

  /** One more part of `buf` has been written, in block `o`. */
  lemma PartMatches(view: Blocks, was: Blocks, buf: Bytes, seek: nat, size: nat, bs: nat, o: nat, a: nat,
                    chunk: Bytes, read: bool, from: nat, nb: Bytes)
    requires o < |view| && Matches(view, was, buf, seek, seek + from, size, bs) && Laid(nb, view[o], a, chunk, read, bs)
    requires seek + from == Times(o, bs) + a && from + |chunk| <= |buf| && chunk == Sub(buf, from, from + |chunk|)
    requires (a == 0 || from == 0) && (!read ==> a == 0 && (|chunk| == bs || Times(o, bs) >= size))
    ensures Matches(view[o := nb], was, buf, seek, seek + from + |chunk|, size, bs)
  {
    LaidMerged(nb, view[o], a, chunk, read, bs, buf, seek, size, o, from);
    StepMatches(view, was, buf, seek, size, bs, o, a, a + |chunk|, nb);
  }

  ghost predicate OnDisk(blocks: set<nat>, disk: map<nat, Bytes>, bs: nat) {
    forall v | v in blocks :: v in disk && |disk[v]| == bs
  }

  lemma SameTrans(a: map<nat, Bytes>, b: map<nat, Bytes>, c: map<nat, Bytes>, mine: set<nat>)
    requires SameElsewhere(a, b, mine) && SameElsewhere(b, c, mine)
    ensures SameElsewhere(a, c, mine)
  {
  }

  /** Blocks outside a set are untouched. */
  ghost predicate SameElsewhere(disk: map<nat, Bytes>, disk': map<nat, Bytes>, mine: set<nat>) {
    forall v {:trigger disk'[v]} {:trigger v in disk'} | v in disk && v !in mine :: v in disk' && disk'[v] == disk[v]
  }

  method DivMod(n: nat, d: nat) returns (q: nat, r: nat)
    requires d >= 1
    ensures n == Times(q, d) + r && r < d
  {
    q, r := n / d, n % d;
    DivTimes(n, d);
  }

  lemma DivTimes(n: nat, d: nat)
    requires d >= 1
    ensures n == Times(n / d, d) + n % d
  {
    TimesIsMul(n / d, d);
  }

  /** How a range of bytes falls on blocks. */
  ghost predicate Ranged(bs: nat, seek: nat, len: nat, offset: nat, fstart: nat, fsize: nat, whole: nat, esize: nat) {
    && seek == Times(offset, bs) + fstart && fstart < bs && fsize <= len && fstart + fsize <= bs
    && len == fsize + Times(whole, bs) + esize && esize < bs
    && (fsize > 0 ==> fstart > 0)
    && (len > fsize && fstart > 0 ==> fstart + fsize == bs)
  }

  lemma RangeFits(bs: nat, seek: nat, len: nat, offset: nat, fstart: nat, fsize: nat, whole: nat, esize: nat, n: nat)
    requires bs >= 1 && Ranged(bs, seek, len, offset, fstart, fsize, whole, esize) && seek + len <= Times(n, bs)
    ensures fsize > 0 ==> offset < n
    ensures var next := if fsize > 0 then offset + 1 else offset;
            && next + whole <= n && (esize > 0 ==> next + whole < n)
            && (whole > 0 || esize > 0 ==> seek + fsize == Times(next, bs))
            && (esize > 0 ==> seek + len - esize == Times(next + whole, bs))
  {
    var next := if fsize > 0 then offset + 1 else offset;
    TimesAdd(next, whole, bs);
    if offset >= n { TimesMono(n, offset, bs); }
    if next + whole > n { TimesMono(n, next + whole, bs); }
  }

  ghost function DiskAt(s: nat, g: Names, disk: map<nat, Bytes>, o: nat): Bytes
    requires s >= 1
  {
    var x := PathOf(s, o);
    if x in g && g[x] in disk then disk[g[x]] else []
  }

  /** The blocks of a grown file: the old ones, then whatever is in the new ones. */
  ghost function Extended(s: nat, g: Names, disk: map<nat, Bytes>, data: Blocks, n: nat): Blocks
    requires s >= 1
  {
    seq(n, o requires 0 <= o < n => if o < |data| then data[o] else DiskAt(s, g, disk, o))
  }

  lemma RoundUp(nsize: nat, bs: nat, nblks: nat, n: nat, max: nat)
    requires bs >= 1 && nblks == (nsize + bs - 1) / bs && Times(n, bs) < nsize <= Times(max, bs)
    ensures nsize <= Times(nblks, bs) && n < nblks <= max
  {
    DivTimes(nsize + bs - 1, bs);
    if nblks <= n { TimesMono(nblks, n, bs); }
    if nblks > max { TimesMono(max, nblks, bs); }
  }

  /** All blocks of a grown file come from the volume. */
  lemma GrownOnDisk(stock: set<nat>, owner0: map<nat, Slot>, free0: set<nat>, stock0: set<nat>, disk: map<nat, Bytes>,
      bs: nat)
    requires OnDisk(stock0, disk, bs) && OnDisk(free0, disk, bs)
    requires forall v | v in stock :: v in owner0 || v in free0
    requires forall v | v in owner0 :: v in stock0
    ensures OnDisk(stock, disk, bs) && stock <= stock0 + free0
  {
  }

  lemma StoredMore(s: nat, g: Names, g': Names, owner: map<nat, Slot>, stock: set<nat>, disk: map<nat, Bytes>,
                   data: Blocks, data': Blocks, bs: nat)
    requires s >= 1 && Stored(s, g, disk, data) && Kept(g, g') && Even(data, bs) && |data| <= |data'| <= Max(s)
    requires Filled(s, g', |data'|) && Owned(g', owner) && (forall v | v in owner :: v in stock)
      && OnDisk(stock, disk, bs)
    requires forall o | 0 <= o < |data'| :: data'[o] == if o < |data| then data[o] else DiskAt(s, g', disk, o)
    ensures Stored(s, g', disk, data') && Even(data', bs) && data <= data'
  {
    forall o: nat | o < |data'|
      ensures StoredAt(s, g', disk, data', o) && |data'[o]| == bs
    {
      FilledPath(s, g', |data'|, o);
      if o < |data| { assert StoredAt(s, g, disk, data, o); }
    }
  }

  lemma SameMore(a: map<nat, Bytes>, b: map<nat, Bytes>, mine: set<nat>, more: set<nat>)
    requires SameElsewhere(a, b, mine) && mine <= more
    ensures SameElsewhere(a, b, more)
  {
  }

  /** More blocks behind the end do not change the contents. */
  lemma SamePrefix(data: Blocks, data': Blocks, bs: nat, size: nat)
    requires bs >= 1 && data <= data' && size <= Times(|data|, bs)
    ensures Bytes0(data, bs, size) == Bytes0(data', bs, size)
  {
    forall k | 0 <= k < size
      ensures ByteAt(data, bs, k) == ByteAt(data', bs, k)
    {
      QuotRem(k, bs);
      TimesIsMul(Quot(k, bs), bs);
      if Quot(k, bs) >= |data| { TimesMono(|data|, Quot(k, bs), bs); }
    }
  }

  ghost predicate Seen(out: Bytes, data: Blocks, bs: nat, seek: nat) {
    bs >= 1 && forall i | 0 <= i < |out| :: out[i] == ByteAt(data, bs, seek + i)
  }

  lemma SeenMore(out: Bytes, more: Bytes, data: Blocks, bs: nat, seek: nat, o: nat, a: nat, len: nat)
    requires Even(data, bs) && o < |data| && a + len <= bs && Seen(out, data, bs, seek)
    requires seek + |out| == Times(o, bs) + a && more == out + Sub(data[o], a, a + len)
    ensures Seen(more, data, bs, seek)
  {
    forall i | 0 <= i < |more|
      ensures more[i] == ByteAt(data, bs, seek + i)
    {
      if i >= |out| { ByteIs(data, bs, o, a + (i - |out|)); }
    }
  }

  lemma SeenAll(out: Bytes, data: Blocks, bs: nat, seek: nat, size: nat)
    requires Seen(out, data, bs, seek) && seek + |out| <= size
    ensures out == Bytes0(data, bs, size)[seek..seek + |out|]
  {
  }
}
