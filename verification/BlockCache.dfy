/** The cache of metadata blocks behind one file-system operation: looked up, changed in memory,
    and at the end written back or thrown away (ext2_lookup_cached to ext2_ctx_free). */
module BlockCache {
  import opened Prelude

  type Data = seq<bv8>
  type Disk = map<nat, Data>

  datatype Item = Item(block: nat, dirty: bool, ready: bool, data: Data)

  function Zeros(size: nat): Data { seq(size, _ => 0) }

  ghost predicate Sorted(list: seq<Item>) {
    forall i, j | 0 <= i < j < |list| :: list[i].block < list[j].block
  }

  ghost predicate Known(list: seq<Item>, disk: Disk) {
    forall i | 0 <= i < |list| :: list[i].block in disk
  }

  ghost predicate Listed(list: seq<Item>, block: nat) {
    exists i :: 0 <= i < |list| && list[i].block == block
  }

  /** Every block in the list has been read or begun anew. */
  ghost predicate AllReady(list: seq<Item>) {
    forall i | 0 <= i < |list| :: list[i].ready
  }

  /** The same blocks, as ready as before. */
  ghost predicate SameReady(list: seq<Item>, list': seq<Item>) {
    && |list'| == |list|
    && forall i | 0 <= i < |list| :: list'[i].block == list[i].block && list'[i].ready == list[i].ready
  }

  /** One block more is listed, and no other. */
  ghost predicate Joins(list: seq<Item>, block: nat, list': seq<Item>) {
    && (forall b :: Listed(list', b) <==> Listed(list, b) || b == block)
    && (AllReady(list) ==> AllReady(list'))
  }

  /** Where a block is, or where it belongs. */
  ghost predicate Place(list: seq<Item>, block: nat, i: nat) {
    && i <= |list|
    && (forall j | 0 <= j < i :: list[j].block < block)
    && (forall j | i <= j < |list| :: list[j].block >= block)
  }

  /** What one cached block holds, against the disk and the disk as it should become. */
  ghost predicate Holds(it: Item, size: nat, disk: Disk, target: Disk, loose: set<nat>) {
    && it.block in disk && it.block in target
    && (it.ready ==> it.data == target[it.block])
    && (it.ready && !it.dirty && it.block !in loose ==> it.data == disk[it.block])
    && (!it.ready ==> it.data == Zeros(size) && !it.dirty && target[it.block] == disk[it.block])
  }

  ghost predicate Agree(list: seq<Item>, size: nat, disk: Disk, target: Disk, loose: set<nat>) {
    && target.Keys == disk.Keys
    && (forall i | 0 <= i < |list| :: Holds(list[i], size, disk, target, loose))
    && (forall b | b in disk :: Listed(list, b) || target[b] == disk[b])
  }

  class Context {
    const size: nat
    var disk: Disk
    var list: seq<Item>
    var errno: int
    /** The disk, had every change been made there at once. */
    ghost var target: Disk
    /** Blocks changed in memory and not yet marked dirty. */
    ghost var loose: set<nat>

    ghost predicate Valid()
      reads this
    {
      && errno <= 0 && Sorted(list) && Known(list, disk)
      && (errno == 0 ==> Agree(list, size, disk, target, loose))
    }

    /** ext2_ctx_alloc. */
    constructor (size: nat, disk: Disk)
      ensures Valid() && this.size == size && this.disk == disk && target == disk && loose == {} && errno == 0
      ensures list == []
    {
      this.size, this.disk, list, errno := size, disk, [], 0;
      target, loose := disk, {};
    }

    /** The search loop of ext2_lookup_cached. */
    method Find(block: nat) returns (i: nat, found: bool)
      requires Valid()
      ensures Place(list, block, i)
      ensures found <==> i < |list| && list[i].block == block
      ensures found <==> Listed(list, block)
    {
      i := 0;
      while i < |list| && list[i].block < block
        invariant 0 <= i <= |list|
        invariant forall j | 0 <= j < i :: list[j].block < block
      {
        i := i + 1;
      }
      found := i < |list| && list[i].block == block;
    }

    /** ext2_lookup_cached, creating the item if it is missing and there is memory for it. */
    method Lookup(block: nat, memory: bool) returns (i: nat, found: bool)
      requires Valid() && block in disk
      modifies this`list, this`errno
      ensures Valid() && found == (memory || Listed(old(list), block))
      ensures found ==> errno == old(errno) && i < |list| && list[i].block == block
      ensures !found ==> errno == -ENOMEM && list == old(list)
      ensures Listed(old(list), block) ==> list == old(list)
      ensures found && !Listed(old(list), block) ==> i <= |old(list)| && list == Inserted(old(list), i, block, size)
    {
      i, found := Find(block);
      if !found {
        if !memory {
          errno := -ENOMEM;
          return;
        }
        ghost var before := list;
        list := Inserted(list, i, block, size);
        InsertSorted(before, i, block, size);
        if errno == 0 { InsertAgrees(before, i, block, size, disk, target, loose); }
        found := true;
      }
    }

    /** ext2_read_cached. `status` is the device's answer and `junk` what a failed read leaves. */
    method ReadCached(block: nat, dirty: bool, memory: bool, status: int, junk: Data) returns (r: Option<Data>)
      requires Valid() && block in disk
      modifies this`list, this`errno
      ensures Valid()
      ensures errno == if !memory && !Listed(old(list), block) then -ENOMEM
                       else if status < 0 && !old(Ready(block)) then status else old(errno)
      ensures r.None? <==> (!memory && !Listed(old(list), block)) || (status < 0 && !old(Ready(block)))
      ensures errno == 0 ==> r == Some(target[block])
      ensures errno == 0 ==> Ready(block) && (dirty ==> Marked(block))
      ensures r.Some? ==> Joins(old(list), block, list)
    {
      var i, found := Lookup(block, memory);
      if !found { return None; }
      ReadyAt(list, block, i);
      ghost var there := list;
      if list[i].ready {
        if dirty { Put(i, list[i].(dirty := true)); }
        JoinsAt(old(list), block, i, size, there, list[i]);
        return Some(list[i].data);
      }
      if status < 0 {
        errno := status;
        Put(i, list[i].(dirty := list[i].dirty || dirty, data := junk));
        return None;
      }
      Put(i, list[i].(dirty := list[i].dirty || dirty, ready := true, data := disk[block]));
      JoinsAt(old(list), block, i, size, there, list[i]);
      r := Some(list[i].data);
    }

    /** Change one item in place; its block number stays. */
    method Put(i: nat, item: Item)
      requires i < |list| && item.block == list[i].block && Valid()
      requires errno == 0 ==> Holds(item, size, disk, target, loose)
      modifies this`list
      ensures Valid() && list == old(list)[i := item]
    {
      ghost var before := list;
      list := list[i := item];
      SameBlocks(before, list, i);
      if errno == 0 { PutAgrees(before, i, item, size, disk, target, loose); }
    }

    ghost predicate Ready(block: nat)
      reads this
    {
      exists i :: 0 <= i < |list| && list[i].block == block && list[i].ready
    }

    ghost predicate Marked(block: nat)
      reads this
    {
      exists i :: 0 <= i < |list| && list[i].block == block && list[i].dirty
    }

    /** A caller writes through the pointer that ext2_read_cached or ext2_init_cached gave it. */
    method Poke(block: nat, data: Data)
      requires Valid() && block in disk && (errno == 0 ==> Ready(block))
      modifies this`list, this`target, this`loose
      ensures Valid() && SameReady(old(list), list)
      ensures errno == 0 ==> target == old(target)[block := data] && Ready(block)
      ensures errno == 0 ==> loose == if old(Marked(block)) then old(loose) else old(loose) + {block}
    {
      var i, found := Find(block);
      if found {
        ReadyAt(list, block, i);
        MarkedAt(list, block, i);
        PokeAt(i, data);
      }
    }

    method PokeAt(i: nat, data: Data)
      requires Valid() && i < |list| && (errno == 0 ==> list[i].ready)
      modifies this`list, this`target, this`loose
      ensures Valid() && SameReady(old(list), list)
      ensures errno == 0 ==> target == old(target)[old(list)[i].block := data]
      ensures errno == 0 ==> loose == if old(list)[i].dirty then old(loose) else old(loose) + {old(list)[i].block}
    {
      ghost var before, block := list, list[i].block;
      list := list[i := list[i].(data := data)];
      SameBlocks(before, list, i);
      if errno == 0 {
        target := target[block := data];
        if !before[i].dirty { loose := loose + {block}; }
        PokeAgrees(before, list, i, data, size, disk, old(target), target, old(loose), loose);
      }
    }

    /** ext2_write_cached. */
    method WriteCached(block: nat)
      requires Valid() && (errno == 0 && Listed(list, block) ==> Ready(block))
      modifies this`list, this`loose
      ensures Valid() && loose == old(loose) - {block} && SameReady(old(list), list)
    {
      var i, found := Find(block);
      ghost var before := list;
      if found {
        list := list[i := list[i].(dirty := true)];
        SameBlocks(before, list, i);
        if errno == 0 {
          ReadyAt(before, block, i);
          MarkAgrees(before, list, i, size, disk, target, loose);
        }
      }
      loose := loose - {block};
    }

    /** ext2_init_cached. */
    method InitCached(block: nat, memory: bool) returns (r: Option<Data>)
      requires Valid() && block in disk
      modifies this`list, this`errno, this`target, this`loose
      ensures Valid()
      ensures errno == if !memory && !Listed(old(list), block) then -ENOMEM else old(errno)
      ensures r.None? <==> !memory && !Listed(old(list), block)
      ensures errno == 0 ==> r == Some(Zeros(size)) && target == old(target)[block := Zeros(size)]
      ensures errno == 0 ==> loose == old(loose) - {block}
      ensures r.Some? ==> Joins(old(list), block, list)
    {
      var i, found := Lookup(block, memory);
      if !found { return None; }
      ghost var before := list;
      var data := if list[i].ready then Zeros(size) else list[i].data;
      list := list[i := Item(block, true, true, data)];
      SameBlocks(before, list, i);
      assert Joins(old(list), block, list) by { JoinsAt(old(list), block, i, size, before, list[i]); }
      r := Some(data);
      if errno == 0 {
        InitAgrees(before, list, i, size, disk, target, loose);
        target := target[block := data];
        loose := loose - {block};
      }
    }

    /** ext2_ctx_free: pop every block, writing back the dirty ones unless there was an error. The
        device may refuse some of the writes. */
    method Free(status: int, refused: set<nat>)
      requires Valid() && (errno == 0 && status >= 0 ==> loose == {})
      modifies this`disk, this`list
      ensures list == [] && disk.Keys == old(disk).Keys
      ensures status < 0 || errno < 0 ==> disk == old(disk)
      ensures status >= 0 && errno == 0 ==>
                forall b | b in disk :: disk[b] == if b in refused then old(disk)[b] else target[b]
    {
      var flush := !(status < 0 || errno < 0);
      ghost var before, all := disk, list;
      ghost var n := 0;
      while list != []
        invariant n <= |all| && list == all[n..] && disk.Keys == before.Keys
        invariant !flush ==> disk == before
        invariant flush ==> forall b | b in before :: disk[b] == Written(all, n, b, refused, before)
        decreases |list|
      {
        var item := list[0];
        list := list[1..];
        if flush && item.dirty && item.block !in refused {
          disk := disk[item.block := item.data];
        }
        n := n + 1;
      }
      if flush {
        forall b | b in disk
          ensures disk[b] == if b in refused then before[b] else target[b]
        {
          AllWritten(all, b, refused, size, before, target);
        }
      }
    }
  }

  /** A block's contents once the first `n` of the list have been popped. */
  ghost function Written(list: seq<Item>, n: nat, b: nat, refused: set<nat>, disk: Disk): Data
    requires n <= |list| && b in disk
  {
    if n == 0 then disk[b]
    else if list[n - 1].block == b && list[n - 1].dirty && b !in refused then list[n - 1].data
    else Written(list, n - 1, b, refused, disk)
  }

  ghost predicate DirtyIn(list: seq<Item>, n: nat, b: nat)
    requires n <= |list|
  {
    exists k :: 0 <= k < n && list[k].block == b && list[k].dirty
  }

  lemma {:induction false} WrittenIs(list: seq<Item>, n: nat, b: nat, refused: set<nat>, size: nat, disk: Disk,
      target: Disk)
    requires n <= |list| && b in disk && Agree(list, size, disk, target, {})
    ensures Written(list, n, b, refused, disk) == if DirtyIn(list, n, b) && b !in refused then target[b] else disk[b]
  {
    if n > 0 {
      WrittenIs(list, n - 1, b, refused, size, disk, target);
      assert Holds(list[n - 1], size, disk, target, {});
    }
  }

  lemma AllWritten(list: seq<Item>, b: nat, refused: set<nat>, size: nat, disk: Disk, target: Disk)
    requires b in disk && Agree(list, size, disk, target, {})
    ensures Written(list, |list|, b, refused, disk) == if b in refused then disk[b] else target[b]
  {
    WrittenIs(list, |list|, b, refused, size, disk, target);
    if Listed(list, b) {
      var i :| 0 <= i < |list| && list[i].block == b;
      assert Holds(list[i], size, disk, target, {});
    }
  }

  function Inserted(list: seq<Item>, i: nat, block: nat, size: nat): seq<Item>
    requires i <= |list|
  {
    list[..i] + [Item(block, false, false, Zeros(size))] + list[i..]
  }

  lemma InsertSorted(list: seq<Item>, i: nat, block: nat, size: nat)
    requires Sorted(list) && Place(list, block, i) && !Listed(list, block)
    ensures Sorted(Inserted(list, i, block, size))
  {
  }

  lemma InsertLists(list: seq<Item>, i: nat, block: nat, size: nat)
    requires i <= |list|
    ensures forall b :: Listed(Inserted(list, i, block, size), b) <==> Listed(list, b) || b == block
  {
    var list' := Inserted(list, i, block, size);
    assert list'[i].block == block;
    forall b | Listed(list, b) ensures Listed(list', b) {
      var k :| 0 <= k < |list| && list[k].block == b;
      assert list'[if k < i then k else k + 1].block == b;
    }
    forall b | Listed(list', b) && b != block ensures Listed(list, b) {
      var k :| 0 <= k < |list'| && list'[k].block == b;
      assert list[if k < i then k else k - 1].block == b;
    }
  }

  lemma InsertAgrees(list: seq<Item>, i: nat, block: nat, size: nat, disk: Disk, target: Disk, loose: set<nat>)
    requires Agree(list, size, disk, target, loose) && i <= |list| && !Listed(list, block) && block in disk
    ensures Agree(Inserted(list, i, block, size), size, disk, target, loose)
  {
    InsertLists(list, i, block, size);
  }

  /** A block that was found or inserted, and is then made ready. */
  lemma JoinsAt(list: seq<Item>, block: nat, i: nat, size: nat, there: seq<Item>, item: Item)
    requires if Listed(list, block) then there == list else i <= |list| && there == Inserted(list, i, block, size)
    requires i < |there| && there[i].block == block && item.block == block && item.ready
    ensures Joins(list, block, there[i := item])
  {
    SameBlocks(there, there[i := item], i);
    if !Listed(list, block) { InsertLists(list, i, block, size); }
  }

  lemma JoinsSame(list: seq<Item>, block: nat, there: seq<Item>, list': seq<Item>)
    requires Joins(list, block, there) && SameReady(there, list')
    ensures Joins(list, block, list')
  {
    forall b ensures Listed(list', b) <==> Listed(there, b) {
      if Listed(there, b) {
        var k :| 0 <= k < |there| && there[k].block == b;
        assert list'[k].block == b;
      }
    }
  }

  lemma SameBlocks(list: seq<Item>, list': seq<Item>, i: nat)
    requires |list'| == |list| && i < |list| && list' == list[i := list'[i]] && list'[i].block == list[i].block
    ensures forall b :: Listed(list', b) <==> Listed(list, b)
    ensures Sorted(list) ==> Sorted(list')
    ensures forall disk: Disk :: Known(list', disk) <==> Known(list, disk)
  {
    assert forall k | 0 <= k < |list| :: list'[k].block == list[k].block;
  }

  lemma PutAgrees(list: seq<Item>, i: nat, item: Item, size: nat, disk: Disk, target: Disk, loose: set<nat>)
    requires Agree(list, size, disk, target, loose) && i < |list| && item.block == list[i].block
    requires Holds(item, size, disk, target, loose)
    ensures Agree(list[i := item], size, disk, target, loose)
  {
    SameBlocks(list, list[i := item], i);
  }

  lemma ReadyAt(list: seq<Item>, block: nat, i: nat)
    requires Sorted(list) && i < |list| && list[i].block == block
    ensures list[i].ready <==> exists k :: 0 <= k < |list| && list[k].block == block && list[k].ready
  {
  }

  lemma MarkedAt(list: seq<Item>, block: nat, i: nat)
    requires Sorted(list) && i < |list| && list[i].block == block
    ensures list[i].dirty <==> exists k :: 0 <= k < |list| && list[k].block == block && list[k].dirty
  {
  }

  lemma PokeAgrees(list: seq<Item>, list': seq<Item>, i: nat, data: Data, size: nat,
                   disk: Disk, target: Disk, target': Disk, was: set<nat>, loose: set<nat>)
    requires Sorted(list) && i < |list| && list[i].ready && list' == list[i := list[i].(data := data)]
    requires target' == target[list[i].block := data]
    requires was <= loose && Agree(list, size, disk, target, was)
    requires list[i].dirty || list[i].block in loose
    ensures Agree(list', size, disk, target', loose)
  {
    SameBlocks(list, list', i);
  }

  lemma MarkAgrees(list: seq<Item>, list': seq<Item>, i: nat, size: nat, disk: Disk, target: Disk, loose: set<nat>)
    requires Sorted(list) && i < |list| && list[i].ready && list' == list[i := list[i].(dirty := true)]
    requires Agree(list, size, disk, target, loose)
    ensures Agree(list', size, disk, target, loose - {list[i].block})
  {
    SameBlocks(list, list', i);
  }

  lemma InitAgrees(list: seq<Item>, list': seq<Item>, i: nat, size: nat, disk: Disk, target: Disk, loose: set<nat>)
    requires Sorted(list) && i < |list| && Agree(list, size, disk, target, loose)
    requires list' == list[i := Item(list[i].block, true, true, Zeros(size))]
    ensures Agree(list', size, disk, target[list[i].block := Zeros(size)], loose - {list[i].block})
  {
    SameBlocks(list, list', i);
  }

  // ----- whole operations

  /** What an operation does to metadata: look at a block, change one (marking it before or after),
      or start a new one. With it, the answers of the allocator and of the device. */
  datatype Change = Look(block: nat) | Edit(block: nat, data: Data) | Patch(block: nat, data: Data) | Fresh(block: nat)

  datatype Answer = Answer(memory: bool, status: int, junk: Data)

  /** The answers to a change were good, as far as they were needed: none for a block that an earlier change
      has brought in, and no read for one begun anew. */
  ghost predicate Served(changes: seq<Change>, answers: seq<Answer>, i: nat)
    requires i < |changes| && i < |answers|
  {
    Met(changes, i, changes[i].block) || (answers[i].memory && (changes[i].Fresh? || answers[i].status >= 0))
  }

  ghost predicate Met(changes: seq<Change>, n: nat, block: nat) {
    exists j :: 0 <= j < n && j < |changes| && changes[j].block == block
  }

  /** One change made on the disk itself. */
  ghost function After(d: Disk, c: Change, size: nat): Disk {
    match c
    case Look(_) => d
    case Edit(b, data) => d[b := data]
    case Patch(b, data) => d[b := data]
    case Fresh(b) => d[b := Zeros(size)]
  }

  /** The first `n` changes made on the disk itself. */
  ghost function Applied(disk: Disk, changes: seq<Change>, n: nat, size: nat): Disk
    requires n <= |changes|
  {
    if n == 0 then disk else After(Applied(disk, changes, n - 1, size), changes[n - 1], size)
  }

  /** A block is changed, and marked either when it is fetched or afterwards. */
  method Overwrite(ctx: Context, b: nat, data: Data, first: bool, a: Answer) returns (seen: Option<Data>)
    requires ctx.Valid() && b in ctx.disk && ctx.loose == {} && ctx.errno == 0 && AllReady(ctx.list)
    modifies ctx`list, ctx`errno, ctx`target, ctx`loose
    ensures ctx.Valid()
    ensures ctx.errno == if Listed(old(ctx.list), b) then 0 else if !a.memory then -ENOMEM
                         else if a.status < 0 then a.status else 0
    ensures ctx.errno == 0 ==> Joins(old(ctx.list), b, ctx.list)
    ensures ctx.errno == 0 ==> ctx.loose == {} && ctx.target == old(ctx.target)[b := data]
    ensures ctx.errno == 0 ==> Sees(seen, old(ctx.target), b)
  {
    ReadyListed(ctx.list, b);
    seen := ctx.ReadCached(b, first, a.memory, a.status, a.junk);
    if seen.Some? && ctx.errno == 0 {
      ghost var there := ctx.list;
      Alter(ctx, b, data, first);
      JoinsSame(old(ctx.list), b, there, ctx.list);
    }
  }

  method Alter(ctx: Context, b: nat, data: Data, first: bool)
    requires ctx.Valid() && b in ctx.disk && ctx.loose == {} && ctx.errno == 0 && ctx.Ready(b)
    requires first ==> ctx.Marked(b)
    modifies ctx`list, ctx`target, ctx`loose
    ensures ctx.Valid() && ctx.loose == {} && ctx.target == old(ctx.target)[b := data]
    ensures SameReady(old(ctx.list), ctx.list)
  {
    ctx.Poke(b, data);
    if !first { ctx.WriteCached(b); }
  }

  lemma ReadyListed(list: seq<Item>, b: nat)
    requires AllReady(list)
    ensures Listed(list, b) <==> exists i :: 0 <= i < |list| && list[i].block == b && list[i].ready
  {
    if Listed(list, b) {
      var i :| 0 <= i < |list| && list[i].block == b;
      assert list[i].ready;
    }
  }

  method Make(ctx: Context, c: Change, a: Answer) returns (seen: Option<Data>)
    requires ctx.Valid() && c.block in ctx.disk && ctx.loose == {} && ctx.errno == 0 && AllReady(ctx.list)
    modifies ctx`list, ctx`errno, ctx`target, ctx`loose
    ensures ctx.Valid()
    ensures ctx.errno == if Listed(old(ctx.list), c.block) then 0 else if !a.memory then -ENOMEM
                         else if !c.Fresh? && a.status < 0 then a.status else 0
    ensures ctx.errno == 0 ==> Joins(old(ctx.list), c.block, ctx.list)
    ensures ctx.errno == 0 ==> ctx.loose == {} && ctx.target == After(old(ctx.target), c, ctx.size)
    ensures ctx.errno == 0 && !c.Fresh? ==> Sees(seen, old(ctx.target), c.block)
  {
    match c {
      case Look(b) =>
        ReadyListed(ctx.list, b);
        seen := ctx.ReadCached(b, false, a.memory, a.status, a.junk);
      case Edit(b, data) => seen := Overwrite(ctx, b, data, true, a);
      case Patch(b, data) => seen := Overwrite(ctx, b, data, false, a);
      case Fresh(b) => seen := ctx.InitCached(b, a.memory);
    }
  }

  /** A whole operation: either the disk gets exactly the changes made directly, or, after any error,
      none of them. Every read on the way sees the changes before it. */
  method Operation(disk: Disk, size: nat, changes: seq<Change>, answers: seq<Answer>, status: int, refused: set<nat>)
    returns (after: Disk, ok: bool, seen: seq<Option<Data>>)
    requires |answers| == |changes| && forall i | 0 <= i < |changes| :: changes[i].block in disk
    ensures after.Keys == disk.Keys
    ensures !ok || status < 0 ==> after == disk
    ensures ok && status >= 0 ==>
              var direct := Applied(disk, changes, |changes|, size);
              forall b | b in disk :: b in direct && after[b] == if b in refused then disk[b] else direct[b]
    ensures ok ==> |seen| == |changes| && AllSeen(seen, disk, changes, size)
    ensures ok <==> forall i | 0 <= i < |changes| :: Served(changes, answers, i)
  {
    var ctx := new Context(size, disk);
    seen := MakeAll(ctx, disk, changes, answers);
    ok := ctx.errno == 0;
    ctx.Free(status, refused);
    after := ctx.disk;
  }

  method MakeNext(ctx: Context, ghost disk: Disk, changes: seq<Change>, answers: seq<Answer>, n: nat,
      ghost seen: seq<Option<Data>>) returns (s: Option<Data>)
    requires n < |changes| == |answers| && changes[n].block in ctx.disk
    requires ctx.Valid() && ctx.errno == 0 && ctx.loose == {} && ctx.target == Applied(disk, changes, n, ctx.size)
    requires Underway(changes, answers, n, ctx.list, 0) && |seen| == n && AllSeen(seen, disk, changes, ctx.size)
    modifies ctx`list, ctx`errno, ctx`target, ctx`loose
    ensures ctx.Valid() && Underway(changes, answers, n + 1, ctx.list, ctx.errno)
    ensures ctx.errno == 0 ==> ctx.loose == {} && ctx.target == Applied(disk, changes, n + 1, ctx.size)
    ensures ctx.errno == 0 ==> AllSeen(seen + [s], disk, changes, ctx.size)
  {
    s := Make(ctx, changes[n], answers[n]);
    if ctx.errno == 0 { SeenMore(seen, s, disk, changes, ctx.size); }
    GoesOn(changes, answers, n, old(ctx.list), ctx.list, ctx.errno);
  }

  method MakeAll(ctx: Context, ghost disk: Disk, changes: seq<Change>, answers: seq<Answer>)
    returns (seen: seq<Option<Data>>)
    requires |answers| == |changes| && forall i | 0 <= i < |changes| :: changes[i].block in disk
    requires ctx.Valid() && ctx.disk == ctx.target == disk && ctx.errno == 0 && ctx.loose == {} && ctx.list == []
    modifies ctx`list, ctx`errno, ctx`target, ctx`loose
    ensures ctx.Valid()
    ensures ctx.errno == 0 <==> forall i | 0 <= i < |changes| :: Served(changes, answers, i)
    ensures ctx.errno == 0 ==> ctx.loose == {} && ctx.target == Applied(disk, changes, |changes|, ctx.size)
    ensures ctx.errno == 0 ==> |seen| == |changes| && AllSeen(seen, disk, changes, ctx.size)
  {
    var n := 0;
    seen := [];
    while n < |changes|
      invariant n <= |changes| && |seen| == n
      invariant ctx.Valid()
      invariant ctx.errno == 0 ==> ctx.loose == {} && ctx.target == Applied(disk, changes, n, ctx.size)
      invariant ctx.errno == 0 ==> AllSeen(seen, disk, changes, ctx.size)
      invariant Underway(changes, answers, n, ctx.list, ctx.errno)
    {
      if ctx.errno < 0 { break; }
      var s := MakeNext(ctx, disk, changes, answers, n, seen);
      seen := seen + [s];
      n := n + 1;
    }
  }

  /** After `n` changes: all of them served and their blocks in the list, or the last one not. */
  ghost predicate Underway(changes: seq<Change>, answers: seq<Answer>, n: nat, list: seq<Item>, errno: int)
    requires n <= |changes| == |answers|
  {
    if errno == 0 then
      && AllReady(list) && (forall b :: Listed(list, b) <==> Met(changes, n, b))
      && forall i | 0 <= i < n :: Served(changes, answers, i)
    else n > 0 && !Served(changes, answers, n - 1)
  }

  lemma GoesOn(changes: seq<Change>, answers: seq<Answer>, n: nat, list: seq<Item>, list': seq<Item>, errno: int)
    requires n < |changes| == |answers| && Underway(changes, answers, n, list, 0)
    requires errno == 0 <==> Listed(list, changes[n].block)
                             || (answers[n].memory && (changes[n].Fresh? || answers[n].status >= 0))
    requires errno == 0 ==> Joins(list, changes[n].block, list')
    ensures Underway(changes, answers, n + 1, list', errno)
  {
    forall b ensures Met(changes, n + 1, b) <==> Met(changes, n, b) || b == changes[n].block { }
  }

  ghost predicate Sees(seen: Option<Data>, d: Disk, block: nat) {
    block in d && seen == Some(d[block])
  }

  /** Every read saw the changes before it, and no others. */
  ghost predicate AllSeen(seen: seq<Option<Data>>, disk: Disk, changes: seq<Change>, size: nat) {
    |seen| <= |changes| && forall i | 0 <= i < |seen| ::
      changes[i].Fresh? || Sees(seen[i], Applied(disk, changes, i, size), changes[i].block)
  }

  lemma SeenMore(seen: seq<Option<Data>>, s: Option<Data>, disk: Disk, changes: seq<Change>, size: nat)
    requires AllSeen(seen, disk, changes, size) && |seen| < |changes|
    requires changes[|seen|].Fresh? || Sees(s, Applied(disk, changes, |seen|, size), changes[|seen|].block)
    ensures AllSeen(seen + [s], disk, changes, size)
  {
  }
}
