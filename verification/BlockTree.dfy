/** The tree of block numbers under an inode, and its growth (ext2_inode_direct_block,
    ext2_inode_indirect_block, ext2_inode_set_block, ext2_inode_expand). */
module BlockTree {
  import opened Environment
  import opened Arith
  import opened BlockDist
  import opened Prelude

  // ----- places in the tree

  /** A place for a block number: in the inode, or in the block that another place names. */
  datatype Slot = Root(k: nat) | Entry(node: Slot, r: nat)

  /** How many blocks of pointers lie between a place and the data. */
  function Level(x: Slot): int {
    match x
    case Root(k) => if k < 12 then 0 else k - 11
    case Entry(p, _) => Level(p) - 1
  }

  predicate Ok(s: nat, x: Slot) {
    match x
    case Root(k) => k < 15
    case Entry(p, r) => Ok(s, p) && Level(p) >= 1 && r < s
  }

  function Span(s: nat, level: int): nat {
    if level <= 0 then 1 else if level == 1 then s else s * s
  }

  /** The first data offset under a place. */
  function First(s: nat, x: Slot): nat {
    match x
    case Root(k) => if k <= 12 then k else if k == 13 then 12 + s else 12 + s + s * s
    case Entry(p, r) => First(s, p) + r * Span(s, Level(p) - 1)
  }

  /** Offsets the tree can hold. */
  ghost function Max(s: nat): nat { 12 + s + Times(s, s) + Times(s, Times(s, s)) }

  lemma MaxIs(s: nat)
    ensures Max(s) == 12 + s + s * s + s * (s * s)
  {
    TimesIsMul(s, s);
    TimesIsMul(s, s * s);
  }

  /** The block of data pointers number `j`. */
  function LeafSlot(s: nat, j: nat): Slot
    requires s >= 1
  {
    if j == 0 then Root(12)
    else if j <= s then Entry(Root(13), j - 1)
    else Entry(Entry(Root(14), Quot(j - s - 1, s)), Rem(j - s - 1, s))
  }

  /** The place of a data block. */
  function PathOf(s: nat, o: nat): Slot
    requires s >= 1
  {
    if o < 12 then Root(o) else Entry(LeafSlot(s, Quot(o - 12, s)), Rem(o - 12, s))
  }

  predicate InPath(y: Slot, x: Slot) { y == x || (x.Entry? && InPath(y, x.node)) }

  /** The first data place under a place. */
  function Leftmost(x: Slot): Slot
    decreases Level(x)
  {
    if Level(x) <= 0 then x else Leftmost(Entry(x, 0))
  }

  lemma {:induction false} FirstMono(s: nat, y: Slot, x: Slot)
    requires InPath(y, x)
    ensures First(s, y) <= First(s, x)
    decreases x
  {
    if y != x {
      FirstMono(s, y, x.node);
      assert x.r * Span(s, Level(x.node) - 1) >= 0;
    }
  }

  lemma FirstDeep(s: nat, a: nat, b: nat)
    ensures First(s, Entry(Root(14), a)) == 12 + s + s * s + a * (s * s)
    ensures First(s, Entry(Entry(Root(14), a), b)) == 12 + s + s * s + a * (s * s) + b * s
    ensures Level(Entry(Entry(Root(14), a), b)) == 1
  {
    assert Level(Root(14)) == 3 && Level(Entry(Root(14), a)) == 2;
    assert First(s, Entry(Root(14), a)) == First(s, Root(14)) + a * Span(s, 2);
    assert First(s, Entry(Entry(Root(14), a), b)) == First(s, Entry(Root(14), a)) + b * Span(s, 1);
  }

  lemma LeafFirst(s: nat, j: nat)
    requires s >= 1
    ensures First(s, LeafSlot(s, j)) == 12 + j * s && Level(LeafSlot(s, j)) == 1
  {
    if j > s {
      var t := j - s - 1;
      var a, b := Quot(t, s), Rem(t, s);
      QuotRem(t, s);
      FirstDeep(s, a, b);
      Regroup(s, j, t, a, b);
    } else if j > 0 {
      Distribute(j - 1, s);
      FirstMiddle(s, j - 1);
    }
  }

  lemma FirstMiddle(s: nat, r: nat)
    ensures First(s, Entry(Root(13), r)) == 12 + s + r * s
  {
    assert First(s, Entry(Root(13), r)) == First(s, Root(13)) + r * Span(s, 1);
  }

  lemma LeafOk(s: nat, j: nat)
    requires s >= 1 && j <= s + s * s
    ensures Ok(s, LeafSlot(s, j))
  {
    if j > s {
      QuotBelow(j - s - 1, s);
      assert Level(Root(14)) == 3 && Level(Entry(Root(14), Quot(j - s - 1, s))) == 2;
    }
  }

  lemma Regroup(s: nat, j: nat, t: nat, a: nat, b: nat)
    requires t == a * s + b && j == t + s + 1
    ensures s + s * s + a * (s * s) + b * s == j * s
  {
    MulAssoc(a, s, s);
    MulAdd(a * s, b, s);
    MulAdd(t, s + 1, s);
    MulAdd(s, 1, s);
  }

  lemma QuotBelow(t: nat, s: nat)
    requires s >= 1 && t < s * s
    ensures Quot(t, s) < s && Rem(t, s) < s
  {
    QuotRem(t, s);
    if Quot(t, s) >= s { MulMono(s, Quot(t, s), s); }
  }

  lemma FewEnough(s: nat, o: nat, j: nat)
    requires s >= 1 && 12 <= o < Max(s) && j * s <= o - 12
    ensures j <= s + s * s
  {
    MaxIs(s);
    if j > s + s * s {
      MulAdd(s + s * s, 1, s);
      MulAdd(s, s * s, s);
      MulMono(s + s * s + 1, j, s);
    }
  }

  lemma DataFirst(s: nat, leaf: Slot, r: nat)
    requires Level(leaf) == 1
    ensures First(s, Entry(leaf, r)) == First(s, leaf) + r && Level(Entry(leaf, r)) == 0
  {
    assert First(s, Entry(leaf, r)) == First(s, leaf) + r * Span(s, 0);
  }

  lemma PathFirst(s: nat, o: nat)
    requires s >= 1
    ensures First(s, PathOf(s, o)) == o && Level(PathOf(s, o)) == 0
  {
    if o >= 12 {
      var j := Quot(o - 12, s);
      QuotRem(o - 12, s);
      LeafFirst(s, j);
      DataFirst(s, LeafSlot(s, j), Rem(o - 12, s));
    }
  }

  lemma PathOk(s: nat, o: nat)
    requires s >= 1 && o < Max(s)
    ensures Ok(s, PathOf(s, o))
  {
    if o >= 12 {
      var j := Quot(o - 12, s);
      QuotRem(o - 12, s);
      FewEnough(s, o, j);
      LeafOk(s, j);
      LeafFirst(s, j);
    }
  }

  lemma LeafPath(s: nat, j: nat, r: nat)
    requires r < s
    ensures PathOf(s, 12 + j * s + r) == Entry(LeafSlot(s, j), r)
  {
    QuotUnique(j * s + r, s, j, r);
  }

  /** A data place is the place of its own offset. */
  lemma PathUnique(s: nat, y: Slot)
    requires s >= 1 && Ok(s, y) && Level(y) == 0
    ensures PathOf(s, First(s, y)) == y
  {
    if y.Entry? {
      var j := LeafNumber(s, y.node);
      LeafFirst(s, j);
      DataFirst(s, y.node, y.r);
      LeafPath(s, j, y.r);
    }
  }

  lemma LeafNumber(s: nat, leaf: Slot) returns (j: nat)
    requires s >= 1 && Ok(s, leaf) && Level(leaf) == 1
    ensures leaf == LeafSlot(s, j)
  {
    match leaf {
      case Root(k) => j := 0;
      case Entry(Root(k), r) => j := r + 1;
      case Entry(Entry(p, a), b) =>
        assert Ok(s, leaf.node) && Ok(s, p) && Level(p) == 3;
        if p.Entry? { LevelBound(s, p.node); }
        QuotUnique(a * s + b, s, a, b);
        j := s + 1 + (a * s + b);
    }
  }

  lemma {:induction false} LeftmostIs(s: nat, x: Slot)
    requires s >= 1 && Ok(s, x)
    ensures Ok(s, Leftmost(x)) && Level(Leftmost(x)) == 0
    ensures First(s, Leftmost(x)) == First(s, x) && InPath(x, Leftmost(x))
    decreases Level(x)
  {
    LevelBound(s, x);
    if Level(x) > 0 {
      LeftmostIs(s, Entry(x, 0));
      PathTrans(x, Entry(x, 0), Leftmost(x));
    }
  }

  lemma {:induction false} LevelBound(s: nat, x: Slot)
    requires Ok(s, x)
    ensures 0 <= Level(x) <= 3
  {
    if x.Entry? { LevelBound(s, x.node); }
  }

  lemma {:induction false} PathTrans(a: Slot, b: Slot, c: Slot)
    requires InPath(a, b) && InPath(b, c)
    ensures InPath(a, c)
  {
    if b != c { PathTrans(a, b, c.node); }
  }

  /** The places that begin at an offset lie on its path. */
  lemma StartsOnPath(s: nat, x: Slot, o: nat)
    requires s >= 1 && Ok(s, x) && First(s, x) == o
    ensures InPath(x, PathOf(s, o))
  {
    LeftmostIs(s, x);
    PathUnique(s, Leftmost(x));
  }

  // ----- the coordinates computed on the way down

  lemma SingleCoordinates(s: nat, start: nat)
    requires start < s
    ensures LeafSlot(s, Quot(start, s)) == Root(12) && Rem(start, s) == start
  {
    QuotUnique(start, s, 0, start);
  }

  lemma DoubleCoordinates(s: nat, start: nat, offset: nat)
    requires s >= 1 && start == offset + s && offset < s * s
    ensures LeafSlot(s, Quot(start, s)) == Entry(Root(13), Quot(offset, s)) && Quot(offset, s) < s
    ensures Rem(start, s) == Rem(offset, s)
  {
    QuotBelow(offset, s);
    QuotRem(offset, s);
    Distribute(Quot(offset, s), s);
    QuotUnique(start, s, Quot(offset, s) + 1, Rem(offset, s));
  }

  lemma TripleCoordinates(s: nat, start: nat, offset: nat, i: nat, k: nat, r: nat)
    requires s >= 1 && start == offset + s + s * s && start + 12 < Max(s)
    requires offset == i * (s * s) + (k * s + r) && k < s && r < s
    ensures LeafSlot(s, Quot(start, s)) == Entry(Entry(Root(14), i), k) && i < s && Rem(start, s) == r
  {
    TripleSum(s, start, offset, i, k, r);
    TripleLeaf(s, start, i * s + k, i, k, r);
    TripleBound(s, offset, i, k * s + r);
  }

  lemma TripleSum(s: nat, start: nat, offset: nat, i: nat, k: nat, r: nat)
    requires start == offset + s + s * s && offset == i * (s * s) + (k * s + r)
    ensures start == (i * s + k + s + 1) * s + r
  {
    Regroup(s, i * s + k + s + 1, i * s + k, i, k);
  }

  lemma TripleLeaf(s: nat, start: nat, t: nat, i: nat, k: nat, r: nat)
    requires start == (t + s + 1) * s + r && t == i * s + k && k < s && r < s
    ensures LeafSlot(s, Quot(start, s)) == Entry(Entry(Root(14), i), k) && Rem(start, s) == r
  {
    QuotUnique(start, s, t + s + 1, r);
    QuotUnique(t, s, i, k);
  }

  lemma TripleBound(s: nat, offset: nat, i: nat, rest: nat)
    requires offset + s + s * s + 12 < Max(s) && offset == i * (s * s) + rest
    ensures i < s
  {
    MaxIs(s);
    if i >= s { MulMono(s, i, s * s); }
  }

  lemma Square(s: nat)
    requires s >= 1
    ensures s * s >= 1
  {
    MulMono(1, s, s);
  }

  /** The three divisions of the triple case agree on one decomposition. */
  lemma Divisions(s: nat, offset: nat, i: nat, rest: nat, k: nat, last: nat)
    requires s >= 1 && offset == i * (s * s) + rest && rest < s * s && rest == k * s + last && last < s
    ensures k < s && Rem(offset, s) == last && offset == i * (s * s) + (k * s + last)
  {
    if k >= s { MulMono(s, k, s); }
    MulAssoc(i, s, s);
    MulAdd(i * s, k, s);
    QuotUnique(offset, s, i * s + k, last);
  }

  // ----- what a whole tree is

  type Names = map<Slot, nat>

  ghost function Val(g: Names, x: Slot): nat { if x in g then g[x] else 0 }

  ghost predicate Rooted(block: seq<nat>, g: Names) {
    |block| == 15 && forall k: nat | k < 15 :: block[k] == Val(g, Root(k))
  }

  /** The block that a place names holds the numbers of the places under it. */
  ghost predicate Row(s: nat, ptrs: map<nat, seq<nat>>, g: Names, x: Slot)
    requires x in g
  {
    g[x] in ptrs && |ptrs[g[x]]| == s && forall r: nat | r < s :: ptrs[g[x]][r] == Val(g, Entry(x, r))
  }

  ghost predicate Rows(s: nat, ptrs: map<nat, seq<nat>>, g: Names) {
    forall x {:trigger Row(s, ptrs, g, x)} | x in g && Level(x) >= 1 :: Row(s, ptrs, g, x)
  }

  /** No block is named twice, and none is block 0. */
  ghost predicate Owned(g: Names, owner: map<nat, Slot>) {
    forall x | x in g :: g[x] != 0 && g[x] in owner && owner[g[x]] == x
  }

  ghost predicate Closed(s: nat, g: Names) {
    && (forall x {:trigger Ok(s, x)} | x in g :: Ok(s, x))
    && (forall x, r | Entry(x, r) in g :: x in g)
  }

  ghost predicate Whole(s: nat, block: seq<nat>, ptrs: map<nat, seq<nat>>, g: Names, owner: map<nat, Slot>) {
    Rooted(block, g) && Rows(s, ptrs, g) && Owned(g, owner) && Closed(s, g)
  }

  /** No holes: exactly the places needed for the first `n` data blocks. */
  ghost predicate Filled(s: nat, g: Names, n: nat) {
    forall x {:trigger FilledAt(s, g, n, x)} :: FilledAt(s, g, n, x)
  }

  ghost predicate FilledAt(s: nat, g: Names, n: nat, x: Slot) {
    x in g <==> Ok(s, x) && First(s, x) < n
  }

  /** In a file without holes the data places are those of the offsets below its size. */
  lemma FilledPath(s: nat, g: Names, n: nat, o: nat)
    requires s >= 1 && Filled(s, g, n) && o < Max(s)
    ensures PathOf(s, o) in g <==> o < n
  {
    PathFirst(s, o);
    PathOk(s, o);
    assert FilledAt(s, g, n, PathOf(s, o));
  }

  ghost predicate Spare(next: nat, count: nat, owner: map<nat, Slot>) {
    (count > 0 ==> next > 0) && forall v | next <= v < next + count :: v !in owner
  }

  lemma StillSpare(next: nat, count: nat, owner: map<nat, Slot>, v: nat, x: Slot)
    requires Spare(next, count, owner) && !(next <= v < next + count)
    ensures Spare(next, count, owner[v := x])
  {
  }

  ghost predicate Apart(a: nat, m: nat, b: nat, n: nat) { m == 0 || n == 0 || a + m <= b || b + n <= a }

  /** The last leaf walked to is still the right one. */
  ghost predicate Remembered(s: nat, block: seq<nat>, g: Names, ident: nat, index: nat, pblock: nat)
    requires s >= 1 && |block| == 15
  {
    ident != 0 && ident == block[0] ==> LeafSlot(s, index) in g && pblock == g[LeafSlot(s, index)]
  }

  /** The blocks taken off the bitmap: linked, in reserve, or just taken from a reserve. */
  ghost predicate Stocked(stock: set<nat>, owner: map<nat, Slot>, db: nat, dbs: nat, ib: nat, ibs: nat,
      hand: set<nat>) {
    forall v {:trigger v in stock} ::
      v in stock <==> (v in owner || db <= v < db + dbs || ib <= v < ib + ibs || v in hand)
  }

  ghost predicate TakenOff(free: set<nat>, free': set<nat>, start: nat, count: nat) {
    && (forall v | start <= v < start + count :: v in free)
    && (forall v {:trigger v in free'} :: v in free' <==> v in free && !(start <= v < start + count))
  }

  ghost predicate Kept(g: Names, g': Names) {
    forall x {:trigger x in g'} {:trigger g'[x]} | x in g :: x in g' && g'[x] == g[x]
  }

  lemma KeptTrans(a: Names, b: Names, c: Names)
    requires Kept(a, b) && Kept(b, c)
    ensures Kept(a, c)
  {
  }

  /** Naming a new block in an empty place of the inode. */
  lemma LinkRoot(s: nat, block: seq<nat>, ptrs: map<nat, seq<nat>>, g: Names, owner: map<nat, Slot>, k: nat, v: nat,
                 block': seq<nat>, ptrs': map<nat, seq<nat>>, g': Names, owner': map<nat, Slot>)
    requires Whole(s, block, ptrs, g, owner) && k < 15 && Root(k) !in g && v != 0 && v !in owner
    requires block' == block[k := v] && g' == g[Root(k) := v] && owner' == owner[v := Root(k)]
    requires ptrs' == if k < 12 then ptrs else ptrs[v := seq(s, _ => 0)]
    ensures Whole(s, block', ptrs', g', owner')
  {
    forall x | x in g' && Level(x) >= 1
      ensures Row(s, ptrs', g', x)
    {
      if x in g { assert Row(s, ptrs, g, x); }
    }
  }

  /** Naming a new block in an empty entry. */
  lemma LinkEntry(s: nat, block: seq<nat>, ptrs: map<nat, seq<nat>>, g: Names, owner: map<nat, Slot>,
                  p: Slot, r: nat, v: nat,
                  ptrs': map<nat, seq<nat>>, g': Names, owner': map<nat, Slot>)
    requires Whole(s, block, ptrs, g, owner) && p in g && Level(p) >= 1 && r < s && Entry(p, r) !in g
    requires v != 0 && v !in owner && Row(s, ptrs, g, p)
    requires g' == g[Entry(p, r) := v] && owner' == owner[v := Entry(p, r)]
    requires var row: seq<nat> := ptrs[g[p]][r := v];
             ptrs' == if Level(p) == 1 then ptrs[g[p] := row] else ptrs[v := seq(s, _ => 0)][g[p] := row]
    ensures Whole(s, block, ptrs', g', owner')
  {
    forall x | x in g' && Level(x) >= 1
      ensures Row(s, ptrs', g', x)
    {
      if x in g { assert Row(s, ptrs, g, x); }
    }
  }

  // ----- growth

  /** One more data block fills exactly the places on its path. */
  lemma FilledNext(s: nat, g: Names, g': Names, n: nat)
    requires s >= 1 && n < Max(s) && Filled(s, g, n)
    requires forall x :: x in g' <==> x in g || InPath(x, PathOf(s, n))
    ensures Filled(s, g', n + 1)
  {
    PathFirst(s, n);
    PathOk(s, n);
    var n' := n + 1;
    forall x ensures FilledAt(s, g', n', x) { FilledNextAt(s, g, g', n, x); }
  }

  lemma FilledNextAt(s: nat, g: Names, g': Names, n: nat, x: Slot)
    requires s >= 1 && n < Max(s) && Filled(s, g, n)
    requires x in g' <==> x in g || InPath(x, PathOf(s, n))
    ensures FilledAt(s, g', n + 1, x)
  {
    assert FilledAt(s, g, n, x);
    PathFirst(s, n);
    PathOk(s, n);
    if InPath(x, PathOf(s, n)) {
      FirstMono(s, x, PathOf(s, n));
      PathOkUp(s, x, PathOf(s, n));
    }
    if Ok(s, x) && First(s, x) == n { StartsOnPath(s, x, n); }
  }

  lemma {:induction false} PathOkUp(s: nat, y: Slot, x: Slot)
    requires InPath(y, x) && Ok(s, x)
    ensures Ok(s, y)
  {
    if y != x { PathOkUp(s, y, x.node); }
  }

  /** Places on the way to a leaf that are not there yet. */
  ghost function Missing(g: Names, x: Slot): nat {
    (if x in g then 0 else 1) + if x.Entry? then Missing(g, x.node) else 0
  }

  /** They are the pointer blocks that the next data block costs. */
  lemma MissingIsCost(s: nat, g: Names, n: nat)
    requires s >= 1 && 12 <= n < Max(s) && Filled(s, g, n)
    ensures Needed(s, n + 1) == Needed(s, n) + Missing(g, LeafSlot(s, Quot(n - 12, s)))
  {
    var j, r := Quot(n - 12, s), Rem(n - 12, s);
    QuotRem(n - 12, s);
    NeededStep(s, n, j, r);
    FewEnough(s, n, j);
    LeafFirst(s, j);
    LeafOk(s, j);
    if r > 0 {
      NoneMissing(s, g, LeafSlot(s, j), n);
    } else if j > s {
      var t := j - s - 1;
      QuotRem(t, s);
      DeepMissing(s, g, n, j, Quot(t, s), Rem(t, s));
    } else if j > 0 {
      FirstMiddle(s, j - 1);
      if j > 1 { MulMono(1, j - 1, s); }
      assert (j - 1) * s == 0 <==> j == 1;
      assert j - s - 1 < 0;
      assert FilledAt(s, g, n, Root(13)) && FilledAt(s, g, n, Entry(Root(13), j - 1));
      assert Root(13) in g <==> j > 1;
    } else {
      assert FilledAt(s, g, n, Root(12));
    }
  }

  lemma {:induction false} NoneMissing(s: nat, g: Names, x: Slot, n: nat)
    requires Filled(s, g, n) && Ok(s, x) && First(s, x) < n
    ensures Missing(g, x) == 0
  {
    assert FilledAt(s, g, n, x);
    if x.Entry? {
      FirstMono(s, x.node, x);
      NoneMissing(s, g, x.node, n);
    }
  }

  lemma DeepMissing(s: nat, g: Names, n: nat, j: nat, a: nat, b: nat)
    requires s >= 1 && Filled(s, g, n) && j > s && j - s - 1 == a * s + b && b < s
    requires n == 12 + j * s && Ok(s, Entry(Entry(Root(14), a), b))
    ensures Missing(g, Entry(Entry(Root(14), a), b)) == LeafCost(s, j)
  {
    FirstDeep(s, a, b);
    Regroup(s, j, j - s - 1, a, b);
    QuotUnique(j - s - 1, s, a, b);
    assert b == 0 <==> b * s == 0;
    assert a == 0 <==> a * (s * s) == 0;
    assert Ok(s, Entry(Root(14), a)) && Ok(s, Root(14));
    assert FilledAt(s, g, n, Root(14)) && FilledAt(s, g, n, Entry(Root(14), a));
    assert FilledAt(s, g, n, Entry(Entry(Root(14), a), b));
    assert Entry(Root(14), a) in g <==> b > 0;
    assert Root(14) in g <==> a > 0 || b > 0;
    assert j == s + 1 <==> a == 0 && b == 0;
    assert Missing(g, Root(14)) == if a == 0 && b == 0 then 1 else 0;
    assert Missing(g, Entry(Root(14), a)) == Missing(g, Root(14)) + if b == 0 then 1 else 0;
  }

  /** A walk that links what is missing adds exactly its path. */
  ghost predicate Grown(g: Names, g': Names, x: Slot, create: bool) {
    && (forall y {:trigger y in g'} :: y in g' <==> y in g || (create && InPath(y, x)))
    && (forall y {:trigger g'[y]} | y in g :: g'[y] == g[y])
  }

  /** ... and uses up one reserved block for each place it had to fill. */
  ghost predicate Reached(g: Names, ib: nat, g': Names, ib': nat, x: Slot, create: bool) {
    Grown(g, g', x, create) && ib == ib' + if create then Missing(g, x) else 0
  }

  lemma RootGrown(g: Names, g': Names, k: nat, create: bool, v: nat)
    requires g' == if create && Root(k) !in g then g[Root(k) := v] else g
    ensures Grown(g, g', Root(k), create)
  {
  }

  lemma RootReached(g: Names, ib: nat, g': Names, ib': nat, k: nat, create: bool, v: nat)
    requires g' == if create && Root(k) !in g then g[Root(k) := v] else g
    requires ib == ib' + if create && Root(k) !in g then 1 else 0
    ensures Reached(g, ib, g', ib', Root(k), create)
  {
  }

  lemma EntryReached(g: Names, ib: nat, mid: Names, left: nat, g': Names, ib': nat, p: Slot, r: nat, create: bool,
      v: nat)
    requires Reached(g, ib, mid, left, p, create)
    requires g' == if create && Entry(p, r) !in mid then mid[Entry(p, r) := v] else mid
    requires left == ib' + if create && Entry(p, r) !in mid then 1 else 0
    ensures Reached(g, ib, g', ib', Entry(p, r), create)
  {
    GrownMore(g, mid, g', p, r, create, v);
  }

  lemma GrownMore(g: Names, mid: Names, g': Names, p: Slot, r: nat, create: bool, v: nat)
    requires Grown(g, mid, p, create)
    requires g' == if create && Entry(p, r) !in mid then mid[Entry(p, r) := v] else mid
    ensures Grown(g, g', Entry(p, r), create) && (Entry(p, r) in mid <==> Entry(p, r) in g)
  {
    NotAbove(p, r, p);
  }

  /** Looking finds nothing under a place that is not there. */
  lemma NothingBelow(s: nat, g: Names, g': Names, p: Slot, r: nat)
    requires Grown(g, g', p, false) && Closed(s, g') && p !in g'
    ensures Grown(g, g', Entry(p, r), false) && Entry(p, r) !in g'
  {
  }

  /** Nothing is missing on the way to a place that is there. */
  lemma {:induction false} PathThere(s: nat, g: Names, x: Slot, create: bool)
    requires Closed(s, g) && x in g
    ensures Missing(g, x) == 0 && Grown(g, g, x, create)
  {
    if x.Entry? { PathThere(s, g, x.node, create); }
  }

  /** A place is not on the way to the one that holds it. */
  lemma {:induction false} NotAbove(p: Slot, r: nat, x: Slot)
    requires InPath(x, p)
    ensures !InPath(Entry(p, r), x)
    decreases x
  {
    if x.Entry? {
      if InPath(Entry(p, r), x) {
        TooDeep(x, p);
        TooDeep(Entry(p, r), x);
      }
    }
  }

  function Height(x: Slot): nat { if x.Root? then 0 else 1 + Height(x.node) }

  lemma {:induction false} TooDeep(y: Slot, x: Slot)
    requires InPath(y, x)
    ensures Height(y) <= Height(x)
  {
    if y != x { TooDeep(y, x.node); }
  }

  /** In a file without holes every offset has its block, and no two share one. */
  lemma TotalInjective(s: nat, g: Names, owner: map<nat, Slot>, n: nat, o: nat, o': nat)
    requires s >= 1 && n <= Max(s) && Filled(s, g, n) && Owned(g, owner)
    requires o < n && o' < n && o != o'
    ensures PathOf(s, o) in g && PathOf(s, o') in g && g[PathOf(s, o)] != 0 && g[PathOf(s, o)] != g[PathOf(s, o')]
  {
    FilledPath(s, g, n, o);
    FilledPath(s, g, n, o');
    PathFirst(s, o);
    PathFirst(s, o');
  }

  /** One search for free blocks: how many were asked for, and how many it gave. */
  datatype Grant = Grant(asked: nat, given: nat)

  /** Every search from number `from` on that was asked for anything found something. */
  ghost predicate SomeFound(log: seq<Grant>, from: nat)
  {
    forall i | from <= i < |log| :: log[i].asked > 0 ==> log[i].given > 0
  }

  /** ... and the first one found all it was asked for. */
  ghost predicate EnoughFound(log: seq<Grant>, from: nat)
  {
    SomeFound(log, from) && (from < |log| ==> log[from].given == log[from].asked)
  }

  /** Which blocks of the volume are free; the search itself (ext2_blocks_alloc) may return any run. */
  class Bitmap {
    var free: set<nat>
    ghost var log: seq<Grant>

    constructor (free: set<nat>)
      ensures this.free == free
    {
      this.free := free;
      log := [];
    }

    method Alloc(dev: Answers, count: nat) returns (status: int, start: nat, left: nat)
      requires dev.Valid() && !dev.failed
      modifies this, dev
      ensures dev.Valid() && (status < 0 ==> free == old(free) && (status == -EIO || status == -ENOSPC))
      ensures status == -EIO <==> dev.failed
      ensures status == -ENOSPC <==> !dev.failed && count > 0 && old(free) == {}
      ensures log == old(log) + [Grant(count, if status >= 0 then status else 0)]
      ensures status >= 0 ==> status + left == count && (count > 0 ==> status > 0)
      ensures status >= 0 ==> TakenOff(old(free), free, start, status)
    {
      status, start, left := 0, 0, count;
      var ok := dev.Ask();
      if !ok {
        status := -EIO;
      } else if count > 0 {
        if free == {} {
          status := -ENOSPC;
        } else {
          var some :| some in free;
          assert forall v | some <= v < some + 1 :: v in free;
          var first: nat, len: nat :| first in free && 1 <= len <= count
              && forall v | first <= v < first + len :: v in free;
          start, status, left := first, len, count - len;
          free := set v | v in free && !(start <= v < start + status);
        }
      }
      log := log + [Grant(count, if status >= 0 then status else 0)];
    }
  }

  /** An inode, the pointer blocks seen through the cache, the leaf remembered by the context, and the
      reserves of blocks to link. */
  class FileMap {
    const s: nat
    var block: seq<nat>
    var ptrs: map<nat, seq<nat>>
    var ptrIdent: nat
    var ptrIndex: nat
    var ptrBlock: nat
    var create: bool
    var dbNext: nat
    var dbCount: nat
    var ibNext: nat
    var ibCount: nat
    /** All blocks the inode says it uses, pointer blocks included. */
    var total: nat
    ghost var g: Names
    ghost var owner: map<nat, Slot>
    ghost var stock: set<nat>

    /** The inode of an empty file. */
    constructor (s: nat)
      requires s >= 1
      ensures Valid() && Leafy() && this.s == s && Filled(s, g, 0) && total == 0 && !create
      ensures dbCount == 0 && ibCount == 0 && owner == map[] && ptrIdent == 0
    {
      this.s := s;
      block, ptrs := seq(15, _ => 0), map[];
      ptrIdent, ptrIndex, ptrBlock := 0, 0, 0;
      create, dbNext, dbCount, ibNext, ibCount, total := false, 0, 0, 0, 0, 0;
      g, owner, stock := map[], map[], {};
    }

    /** Every block taken off the bitmap is linked in the tree or still in reserve. */
    ghost predicate Valid()
      reads this
    {
      Core() && Stocked(stock, owner, dbNext, dbCount, ibNext, ibCount, {})
    }

    ghost predicate Core()
      reads this
    {
      && s >= 1 && Whole(s, block, ptrs, g, owner)
      && Spare(dbNext, dbCount, owner) && Spare(ibNext, ibCount, owner) && Apart(dbNext, dbCount, ibNext, ibCount)
      && !(dbNext <= ptrIdent < dbNext + dbCount)
    }

    ghost predicate Leafy()
      requires Core()
      reads this
    {
      Remembered(s, block, g, ptrIdent, ptrIndex, ptrBlock)
    }

    ghost predicate Clear(v: nat)
      reads this
    {
      && v != 0 && v !in owner
      && !(dbNext <= v < dbNext + dbCount) && !(ibNext <= v < ibNext + ibCount)
    }

    method TakeData() returns (v: nat)
      requires Valid() && dbCount > 0
      modifies this`dbNext, this`dbCount
      ensures Core() && Clear(v) && dbCount == old(dbCount) - 1 && v != ptrIdent
      ensures Stocked(stock, owner, dbNext, dbCount, ibNext, ibCount, {v})
    {
      v := dbNext;
      assert v !in owner;
      dbNext, dbCount := dbNext + 1, dbCount - 1;
    }

    method TakePointer() returns (v: nat)
      requires Valid() && ibCount > 0
      modifies this`ibNext, this`ibCount
      ensures Core() && Clear(v) && ibCount == old(ibCount) - 1
      ensures Stocked(stock, owner, dbNext, dbCount, ibNext, ibCount, {v})
    {
      v := ibNext;
      assert v !in owner;
      ibNext, ibCount := ibNext + 1, ibCount - 1;
    }

    /** ext2_inode_direct_block. */
    method DirectBlock(k: nat) returns (next: nat)
      requires Valid() && k < 15
      requires create && Root(k) !in g ==> if k < 12 then dbCount > 0 else ibCount > 0
      modifies this`block, this`ptrs, this`dbNext, this`dbCount, this`ibNext, this`ibCount, this`g, this`owner
      ensures Valid() && next == Val(g, Root(k))
      ensures g == if create && Root(k) !in old(g) then old(g)[Root(k) := next] else old(g)
      ensures dbCount == old(dbCount) - (if create && Root(k) !in old(g) && k < 12 then 1 else 0)
      ensures ibCount == old(ibCount) - (if create && Root(k) !in old(g) && k >= 12 then 1 else 0)
      ensures block == old(block)[k := next] && (create && Root(k) !in old(g) && k < 12 ==> next != ptrIdent)
    {
      next := block[k];
      if next == 0 && create {
        if k < 12 { next := TakeData(); } else { next := TakePointer(); }
        LinkDirect(k, next);
      }
    }

    /** Write a new block's number into the inode, after clearing the block if it is for pointers. */
    method LinkDirect(k: nat, next: nat)
      requires Core() && k < 15 && Root(k) !in g
      requires Clear(next) && Stocked(stock, owner, dbNext, dbCount, ibNext, ibCount, {next})
      modifies this`block, this`ptrs, this`g, this`owner
      ensures Valid() && g == old(g)[Root(k) := next] && block == old(block)[k := next]
    {
      if k >= 12 { ptrs := ptrs[next := seq(s, _ => 0)]; }
      block := block[k := next];
      StillSpare(dbNext, dbCount, owner, next, Root(k));
      StillSpare(ibNext, ibCount, owner, next, Root(k));
      g, owner := g[Root(k) := next], owner[next := Root(k)];
      LinkRoot(s, old(block), old(ptrs), old(g), old(owner), k, next, block, ptrs, g, owner);
    }

    /** Write a new block's number into an entry, after clearing the block if it is for pointers. */
    method Link(b: nat, r: nat, next: nat, data: bool, ghost p: Slot)
      requires Core() && p in g && g[p] == b && r < s && Level(p) >= 1 && data == (Level(p) == 1)
      requires Entry(p, r) !in g && Clear(next) && Stocked(stock, owner, dbNext, dbCount, ibNext, ibCount, {next})
      modifies this`ptrs, this`g, this`owner
      ensures Valid() && g == old(g)[Entry(p, r) := next]
    {
      assert Row(s, ptrs, g, p);
      if !data { ptrs := ptrs[next := seq(s, _ => 0)]; }
      var row: seq<nat> := ptrs[b][r := next];
      ptrs := ptrs[b := row];
      StillSpare(dbNext, dbCount, owner, next, Entry(p, r));
      StillSpare(ibNext, ibCount, owner, next, Entry(p, r));
      g, owner := g[Entry(p, r) := next], owner[next := Entry(p, r)];
      LinkEntry(s, block, old(ptrs), old(g), old(owner), p, r, next, ptrs, g, owner);
    }

    /** ext2_inode_indirect_block on the block of place `p`. */
    method IndirectBlock(b: nat, r: nat, data: bool, ghost p: Slot)
      requires Valid() && p in g && g[p] == b && r < s && Level(p) >= 1 && data == (Level(p) == 1)
      requires create && Entry(p, r) !in g ==> if data then dbCount > 0 else ibCount > 0
      modifies this`ptrs, this`dbNext, this`dbCount, this`ibNext, this`ibCount, this`g, this`owner
      ensures Valid() && b in ptrs && r < |ptrs[b]| && ptrs[b][r] == Val(g, Entry(p, r))
      ensures g == if create && Entry(p, r) !in old(g) then old(g)[Entry(p, r) := ptrs[b][r]] else old(g)
      ensures dbCount == old(dbCount) - (if create && Entry(p, r) !in old(g) && data then 1 else 0)
      ensures ibCount == old(ibCount) - (if create && Entry(p, r) !in old(g) && !data then 1 else 0)
    {
      assert Row(s, ptrs, g, p);
      if ptrs[b][r] == 0 && create {
        var next;
        if data { next := TakeData(); } else { next := TakePointer(); }
        Link(b, r, next, data, p);
      }
      assert Row(s, ptrs, g, p);
    }

    /** Two levels down the double or the triple tree. */
    method WalkDouble(root: nat, i: nat) returns (b: nat)
      requires Valid() && 13 <= root <= 14 && i < s
      requires create ==> ibCount >= Missing(g, Entry(Root(root), i))
      modifies this`block, this`ptrs, this`dbNext, this`dbCount, this`ibNext, this`ibCount, this`g, this`owner
      ensures Valid() && b == Val(g, Entry(Root(root), i))
      ensures Reached(old(g), old(ibCount), g, ibCount, Entry(Root(root), i), create)
      ensures dbCount == old(dbCount) && block[0] == old(block)[0]
    {
      ghost var x := Root(root);
      b := DirectBlock(root);
      RootReached(old(g), old(ibCount), g, ibCount, root, create, b);
      if b == 0 { return; }
      ghost var mid, left := g, ibCount;
      IndirectBlock(b, i, false, x);
      b := ptrs[b][i];
      EntryReached(old(g), old(ibCount), mid, left, g, ibCount, x, i, create, b);
    }

    /** Down the triple tree. */
    method WalkTriple(i: nat, k: nat) returns (b: nat)
      requires Valid() && i < s && k < s
      requires create ==> ibCount >= Missing(g, Entry(Entry(Root(14), i), k))
      modifies this`block, this`ptrs, this`dbNext, this`dbCount, this`ibNext, this`ibCount, this`g, this`owner
      ensures Valid() && b == Val(g, Entry(Entry(Root(14), i), k))
      ensures Reached(old(g), old(ibCount), g, ibCount, Entry(Entry(Root(14), i), k), create)
      ensures dbCount == old(dbCount) && block[0] == old(block)[0]
    {
      ghost var y := Entry(Root(14), i);
      b := WalkDouble(14, i);
      if b == 0 { return; }
      ghost var mid, left := g, ibCount;
      IndirectBlock(b, k, false, y);
      b := ptrs[b][k];
      EntryReached(old(g), old(ibCount), mid, left, g, ibCount, y, k, create, b);
    }

    method DoubleIndices(ghost start: nat, offset: nat) returns (i: nat, r: nat)
      requires s >= 1 && start == offset + s && offset < s * s
      ensures LeafSlot(s, Quot(start, s)) == Entry(Root(13), i) && i < s && r == Rem(start, s)
    {
      i, r := Divide(offset, s);
      DoubleCoordinates(s, start, offset);
    }

    method TripleIndices(ghost start: nat, offset: nat) returns (i: nat, k: nat, r: nat)
      requires s >= 1 && start == offset + s + s * s && start + 12 < Max(s)
      ensures LeafSlot(s, Quot(start, s)) == Entry(Entry(Root(14), i), k) && i < s && k < s && r == Rem(start, s)
    {
      Square(s);
      var rest, last;
      i, rest := Divide(offset, s * s);
      k, last := Divide(rest, s);
      var q;
      q, r := Divide(offset, s);
      Divisions(s, offset, i, rest, k, last);
      TripleCoordinates(s, start, offset, i, k, r);
    }

    /** The part of ext2_inode_set_block that goes down to the block of data pointers. */
    method WalkToLeaf(start: nat, ghost leaf: Slot) returns (b: nat, r: nat)
      requires Valid() && start + 12 < Max(s) && leaf == LeafSlot(s, Quot(start, s))
      requires create ==> ibCount >= Missing(g, leaf)
      modifies this`block, this`ptrs, this`dbNext, this`dbCount, this`ibNext, this`ibCount, this`g, this`owner
      ensures Valid() && b == Val(g, leaf) && r == Rem(start, s)
      ensures Reached(old(g), old(ibCount), g, ibCount, leaf, create)
      ensures dbCount == old(dbCount) && block[0] == old(block)[0]
    {
      var offset := start;
      if offset < s {
        r := offset;
        SingleCoordinates(s, start);
        b := DirectBlock(12);
        RootReached(old(g), old(ibCount), g, ibCount, 12, create, b);
      } else {
        offset := offset - s;
        if offset < s * s {
          var i;
          i, r := DoubleIndices(start, offset);
          b := WalkDouble(13, i);
        } else {
          offset := offset - s * s;
          var i, k;
          i, k, r := TripleIndices(start, offset);
          b := WalkTriple(i, k);
        }
      }
    }

    /** ext2_inode_set_block: the block at an offset. While growing, whatever is missing on its path is
        linked in. */
    method SetBlock(o: nat) returns (b: nat)
      requires Valid() && Leafy() && o < Max(s) && (o < 12 || block[0] != 0)
      requires create && PathOf(s, o) !in g ==> dbCount > 0
      requires create && o >= 12 ==> ibCount >= Missing(g, LeafSlot(s, Quot(o - 12, s)))
      modifies this`block, this`ptrs, this`dbNext, this`dbCount, this`ibNext, this`ibCount, this`g, this`owner
      modifies this`ptrIdent, this`ptrIndex, this`ptrBlock
      ensures Valid() && b == Val(g, PathOf(s, o)) && (b != 0 ==> Leafy())
      ensures Grown(old(g), g, PathOf(s, o), create)
      ensures dbCount == old(dbCount) - if create && PathOf(s, o) !in old(g) then 1 else 0
      ensures ibCount == old(ibCount) - if create && o >= 12 then Missing(old(g), LeafSlot(s, Quot(o - 12, s))) else 0
      ensures create ==> b != 0
      ensures ptrIdent == old(ptrIdent) || ptrIdent in stock
    {
      if o < 12 {
        b := SetDirect(o);
      } else {
        b := SetIndirect(o - 12);
      }
    }

    /** ext2_inode_get_block inside a file without holes: the same walk, linking nothing. It finds the block unless
        a pointer block cannot be read; a direct pointer, or one in the remembered leaf, needs no reading. */
    method GetBlock(dev: Answers, o: nat, ghost n: nat) returns (b: nat)
      requires Valid() && Leafy() && o < n <= Max(s) && Filled(s, g, n) && dev.Valid() && !dev.failed
      modifies this`ptrIdent, this`ptrIndex, this`ptrBlock, dev
      ensures Valid() && (ptrIdent == old(ptrIdent) || ptrIdent in stock)
      ensures dev.Valid() && (b == 0 <==> dev.failed)
      ensures b != 0 ==> Leafy() && PathOf(s, o) in g && b == g[PathOf(s, o)]
      ensures o < 12 || old(InLeafAt(o - 12)) ==> dev.asked == old(dev.asked) && !dev.failed
    {
      FilledPath(s, g, n, o);
      assert g[PathOf(s, o)] != 0;
      if o < 12 { return block[o]; }
      FilledPath(s, g, n, 0);
      b := GetIndirect(dev, o - 12);
    }

    /** The leaf for this offset behind the direct blocks is the one remembered. */
    ghost predicate InLeafAt(offset: nat)
      reads this
    {
      s >= 1 && |block| > 0 && ptrIdent == block[0] && ptrIndex == Quot(offset, s)
    }

    /** The pointer behind the direct ones, by the remembered leaf or the full walk. */
    method GetIndirect(dev: Answers, offset: nat) returns (b: nat)
      requires Valid() && Leafy() && offset + 12 < Max(s) && Root(0) in g && dev.Valid() && !dev.failed
      requires Entry(LeafSlot(s, Quot(offset, s)), Rem(offset, s)) in g
      modifies this`ptrIdent, this`ptrIndex, this`ptrBlock, dev
      ensures Valid() && (ptrIdent == old(ptrIdent) || ptrIdent in stock)
      ensures dev.Valid() && (b == 0 <==> dev.failed)
      ensures b != 0 ==> Leafy() && b == g[Entry(LeafSlot(s, Quot(offset, s)), Rem(offset, s))]
      ensures old(InLeafAt(offset)) ==> dev.asked == old(dev.asked) && !dev.failed
    {
      var index, r := Divide(offset, s);
      ghost var leaf := LeafSlot(s, index);
      LeafFirst(s, index);
      assert leaf in g && Row(s, ptrs, g, leaf);
      if ptrIdent == block[0] && ptrIndex == index {
        return ptrs[ptrBlock][r];
      }
      b := LoadLeaf(dev, offset, index);
      if b != 0 { b := ptrs[b][r]; }
    }

    /** Walks to the leaf and remembers it; what is remembered changes before the walk can fail. */
    method LoadLeaf(dev: Answers, offset: nat, index: nat) returns (b: nat)
      requires Valid() && offset + 12 < Max(s) && Root(0) in g && dev.Valid() && !dev.failed
      requires index == Quot(offset, s) && LeafSlot(s, index) in g
      modifies this`ptrIdent, this`ptrIndex, this`ptrBlock, dev
      ensures Valid() && ptrIdent in stock && dev.Valid() && (b == 0 <==> dev.failed)
      ensures b != 0 ==> Leafy() && b == g[LeafSlot(s, index)]
    {
      assert block[0] in stock;
      ptrIdent, ptrIndex := block[0], index;
      b := FindLeaf(dev, offset);
      if b == 0 { return 0; }
      var ok := dev.Ask();
      if !ok { return 0; }
      ptrBlock := b;
    }

    /** The block of pointers for an offset, down the tree. */
    method FindLeaf(dev: Answers, start: nat) returns (b: nat)
      requires Valid() && start + 12 < Max(s) && LeafSlot(s, Quot(start, s)) in g && dev.Valid() && !dev.failed
      modifies dev
      ensures dev.Valid() && (b == 0 <==> dev.failed)
      ensures b != 0 ==> b == g[LeafSlot(s, Quot(start, s))]
    {
      var offset := start;
      if offset < s {
        SingleCoordinates(s, start);
        return block[12];
      }
      offset := offset - s;
      if offset < s * s {
        var i, r := DoubleIndices(start, offset);
        b := FindDouble(dev, i);
      } else {
        offset := offset - s * s;
        var i, k, r := TripleIndices(start, offset);
        b := FindTriple(dev, i, k);
      }
    }

    method FindDouble(dev: Answers, i: nat) returns (b: nat)
      requires Valid() && i < s && Entry(Root(13), i) in g && dev.Valid() && !dev.failed
      modifies dev
      ensures dev.Valid() && (b == 0 <==> dev.failed) && (b != 0 ==> b == g[Entry(Root(13), i)])
    {
      var ok := dev.Ask();
      if !ok { return 0; }
      assert Root(13) in g && Row(s, ptrs, g, Root(13));
      b := ptrs[block[13]][i];
    }

    method FindTriple(dev: Answers, i: nat, k: nat) returns (b: nat)
      requires Valid() && i < s && k < s && Entry(Entry(Root(14), i), k) in g && dev.Valid() && !dev.failed
      modifies dev
      ensures dev.Valid() && (b == 0 <==> dev.failed) && (b != 0 ==> b == g[Entry(Entry(Root(14), i), k)])
    {
      var ok := dev.Ask();
      if !ok { return 0; }
      ghost var y := Entry(Root(14), i);
      assert y in g && Root(14) in g;
      assert Level(Root(14)) == 3 && Row(s, ptrs, g, Root(14));
      b := ptrs[block[14]][i];
      ok := dev.Ask();
      if !ok { return 0; }
      assert Level(y) == 2 && Row(s, ptrs, g, y);
      b := ptrs[b][k];
    }

    method SetIndirect(offset: nat) returns (b: nat)
      requires Valid() && Leafy() && offset + 12 < Max(s) && block[0] != 0
      requires create && Entry(LeafSlot(s, Quot(offset, s)), Rem(offset, s)) !in g ==> dbCount > 0
      requires create ==> ibCount >= Missing(g, LeafSlot(s, Quot(offset, s)))
      modifies this`block, this`ptrs, this`dbNext, this`dbCount, this`ibNext, this`ibCount, this`g, this`owner
      modifies this`ptrIdent, this`ptrIndex, this`ptrBlock
      ensures Valid() && b == Val(g, Entry(LeafSlot(s, Quot(offset, s)), Rem(offset, s))) && (b != 0 ==> Leafy())
      ensures Grown(old(g), g, Entry(LeafSlot(s, Quot(offset, s)), Rem(offset, s)), create) && (create ==> b != 0)
      ensures var x := Entry(LeafSlot(s, Quot(offset, s)), Rem(offset, s));
              dbCount == old(dbCount) - if create && x !in old(g) then 1 else 0
      ensures ibCount == old(ibCount) - if create then Missing(old(g), LeafSlot(s, Quot(offset, s))) else 0
      ensures ptrIdent == old(ptrIdent) || ptrIdent in stock
    {
      var index, r := Divide(offset, s);
      var ident := block[0];
      ghost var leaf := LeafSlot(s, index);
      LeafFirst(s, index);
      assert ident == g[Root(0)] && ident in owner;
      if ptrIdent == ident && ptrIndex == index {
        b := SetRemembered(r, leaf);
        return;
      }
      assert ident in stock;
      ptrIdent, ptrIndex := ident, index;
      b := SetWalked(offset, leaf);
    }

    method SetDirect(o: nat) returns (b: nat)
      requires Valid() && Leafy() && o < 12 && (create && Root(o) !in g ==> dbCount > 0)
      modifies this`block, this`ptrs, this`dbNext, this`dbCount, this`ibNext, this`ibCount, this`g, this`owner
      ensures Valid() && b == Val(g, Root(o)) && Leafy() && (create ==> b != 0)
      ensures Grown(old(g), g, Root(o), create) && ibCount == old(ibCount)
      ensures dbCount == old(dbCount) - if create && Root(o) !in old(g) then 1 else 0
    {
      b := DirectBlock(o);
      RootGrown(old(g), g, o, create, b);
    }

    /** The remembered leaf spares the walk. */
    method SetRemembered(r: nat, ghost leaf: Slot) returns (b: nat)
      requires Valid() && Leafy() && ptrIdent == block[0] != 0 && r < s
      requires leaf == LeafSlot(s, ptrIndex) && Level(leaf) == 1
      requires create && Entry(leaf, r) !in g ==> dbCount > 0
      modifies this`ptrs, this`dbNext, this`dbCount, this`ibNext, this`ibCount, this`g, this`owner
      ensures Valid() && b == Val(g, Entry(leaf, r)) && Leafy() && (create ==> b != 0)
      ensures Grown(old(g), g, Entry(leaf, r), create) && Missing(old(g), leaf) == 0 && ibCount == old(ibCount)
      ensures dbCount == old(dbCount) - if create && Entry(leaf, r) !in old(g) then 1 else 0
    {
      PathThere(s, g, leaf, create);
      b := InLeaf(ptrBlock, r, leaf, g);
    }

    /** The full walk, after which the context remembers the leaf. */
    method SetWalked(offset: nat, ghost leaf: Slot) returns (b: nat)
      requires Valid() && offset + 12 < Max(s) && ptrIdent == block[0] != 0 && ptrIndex == Quot(offset, s)
      requires leaf == LeafSlot(s, Quot(offset, s)) && Level(leaf) == 1
      requires create ==> ibCount >= Missing(g, leaf) && (Entry(leaf, Rem(offset, s)) !in g ==> dbCount > 0)
      modifies this`block, this`ptrs, this`dbNext, this`dbCount, this`ibNext, this`ibCount, this`g, this`owner
      modifies this`ptrBlock
      ensures Valid() && b == Val(g, Entry(leaf, Rem(offset, s))) && (b != 0 ==> Leafy()) && (create ==> b != 0)
      ensures Grown(old(g), g, Entry(leaf, Rem(offset, s)), create)
      ensures dbCount == old(dbCount) - if create && Entry(leaf, Rem(offset, s)) !in old(g) then 1 else 0
      ensures ibCount == old(ibCount) - if create then Missing(old(g), leaf) else 0
    {
      QuotRem(offset, s);
      var r;
      b, r := WalkToLeaf(offset, leaf);
      assert create ==> InPath(leaf, leaf) && leaf in g;
      if b == 0 {
        if !create { NothingBelow(s, old(g), g, leaf, Rem(offset, s)); }
        return 0;
      }
      ptrBlock := b;
      b := InLeaf(b, r, leaf, old(g));
      assert LeafSlot(s, ptrIndex) == leaf && g[leaf] == ptrBlock;
    }

    /** The data pointer in a leaf, reached by a walk that began with tree `g0`. */
    method InLeaf(leafBlock: nat, r: nat, ghost leaf: Slot, ghost g0: Names) returns (b: nat)
      requires Valid() && leaf in g && g[leaf] == leafBlock && r < s && Level(leaf) == 1 && Grown(g0, g, leaf, create)
      requires create && Entry(leaf, r) !in g0 ==> dbCount > 0
      modifies this`ptrs, this`dbNext, this`dbCount, this`ibNext, this`ibCount, this`g, this`owner
      ensures Valid() && b == Val(g, Entry(leaf, r)) && (create ==> b != 0)
      ensures Grown(g0, g, Entry(leaf, r), create) && leaf in g && g[leaf] == leafBlock
      ensures ibCount == old(ibCount) && dbCount == old(dbCount) - if create && Entry(leaf, r) !in g0 then 1 else 0
    {
      NotAbove(leaf, r, leaf);
      IndirectBlock(leafBlock, r, true, leaf);
      b := ptrs[leafBlock][r];
      GrownMore(g0, old(g), g, leaf, r, create, b);
    }

    /** One turn of the loop in ext2_inode_expand. */
    method Append(n: nat)
      requires Valid() && Leafy() && n < Max(s) && create && Filled(s, g, n) && dbCount > 0
      requires ibCount >= Needed(s, n + 1) - Needed(s, n)
      modifies this`block, this`ptrs, this`dbNext, this`dbCount, this`ibNext, this`ibCount, this`g, this`owner
      modifies this`ptrIdent, this`ptrIndex, this`ptrBlock
      ensures Valid() && Leafy() && Filled(s, g, n + 1)
      ensures Kept(old(g), g) && (ptrIdent == old(ptrIdent) || ptrIdent in stock)
      ensures dbCount == old(dbCount) - 1 && ibCount == old(ibCount) - (Needed(s, n + 1) - Needed(s, n))
    {
      FilledPath(s, g, n, n);
      if n >= 12 {
        MissingIsCost(s, g, n);
        FilledPath(s, g, n, 0);
      } else {
        NeededStep(s, n, 0, 0);
      }
      var b := SetBlock(n);
      FilledNext(s, old(g), g, n);
    }

    /** A new context reads the inode and its pointer blocks off the disk. */
    method Load(block0: seq<nat>, ptrs0: map<nat, seq<nat>>, total0: nat,
                ghost g0: Names, ghost owner0: map<nat, Slot>, ghost stock0: set<nat>)
      requires s >= 1 && Whole(s, block0, ptrs0, g0, owner0)
      requires forall v {:trigger v in stock0} :: v in stock0 <==> v in owner0
      modifies this
      ensures Valid() && Leafy() && !create && dbCount == 0 && ibCount == 0 && ptrIdent == 0
      ensures block == block0 && ptrs == ptrs0 && total == total0 && g == g0 && owner == owner0 && stock == stock0
    {
      block, ptrs, total := block0, ptrs0, total0;
      ptrIdent, create, dbCount, ibCount := 0, false, 0, 0;
      g, owner, stock := g0, owner0, stock0;
    }

    /** The tree and the bitmap share the volume: what left the free set since `free0` is in stock. */
    ghost predicate Shares(free: set<nat>, free0: set<nat>, owner0: map<nat, Slot>)
      reads this
    {
      && 0 !in free && ptrIdent !in free
      && (forall v {:trigger v in free} :: v in free <==> v in free0 && v !in stock)
      && (forall v {:trigger v in stock} | v in stock :: v in owner0 || v in free0)
    }

    /** ext2_inode_expand: grow a file of `n` data blocks to `goal`. */
    method Expand(dev: Answers, bm: Bitmap, goal: nat, ghost n: nat) returns (status: int)
      requires dev.Valid() && !dev.failed
      requires Valid() && Leafy() && !create && dbCount == 0 && ibCount == 0
      requires Filled(s, g, n) && total == n + Needed(s, n) && Reversible(s, n) && goal <= Max(s)
      requires Shares(bm.free, bm.free, owner)
      modifies this, bm, dev
      ensures dev.Valid() && old(bm.log) <= bm.log
      ensures status == 0 <==> !dev.failed && EnoughFound(bm.log, |old(bm.log)|)
      ensures Valid() && Kept(old(g), g) && status <= 0 && !create
      ensures status == 0 ==> dbCount == 0 && ibCount == 0 && Leafy()
      ensures status == 0 ==> var m := if goal <= n then n else goal;
                Filled(s, g, m) && total == m + Needed(s, m)
      ensures status == 0 ==> Shares(bm.free, old(bm.free), old(owner))
      ensures status == 0 && goal <= n ==> g == old(g) && bm.free == old(bm.free)
    {
      var binum, bdnum := BlocksDist(s, total, true);
      var ainum, adnum := BlocksDist(s, goal, false);
      if adnum <= bdnum { return 0; }
      NeededMono(s, n, goal);
      status := Grow(dev, bm, ainum - binum, bdnum, adnum);
      if status < 0 { return; }
      total := ainum + adnum;
    }

    /** Reserve the pointer blocks, then link the data blocks one by one. */
    method Grow(dev: Answers, bm: Bitmap, pointers: nat, from: nat, goal: nat) returns (status: int)
      requires dev.Valid() && !dev.failed
      requires Valid() && Leafy() && !create && dbCount == 0 && ibCount == 0
      requires from <= goal <= Max(s) && Filled(s, g, from) && pointers == Needed(s, goal) - Needed(s, from)
      requires Shares(bm.free, bm.free, owner)
      modifies this, bm, dev
      ensures dev.Valid() && old(bm.log) <= bm.log
      ensures status == 0 <==> !dev.failed && EnoughFound(bm.log, |old(bm.log)|)
      ensures Valid() && Kept(old(g), g) && status <= 0 && !create
      ensures status == 0 ==> dbCount == 0 && ibCount == 0 && Leafy() && Filled(s, g, goal)
      ensures status == 0 ==> Shares(bm.free, old(bm.free), old(owner))
    {
      var start, left;
      status, start, left := bm.Alloc(dev, pointers);
      if status < 0 { return; }
      if left != 0 { return -ENOSPC; }
      create := true;
      ReservePointers(start, status, old(bm.free), bm.free, old(bm.free), old(owner));
      status := Fill(dev, bm, from, goal, old(bm.free), old(owner));
      create := false;
    }

    method ReservePointers(start: nat, count: nat, ghost free: set<nat>, ghost free': set<nat>,
                           ghost free0: set<nat>, ghost owner0: map<nat, Slot>)
      requires Valid() && dbCount == 0 && ibCount == 0 && Shares(free, free0, owner0)
        && TakenOff(free, free', start, count)
      modifies this`ibNext, this`ibCount, this`stock
      ensures Valid() && Shares(free', free0, owner0) && ibCount == count
    {
      forall v | start <= v < start + count ensures v !in owner { assert v in free && v !in stock; }
      ibNext, ibCount := start, count;
      stock := stock + (free - free');
    }

    method ReserveData(start: nat, count: nat, ghost free: set<nat>, ghost free': set<nat>,
                       ghost free0: set<nat>, ghost owner0: map<nat, Slot>)
      requires Valid() && dbCount == 0 && Shares(free, free0, owner0) && TakenOff(free, free', start, count)
      modifies this`dbNext, this`dbCount, this`stock
      ensures Valid() && Shares(free', free0, owner0) && dbCount == count
    {
      var most := if start < ibNext then ibNext else start;
      assert most in stock ==> most !in free;
      forall v | start <= v < start + count ensures v !in owner { assert v in free && v !in stock; }
      dbNext, dbCount := start, count;
      stock := stock + (free - free');
    }

    method Refill(dev: Answers, bm: Bitmap, wanted: nat, ghost free0: set<nat>, ghost owner0: map<nat, Slot>)
        returns (status: int, left: nat)
      requires Valid() && dbCount == 0 && Shares(bm.free, free0, owner0) && dev.Valid() && !dev.failed && wanted > 0
      modifies this`dbNext, this`dbCount, this`stock, bm, dev
      ensures Valid() && dev.Valid() && |bm.log| == |old(bm.log)| + 1 && old(bm.log) <= bm.log
      ensures status >= 0 <==> !dev.failed && SomeFound(bm.log, |old(bm.log)|)
      ensures status >= 0 ==> Shares(bm.free, free0, owner0) && left + dbCount == wanted && (wanted > 0 ==> dbCount > 0)
    {
      ghost var free := bm.free;
      var start;
      status, start, left := bm.Alloc(dev, wanted);
      assert bm.log[|old(bm.log)|] == Grant(wanted, if status >= 0 then status else 0);
      if status < 0 { return; }
      ReserveData(start, status, free, bm.free, free0, owner0);
    }

    /** One turn of the loop: a fresh run of data blocks when the last one is used up, then one block. */
    method Turn(dev: Answers, bm: Bitmap, i: nat, ghost goal: nat, wanted: nat, ghost g0: Names, ghost free0: set<nat>,
                ghost owner0: map<nat, Slot>)
      returns (status: int, left: nat)
      requires Valid() && Leafy() && create && i < goal <= Max(s) && Filled(s, g, i)
      requires wanted + dbCount == goal - i && ibCount == Needed(s, goal) - Needed(s, i)
      requires Shares(bm.free, free0, owner0) && Kept(g0, g) && dev.Valid() && !dev.failed
      modifies this`block, this`ptrs, this`dbNext, this`dbCount, this`ibNext, this`ibCount, this`g, this`owner
      modifies this`ptrIdent, this`ptrIndex, this`ptrBlock, this`stock, bm, dev
      ensures Valid() && Kept(g0, g) && dev.Valid() && old(bm.log) <= bm.log
      ensures status >= 0 <==> !dev.failed && SomeFound(bm.log, |old(bm.log)|)
      ensures status >= 0 ==> Leafy() && Filled(s, g, i + 1) && Shares(bm.free, free0, owner0)
      ensures status >= 0 ==> left + dbCount == goal - i - 1 && ibCount == Needed(s, goal) - Needed(s, i + 1)
    {
      left, status := wanted, 0;
      if dbCount == 0 {
        status, left := Refill(dev, bm, left, free0, owner0);
        if status < 0 { return; }
      }
      NeededMono(s, i, i + 1);
      NeededMono(s, i + 1, goal);
      ghost var before := g;
      Append(i);
      KeptTrans(g0, before, g);
    }

    /** The loop of ext2_inode_expand. */
    method Fill(dev: Answers, bm: Bitmap, from: nat, goal: nat, ghost free0: set<nat>, ghost owner0: map<nat, Slot>)
        returns (status: int)
      requires Valid() && Leafy() && create && dbCount == 0 && from <= goal <= Max(s) && Filled(s, g, from)
      requires ibCount == Needed(s, goal) - Needed(s, from) && Shares(bm.free, free0, owner0)
      requires dev.Valid() && !dev.failed
      modifies this, bm, dev
      ensures dev.Valid() && old(bm.log) <= bm.log
      ensures status == 0 <==> !dev.failed && SomeFound(bm.log, |old(bm.log)|)
      ensures Valid() && Kept(old(g), g) && total == old(total)
      ensures status == 0 ==> dbCount == 0 && ibCount == 0 && Leafy() && Filled(s, g, goal)
      ensures status == 0 ==> Shares(bm.free, free0, owner0)
      ensures status <= 0
    {
      var left: nat, i := goal - from, from;
      while i < goal
        invariant from <= i <= goal && left + dbCount == goal - i
        invariant Valid() && Leafy() && create && Filled(s, g, i) && Kept(old(g), g) && total == old(total)
        invariant ibCount == Needed(s, goal) - Needed(s, i)
        invariant Shares(bm.free, free0, owner0)
        invariant dev.Valid() && !dev.failed && old(bm.log) <= bm.log && SomeFound(bm.log, |old(bm.log)|)
      {
        status, left := Turn(dev, bm, i, goal, left, old(g), free0, owner0);
        if status < 0 { return; }
        i := i + 1;
      }
      status := 0;
    }
  }
}
