/**
 The kernel heap of kernel/mem/heap.c: boundary-tagged chunks between two guards, and a doubly
 linked free list threaded through the data of the free chunks. Headers are kept by address, the
 null pointer is 0.
 */
module Heap {
  import opened Arith
  import opened Prelude

  const HEADER: nat := 32
  const ALIGN: nat := 16
  const SBRK: nat := 0x100000
  const PAGE: nat := 0x1000
  const TWO64: nat := 0x1_0000_0000_0000_0000
  const KHEAP: nat := 0xFFFFE00000000000
  const KHEAP_SIZE: nat := 0x100000000000

  type Words = map<nat, nat>

  /** A word of memory; a word never written reads as 0. */
  function At(m: Words, a: nat): nat { if a in m then m[a] else 0 }

  /** The boundary tags: the header fields of the chunk at each address. */
  datatype Tags = Tags(prev: Words, next: Words, size: Words)

  // ---- the tiling ------------------------------------------------------------------------------------

  /** What the header of the chunk at `c` says about its two neighbours. */
  ghost predicate Node(t: Tags, chunks: set<nat>, start: nat, last: nat, c: nat)
  {
    && (if c == last then At(t.next, c) == 0 && At(t.size, c) == 0
        else At(t.next, c) in chunks && At(t.next, c) == c + HEADER + At(t.size, c) && At(t.prev, At(t.next, c)) == c)
    && (if c == start then At(t.prev, c) == 0 && At(t.size, c) == 0
        else At(t.prev, c) in chunks && At(t.prev, c) < c && At(t.next, At(t.prev, c)) == c
             && (c == last || At(t.size, c) >= ALIGN))
  }

  /** The chunks run from the front guard at `start` to the rear guard at `last`. */
  ghost predicate Linked(t: Tags, chunks: set<nat>, start: nat, last: nat)
  {
    && start in chunks && last in chunks && 0 < start < last
    && forall c {:trigger Node(t, chunks, start, last, c)} | c in chunks :: Node(t, chunks, start, last, c)
  }

  ghost predicate AlignedAt(t: Tags, c: nat) { c % ALIGN == 0 && At(t.size, c) % ALIGN == 0 }

  ghost predicate Aligned(t: Tags, chunks: set<nat>)
  {
    forall c {:trigger AlignedAt(t, c)} | c in chunks :: AlignedAt(t, c)
  }

  lemma SumAligned(a: nat, b: nat)
    requires a % ALIGN == 0 && b % ALIGN == 0
    ensures (a + b) % ALIGN == 0 && (a + b + HEADER) % ALIGN == 0
    ensures a >= b ==> (a - b) % ALIGN == 0 && (a - b + HEADER) % ALIGN == 0
    ensures a >= b + HEADER ==> (a - b - HEADER) % ALIGN == 0
  {
    var x, y, h := a / ALIGN, b / ALIGN, HEADER / ALIGN;
    assert a == x * ALIGN && b == y * ALIGN && HEADER == h * ALIGN;
    Multiple(x + y);
    Multiple(x + y + h);
    if a >= b {
      Multiple(x - y);
      Multiple(x - y + h);
    }
    if a >= b + HEADER { Multiple(x - y - h); }
  }

  lemma Multiple(k: nat)
    ensures k * ALIGN % ALIGN == 0
  {
    DivUnique(k * ALIGN, ALIGN, k, 0);
  }

  /** A chunk ends before the next one begins. */
  lemma {:induction false} Apart(t: Tags, chunks: set<nat>, start: nat, last: nat, c: nat, d: nat)
    requires Linked(t, chunks, start, last) && c in chunks && d in chunks && c < d
    ensures c != last && c + HEADER + At(t.size, c) <= d
    decreases d, c
  {
    FrontIsLeast(t, chunks, start, last, c);
    assert Node(t, chunks, start, last, c) && Node(t, chunks, start, last, d);
    var p := At(t.prev, d);
    assert Node(t, chunks, start, last, p);
    if p < c {
      Apart(t, chunks, start, last, p, c);
    } else if p > c {
      Apart(t, chunks, start, last, c, p);
    }
  }

  lemma {:induction false} FrontIsLeast(t: Tags, chunks: set<nat>, start: nat, last: nat, c: nat)
    requires Linked(t, chunks, start, last) && c in chunks
    ensures start <= c
    decreases c
  {
    assert Node(t, chunks, start, last, c);
    if c != start { FrontIsLeast(t, chunks, start, last, At(t.prev, c)); }
  }

  /** Every byte between the guards' ends lies in exactly one chunk, header included. */
  lemma Tiling(t: Tags, chunks: set<nat>, start: nat, last: nat, a: nat)
    requires Linked(t, chunks, start, last) && start <= a < last + HEADER
    ensures exists c :: c in chunks && Within(t, c, a)
    ensures forall c, d | c in chunks && d in chunks && Within(t, c, a) && Within(t, d, a) :: c == d
  {
    var c := Holder(t, chunks, start, last, a, start);
    assert Within(t, c, a);
    forall c, d | c in chunks && d in chunks && Within(t, c, a) && Within(t, d, a) ensures c == d {
      if c < d { Apart(t, chunks, start, last, c, d); }
      if d < c { Apart(t, chunks, start, last, d, c); }
    }
  }

  predicate Within(t: Tags, c: nat, a: nat) { c <= a < c + HEADER + At(t.size, c) }

  lemma {:induction false} Holder(t: Tags, chunks: set<nat>, start: nat, last: nat, a: nat, from: nat) returns (c: nat)
    requires Linked(t, chunks, start, last) && from in chunks && from <= a < last + HEADER
    ensures c in chunks && Within(t, c, a)
    decreases a - from
  {
    assert Node(t, chunks, start, last, from);
    if Within(t, from, a) { return from; }
    c := Holder(t, chunks, start, last, a, At(t.next, from));
  }

  /** The tags after `c` has swallowed its neighbour `d`, which is followed by `e`. */
  function Fused(t: Tags, c: nat, d: nat, e: nat): Tags
  {
    Tags(t.prev[e := c], t.next[c := e], t.size[c := At(t.size, c) + At(t.size, d) + HEADER])
  }

  /** The tags after a chunk has been cut off `c`, whose data shrinks to `n` bytes. */
  function Cut(t: Tags, c: nat, n: nat, e: nat): Tags
    requires c + HEADER + n + HEADER <= e
  {
    var d := c + HEADER + n;
    Tags(t.prev[d := c][e := d], t.next[d := e][c := d], t.size[d := e - d - HEADER][c := n])
  }

  lemma FusedLinked(t: Tags, chunks: set<nat>, start: nat, last: nat, c: nat, d: nat, t': Tags, chunks': set<nat>)
    requires Linked(t, chunks, start, last) && c in chunks && c != start && c != last
    requires d == At(t.next, c) && d in chunks && d != last
    requires t' == Fused(t, c, d, At(t.next, d)) && chunks' == chunks - {d}
    ensures Linked(t', chunks', start, last)
  {
    assert Node(t, chunks, start, last, c) && Node(t, chunks, start, last, d);
    assert Node(t, chunks, start, last, At(t.next, d));
    forall x | x in chunks' ensures Node(t', chunks', start, last, x) {
      assert Node(t, chunks, start, last, x);
      FusedNode(t, chunks, start, last, c, x);
    }
  }

  lemma FusedAligned(t: Tags, chunks: set<nat>, c: nat, d: nat, e: nat)
    requires Aligned(t, chunks) && c in chunks && d in chunks
    ensures Aligned(Fused(t, c, d, e), chunks - {d})
  {
    assert AlignedAt(t, c) && AlignedAt(t, d);
    SumAligned(At(t.size, c), At(t.size, d));
    var t' := Fused(t, c, d, e);
    forall x | x in chunks - {d} ensures AlignedAt(t', x) { assert AlignedAt(t, x); }
  }

  lemma FusedNode(t: Tags, chunks: set<nat>, start: nat, last: nat, c: nat, x: nat)
    requires c != start && c != last && At(t.next, c) != last && At(t.next, c) != start
    requires Node(t, chunks, start, last, c) && Node(t, chunks, start, last, At(t.next, c))
    requires Node(t, chunks, start, last, At(t.next, At(t.next, c))) && Node(t, chunks, start, last, x)
    requires x != At(t.next, c)
    ensures var d := At(t.next, c);
            Node(Fused(t, c, d, At(t.next, d)), chunks - {d}, start, last, x)
  {}

  lemma CutApart(t: Tags, chunks: set<nat>, start: nat, last: nat, c: nat, n: nat)
    requires Linked(t, chunks, start, last) && c in chunks && c != start && c != last
    requires n >= ALIGN && At(t.size, c) >= n + HEADER + ALIGN
    ensures c + HEADER + n !in chunks
    ensures At(t.next, c) in chunks && At(t.next, c) == c + HEADER + At(t.size, c)
  {
    assert Node(t, chunks, start, last, c);
    if c + HEADER + n in chunks { Apart(t, chunks, start, last, c, c + HEADER + n); }
  }

  lemma CutLinked(t: Tags, chunks: set<nat>, start: nat, last: nat, c: nat, n: nat, t': Tags, chunks': set<nat>)
    requires Linked(t, chunks, start, last) && c in chunks && c != start && c != last
    requires n >= ALIGN && At(t.size, c) >= n + HEADER + ALIGN && c + HEADER + n !in chunks
    requires At(t.next, c) in chunks && At(t.next, c) == c + HEADER + At(t.size, c)
    requires t' == Cut(t, c, n, At(t.next, c)) && chunks' == chunks + {c + HEADER + n}
    ensures Linked(t', chunks', start, last)
  {
    assert Node(t, chunks, start, last, c) && Node(t, chunks, start, last, At(t.next, c));
    forall x | x in chunks' ensures Node(t', chunks', start, last, x) {
      assert x in chunks ==> Node(t, chunks, start, last, x);
      CutNode(t, chunks, start, last, c, n, x);
    }
  }

  lemma CutNode(t: Tags, chunks: set<nat>, start: nat, last: nat, c: nat, n: nat, x: nat)
    requires c in chunks && c != start && c != last && At(t.next, c) in chunks
    requires n >= ALIGN && At(t.size, c) >= n + HEADER + ALIGN && c + HEADER + n !in chunks
    requires Node(t, chunks, start, last, c) && Node(t, chunks, start, last, At(t.next, c))
    requires x in chunks ==> Node(t, chunks, start, last, x)
    requires x in chunks || x == c + HEADER + n
    requires start in chunks && last in chunks
    ensures Node(Cut(t, c, n, At(t.next, c)), chunks + {c + HEADER + n}, start, last, x)
  {}

  lemma CutAligned(t: Tags, chunks: set<nat>, c: nat, n: nat)
    requires Aligned(t, chunks) && c in chunks && n % ALIGN == 0
    requires c + HEADER + n + HEADER <= At(t.next, c) == c + HEADER + At(t.size, c)
    ensures Aligned(Cut(t, c, n, At(t.next, c)), chunks + {c + HEADER + n})
  {
    var d, e := c + HEADER + n, At(t.next, c);
    assert AlignedAt(t, c);
    SumAligned(c, n);
    SumAligned(At(t.size, c), n);
    var t', chunks' := Cut(t, c, n, e), chunks + {d};
    forall x | x in chunks' ensures AlignedAt(t', x) { if x != d { assert AlignedAt(t, x); } }
  }

  // ---- the free list ---------------------------------------------------------------------------------

  function Nth(fl: seq<nat>, i: int): nat { if 0 <= i < |fl| then fl[i] else 0 }

  ghost predicate Threaded(fprev: Words, fnext: Words, head: nat, fl: seq<nat>, frees: set<nat>)
  {
    && head == Nth(fl, 0)
    && 0 !in fl && (forall c :: c in frees <==> c in fl)
    && NoDup(fl)
    && (forall i {:trigger ThreadedAt(fprev, fnext, fl, i)} | 0 <= i < |fl| :: ThreadedAt(fprev, fnext, fl, i))
  }

  ghost predicate ThreadedAt(fprev: Words, fnext: Words, fl: seq<nat>, i: nat)
    requires i < |fl|
  {
    At(fprev, fl[i]) == Nth(fl, i - 1) && At(fnext, fl[i]) == Nth(fl, i + 1)
  }

  lemma InsertThreaded(fprev: Words, fnext: Words, head: nat, fl: seq<nat>, frees: set<nat>, c: nat)
    requires Threaded(fprev, fnext, head, fl, frees) && c !in frees && c != 0
    ensures var fprev' := fprev[c := 0];
            Threaded(if head != 0 then fprev'[head := c] else fprev', fnext[c := head], c, [c] + fl, frees + {c})
  {
    var fl' := [c] + fl;
    var fprev' := if head != 0 then fprev[c := 0][head := c] else fprev[c := 0];
    var fnext' := fnext[c := head];
    forall i | 0 <= i < |fl'| ensures ThreadedAt(fprev', fnext', fl', i) {
      if i > 0 { assert ThreadedAt(fprev, fnext, fl, i - 1); }
    }
  }

  lemma RemoveThreaded(fprev: Words, fnext: Words, head: nat, fl: seq<nat>, frees: set<nat>, k: nat)
    requires Threaded(fprev, fnext, head, fl, frees) && k < |fl|
    ensures var c := fl[k];
            var p, n := At(fprev, c), At(fnext, c);
            Threaded(if n != 0 then fprev[n := p] else fprev, if p != 0 then fnext[p := n] else fnext,
                     if head == c then n else head, fl[..k] + fl[k + 1..], frees - {c})
  {
    var c := fl[k];
    assert ThreadedAt(fprev, fnext, fl, k);
    var p, n := At(fprev, c), At(fnext, c);
    var fprev' := if n != 0 then fprev[n := p] else fprev;
    var fnext' := if p != 0 then fnext[p := n] else fnext;
    var fl' := fl[..k] + fl[k + 1..];
    assert forall x :: x in fl' <==> x in fl && x != c by { WithoutAt(fl, k); }
    forall i | 0 <= i < |fl'| ensures ThreadedAt(fprev', fnext', fl', i) {
      if i < k { assert ThreadedAt(fprev, fnext, fl, i); } else { assert ThreadedAt(fprev, fnext, fl, i + 1); }
    }
  }

  // ---- the invariant ---------------------------------------------------------------------------------

  /** A chunk is marked free exactly when it is in the list; the guards never are. */
  ghost predicate Flagged(flag: Words, chunks: set<nat>, start: nat, last: nat, frees: set<nat>)
  {
    && (forall c | c in chunks :: At(flag, c) != 0 <==> c in frees)
    && (forall c | c in frees :: c in chunks && c != start && c != last)
  }

  /** No free chunk is followed by a free chunk. */
  ghost predicate Coalesced(t: Tags, frees: set<nat>)
  {
    forall c | c in frees :: At(t.next, c) !in frees
  }

  /** `live` holds the allocated chunks and the sizes of their data. */
  ghost predicate LiveChunks(t: Tags, chunks: set<nat>, start: nat, last: nat, frees: set<nat>, live: map<nat, nat>)
  {
    && (forall c :: c in live <==> c in chunks && c !in frees && c != start && c != last)
    && (forall c | c in live :: live[c] == At(t.size, c))
  }

  /** The part of the invariant that does not speak of the list's links. */
  ghost predicate Whole(t: Tags, flag: Words, chunks: set<nat>, start: nat, last: nat, frees: set<nat>,
                        live: map<nat, nat>)
  {
    && Linked(t, chunks, start, last) && Aligned(t, chunks)
    && Flagged(flag, chunks, start, last, frees) && LiveChunks(t, chunks, start, last, frees, live)
  }

  lemma FusedWhole(t: Tags, flag: Words, chunks: set<nat>, start: nat, last: nat, frees: set<nat>, live: map<nat, nat>,
                   c: nat, d: nat, t': Tags, flag': Words, chunks': set<nat>, frees': set<nat>)
    requires Whole(t, flag, chunks, start, last, frees, live)
    requires c in frees && d in frees && d == At(t.next, c)
    requires t' == Fused(t, c, d, At(t.next, d)) && chunks' == chunks - {d}
    requires flag' == flag[c := 0][d := 0][c := 1] && frees' == frees - {d}
    ensures Whole(t', flag', chunks', start, last, frees', live)
  {
    assert Node(t, chunks, start, last, c);
    FusedAligned(t, chunks, c, d, At(t.next, d));
    FusedLinked(t, chunks, start, last, c, d, t', chunks');
    FusedFlags(t, flag, chunks, start, last, frees, live, c, d, t', flag', chunks', frees');
  }

  lemma FusedFlags(t: Tags, flag: Words, chunks: set<nat>, start: nat, last: nat, frees: set<nat>, live: map<nat, nat>,
                   c: nat, d: nat, t': Tags, flag': Words, chunks': set<nat>, frees': set<nat>)
    requires Flagged(flag, chunks, start, last, frees) && LiveChunks(t, chunks, start, last, frees, live)
    requires c in frees && d in frees && c != d
    requires frees' == frees - {d} && chunks' == chunks - {d}
    requires flag' == flag[c := 0][d := 0][c := 1]
    requires forall x | x != c :: At(t'.size, x) == At(t.size, x)
    ensures Flagged(flag', chunks', start, last, frees')
    ensures LiveChunks(t', chunks', start, last, frees', live)
  {}

  /** Fusing `c` with its free neighbour leaves no new pair of free neighbours except behind `c`. */
  lemma FuseKeepsApart(t: Tags, chunks: set<nat>, start: nat, last: nat, frees: set<nat>, c: nat)
    requires Linked(t, chunks, start, last) && c in frees && At(t.next, c) in frees
    requires forall x | x in frees :: x in chunks && x != start && x != last
    ensures var d := At(t.next, c);
            var t' := Fused(t, c, d, At(t.next, d));
            && (forall x | x in frees && x != d && x != c :: At(t'.next, x) == At(t.next, x) && At(t.next, x) != d)
            && At(t'.next, c) == At(t.next, d)
  {
    var d := At(t.next, c);
    forall x | x in frees && x != d && x != c ensures At(t.next, x) != d {
      assert Node(t, chunks, start, last, x) && Node(t, chunks, start, last, c);
    }
  }

  lemma CutWhole(t: Tags, flag: Words, chunks: set<nat>, start: nat, last: nat, frees: set<nat>, live: map<nat, nat>,
                 c: nat, n: nat, t': Tags, flag': Words, chunks': set<nat>, frees': set<nat>)
    requires Whole(t, flag, chunks, start, last, frees, live) && Coalesced(t, frees) && c in frees
    requires n % ALIGN == 0 && n >= ALIGN && At(t.size, c) >= n + HEADER + ALIGN
    requires c + HEADER + n !in chunks && At(t.next, c) in chunks && At(t.next, c) == c + HEADER + At(t.size, c)
    requires t' == Cut(t, c, n, At(t.next, c)) && chunks' == chunks + {c + HEADER + n}
    requires frees' == frees + {c + HEADER + n} && flag' == flag[c + HEADER + n := 1]
    ensures Whole(t', flag', chunks', start, last, frees', live)
    ensures forall x | x in frees' && At(t'.next, x) in frees' :: x == c
  {
    CutAligned(t, chunks, c, n);
    CutLinked(t, chunks, start, last, c, n, t', chunks');
    CutFlags(t, flag, chunks, start, last, frees, live, c, n, flag', frees');
  }

  /** After a cut the only free neighbours are the two pieces. */
  lemma CutFlags(t: Tags, flag: Words, chunks: set<nat>, start: nat, last: nat, frees: set<nat>, live: map<nat, nat>,
                 c: nat, n: nat, flag': Words, frees': set<nat>)
    requires Linked(t, chunks, start, last)
    requires Flagged(flag, chunks, start, last, frees) && LiveChunks(t, chunks, start, last, frees, live)
    requires Coalesced(t, frees) && c in frees
    requires c + HEADER + n !in chunks && c + HEADER + n + HEADER <= At(t.next, c)
    requires frees' == frees + {c + HEADER + n} && flag' == flag[c + HEADER + n := 1]
    ensures var t', chunks' := Cut(t, c, n, At(t.next, c)), chunks + {c + HEADER + n};
            && Flagged(flag', chunks', start, last, frees')
            && LiveChunks(t', chunks', start, last, frees', live)
            && forall x | x in frees' && At(t'.next, x) in frees' :: x == c
  {
    var d := c + HEADER + n;
    forall x | x in frees && x != c ensures At(t.next, x) != d {
      assert Node(t, chunks, start, last, x);
    }
  }

  /** A sum of two sizes, in 64-bit arithmetic. */
  function Wrapped(n: nat): nat
    requires n < 2 * TWO64
  {
    if n < TWO64 then n else n - TWO64
  }

  /** The largest size whose rounding and header do not wrap. */
  const LARGEST: nat := TWO64 - ALIGN - HEADER

  function AlignData(n: nat): (r: nat)
    ensures n <= r < n + ALIGN && r % ALIGN == 0
  {
    (n + ALIGN - 1) / ALIGN * ALIGN
  }

  /** `heap_expand` asks for the rounded size and a header exactly up to the largest size; beyond it, it asks for
      less than what was requested. */
  lemma LargestIsExact(n: nat)
    requires n < TWO64
    ensures var asked := Wrapped(Wrapped(n + ALIGN - 1) / ALIGN * ALIGN + HEADER);
            if n <= LARGEST then asked == AlignData(n) + HEADER else asked < n
  {
  }

  /** The first size beyond is asked for as nothing. */
  lemma TooLarge()
    ensures Wrapped(Wrapped(LARGEST + 1 + ALIGN - 1) / ALIGN * ALIGN + HEADER) == 0
  {
    assert (LARGEST + 1 + ALIGN - 1) / ALIGN == TWO64 / ALIGN - 2;
  }

  /** Up to the next multiple of 1 MiB. */
  function AlignSbrk(n: nat): (r: nat)
    ensures n <= r < n + SBRK
  {
    if n == 0 then 0 else if n <= SBRK then SBRK else SBRK + AlignSbrk(n - SBRK)
  }

  lemma PagesAligned(k: nat)
    ensures k * PAGE % ALIGN == 0
  {}

  lemma {:induction false} AlignSbrkCount(n: nat) returns (k: nat)
    ensures AlignSbrk(n) == k * SBRK
  {
    if n == 0 { k := 0; } else if n <= SBRK { k := 1; } else { k := AlignSbrkCount(n - SBRK); k := k + 1; }
  }

  /** The recursive rounding is the masked one, `(n + a - 1) & -a`. */
  lemma AlignSbrkByDivision(n: nat)
    ensures AlignSbrk(n) == (n + SBRK - 1) / SBRK * SBRK
  {
    var k := AlignSbrkCount(n);
    DivUnique(n + SBRK - 1, SBRK, k, n + SBRK - 1 - k * SBRK);
  }

  /** What `heap_sbrk` adds to a heap of `size` bytes when `avail` more pages can be mapped. */
  function Granted(size: nat, n: nat, avail: nat): nat
  {
    var want := AlignSbrk(n);
    if size + want > KHEAP_SIZE then 0 else if want <= avail * PAGE then want else avail * PAGE
  }

  /** The tags after the rear guard at `g` has become a chunk up to a new guard at `g'`. */
  function Grown(t: Tags, g: nat, g': nat): Tags
    requires g + HEADER <= g'
  {
    Tags(t.prev[g' := g], t.next[g := g'][g' := 0], t.size[g := g' - g - HEADER][g' := 0])
  }

  lemma GrownLinked(t: Tags, chunks: set<nat>, start: nat, g: nat, g': nat, t': Tags, chunks': set<nat>)
    requires Linked(t, chunks, start, g) && g + HEADER + ALIGN <= g' && g' !in chunks
    requires t' == Grown(t, g, g') && chunks' == chunks + {g'}
    ensures Linked(t', chunks', start, g')
  {
    assert Node(t, chunks, start, g, g);
    forall x | x in chunks' ensures Node(t', chunks', start, g', x) {
      assert x in chunks ==> Node(t, chunks, start, g, x);
    }
  }

  lemma GrownAligned(t: Tags, chunks: set<nat>, start: nat, g: nat, g': nat)
    requires Linked(t, chunks, start, g) && g + HEADER + ALIGN <= g'
    requires Aligned(t, chunks) && g' % ALIGN == 0
    ensures g' !in chunks && Aligned(Grown(t, g, g'), chunks + {g'})
  {
    if g' in chunks { Apart(t, chunks, start, g, g, g'); }
    assert AlignedAt(t, g);
    SumAligned(g', g);
    var t' := Grown(t, g, g');
    forall x | x in chunks + {g'} ensures AlignedAt(t', x) { assert x in chunks ==> AlignedAt(t, x); }
  }

  lemma GrownWhole(t: Tags, flag: Words, chunks: set<nat>, start: nat, g: nat, g': nat, frees: set<nat>,
                   live: map<nat, nat>, t': Tags, flag': Words, chunks': set<nat>, frees': set<nat>)
    requires Whole(t, flag, chunks, start, g, frees, live) && Coalesced(t, frees)
    requires g + HEADER + ALIGN <= g' && g' % ALIGN == 0
    requires t' == Grown(t, g, g') && chunks' == chunks + {g'}
    requires frees' == frees + {g} && flag' == flag[g := 1][g' := 0][g := 1]
    ensures Whole(t', flag', chunks', start, g', frees', live)
    ensures forall x | x in frees' && At(t'.next, x) in frees' :: x == At(t'.prev, g)
  {
    GrownAligned(t, chunks, start, g, g');
    GrownLinked(t, chunks, start, g, g', t', chunks');
    GrownFlags(t, flag, chunks, start, g, g', frees, live, t', flag', chunks', frees');
  }

  /** After growing, the only free neighbours can be the old guard and the chunk before it. */
  lemma GrownFlags(t: Tags, flag: Words, chunks: set<nat>, start: nat, g: nat, g': nat, frees: set<nat>,
                   live: map<nat, nat>, t': Tags, flag': Words, chunks': set<nat>, frees': set<nat>)
    requires Linked(t, chunks, start, g) && g + HEADER <= g' && g' !in chunks
    requires Flagged(flag, chunks, start, g, frees) && LiveChunks(t, chunks, start, g, frees, live)
    requires Coalesced(t, frees)
    requires t' == Grown(t, g, g') && chunks' == chunks + {g'}
    requires frees' == frees + {g} && flag' == flag[g := 1][g' := 0][g := 1]
    ensures Flagged(flag', chunks', start, g', frees')
    ensures LiveChunks(t', chunks', start, g', frees', live)
    ensures forall x | x in frees' && At(t'.next, x) in frees' :: x == At(t'.prev, g)
  {
    forall x | x in frees ensures At(t.next, x) == g ==> x == At(t.prev, g) {
      assert Node(t, chunks, start, g, x);
    }
  }

  /** The chain of headers fixes where the rear guard is: once the end of the heap has moved away
      from it, no set of chunks tiles the heap. */
  lemma GuardLost(t: Tags, chunks: set<nat>, start: nat, g: nat, chunks': set<nat>, g': nat)
    requires Linked(t, chunks, start, g) && g' != g
    ensures !Linked(t, chunks', start, g')
  {
    if Linked(t, chunks', start, g') {
      assert Node(t, chunks, start, g, g);
      Reaches(t, chunks, start, g, chunks', g', start);
      OnlyTheLastEnds(t, chunks', start, g', g);
    }
  }

  lemma OnlyTheLastEnds(t: Tags, chunks: set<nat>, start: nat, last: nat, c: nat)
    requires Linked(t, chunks, start, last) && c in chunks && At(t.next, c) == 0
    ensures c == last
  {
    assert Node(t, chunks, start, last, c);
  }

  lemma {:induction false} Reaches(t: Tags, chunks: set<nat>, start: nat, g: nat, chunks': set<nat>, g': nat, c: nat)
    requires Linked(t, chunks, start, g) && Linked(t, chunks', start, g') && c in chunks && c in chunks'
    ensures g in chunks' && c <= g
    decreases g - c
  {
    assert Node(t, chunks, start, g, c) && Node(t, chunks', start, g', c);
    if c > g { Apart(t, chunks, start, g, g, c); }
    if c < g { Reaches(t, chunks, start, g, chunks', g', At(t.next, c)); }
  }

  lemma NextIsPrev(t: Tags, chunks: set<nat>, start: nat, last: nat, c: nat, frees: set<nat>)
    requires Linked(t, chunks, start, last) && c in chunks
    requires forall x | x in frees :: x in chunks && x != last
    ensures forall x | x in frees && At(t.next, x) == c :: x == At(t.prev, c)
    ensures c != 0
  {
    FrontIsLeast(t, chunks, start, last, c);
    forall x | x in frees && At(t.next, x) == c ensures x == At(t.prev, c) {
      assert Node(t, chunks, start, last, x);
    }
  }

  /** `k` is the first place in the free list whose chunk holds `n` bytes. */
  ghost predicate FirstFit(t: Tags, fl: seq<nat>, n: nat, k: int)
  {
    && 0 <= k < |fl| && At(t.size, fl[k]) >= n
    && forall i | 0 <= i < k :: At(t.size, fl[i]) < n
  }

  function InitialTags(middle: nat, last: nat): Tags
    requires middle + HEADER <= last
  {
    Tags(map[KHEAP := 0, last := middle, middle := KHEAP],
         map[KHEAP := middle, last := 0, middle := last],
         map[KHEAP := 0, last := 0, middle := last - middle - HEADER])
  }

  /** The two guards of a new heap with one chunk between them. */
  lemma InitialWhole(t: Tags, flag: Words, chunks: set<nat>, middle: nat, last: nat)
    requires middle == KHEAP + HEADER && last == KHEAP + SBRK - HEADER && chunks == {KHEAP, middle, last}
    requires t == InitialTags(middle, last) && flag == map[KHEAP := 0, last := 0, middle := 1]
    ensures Whole(t, flag, chunks, KHEAP, last, {middle}, map[]) && Coalesced(t, {middle})
  {}

  /** A live block is aligned, lies between the guards, and touches no other chunk: neither its data
      nor its header, nor the list pointers kept in the data of free chunks. */
  lemma LiveBlocksApart(t: Tags, flag: Words, chunks: set<nat>, start: nat, last: nat, frees: set<nat>,
                        live: map<nat, nat>, c: nat, d: nat)
    requires Whole(t, flag, chunks, start, last, frees, live) && c in live && d in chunks && c != d
    ensures c + HEADER + live[c] <= d || d + HEADER + At(t.size, d) <= c
    ensures (c + HEADER) % ALIGN == 0 && live[c] % ALIGN == 0
    ensures start + HEADER <= c && c + HEADER + live[c] <= last
  {
    if c < d { Apart(t, chunks, start, last, c, d); } else { Apart(t, chunks, start, last, d, c); }
    FrontIsLeast(t, chunks, start, last, c);
    Apart(t, chunks, start, last, start, c);
    assert Node(t, chunks, start, last, c) && Node(t, chunks, start, last, last) && AlignedAt(t, c);
    if c > last { Apart(t, chunks, start, last, last, c); }
    Apart(t, chunks, start, last, c, last);
  }

  ghost predicate OneFreeChunk(t: Tags, chunks: set<nat>, start: nat, last: nat, frees: set<nat>)
  {
    && chunks == {start, start + HEADER, last} && frees == {start + HEADER}
    && start + HEADER + HEADER + At(t.size, start + HEADER) == last
  }

  /** The 32 bytes of a header and, in a free chunk, the 16 bytes of list pointers behind it are all that
      the allocator writes; both miss the data of every live block. */
  lemma WritesMissLive(t: Tags, flag: Words, chunks: set<nat>, start: nat, last: nat, frees: set<nat>,
                       live: map<nat, nat>, c: nat, d: nat, a: nat)
    requires Whole(t, flag, chunks, start, last, frees, live) && c in live && d in chunks
    requires d <= a < d + HEADER || (d in frees && d + HEADER <= a < d + HEADER + ALIGN)
    ensures !(c + HEADER <= a < c + HEADER + live[c])
  {
    if c != d {
      LiveBlocksApart(t, flag, chunks, start, last, frees, live, c, d);
      assert Node(t, chunks, start, last, d);
    }
  }

  /** With nothing allocated, all of the heap between the guards is one free chunk. */
  lemma EverythingFreed(t: Tags, flag: Words, chunks: set<nat>, start: nat, last: nat, frees: set<nat>)
    requires Whole(t, flag, chunks, start, last, frees, map[]) && Coalesced(t, frees) && start + HEADER < last
    ensures OneFreeChunk(t, chunks, start, last, frees)
  {
    assert Node(t, chunks, start, last, start);
    var m := start + HEADER;
    assert m in chunks && m in frees;
    assert Node(t, chunks, start, last, m);
    var e := At(t.next, m);
    assert e in chunks && e !in frees && e == last;
    forall c | c in chunks ensures c == start || c == m || c == last {
      FrontIsLeast(t, chunks, start, last, c);
      if c > start { Apart(t, chunks, start, last, start, c); }
      if c > m { Apart(t, chunks, start, last, m, c); }
      if c > last { Apart(t, chunks, start, last, last, c); }
    }
    assert chunks == {start, m, last};
    assert frees == {m};
  }

  /** Growing maps all the pages it needs, or none. */
  predicate AllOrNothing(n: nat, avail: nat)
  {
    avail == 0 || avail * PAGE >= AlignSbrk(AlignData(n) + HEADER)
  }

  /** The chunks in `held` (pointers less the header size) are the live ones. */
  ghost predicate Holds(held: set<nat>, live: map<nat, nat>) { forall c :: c in held <==> c in live }

  lemma NothingHeld(held: set<nat>, live: map<nat, nat>)
    requires Holds(held, live)
    ensures held == {} ==> live == map[]
  {}

  lemma NeverHalfway(size: nat, n: nat, avail: nat)
    requires AllOrNothing(n, avail)
    ensures var got := Granted(size, AlignData(n) + HEADER, avail);
            got < AlignData(n) + HEADER ==> got == 0
  {}

  /** Growing for `n` bytes stops after some pages, but too few. */
  predicate Halfway(size: nat, n: nat, avail: nat)
  {
    0 < Granted(size, AlignData(n) + HEADER, avail) < AlignData(n) + HEADER
  }

  /** One page of the 512 that are wanted for a second MiB, of which 257 are needed. */
  lemma HalfwayExample()
    ensures Halfway(SBRK, SBRK, 1) && Granted(SBRK, AlignData(SBRK) + HEADER, 1) == PAGE
  {
    var want := AlignSbrk(AlignData(SBRK) + HEADER);
    assert AlignData(SBRK) == SBRK;
    assert SBRK < want < SBRK + HEADER + SBRK;
  }

  datatype Op = Malloc(n: nat, avail: nat) | Free(chunk: nat)

  class KernelHeap {
    var tags: Tags
    var flag: Words
    var fprev: Words
    var fnext: Words
    var first: nat
    var free: nat
    var start: nat
    var size: nat
    var end: nat
    ghost var chunks: set<nat>
    ghost var fl: seq<nat>
    ghost var frees: set<nat>
    ghost var live: map<nat, nat>

    /** `heap_init`: both guards and one free chunk between them, in the first MiB. */
    constructor ()
      ensures Valid() && live == map[] && start == KHEAP && size == SBRK
    {
      var last := KHEAP + SBRK - HEADER;
      var middle := KHEAP + HEADER;
      tags := InitialTags(middle, last);
      flag := map[KHEAP := 0, last := 0, middle := 0];
      fprev, fnext := map[], map[];
      first, free, start, size, end := KHEAP, 0, KHEAP, SBRK, KHEAP + SBRK;
      chunks, fl, frees, live := {KHEAP, middle, last}, [], {}, map[];
      new;
      InsertFreeChunk(middle);
      InitialWhole(tags, flag, chunks, middle, last);
    }

    /** All of the invariant but the absence of neighbouring free chunks. */
    ghost predicate Sound()
      reads this
    {
      && end >= HEADER
      && Whole(tags, flag, chunks, start, end - HEADER, frees, live)
      && Threaded(fprev, fnext, free, fl, frees)
      && end == start + size && SBRK <= size <= KHEAP_SIZE && first == start && start + KHEAP_SIZE < TWO64
    }

    ghost predicate Valid()
      reads this
    {
      Sound() && Coalesced(tags, frees)
    }

    method InsertFreeChunk(c: nat)
      requires Threaded(fprev, fnext, free, fl, frees) && c !in frees && c != 0
      modifies this`flag, this`fprev, this`fnext, this`free, this`fl, this`frees
      ensures Threaded(fprev, fnext, free, fl, frees) && fl == [c] + old(fl) && frees == old(frees) + {c}
      ensures flag == old(flag)[c := 1]
    {
      InsertThreaded(fprev, fnext, free, fl, frees, c);
      flag := flag[c := 1];
      fnext, fprev := fnext[c := free], fprev[c := 0];
      if free != 0 { fprev := fprev[free := c]; }
      free := c;
      fl, frees := [c] + fl, frees + {c};
    }

    method RemoveFreeChunk(c: nat)
      requires Threaded(fprev, fnext, free, fl, frees) && c in frees
      modifies this`flag, this`fprev, this`fnext, this`free, this`fl, this`frees
      ensures Threaded(fprev, fnext, free, fl, frees) && fl == Without(old(fl), c) && frees == old(frees) - {c}
      ensures flag == old(flag)[c := 0]
    {
      ghost var k :| 0 <= k < |fl| && fl[k] == c;
      RemoveThreaded(fprev, fnext, free, fl, frees, k);
      flag := flag[c := 0];
      var p, n := At(fprev, c), At(fnext, c);
      if free == c { free := n; }
      if p != 0 { fnext := fnext[p := n]; }
      if n != 0 { fprev := fprev[n := p]; }
      WithoutAt(fl, k);
      fl, frees := fl[..k] + fl[k + 1..], frees - {c};
    }

    /** Takes `c` and `d` off the list and puts `c` back at its head. Going backwards `d` is taken off
        first, going forwards `c` is. */
    method Relist(c: nat, d: nat, back: bool)
      requires Threaded(fprev, fnext, free, fl, frees) && c in frees && d in frees && c != d && c != 0
      modifies this`flag, this`fprev, this`fnext, this`free, this`fl, this`frees
      ensures Threaded(fprev, fnext, free, fl, frees)
      ensures frees == old(frees) - {d}
      ensures flag == old(flag)[c := 0][d := 0][c := 1]
    {
      if back { RemoveFreeChunk(d); RemoveFreeChunk(c); } else { RemoveFreeChunk(c); RemoveFreeChunk(d); }
      InsertFreeChunk(c);
    }

    /** The common work of both halves of `glue_chunk`: `c` swallows its free neighbour `d`. */
    method Fuse(c: nat, d: nat, back: bool)
      requires Sound() && c in frees && d in frees && At(tags.next, c) == d
      modifies this`tags, this`flag, this`fprev, this`fnext, this`free, this`chunks, this`fl, this`frees
      ensures Sound()
      ensures tags == Fused(old(tags), c, d, At(old(tags).next, d))
      ensures frees == old(frees) - {d}
    {
      ghost var last := end - HEADER;
      assert Node(tags, chunks, start, last, c);
      Relist(c, d, back);
      tags := Fused(tags, c, d, At(tags.next, d));
      chunks := chunks - {d};
      FusedWhole(old(tags), old(flag), old(chunks), start, last, old(frees), live, c, d, tags, flag, chunks, frees);
    }

    /** The backward half of `glue_chunk`; `c` is the chunk to go on with. */
    method GlueBack(chunk: nat) returns (c: nat)
      requires Sound() && chunk in frees
      requires forall x | x in frees && At(tags.next, x) in frees :: x == At(tags.prev, chunk) || x == chunk
      modifies this`tags, this`flag, this`fprev, this`fnext, this`free, this`chunks, this`fl, this`frees
      ensures Sound() && c in frees
      ensures forall x | x in frees && At(tags.next, x) in frees :: x == c && old(At(tags.next, chunk) in frees)
    {
      c := chunk;
      ghost var last := end - HEADER;
      assert Node(tags, chunks, start, last, chunk);
      var p := At(tags.prev, chunk);
      if At(flag, p) != 0 {
        assert Node(tags, chunks, start, last, p);
        FuseKeepsApart(tags, chunks, start, last, frees, p);
        Fuse(p, chunk, true);
        c := p;
      }
    }

    /** Joins a free chunk with its free neighbours, on the sides asked for. */
    method GlueChunk(chunk: nat, prev: bool, next: bool)
      requires Sound() && chunk in frees
      requires forall c | c in frees && At(tags.next, c) in frees ::
                 (prev && c == At(tags.prev, chunk)) || (next && c == chunk)
      modifies this`tags, this`flag, this`fprev, this`fnext, this`free, this`chunks, this`fl, this`frees
      ensures Valid()
      ensures !prev && next && old(At(tags.next, chunk) in frees) ==>
                var d := At(old(tags).next, chunk);
                chunk in frees && tags == Fused(old(tags), chunk, d, At(old(tags).next, d))
    {
      assert Node(tags, chunks, start, end - HEADER, chunk);
      var c := chunk;
      if prev { c := GlueBack(chunk); }
      assert Node(tags, chunks, start, end - HEADER, c);
      if next && At(flag, At(tags.next, c)) != 0 {
        FuseKeepsApart(tags, chunks, start, end - HEADER, frees, c);
        Fuse(c, At(tags.next, c), false);
      }
    }

    /** Cuts the rest of a free chunk off if a header and a minimal piece of data fit into it. */
    method SplitChunk(c: nat, n: nat)
      requires Valid() && c in frees && n % ALIGN == 0 && n >= ALIGN && At(tags.size, c) >= n
      modifies this`tags, this`flag, this`fprev, this`fnext, this`free, this`chunks, this`fl, this`frees
      ensures Sound() && c in frees && At(tags.size, c) >= n
      ensures At(tags.size, c) < n + ALIGN + HEADER
      ensures forall x | x in frees && At(tags.next, x) in frees :: x == c
    {
      ghost var last := end - HEADER;
      assert Node(tags, chunks, start, last, c);
      if At(tags.size, c) < n + ALIGN + HEADER { return; }
      CutApart(tags, chunks, start, last, c, n);
      CutOff(c, n);
    }

    /** Makes a free chunk of what the chunk at `c` has beyond `n` bytes. */
    method CutOff(c: nat, n: nat)
      requires end >= HEADER && Whole(tags, flag, chunks, start, end - HEADER, frees, live)
      requires Coalesced(tags, frees) && Threaded(fprev, fnext, free, fl, frees) && c in frees
      requires n % ALIGN == 0 && n >= ALIGN && At(tags.size, c) >= n + HEADER + ALIGN
      requires c + HEADER + n !in chunks && At(tags.next, c) in chunks
      requires At(tags.next, c) == c + HEADER + At(tags.size, c)
      modifies this`tags, this`flag, this`fprev, this`fnext, this`free, this`chunks, this`fl, this`frees
      ensures Whole(tags, flag, chunks, start, end - HEADER, frees, live) && c in frees
      ensures Threaded(fprev, fnext, free, fl, frees) && At(tags.size, c) == n
      ensures forall x | x in frees && At(tags.next, x) in frees :: x == c
    {
      var d, e := c + HEADER + n, At(tags.next, c);
      ghost var t', chunks', frees', flag' := Cut(tags, c, n, e), chunks + {d}, frees + {d}, flag[d := 1];
      CutWhole(tags, flag, chunks, start, end - HEADER, frees, live, c, n, t', flag', chunks', frees');
      InsertFreeChunk(d);
      tags, chunks := Cut(tags, c, n, e), chunks + {d};
    }

    /** Grows the heap page by page up to a multiple of 1 MiB; `avail` pages can be mapped. */
    method Sbrk(n: nat, avail: nat) returns (got: nat)
      requires end == start + size && size <= KHEAP_SIZE && start + KHEAP_SIZE < TWO64 && n < TWO64
      modifies this`size, this`end
      ensures got == Granted(old(size), n, avail) && got % ALIGN == 0 && old(size) + got <= KHEAP_SIZE
      ensures size == old(size) + got && end == old(end) + got
    {
      var want := Wrapped(AlignSbrk(n));
      ghost var k := AlignSbrkCount(n);
      assert want == if k * SBRK < TWO64 then k * SBRK else 0;
      var addr := start + size;
      var limit := Wrapped(addr + want);
      ghost var wraps := AlignSbrk(n) >= TWO64 || addr + want >= TWO64;
      assert wraps ==> limit <= addr && size + AlignSbrk(n) > KHEAP_SIZE;
      got := 0;
      if limit > start + KHEAP_SIZE { return 0; }
      var pages := 0;
      while addr < limit
        invariant wraps ==> got == 0
        invariant addr == start + size + got && got == pages * PAGE && pages <= avail && pages <= 256 * k
        decreases limit - addr
      {
        if pages == avail { break; }
        addr, got, pages := addr + PAGE, got + PAGE, pages + 1;
      }
      assert got % ALIGN == 0 by { PagesAligned(pages); }
      size, end := size + got, end + got;
    }

    method ListGuard(g: nat, g': nat)
      requires Threaded(fprev, fnext, free, fl, frees) && g !in frees && g != 0
      modifies this`flag, this`fprev, this`fnext, this`free, this`fl, this`frees
      ensures Threaded(fprev, fnext, free, fl, frees) && frees == old(frees) + {g}
      ensures flag == old(flag)[g := 1][g' := 0][g := 1]
    {
      flag := flag[g := 1][g' := 0];
      InsertFreeChunk(g);
    }

    /** The header writes of `heap_expand`: the guard at `g` becomes a free chunk up to a guard at `g'`. */
    method MoveGuard(g: nat, g': nat)
      requires Whole(tags, flag, chunks, start, g, frees, live)
      requires Threaded(fprev, fnext, free, fl, frees) && Coalesced(tags, frees)
      requires end == g' + HEADER == start + size && SBRK <= size <= KHEAP_SIZE && first == start
      requires start + KHEAP_SIZE < TWO64
      requires g + HEADER + ALIGN <= g' && g' % ALIGN == 0
      modifies this`tags, this`flag, this`fprev, this`fnext, this`free, this`chunks, this`fl, this`frees
      ensures Sound() && g in frees
      ensures At(tags.next, g) == g' && At(tags.size, g) == g' - g - HEADER
      ensures forall x | x in frees && At(tags.next, x) in frees :: x == At(tags.prev, g)
    {
      assert g in chunks && g !in frees && g != 0;
      ListGuard(g, g');
      tags, chunks := Grown(tags, g, g'), chunks + {g'};
      GrownWhole(old(tags), old(flag), old(chunks), start, g, g', old(frees), live, tags, flag, chunks, frees);
    }

    /** Turns the rear guard into a free chunk behind which a new rear guard stands. `avail` pages can
        be mapped; when some but too few of them can, the end of the heap moves away from its guard. */
    method Expand(n: nat, avail: nat) returns (c: nat)
      requires Valid() && n % ALIGN == 0 && ALIGN <= n < TWO64 - HEADER
      modifies this`tags, this`flag, this`fprev, this`fnext, this`free, this`chunks, this`fl, this`frees, this`size,
        this`end
      ensures c != 0 <==> Granted(old(size), n + HEADER, avail) >= n + HEADER
      ensures c != 0 ==> Valid() && c in frees && At(tags.size, c) >= n
      ensures c == 0 ==> size == old(size) + Granted(old(size), n + HEADER, avail)
      ensures c == 0 ==> (Valid() <==> size == old(size))
    {
      var old_ := end - HEADER;
      assert AlignedAt(tags, old_);
      var got := Sbrk(n + HEADER, avail);
      if got < n + HEADER {
        if got > 0 { GuardLost(tags, chunks, start, old_, chunks, end - HEADER); }
        return 0;
      }
      var new_ := end - HEADER;
      SumAligned(old_, got);
      MoveGuard(old_, new_);
      c := JoinPrevious(old_);
    }

    /** The new chunk goes into the one before it if that one is free. */
    method JoinPrevious(g: nat) returns (c: nat)
      requires Sound() && g in frees
      requires forall x | x in frees && At(tags.next, x) in frees :: x == At(tags.prev, g)
      modifies this`tags, this`flag, this`fprev, this`fnext, this`free, this`chunks, this`fl, this`frees
      ensures Valid() && c in frees && c != 0 && At(tags.size, c) >= At(old(tags).size, g)
    {
      ghost var last := end - HEADER;
      c := g;
      assert Node(tags, chunks, start, last, g);
      assert Node(tags, chunks, start, last, At(tags.prev, g));
      if At(flag, At(tags.prev, g)) != 0 {
        c := At(tags.prev, g);
        GlueChunk(c, false, true);
      }
    }

    /** First fit in list order, or a chunk made by growing the heap. */
    method FindFreeChunk(n: nat, avail: nat) returns (c: nat)
      requires Valid() && n % ALIGN == 0 && ALIGN <= n < TWO64 - HEADER
      modifies this`tags, this`flag, this`fprev, this`fnext, this`free, this`chunks, this`fl, this`frees, this`size,
        this`end
      ensures c != 0 ==> Valid() && c in frees && At(tags.size, c) >= n
      ensures c == 0 ==> forall x | x in old(frees) :: At(old(tags).size, x) < n
      ensures c == 0 ==> size == old(size) + Granted(old(size), n + HEADER, avail) < old(size) + n + HEADER
      ensures c == 0 ==> (Valid() <==> size == old(size))
      ensures (exists k :: FirstFit(old(tags), old(fl), n, k)) ==>
                size == old(size) && c in old(fl) && exists k :: FirstFit(old(tags), old(fl), n, k) && c == old(fl)[k]
    {
      c := free;
      ghost var k := 0;
      while c != 0
        invariant 0 <= k <= |fl| && c == Nth(fl, k)
        invariant forall i | 0 <= i < k :: At(tags.size, fl[i]) < n
        decreases |fl| - k
      {
        assert c in fl && ThreadedAt(fprev, fnext, fl, k);
        if At(tags.size, c) >= n {
          assert FirstFit(tags, fl, n, k);
          return;
        }
        c := At(fnext, c);
        k := k + 1;
      }
      assert forall i | 0 <= i < |fl| :: At(tags.size, fl[i]) < n;
      assert forall i :: !FirstFit(tags, fl, n, i);
      c := Expand(n, avail);
    }

    /** Allocates at least `n` bytes. On success one fresh block becomes live and no live block changes;
        on failure no free chunk was large enough, and the heap is still sound exactly when its end has
        not moved. Sizes so large that the 64-bit sums wrap are not considered. */
    method Kmalloc(n: nat, avail: nat) returns (addr: nat)
      requires Valid() && n <= LARGEST
      modifies this`tags, this`flag, this`fprev, this`fnext, this`free, this`chunks, this`fl, this`frees,
               this`live, this`size, this`end
      ensures n == 0 ==> addr == 0 && Valid() && live == old(live)
      ensures addr != 0 ==>
                && Valid() && addr % ALIGN == 0 && addr >= HEADER
                && var c := addr - HEADER;
                   && c !in old(live) && c in live && live == old(live)[c := live[c]]
                   && n <= live[c] < n + 2 * ALIGN + HEADER
      ensures n > 0 && (exists k :: FirstFit(old(tags), old(fl), AlignData(n), k)) ==>
                && size == old(size) && addr >= HEADER
                && exists k :: FirstFit(old(tags), old(fl), AlignData(n), k) && addr - HEADER == old(fl)[k]
      ensures addr == 0 ==> live == old(live) && (Valid() <==> size == old(size))
      ensures addr == 0 && n > 0 ==>
                && (forall c | c in old(frees) :: At(old(tags).size, c) < AlignData(n))
                && size == old(size) + Granted(old(size), AlignData(n) + HEADER, avail)
                && size < old(size) + AlignData(n) + HEADER
    {
      if n == 0 { return 0; }
      var m := AlignData(n);
      var c := FindFreeChunk(m, avail);
      if c == 0 { return 0; }
      addr := c + HEADER;
      SplitChunk(c, m);
      MakeLive(c);
    }

    method MakeLive(c: nat)
      requires Sound() && c in frees
      requires forall x | x in frees && At(tags.next, x) in frees :: x == c
      modifies this`flag, this`fprev, this`fnext, this`free, this`fl, this`frees, this`live
      ensures Valid() && c !in old(live) && live == old(live)[c := At(tags.size, c)]
      ensures (c + HEADER) % ALIGN == 0
    {
      assert AlignedAt(tags, c);
      RemoveFreeChunk(c);
      live := live[c := At(tags.size, c)];
    }

    /** Frees a live block; pointers outside the heap are ignored. */
    method Kfree(ptr: nat)
      requires Valid() && (start <= ptr <= end ==> ptr >= HEADER && ptr - HEADER in live)
      modifies this`tags, this`flag, this`fprev, this`fnext, this`free, this`chunks, this`fl, this`frees, this`live
      ensures Valid()
      ensures live == if old(start <= ptr <= end) then old(live) - {ptr - HEADER} else old(live)
    {
      if ptr < start { return; }
      if ptr > end { return; }
      var c := ptr - HEADER;
      Unlive(c);
      GlueChunk(c, true, true);
    }

    method Unlive(c: nat)
      requires Valid() && c in live
      modifies this`flag, this`fprev, this`fnext, this`free, this`fl, this`frees, this`live
      ensures Sound() && c in frees && live == old(live) - {c}
      ensures forall x | x in frees && At(tags.next, x) in frees :: x == At(tags.prev, c) || x == c
    {
      NextIsPrev(tags, chunks, start, end - HEADER, c, frees);
      InsertFreeChunk(c);
      live := live - {c};
    }

    /** Any run of allocations and of frees of pointers still held keeps the heap sound, up to the first
        allocation, if there is one, whose growth stops half-way, and no further. When all has been freed,
        one free chunk is left. `done` operations are carried out; `before` is the size before the next. */
    method Run(ops: seq<Op>) returns (held: set<nat>, done: nat, ghost before: nat)
      requires Valid() && live == map[]
      requires forall i | 0 <= i < |ops| && ops[i].Malloc? :: ops[i].n <= LARGEST
      modifies this
      ensures done <= |ops| && (done == |ops| <==> Valid())
      ensures done == |ops| ==> Holds(held, live)
      ensures done == |ops| && held == {} ==> OneFreeChunk(tags, chunks, start, end - HEADER, frees)
      ensures done < |ops| ==> ops[done].Malloc? && Halfway(before, ops[done].n, ops[done].avail)
      ensures (forall i | 0 <= i < |ops| && ops[i].Malloc? :: AllOrNothing(ops[i].n, ops[i].avail)) ==> done == |ops|
    {
      held, done, before := {}, 0, size;
      while done < |ops|
        invariant done <= |ops| && Valid() && Holds(held, live)
      {
        before := size;
        match ops[done] {
          case Malloc(n, avail) =>
            var ok;
            held, ok := Allocate(n, avail, held);
            if !ok {
              if AllOrNothing(n, avail) { NeverHalfway(before, n, avail); }
              return;
            }
          case Free(c) => held := Release(c, held);
        }
        done := done + 1;
      }
      NothingHeld(held, live);
      if held == {} { EverythingFreed(tags, flag, chunks, start, end - HEADER, frees); }
    }

    method Allocate(n: nat, avail: nat, held: set<nat>) returns (held': set<nat>, ok: bool)
      requires Valid() && Holds(held, live) && n <= LARGEST
      modifies this
      ensures ok <==> Valid()
      ensures ok ==> Holds(held', live)
      ensures !ok ==> Halfway(old(size), n, avail)
    {
      var before := size;
      var p := Kmalloc(n, avail);
      held' := if p != 0 then held + {p - HEADER} else held;
      ok := p != 0 || size == before;
    }

    method Release(c: nat, held: set<nat>) returns (held': set<nat>)
      requires Valid() && Holds(held, live)
      modifies this
      ensures Valid() && Holds(held', live)
    {
      if c !in held { return held; }
      LiveBlocksApart(tags, flag, chunks, start, end - HEADER, frees, live, c, start);
      Kfree(c + HEADER);
      held' := held - {c};
    }
  }
}
