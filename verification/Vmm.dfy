/**
 User address spaces of kernel/mem/vmm.c. Page tables are read and written through the recursive
 slot only, with the hardware walk of `Paging` in between; frames come from the bitmap of `Pmm`.
 The invariant says where every frame is: in the free set, or in exactly one place of one space.
 */
module Vmm {
  import opened Paging
  import opened Pmm
  import opened Prelude

  // ---- where a frame can be ----------------------------------------------------------------------

  /** A place in the user half of the address space whose top table is frame `space`. */
  datatype Place =
    | Root(space: nat)
    | Pdp(space: nat, i4: nat)
    | Pd(space: nat, i4: nat, i3: nat)
    | Pt(space: nat, i4: nat, i3: nat, i2: nat)
    | Page(space: nat, i4: nat, i3: nat, i2: nat, i1: nat)

  function Level(p: Place): (l: nat)
    ensures l <= 4
  {
    match p
    case Root(_) => 4
    case Pdp(_, _) => 3
    case Pd(_, _, _) => 2
    case Pt(_, _, _, _) => 1
    case Page(_, _, _, _, _) => 0
  }

  function Parent(p: Place): Place
    requires !p.Root?
  {
    match p
    case Pdp(s, _) => Root(s)
    case Pd(s, a, _) => Pdp(s, a)
    case Pt(s, a, b, _) => Pd(s, a, b)
    case Page(s, a, b, c, _) => Pt(s, a, b, c)
  }

  function Slot(p: Place): nat
    requires !p.Root?
  {
    match p
    case Pdp(_, i) => i
    case Pd(_, _, i) => i
    case Pt(_, _, _, i) => i
    case Page(_, _, _, _, i) => i
  }

  function Child(p: Place, i: nat): (c: Place)
    requires !p.Page?
    ensures !c.Root? && Parent(c) == p && Slot(c) == i && c.space == p.space
  {
    match p
    case Root(s) => Pdp(s, i)
    case Pdp(s, a) => Pd(s, a, i)
    case Pd(s, a, b) => Pt(s, a, b, i)
    case Pt(s, a, b, c) => Page(s, a, b, c, i)
  }

  /** Only the lower half of the top table belongs to the user. */
  function Limit(p: Place): nat { if p.Root? then 256 else 512 }

  /** `p` lies strictly below `q`, through one of the first `k` entries of `q`. */
  predicate Below(q: Place, p: Place, k: nat)
  {
    p.space == q.space && !p.Root? &&
    match q
    case Root(_) => p.i4 < k
    case Pdp(_, a) => !p.Pdp? && p.i4 == a && p.i3 < k
    case Pd(_, a, b) => (p.Pt? || p.Page?) && p.i4 == a && p.i3 == b && p.i2 < k
    case Pt(_, a, b, c) => p.Page? && p.i4 == a && p.i3 == b && p.i2 == c && p.i1 < k
    case Page(_, _, _, _, _) => false
  }

  // ---- the ownership invariant -------------------------------------------------------------------

  /** An entry that holds a frame: a present directory entry, or a page entry marked allocated. */
  predicate Holds(q: Place, e: Entry) { if q.Pt? then e.avl == AVL_ALLOCATED else e.present }

  /** The entry that leads to frame `f` at place `p`. */
  predicate Leads(p: Place, e: Entry, f: nat)
  {
    e.present && e.base == f && (if p.Page? then e.avl == AVL_ALLOCATED else !e.ps)
  }

  /** `own` gives the frame at each place, `owner` the place of each frame. */
  ghost predicate Inverse(own: map<Place, nat>, owner: map<nat, Place>)
  {
    && (forall p | p in own :: own[p] in owner && owner[own[p]] == p)
    && (forall f | f in owner :: owner[f] in own && own[owner[f]] == f)
  }

  ghost predicate Linked(mem: Memory, own: map<Place, nat>, p: Place)
    requires p in own
  {
    if p.Root? then own[p] == p.space
    else
      && Parent(p) in own && own[Parent(p)] in mem && Slot(p) < Limit(Parent(p))
      && Leads(p, mem[own[Parent(p)]][Slot(p)], own[p])
  }

  ghost predicate Complete(mem: Memory, own: map<Place, nat>, q: Place)
    requires q in own
  {
    q.Page? || (own[q] in mem && forall i | 0 <= i < Limit(q) ::
                  (Holds(q, mem[own[q]][i]) ==> Child(q, i) in own) &&
                  (!q.Pt? ==> !mem[own[q]][i].ps))
  }

  ghost predicate Tree(mem: Memory, own: map<Place, nat>)
  {
    && (forall p {:trigger Linked(mem, own, p)} | p in own :: Linked(mem, own, p))
    && (forall q {:trigger Complete(mem, own, q)} | q in own :: Complete(mem, own, q))
    && (forall s: nat {:trigger Recursive(mem, s)} | Root(s) in own :: Recursive(mem, s))
  }

  /** Every frame of `all` is free or at exactly one place, never both. */
  ghost predicate Accounted(own: map<Place, nat>, owner: map<nat, Place>, free: set<nat>, all: set<nat>)
  {
    && Inverse(own, owner)
    && (forall f :: f in all <==> f in free || f in owner)
    && (forall f | f in owner :: f !in free)
    && 0 !in all
  }

  lemma Take(own: map<Place, nat>, owner: map<nat, Place>, free: set<nat>, all: set<nat>, p: Place, f: nat)
    requires Accounted(own, owner, free, all) && f in free && p !in own
    ensures Accounted(own[p := f], owner[f := p], free - {f}, all)
  {}

  lemma Give(own: map<Place, nat>, owner: map<nat, Place>, free: set<nat>, all: set<nat>, p: Place)
    requires Accounted(own, owner, free, all) && p in own
    ensures Accounted(own - {p}, owner - {own[p]}, free + {own[p]}, all)
  {}

  /** Everything that holds between two operations, on values. */
  ghost predicate Inv(mem: Memory, own: map<Place, nat>, owner: map<nat, Place>, free: set<nat>,
                      all: set<nat>, kernel: nat, boot: Memory)
  {
    && Tree(mem, own)
    && Accounted(own, owner, free, all)
    && (forall f | f in all :: f in mem)
    && kernel !in all && Template(mem, kernel)
    && kernel in boot && Untouched(boot, mem, all)
    && Shared(mem, own, boot[kernel]) && Modes(mem, own, boot[kernel])
  }

  /** Frames that are not handed out hold what they held when the machine was started. */
  ghost predicate Untouched(boot: Memory, mem: Memory, all: set<nat>)
  {
    forall f | f in boot && f !in all :: f in mem && mem[f] == boot[f]
  }

  /** The kernel half of a top table is the kernel's, but for the recursive slot; in the user half the modes are. */
  ghost predicate KernelHalf(mem: Memory, top: Table, s: nat)
  {
    && s in mem
    && (forall i | 256 <= i < 512 && i != 510 :: mem[s][i] == top[i])
    && (forall i | 0 <= i < 256 :: mem[s][i].user == top[i].user)
  }

  ghost predicate Shared(mem: Memory, own: map<Place, nat>, top: Table)
  {
    forall s: nat {:trigger KernelHalf(mem, top, s)} | Root(s) in own :: KernelHalf(mem, top, s)
  }

  /** Every entry of a table has the mode of the top entry above it. */
  ghost predicate ModeAt(mem: Memory, own: map<Place, nat>, top: Table, p: Place)
    requires p in own && !p.Root?
  {
    own[p] in mem && p.i4 < 256 && forall i | 0 <= i < 512 :: mem[own[p]][i].user == top[p.i4].user
  }

  ghost predicate Modes(mem: Memory, own: map<Place, nat>, top: Table)
  {
    forall p {:trigger ModeAt(mem, own, top, p)} | p in own && !p.Root? && !p.Page? :: ModeAt(mem, own, top, p)
  }

  /** The index of the top entry above entry `i` of the table at `q`. */
  function TopIndex(q: Place, i: nat): nat { if q.Root? then i else q.i4 }

  /** The kernel's own top table: an empty user half, and slot 510 recursive. */
  ghost predicate Template(mem: Memory, kernel: nat)
  {
    Recursive(mem, kernel) && forall i | 0 <= i < 256 :: !mem[kernel][i].present
  }

  // ---- lemmas about single updates -----------------------------------------------------------------

  function Blank(user: bool): Table { seq(512, _ => Entry(false, user, false, 0, 0)) }

  predicate Cleared(t: Table) { forall i | 0 <= i < 512 :: !t[i].present }

  lemma BlankIsCleared(user: bool)
    ensures Cleared(Blank(user))
  {}

  function WithEntry(mem: Memory, t: nat, i: nat, e: Entry): Memory
    requires t in mem && i < 512
  {
    mem[t := mem[t][i := e]]
  }

  lemma AddTable(mem: Memory, own: map<Place, nat>, q: Place, i: nat, e: Entry, f: nat, user: bool)
    requires Tree(mem, own) && q in own && !q.Page? && !q.Pt? && i < Limit(q)
    requires forall p, p' | p in own && p' in own && own[p] == own[p'] :: p == p'
    requires forall p | p in own :: own[p] != f
    requires f in mem && own[q] in mem && !mem[own[q]][i].present
    requires Leads(Child(q, i), e, f)
    ensures Tree(WithEntry(mem, own[q], i, e)[f := Blank(user)], own[Child(q, i) := f])
  {
    var c := Child(q, i);
    var mem', own' := WithEntry(mem, own[q], i, e)[f := Blank(user)], own[c := f];
    assert c in own ==> Linked(mem, own, c);
    forall p | p in own' ensures Linked(mem', own', p) {
      if p != c { assert Linked(mem, own, p); }
    }
    forall p | p in own' ensures Complete(mem', own', p) {
      if p != c { assert Complete(mem, own, p); }
    }
    forall s: nat | Root(s) in own' ensures Recursive(mem', s) {
      assert Linked(mem, own, Root(s)) && Recursive(mem, s);
    }
  }

  lemma SetPage(mem: Memory, own: map<Place, nat>, q: Place, i: nat, e: Entry, own': map<Place, nat>)
    requires Tree(mem, own) && q in own && q.Pt? && i < 512 && own[q] in mem
    requires forall p, p' | p in own && p' in own && own[p] == own[p'] :: p == p'
    requires own' == if e.avl == AVL_ALLOCATED then own[Child(q, i) := e.base] else own - {Child(q, i)}
    requires e.avl == AVL_ALLOCATED ==> e.present
    ensures Tree(WithEntry(mem, own[q], i, e), own')
  {
    var c := Child(q, i);
    var mem' := WithEntry(mem, own[q], i, e);
    forall p | p in own' ensures Linked(mem', own', p) {
      if p != c { assert Linked(mem, own, p); }
    }
    forall p | p in own' ensures Complete(mem', own', p) {
      if p != c { assert Complete(mem, own, p); }
    }
    forall s: nat | Root(s) in own' ensures Recursive(mem', s) {
      assert Linked(mem, own, Root(s)) && Recursive(mem, s);
    }
  }

  lemma TableAdded(mem: Memory, own: map<Place, nat>, owner: map<nat, Place>, free: set<nat>, all: set<nat>,
                   kernel: nat, boot: Memory, q: Place, i: nat, f: nat, user: bool)
    requires Inv(mem, own, owner, free, all, kernel, boot)
    requires q in own && !q.Page? && !q.Pt? && i < Limit(q) && f in free
    requires own[q] in mem && !mem[own[q]][i].present
    requires TopIndex(q, i) < 512 && user == boot[kernel][TopIndex(q, i)].user
    ensures var e := mem[own[q]][i].(present := true, base := f);
            Inv(WithEntry(mem, own[q], i, e)[f := Blank(user)], own[Child(q, i) := f],
                owner[f := Child(q, i)], free - {f}, all, kernel, boot)
  {
    var c := Child(q, i);
    assert Complete(mem, own, q);
    assert c in own ==> Linked(mem, own, c);
    AddTable(mem, own, q, i, mem[own[q]][i].(present := true, base := f), f, user);
    Take(own, owner, free, all, c, f);
    TableKernel(mem, own, owner, free, all, kernel, boot, q, i, f, user);
  }

  lemma TableKernel(mem: Memory, own: map<Place, nat>, owner: map<nat, Place>, free: set<nat>, all: set<nat>,
                    kernel: nat, boot: Memory, q: Place, i: nat, f: nat, user: bool)
    requires Inv(mem, own, owner, free, all, kernel, boot)
    requires q in own && !q.Page? && !q.Pt? && i < Limit(q) && f in free
    requires own[q] in mem && TopIndex(q, i) < 512 && user == boot[kernel][TopIndex(q, i)].user
    ensures var e := mem[own[q]][i].(present := true, base := f);
            var mem', own' := WithEntry(mem, own[q], i, e)[f := Blank(user)], own[Child(q, i) := f];
            Untouched(boot, mem', all) && Shared(mem', own', boot[kernel]) && Modes(mem', own', boot[kernel])
  {
    var e := mem[own[q]][i].(present := true, base := f);
    var c, top := Child(q, i), boot[kernel];
    var mem', own' := WithEntry(mem, own[q], i, e)[f := Blank(user)], own[c := f];
    assert Linked(mem, own, q) && (!q.Root? ==> ModeAt(mem, own, top, q));
    forall s: nat | Root(s) in own' ensures KernelHalf(mem', top, s) {
      assert KernelHalf(mem, top, s) && Linked(mem, own, Root(s));
    }
    forall p | p in own' && !p.Root? && !p.Page? ensures ModeAt(mem', own', top, p) {
      if p != c { assert ModeAt(mem, own, top, p); }
    }
  }

  /** Writing a page entry: an allocated entry takes its frame from the free set, and overwriting an
      allocated entry gives its frame back. */
  lemma PageWritten(mem: Memory, own: map<Place, nat>, owner: map<nat, Place>, free: set<nat>, all: set<nat>,
                    kernel: nat, boot: Memory, q: Place, i: nat, e: Entry)
    requires Inv(mem, own, owner, free, all, kernel, boot)
    requires q in own && q.Pt? && i < 512 && own[q] in mem
    requires e.avl == AVL_ALLOCATED ==> e.present && e.base in free && !mem[own[q]][i].present
    requires e.user == mem[own[q]][i].user
    ensures var c, was, mem' := Child(q, i), mem[own[q]][i], WithEntry(mem, own[q], i, e);
            if e.avl == AVL_ALLOCATED then
              Inv(mem', own[c := e.base], owner[e.base := c], free - {e.base}, all, kernel, boot)
            else if was.avl == AVL_ALLOCATED then
              was.base in all && was.base !in free &&
              Inv(mem', own - {c}, owner - {was.base}, free + {was.base}, all, kernel, boot)
            else
              Inv(mem', own, owner, free, all, kernel, boot)
  {
    var c, was := Child(q, i), mem[own[q]][i];
    assert Complete(mem, own, q);
    assert c in own ==> Linked(mem, own, c);
    PageKernel(mem, own, owner, free, all, kernel, boot, q, i, e);
    if e.avl == AVL_ALLOCATED {
      Take(own, owner, free, all, c, e.base);
      SetPage(mem, own, q, i, e, own[c := e.base]);
      ModesOf(WithEntry(mem, own[q], i, e), own, own[c := e.base], boot[kernel]);
    } else {
      if was.avl == AVL_ALLOCATED { Give(own, owner, free, all, c); } else { assert own - {c} == own; }
      SetPage(mem, own, q, i, e, own - {c});
      ModesOf(WithEntry(mem, own[q], i, e), own, own - {c}, boot[kernel]);
    }
  }

  lemma PageKernel(mem: Memory, own: map<Place, nat>, owner: map<nat, Place>, free: set<nat>, all: set<nat>,
                   kernel: nat, boot: Memory, q: Place, i: nat, e: Entry)
    requires Inv(mem, own, owner, free, all, kernel, boot)
    requires q in own && q.Pt? && i < 512 && own[q] in mem && e.user == mem[own[q]][i].user
    ensures var mem' := WithEntry(mem, own[q], i, e);
            Untouched(boot, mem', all) && Shared(mem', own, boot[kernel]) && Modes(mem', own, boot[kernel])
  {
    var top, mem' := boot[kernel], WithEntry(mem, own[q], i, e);
    forall s: nat | Root(s) in own ensures KernelHalf(mem', top, s) {
      assert KernelHalf(mem, top, s) && Linked(mem, own, Root(s)) && Linked(mem, own, q);
    }
    forall p | p in own && !p.Root? && !p.Page? ensures ModeAt(mem', own, top, p) { assert ModeAt(mem, own, top, p); }
  }

  /** Pages do not matter. */
  lemma ModesOf(mem: Memory, own: map<Place, nat>, own': map<Place, nat>, top: Table)
    requires Modes(mem, own, top) && Shared(mem, own, top)
    requires forall p | p in own' && !p.Page? :: p in own && own[p] == own'[p]
    ensures Modes(mem, own', top) && Shared(mem, own', top)
  {
    forall p | p in own' && !p.Root? && !p.Page? ensures ModeAt(mem, own', top, p) { assert ModeAt(mem, own, top, p); }
    forall s: nat | Root(s) in own' ensures KernelHalf(mem, top, s) { assert KernelHalf(mem, top, s); }
  }

  lemma NotAllocated(mem: Memory, own: map<Place, nat>, q: Place, i: nat)
    requires Tree(mem, own) && q in own && q.Pt? && i < 512
    ensures own[q] in mem && (Child(q, i) in own <==> mem[own[q]][i].avl == AVL_ALLOCATED)
    ensures Child(q, i) in own ==> mem[own[q]][i].present && mem[own[q]][i].base == own[Child(q, i)]
  {
    assert Complete(mem, own, q);
    assert Child(q, i) in own ==> Linked(mem, own, Child(q, i));
  }

  /** An entry of a directory is present exactly when the table behind it is owned. */
  lemma PresentIffOwned(mem: Memory, own: map<Place, nat>, q: Place, i: nat)
    requires Tree(mem, own) && q in own && !q.Page? && !q.Pt? && i < Limit(q)
    ensures own[q] in mem && (Child(q, i) in own <==> mem[own[q]][i].present)
  {
    assert Complete(mem, own, q);
    assert Child(q, i) in own ==> Linked(mem, own, Child(q, i));
  }

  /** The top table of a new space. */
  function TopTable(mem: Memory, kernel: nat, s: nat): Table
    requires kernel in mem
  {
    mem[kernel][510 := mem[kernel][510].(present := true, base := s)]
  }

  lemma SpaceAdded(mem: Memory, own: map<Place, nat>, owner: map<nat, Place>, free: set<nat>, all: set<nat>,
                   kernel: nat, boot: Memory, s: nat)
    requires Inv(mem, own, owner, free, all, kernel, boot) && s in free
    ensures forall p | p in own :: p.space != s
    ensures Inv(mem[s := TopTable(mem, kernel, s)], own[Root(s) := s], owner[s := Root(s)], free - {s}, all, kernel,
                boot)
  {
    forall p | p in own ensures p.space != s { SpaceHasRoot(mem, own, p); }
    Take(own, owner, free, all, Root(s), s);
    SpaceTree(mem, own, kernel, s);
    SpaceKernel(mem, own, owner, free, all, kernel, boot, s);
  }

  lemma SpaceKernel(mem: Memory, own: map<Place, nat>, owner: map<nat, Place>, free: set<nat>, all: set<nat>,
                    kernel: nat, boot: Memory, s: nat)
    requires Inv(mem, own, owner, free, all, kernel, boot) && s in free
    ensures var mem', own' := mem[s := TopTable(mem, kernel, s)], own[Root(s) := s];
            Untouched(boot, mem', all) && Shared(mem', own', boot[kernel]) && Modes(mem', own', boot[kernel])
  {
    var mem', own', top := mem[s := TopTable(mem, kernel, s)], own[Root(s) := s], boot[kernel];
    assert mem[kernel] == top;
    forall r: nat | Root(r) in own' ensures KernelHalf(mem', top, r) {
      if r != s { assert KernelHalf(mem, top, r) && Linked(mem, own, Root(r)); }
    }
    forall p | p in own' && !p.Root? && !p.Page? ensures ModeAt(mem', own', top, p) { assert ModeAt(mem, own, top, p); }
  }

  lemma SpaceTree(mem: Memory, own: map<Place, nat>, kernel: nat, s: nat)
    requires Tree(mem, own) && Template(mem, kernel) && s != kernel
    requires forall p | p in own :: p.space != s && own[p] != s
    ensures Tree(mem[s := TopTable(mem, kernel, s)], own[Root(s) := s])
    ensures Template(mem[s := TopTable(mem, kernel, s)], kernel)
  {
    var mem', own' := mem[s := TopTable(mem, kernel, s)], own[Root(s) := s];
    forall p | p in own' ensures Linked(mem', own', p) {
      if p != Root(s) { assert Linked(mem, own, p); }
    }
    forall p | p in own' ensures Complete(mem', own', p) {
      if p != Root(s) { assert Complete(mem, own, p); }
    }
    forall r: nat | Root(r) in own' ensures Recursive(mem', r) {
      if r != s { assert Linked(mem, own, Root(r)) && Recursive(mem, r); }
    }
  }

  function Dismantled(own: map<Place, nat>, s: nat): map<Place, nat>
  {
    map p | p in own && p.space != s :: own[p]
  }

  lemma SpaceRemoved(mem: Memory, own: map<Place, nat>, owner: map<nat, Place>, free: set<nat>, free': set<nat>,
                     all: set<nat>, kernel: nat, boot: Memory, s: nat)
    requires Inv(mem, own, owner, free, all, kernel, boot)
    requires forall f :: f in free' <==> f in free || (f in owner && owner[f].space == s)
    ensures var owner' := map f | f in owner && owner[f].space != s :: owner[f];
            Inv(mem, Dismantled(own, s), owner', free', all, kernel, boot)
  {
    var own' := Dismantled(own, s);
    forall p | p in own' ensures Linked(mem, own', p) { assert Linked(mem, own, p); }
    forall p | p in own' ensures Complete(mem, own', p) { assert Complete(mem, own, p); }
    forall r: nat | Root(r) in own' ensures Recursive(mem, r) { assert Recursive(mem, r); }
    ModesOf(mem, own, own', boot[kernel]);
  }

  // ---- tables seen through the recursive slot ----------------------------------------------------

  /** The indices of the virtual address at which the table at `q` appears. */
  function TableIndices(q: Place): (v: Indices)
    requires !q.Page?
  {
    match q
    case Root(_) => Indices(510, 510, 510, 510)
    case Pdp(_, a) => Indices(510, 510, 510, a)
    case Pd(_, a, b) => Indices(510, 510, a, b)
    case Pt(_, a, b, c) => Indices(510, a, b, c)
  }

  lemma Visible(mem: Memory, own: map<Place, nat>, q: Place)
    requires Tree(mem, own) && q in own && !q.Page?
    ensures Root(q.space) in own
    ensures var v := TableIndices(q); v.i4 < 512 && v.i3 < 512 && v.i2 < 512 && v.i1 < 512
    ensures Translate(mem, q.space, TableIndices(q)) == Some(own[q])
  {
    assert Linked(mem, own, q);
    if !q.Root? {
      var p := Parent(q);
      assert Linked(mem, own, p);
      if !p.Root? { assert Linked(mem, own, Parent(p)); }
    }
    assert Linked(mem, own, Root(q.space)) && Recursive(mem, q.space);
  }

  /** A table is reachable at its address as soon as its entry is written, before it is initialised. */
  lemma LinkVisible(mem: Memory, own: map<Place, nat>, q: Place, i: nat, f: nat)
    requires Tree(mem, own) && q in own && !q.Page? && !q.Pt? && i < Limit(q) && f in mem
    requires forall p, p' | p in own && p' in own && own[p] == own[p'] :: p == p'
    requires own[q] in mem && !mem[own[q]][i].present
    ensures var v := TableIndices(Child(q, i)); v.i4 < 512 && v.i3 < 512 && v.i2 < 512 && v.i1 < 512
    ensures Translate(WithEntry(mem, own[q], i, mem[own[q]][i].(present := true, base := f)),
                      q.space, TableIndices(Child(q, i))) == Some(f)
  {
    Visible(mem, own, q);
    assert Linked(mem, own, q) && Complete(mem, own, q);
    assert Linked(mem, own, Root(q.space)) && Recursive(mem, q.space);
    if !q.Root? {
      var p := Parent(q);
      assert Linked(mem, own, p);
      if !p.Root? { assert Linked(mem, own, Parent(p)); }
    }
  }

  /** What lies below entry `ix` of `q`: the place behind it, and everything below that place. */
  lemma BelowStep(mem: Memory, own: map<Place, nat>, q: Place, ix: nat, p: Place)
    requires Tree(mem, own) && q in own && p in own && !q.Page?
    ensures Below(q, p, ix + 1) <==> Below(q, p, ix) || p == Child(q, ix) || Below(Child(q, ix), p, 512)
    ensures Child(q, ix) !in own ==> p != Child(q, ix) && !Below(Child(q, ix), p, 512)
    ensures Below(q, p, 512) ==> Below(q, p, Limit(q))
    ensures !Below(q, q, ix) && !Below(Child(q, ix), Child(q, ix), 512)
  {
    assert Linked(mem, own, p);
    if !p.Root? {
      var p1 := Parent(p);
      assert Linked(mem, own, p1);
      if !p1.Root? {
        var p2 := Parent(p1);
        assert Linked(mem, own, p2);
        if !p2.Root? { assert Linked(mem, own, Parent(p2)); }
      }
    }
  }

  lemma InSpace(mem: Memory, own: map<Place, nat>, p: Place)
    requires Tree(mem, own) && p in own
    ensures p == Root(p.space) || Below(Root(p.space), p, 512)
  {
    assert Linked(mem, own, p);
    if !p.Root? {
      var p1 := Parent(p);
      assert Linked(mem, own, p1);
      if !p1.Root? {
        var p2 := Parent(p1);
        assert Linked(mem, own, p2);
        if !p2.Root? { assert Linked(mem, own, Parent(p2)); }
      }
    }
  }

  lemma SpaceMembers(mem: Memory, own: map<Place, nat>, owner: map<nat, Place>, s: nat)
    requires Tree(mem, own) && Inverse(own, owner) && Root(s) in own && own[Root(s)] == s
    ensures forall f | f in owner :: owner[f].space == s <==> f == s || Below(Root(s), owner[f], 512)
  {
    forall f | f in owner ensures owner[f].space == s <==> f == s || Below(Root(s), owner[f], 512) {
      InSpace(mem, own, owner[f]);
    }
  }

  lemma SpaceHasRoot(mem: Memory, own: map<Place, nat>, p: Place)
    requires Tree(mem, own) && p in own
    ensures Root(p.space) in own && own[Root(p.space)] == p.space
  {
    assert Linked(mem, own, p);
    var q := if p.Page? then Parent(p) else p;
    Visible(mem, own, q);
    assert Linked(mem, own, Root(p.space));
  }

  /** The free set is determined by who owns what: this is what makes a leak or a double free visible. */
  lemma FreeDetermined(own: map<Place, nat>, owner: map<nat, Place>, owner': map<nat, Place>,
                       free: set<nat>, free': set<nat>, all: set<nat>)
    requires Accounted(own, owner, free, all) && Accounted(own, owner', free', all)
    ensures free == free'
  {
    forall f ensures f in free <==> f in free' {
      assert f in owner ==> own[owner[f]] == f && owner'[f] == owner[f];
      assert f in owner' ==> own[owner'[f]] == f && owner[f] == owner'[f];
    }
  }

  datatype UserOp = AllocPage(virt: bv64) | MapPage(virt: bv64, phys: nat) | FreePage(virt: bv64)

  function PtOf(s: nat, v: Indices): Place { Pt(s, v.i4, v.i3, v.i2) }

  function PageOf(s: nat, v: Indices): Place { Page(s, v.i4, v.i3, v.i2, v.i1) }

  lemma OwnedUp(mem: Memory, own: map<Place, nat>, p: Place)
    requires Tree(mem, own) && p.Pt?
    ensures p in own ==> Parent(p) in own && Parent(Parent(p)) in own
  {
    if p in own {
      assert Linked(mem, own, p);
      assert Linked(mem, own, Parent(p));
    }
  }

  /** The hardware translates a user address exactly when its page table is owned and its entry present. */
  lemma UserTranslate(mem: Memory, own: map<Place, nat>, s: nat, v: Indices)
    requires Tree(mem, own) && Root(s) in own
    requires v.i4 < 256 && v.i3 < 512 && v.i2 < 512 && v.i1 < 512
    ensures PtOf(s, v) in own ==> own[PtOf(s, v)] in mem
    ensures Translate(mem, s, v) ==
              if PtOf(s, v) in own && mem[own[PtOf(s, v)]][v.i1].present
              then Some(mem[own[PtOf(s, v)]][v.i1].base) else None
  {
    var d3, d2, d1 := Pdp(s, v.i4), Pd(s, v.i4, v.i3), PtOf(s, v);
    OwnedUp(mem, own, d1);
    assert Linked(mem, own, Root(s));
    PresentIffOwned(mem, own, Root(s), v.i4);
    assert d3 in own ==> Linked(mem, own, d3) && Complete(mem, own, d3);
    if d3 in own { PresentIffOwned(mem, own, d3, v.i3); }
    assert d2 in own ==> Linked(mem, own, d2) && Complete(mem, own, d2);
    if d2 in own { PresentIffOwned(mem, own, d2, v.i2); }
    assert d1 in own ==> Linked(mem, own, d1) && Complete(mem, own, d1);
  }

  /** Every level of the walk of an address grants access from user mode. */
  ghost predicate UserPage(mem: Memory, s: nat, v: Indices)
    requires User(v)
  {
    && Translate(mem, s, v).Some? && mem[s][v.i4].user && mem[WalkPdp(mem, s, v).value][v.i3].user
    && mem[WalkPd(mem, s, v).value][v.i2].user && mem[WalkPt(mem, s, v).value][v.i1].user
  }

  /** A mapped page can be accessed from user mode exactly when the kernel has given its top entry to the user. */
  lemma ModeOfPage(mem: Memory, own: map<Place, nat>, owner: map<nat, Place>, free: set<nat>, all: set<nat>,
                   kernel: nat, boot: Memory, s: nat, v: Indices)
    requires Inv(mem, own, owner, free, all, kernel, boot) && Root(s) in own && User(v)
    requires Translate(mem, s, v).Some?
    ensures UserPage(mem, s, v) <==> boot[kernel][v.i4].user
  {
    UserTranslate(mem, own, s, v);
    var d3, d2, d1, top := Pdp(s, v.i4), Pd(s, v.i4, v.i3), PtOf(s, v), boot[kernel];
    OwnedUp(mem, own, d1);
    assert Linked(mem, own, Root(s)) && KernelHalf(mem, top, s);
    assert Linked(mem, own, d3) && Linked(mem, own, d2) && Linked(mem, own, d1);
    assert ModeAt(mem, own, top, d3) && ModeAt(mem, own, top, d2) && ModeAt(mem, own, top, d1);
  }

  /** An address of the kernel half, outside the recursive slot. */
  predicate KernelAddress(v: Indices)
  {
    256 <= v.i4 < 512 && v.i4 != 510 && v.i3 < 512 && v.i2 < 512 && v.i1 < 512
  }

  /** None of the tables that the kernel's walks visit is ever handed out. */
  ghost predicate KernelApart(mem: Memory, kernel: nat, all: set<nat>)
  {
    forall v: Indices {:trigger ApartAt(mem, kernel, all, v)} | KernelAddress(v) :: ApartAt(mem, kernel, all, v)
  }

  ghost predicate ApartAt(mem: Memory, kernel: nat, all: set<nat>, v: Indices)
    requires KernelAddress(v)
  {
    && Kept(mem, all, WalkPdp(mem, kernel, v)) && Kept(mem, all, WalkPd(mem, kernel, v))
    && Kept(mem, all, WalkPt(mem, kernel, v))
  }

  ghost predicate Kept(mem: Memory, all: set<nat>, f: Option<nat>) { f.Some? ==> f.value in mem && f.value !in all }

  /** In every space a kernel address leads where the kernel's own table has led since the start, large pages
      included. */
  lemma KernelEverywhere(mem: Memory, own: map<Place, nat>, owner: map<nat, Place>, free: set<nat>, all: set<nat>,
                         kernel: nat, boot: Memory, s: nat, v: Indices)
    requires Inv(mem, own, owner, free, all, kernel, boot) && KernelApart(boot, kernel, all)
    requires (Root(s) in own || s == kernel) && KernelAddress(v)
    ensures Translate(mem, s, v) == Translate(boot, kernel, v)
    ensures WalkPd(mem, s, v) == WalkPd(boot, kernel, v) && WalkPt(mem, s, v) == WalkPt(boot, kernel, v)
  {
    assert ApartAt(boot, kernel, all, v);
    assert mem[kernel] == boot[kernel];
    if s != kernel { assert KernelHalf(mem, boot[kernel], s); }
    assert WalkPdp(mem, s, v) == WalkPdp(boot, kernel, v);
  }

  predicate User(v: Indices) { v.i4 < 256 && v.i3 < 512 && v.i2 < 512 && v.i1 < 512 }

  /** A user address of a space leads where it led. */
  ghost predicate SameAt(mem: Memory, mem': Memory, s: nat, x: Indices)
    requires User(x)
  {
    Translate(mem', s, x) == Translate(mem, s, x)
  }

  /** In every space every user address leads where it led. */
  ghost predicate AllSame(mem: Memory, own: map<Place, nat>, mem': Memory)
  {
    forall s: nat, x: Indices {:trigger SameAt(mem, mem', s, x)} | Root(s) in own && User(x) :: SameAt(mem, mem', s, x)
  }

  /** ... but for address `v` of space `s0`. */
  ghost predicate OthersSame(mem: Memory, own: map<Place, nat>, mem': Memory, s0: nat, v: Indices)
  {
    forall s: nat, x: Indices {:trigger SameAt(mem, mem', s, x)} | Root(s) in own && User(x) && (s != s0 || x != v) ::
      SameAt(mem, mem', s, x)
  }

  /** ... but for space `s0`. */
  ghost predicate OtherSpacesSame(mem: Memory, own: map<Place, nat>, mem': Memory, s0: nat)
  {
    forall s: nat, x: Indices {:trigger SameAt(mem, mem', s, x)} | Root(s) in own && User(x) && s != s0 ::
      SameAt(mem, mem', s, x)
  }

  lemma SameTrans(mem: Memory, own: map<Place, nat>, mid: Memory, own': map<Place, nat>, mem': Memory)
    requires AllSame(mem, own, mid) && AllSame(mid, own', mem') && forall s: nat | Root(s) in own :: Root(s) in own'
    ensures AllSame(mem, own, mem')
  {
    forall s: nat, x: Indices | Root(s) in own && User(x) ensures SameAt(mem, mem', s, x) {
      assert SameAt(mem, mid, s, x) && SameAt(mid, mem', s, x);
    }
  }

  lemma OthersTrans(mem: Memory, own: map<Place, nat>, mid: Memory, own': map<Place, nat>, mem': Memory, s0: nat,
      v: Indices)
    requires AllSame(mem, own, mid) && OthersSame(mid, own', mem', s0, v)
    requires forall s: nat | Root(s) in own :: Root(s) in own'
    ensures OthersSame(mem, own, mem', s0, v)
  {
    forall s: nat, x: Indices | Root(s) in own && User(x) && (s != s0 || x != v) ensures SameAt(mem, mem', s, x) {
      assert SameAt(mem, mid, s, x) && SameAt(mid, mem', s, x);
    }
  }

  /** A space made and changed afterwards leaves those before it alone. */
  lemma SpacesTrans(mem: Memory, own: map<Place, nat>, mid: Memory, own': map<Place, nat>, mem': Memory, s0: nat)
    requires AllSame(mem, own, mid) && OtherSpacesSame(mid, own', mem', s0) && Root(s0) !in own
    requires forall s: nat | Root(s) in own :: Root(s) in own'
    ensures AllSame(mem, own, mem')
  {
    forall s: nat, x: Indices | Root(s) in own && User(x) ensures SameAt(mem, mem', s, x) {
      assert SameAt(mem, mid, s, x) && SameAt(mid, mem', s, x);
    }
  }

  lemma MoreSpacesSame(mem: Memory, own: map<Place, nat>, mid: Memory, own': map<Place, nat>, mem': Memory, s0: nat)
    requires OtherSpacesSame(mem, own, mid, s0) && OtherSpacesSame(mid, own', mem', s0)
    requires forall s: nat | Root(s) in own && s != s0 :: Root(s) in own'
    ensures OtherSpacesSame(mem, own, mem', s0)
  {
    forall s: nat, x: Indices | Root(s) in own && User(x) && s != s0 ensures SameAt(mem, mem', s, x) {
      assert SameAt(mem, mid, s, x) && SameAt(mid, mem', s, x);
    }
  }

  /** Writing one page entry changes the translation of its own address only. */
  lemma EntryOthersSame(mem: Memory, own: map<Place, nat>, own': map<Place, nat>, mem': Memory, s0: nat, v: Indices,
      e: Entry)
    requires Tree(mem, own) && Tree(mem', own') && PtOf(s0, v) in own && User(v) && own[PtOf(s0, v)] in mem
    requires mem' == WithEntry(mem, own[PtOf(s0, v)], v.i1, e)
    requires forall p, p' | p in own && p' in own && own[p] == own[p'] :: p == p'
    requires forall p: Place | !p.Page? :: (p in own <==> p in own') && (p in own ==> own[p] == own'[p])
    ensures OthersSame(mem, own, mem', s0, v)
  {
    forall s: nat, x: Indices | Root(s) in own && User(x) && (s != s0 || x != v) ensures SameAt(mem, mem', s, x) {
      UserTranslate(mem, own, s, x);
      UserTranslate(mem', own', s, x);
    }
  }

  /** A new empty table changes no translation. */
  lemma TableAllSame(mem: Memory, own: map<Place, nat>, q: Place, i: nat, e: Entry, f: nat, user: bool, mem': Memory)
    requires Tree(mem, own) && q in own && !q.Page? && !q.Pt? && i < Limit(q) && own[q] in mem && f in mem
    requires forall p, p' | p in own && p' in own && own[p] == own[p'] :: p == p'
    requires forall p | p in own :: own[p] != f
    requires Child(q, i) !in own && mem' == WithEntry(mem, own[q], i, e)[f := Blank(user)]
    requires Tree(mem', own[Child(q, i) := f])
    ensures AllSame(mem, own, mem')
  {
    forall s: nat, x: Indices | Root(s) in own && User(x) ensures SameAt(mem, mem', s, x) {
      UserTranslate(mem, own, s, x);
      UserTranslate(mem', own[Child(q, i) := f], s, x);
      BlankIsCleared(user);
    }
  }

  /** A new top table neither changes a translation nor has one. */
  lemma SpaceAllSame(mem: Memory, own: map<Place, nat>, s0: nat, table: Table, mem': Memory)
    requires Tree(mem, own) && mem' == mem[s0 := table] && Tree(mem', own[Root(s0) := s0])
    requires forall p | p in own :: own[p] != s0 && p.space != s0
    ensures AllSame(mem, own, mem')
    ensures forall x: Indices | User(x) :: Translate(mem', s0, x) == None
  {
    var own' := own[Root(s0) := s0];
    forall s: nat, x: Indices | Root(s) in own && User(x) ensures SameAt(mem, mem', s, x) {
      UserTranslate(mem, own, s, x);
      UserTranslate(mem', own', s, x);
    }
    forall x: Indices | User(x) ensures Translate(mem', s0, x) == None { UserTranslate(mem', own', s0, x); }
  }

  predicate UserAddress(a: bv64) { Split(a).i4 < 256 }

  /** The four table addresses `get_page` computes for an address. */
  datatype Tables = Tables(pl4: Indices, pl3: Indices, pl2: Indices, pl1: Indices)

  function TablesOf(a: bv64): Tables { Tables(Split(PL4_BASE), Split(Pl3(a)), Split(Pl2(a)), Split(Pl1(a))) }

  predicate RightTables(s: nat, v: Indices, t: Tables)
  {
    && v.i4 < 256 && v.i3 < 512 && v.i2 < 512 && v.i1 < 512
    && t.pl4 == TableIndices(Root(s)) && t.pl3 == TableIndices(Pdp(s, v.i4))
    && t.pl2 == TableIndices(Pd(s, v.i4, v.i3)) && t.pl1 == TableIndices(PtOf(s, v))
  }

  lemma RightAddresses(a: bv64, s: nat)
    requires UserAddress(a)
    ensures RightTables(s, Split(a), TablesOf(a))
  {
    TableAddresses(a);
  }

  /** Nothing owned is lost or moved, and only space `s` gains, and gains only tables. */
  ghost predicate Grew(own: map<Place, nat>, own': map<Place, nat>, s: nat)
  {
    && (forall p | p in own :: p in own' && own'[p] == own[p])
    && (forall p | p in own' && p !in own :: p.space == s && !p.Page?)
  }

  lemma GrewMore(own: map<Place, nat>, mid: map<Place, nat>, own': map<Place, nat>, p: Place, s: nat)
    requires Grew(own, mid, s) && p in own' && own' == mid[p := own'[p]]
    ensures Grew(own[p := own'[p]], own', s)
  {}

  /** Nothing changes outside space `s`. */
  ghost predicate Elsewhere(own: map<Place, nat>, own': map<Place, nat>, s: nat)
  {
    forall p: Place | p.space != s :: (p in own <==> p in own') && (p in own ==> own[p] == own'[p])
  }

  lemma BackToBefore(own: map<Place, nat>, own': map<Place, nat>, s: nat)
    requires forall p | p in own :: p.space != s
    requires Elsewhere(own[Root(s) := s], own', s)
    ensures Dismantled(own', s) == own
  {}

  class AddressSpaces {
    const pmm: FrameBitmap
    const kernel: nat
    var mem: Memory
    var cr3: nat
    ghost const all: set<nat>
    /** What the memory held when the first space was made. */
    ghost const boot: Memory
    ghost var own: map<Place, nat>
    ghost var owner: map<nat, Place>

    ghost predicate Valid()
      reads this, pmm, pmm.bitmap
    {
      && pmm.Valid()
      && (forall f | f in all :: f < 64 * pmm.bitmap.Length)
      && Inv(mem, own, owner, pmm.free, all, kernel, boot) && KernelApart(boot, kernel, all)
    }

    /** Kernel addresses of space `s` lead where the kernel's have led since the start. */
    ghost predicate KernelSeen(s: nat)
      reads this
    {
      forall v: Indices {:trigger Translate(mem, s, v)} | KernelAddress(v) ::
        Translate(mem, s, v) == Translate(boot, kernel, v)
    }

    lemma KernelIsSeen(s: nat)
      requires Valid() && (Root(s) in own || s == kernel)
      ensures KernelSeen(s)
    {
      forall v: Indices | KernelAddress(v) ensures Translate(mem, s, v) == Translate(boot, kernel, v) {
        KernelEverywhere(mem, own, owner, pmm.free, all, kernel, boot, s, v);
      }
    }

    constructor (frames: FrameBitmap, kernelTable: nat, memory: Memory)
      requires frames.Valid() && 0 !in frames.free && kernelTable !in frames.free
      requires forall f | f in frames.free :: f in memory
      requires Recursive(memory, kernelTable) && KernelApart(memory, kernelTable, frames.free)
      requires forall i | 0 <= i < 256 :: !memory[kernelTable][i].present
      ensures Valid() && pmm == frames && own == map[] && cr3 == kernelTable && all == frames.free && boot == memory
      ensures kernel == kernelTable
    {
      pmm, kernel, mem, cr3 := frames, kernelTable, memory, kernelTable;
      all, own, owner, boot := frames.free, map[], map[], memory;
    }

    /** The invariant while a space is being torn down: frames may be free and still be linked. */
    ghost predicate Valid0()
      reads this, pmm, pmm.bitmap
    {
      && pmm.Valid()
      && Tree(mem, own) && Inverse(own, owner)
      && (forall f | f in owner :: f < 64 * pmm.bitmap.Length)
    }

    ghost predicate InUserSpace()
      reads this
    {
      Root(cr3) in own
    }

    /** Reads entry `ix` of the table that appears at virtual address `table`. */
    method Read(table: Indices, ix: nat, ghost q: Place) returns (e: Entry)
      requires Tree(mem, own) && q in own && !q.Page? && q.space == cr3 && ix < 512
      requires table == TableIndices(q)
      ensures own[q] in mem && e == mem[own[q]][ix]
    {
      Visible(mem, own, q);
      assert Complete(mem, own, q);
      e := mem[Translate(mem, cr3, table).value][ix];
    }

    /** Writes entry `ix` of the table that appears at virtual address `table`. */
    method Write(table: Indices, ix: nat, e: Entry, ghost q: Place)
      requires Tree(mem, own) && q in own && !q.Page? && q.space == cr3 && ix < 512
      requires table == TableIndices(q)
      modifies this`mem
      ensures own[q] in old(mem) && mem == WithEntry(old(mem), own[q], ix, e)
    {
      Visible(mem, own, q);
      assert Complete(mem, own, q);
      var t := Translate(mem, cr3, table).value;
      mem := WithEntry(mem, t, ix, e);
    }

    /** A frame from the bitmap, or 0. */
    method TakeFrame() returns (phys: nat)
      requires Valid()
      modifies pmm, pmm.bitmap
      ensures pmm.Valid()
      ensures phys == 0 <==> old(pmm.free) == {}
      ensures phys == 0 ==> pmm.free == old(pmm.free)
      ensures phys != 0 ==>
                && phys % PAGE_SIZE == 0 && phys / PAGE_SIZE in old(pmm.free)
                && pmm.free == old(pmm.free) - {phys / PAGE_SIZE}
    {
      phys := pmm.AllocFrame();
    }

    /** Gives back a frame that is not free: the precondition rules out a double free. */
    method Release(address: nat, ghost f: nat)
      requires pmm.Valid() && f < 64 * pmm.bitmap.Length && f !in pmm.free && address == f * PAGE_SIZE
      modifies pmm, pmm.bitmap
      ensures pmm.Valid() && pmm.free == old(pmm.free) + {f}
    {
      PageAddress(f);
      pmm.FreeFrame(address);
    }

    /** The mode of the top entry above entry `ix` of the table at `q`, as the kernel has set it. */
    ghost function TopMode(q: Place, ix: nat): bool
    {
      kernel in boot && TopIndex(q, ix) < 512 && boot[kernel][TopIndex(q, ix)].user
    }

    /** `alloc_pde` and `init_pde` on a missing table: a fresh frame, linked and then cleared through
        its own address. */
    method MakeTable(table: Indices, ix: nat, child: Indices, user: bool, ghost q: Place)
      returns (ok: bool)
      requires Valid() && q in own && !q.Page? && !q.Pt? && q.space == cr3 && ix < Limit(q)
      requires table == TableIndices(q) && child == TableIndices(Child(q, ix))
      requires Child(q, ix) !in own && user == TopMode(q, ix)
      modifies this`mem, this`own, this`owner, pmm, pmm.bitmap
      ensures Valid()
      ensures ok <==> old(pmm.free) != {}
      ensures !ok ==> own == old(own) && pmm.free == {}
      ensures ok ==> Child(q, ix) in own && own == old(own)[Child(q, ix) := own[Child(q, ix)]]
      ensures ok ==> own[Child(q, ix)] in mem && mem[own[Child(q, ix)]] == Blank(user)
      ensures AllSame(old(mem), old(own), mem)
    {
      var phys := TakeFrame();
      if phys == 0 { return false; }
      LinkTable(table, ix, child, user, phys / PAGE_SIZE, old(pmm.free), q);
      return true;
    }

    /** Writes the entry for a fresh frame, then clears the frame through the address it has got by that. */
    method LinkTable(table: Indices, ix: nat, child: Indices, user: bool, f: nat, ghost free: set<nat>, ghost q: Place)
      requires Inv(mem, own, owner, free, all, kernel, boot) && f in free
      requires q in own && !q.Page? && !q.Pt? && q.space == cr3 && ix < Limit(q) && Child(q, ix) !in own
      requires table == TableIndices(q) && child == TableIndices(Child(q, ix)) && user == TopMode(q, ix)
      modifies this`mem, this`own, this`owner
      ensures Inv(mem, own, owner, free - {f}, all, kernel, boot)
      ensures own == old(own)[Child(q, ix) := f] && f in mem && mem[f] == Blank(user)
      ensures AllSame(old(mem), old(own), mem)
    {
      var e := Read(table, ix, q);
      PresentIffOwned(mem, own, q, ix);
      assert Linked(mem, own, q) && (!q.Root? ==> ModeAt(mem, own, boot[kernel], q));
      TableAdded(mem, own, owner, free, all, kernel, boot, q, ix, f, user);
      LinkVisible(mem, own, q, ix, f);
      Write(table, ix, e.(present := true, base := f), q);
      var t := Translate(mem, cr3, child).value;
      mem := mem[t := Blank(user)];
      own, owner := own[Child(q, ix) := f], owner[f := Child(q, ix)];
      TableAllSame(old(mem), old(own), q, ix, e.(present := true, base := f), f, user, mem);
    }

    /** One level of the walk in `get_page`: makes the table behind entry `ix` if it is missing. */
    method Descend(table: Indices, ix: nat, child: Indices, user: bool, make: bool, ghost q: Place)
      returns (ok: bool)
      requires Valid() && q in own && !q.Page? && !q.Pt? && q.space == cr3 && ix < Limit(q)
      requires table == TableIndices(q) && child == TableIndices(Child(q, ix)) && user == TopMode(q, ix)
      modifies this`mem, this`own, this`owner, pmm, pmm.bitmap
      ensures Valid() && Grew(old(own), own, cr3)
      ensures ok <==> Child(q, ix) in own
      ensures !ok ==> own == old(own)
      ensures ok && Child(q, ix) !in old(own) ==>
                && own == old(own)[Child(q, ix) := own[Child(q, ix)]]
                && own[Child(q, ix)] in mem && mem[own[Child(q, ix)]] == Blank(user)
      ensures !make || Child(q, ix) in old(own) ==>
                mem == old(mem) && own == old(own) && owner == old(owner) && pmm.free == old(pmm.free)
      ensures make && !ok ==> pmm.free == {}
      ensures AllSame(old(mem), old(own), mem)
    {
      var e := Read(table, ix, q);
      PresentIffOwned(mem, own, q, ix);
      if e.present { return true; }
      if !make { return false; }
      ok := MakeTable(table, ix, child, user, q);
    }

    /** Finds the page table of an address; the tables on the way are made on demand, and tables made
        before an allocation fails stay linked. */
    method GetPage(v: Indices, t: Tables, make: bool) returns (found: bool)
      requires Valid() && InUserSpace() && RightTables(cr3, v, t)
      modifies this`mem, this`own, this`owner, pmm, pmm.bitmap
      ensures Valid() && Grew(old(own), own, cr3)
      ensures found <==> PtOf(cr3, v) in own
      ensures AllSame(old(mem), old(own), mem)
      ensures !make ==> mem == old(mem) && own == old(own) && owner == old(owner) && pmm.free == old(pmm.free)
      ensures make && !found ==> pmm.free == {}
    {
      found := Walk(v, t.pl4, t.pl3, t.pl2, t.pl1, make);
    }

    method Walk(v: Indices, pl4: Indices, pl3: Indices, pl2: Indices, pl1: Indices, make: bool)
      returns (found: bool)
      requires Valid() && InUserSpace() && v.i4 < 256 && v.i3 < 512 && v.i2 < 512
      requires pl4 == TableIndices(Root(cr3)) && pl3 == TableIndices(Pdp(cr3, v.i4))
      requires pl2 == TableIndices(Pd(cr3, v.i4, v.i3)) && pl1 == TableIndices(PtOf(cr3, v))
      modifies this`mem, this`own, this`owner, pmm, pmm.bitmap
      ensures Valid() && Grew(old(own), own, cr3)
      ensures found <==> PtOf(cr3, v) in own
      ensures AllSame(old(mem), old(own), mem)
      ensures !make || PtOf(cr3, v) in old(own) ==>
                mem == old(mem) && own == old(own) && owner == old(owner) && pmm.free == old(pmm.free)
      ensures make && !found ==> pmm.free == {}
    {
      var user: bool;
      OwnedUp(mem, own, PtOf(cr3, v));
      found, user := WalkToPd(v, pl4, pl3, pl2, make);
      if !found { OwnedUp(mem, own, PtOf(cr3, v)); return; }
      ghost var mid, own1 := mem, own;
      found := Descend(pl2, v.i2, pl1, user, make, Pd(cr3, v.i4, v.i3));
      SameTrans(old(mem), old(own), mid, own1, mem);
      if !found { return; }
      // no user directory entry carries the PS bit, so the check for 2 MiB pages never fires here
      var d := Read(pl2, v.i2, Pd(cr3, v.i4, v.i3));
      assert Complete(mem, own, Pd(cr3, v.i4, v.i3));
      if d.ps { return false; }
    }

    method WalkToPd(v: Indices, pl4: Indices, pl3: Indices, pl2: Indices, make: bool)
      returns (found: bool, user: bool)
      requires Valid() && InUserSpace() && v.i4 < 256 && v.i3 < 512
      requires pl4 == TableIndices(Root(cr3)) && pl3 == TableIndices(Pdp(cr3, v.i4))
      requires pl2 == TableIndices(Pd(cr3, v.i4, v.i3))
      modifies this`mem, this`own, this`owner, pmm, pmm.bitmap
      ensures Valid() && Grew(old(own), own, cr3)
      ensures found <==> Pd(cr3, v.i4, v.i3) in own
      ensures user == TopMode(Root(cr3), v.i4)
      ensures AllSame(old(mem), old(own), mem)
      ensures !make || (Pdp(cr3, v.i4) in old(own) && Pd(cr3, v.i4, v.i3) in old(own)) ==>
                mem == old(mem) && own == old(own) && owner == old(owner) && pmm.free == old(pmm.free)
      ensures make && !found ==> pmm.free == {}
    {
      var e := Read(pl4, v.i4, Root(cr3));
      assert KernelHalf(mem, boot[kernel], cr3) && Linked(mem, own, Root(cr3));
      user := e.user;
      found := Descend(pl4, v.i4, pl3, user, make, Root(cr3));
      if !found {
        assert Pd(cr3, v.i4, v.i3) in own ==> Linked(mem, own, Pd(cr3, v.i4, v.i3));
        return;
      }
      ghost var mid, own1 := mem, own;
      found := Descend(pl3, v.i3, pl2, user, make, Pdp(cr3, v.i4));
      SameTrans(old(mem), old(own), mid, own1, mem);
    }

    /** Maps a fresh frame. A page that is already mapped is refused and nothing changes; any other
        failure means that the frames have run out. */
    method AllocPage(v: Indices, t: Tables) returns (status: int)
      requires Valid() && InUserSpace() && RightTables(cr3, v, t)
      modifies this`mem, this`own, this`owner, pmm, pmm.bitmap
      ensures Valid()
      ensures old(Translate(mem, cr3, v)).Some? ==> status == -1 && Grew(old(own), own, cr3)
      ensures old(Translate(mem, cr3, v)).None? && status != 0 ==>
                && pmm.free == {} && Grew(old(own), own, cr3)
                && status == if PtOf(cr3, v) in own then -ENOMEM else -1
      ensures status == 0 ==>
                var p := PageOf(cr3, v);
                && p !in old(own) && p in own && own[p] in old(pmm.free)
                && Grew(old(own)[p := own[p]], own, cr3)
                && Translate(mem, cr3, v) == Some(own[p])
                && kernel in boot && (UserPage(mem, cr3, v) <==> boot[kernel][v.i4].user)
      ensures OthersSame(old(mem), old(own), mem, cr3, v)
      ensures status != 0 ==> Translate(mem, cr3, v) == old(Translate(mem, cr3, v))
    {
      var ok := GetPage(v, t, true);
      ghost var mid, own1 := mem, own;
      assert SameAt(old(mem), mem, cr3, v);
      UserTranslate(mem, own, cr3, v);
      if !ok { return -1; }
      status := AllocFound(v, t);
      if status == 0 {
        GrewMore(old(own), own1, own, PageOf(cr3, v), cr3);
        ModeOfPage(mem, own, owner, pmm.free, all, kernel, boot, cr3, v);
      }
      OthersTrans(old(mem), old(own), mid, own1, mem, cr3, v);
    }

    /** The same once the page table is there. */
    method AllocFound(v: Indices, t: Tables) returns (status: int)
      requires Valid() && InUserSpace() && RightTables(cr3, v, t) && PtOf(cr3, v) in own
      modifies this`mem, this`own, this`owner, pmm, pmm.bitmap
      ensures Valid()
      ensures old(Translate(mem, cr3, v)).Some? ==> status == -1
      ensures status != 0 ==> mem == old(mem) && own == old(own)
      ensures old(Translate(mem, cr3, v)).None? && status != 0 ==> pmm.free == {} && status == -ENOMEM
      ensures status == 0 ==>
                var p := PageOf(cr3, v);
                && p !in old(own) && p in own && own[p] in old(pmm.free) && own == old(own)[p := own[p]]
                && Translate(mem, cr3, v) == Some(own[p])
      ensures OthersSame(old(mem), old(own), mem, cr3, v)
    {
      UserTranslate(mem, own, cr3, v);
      status := AllocEntry(t.pl1, v);
      UserTranslate(mem, own, cr3, v);
    }

    method AllocEntry(pl1: Indices, v: Indices) returns (status: int)
      requires Valid() && InUserSpace() && PtOf(cr3, v) in own && User(v)
      requires pl1 == TableIndices(PtOf(cr3, v)) && own[PtOf(cr3, v)] in mem
      modifies this`mem, this`own, this`owner, pmm, pmm.bitmap
      ensures Valid() && PtOf(cr3, v) in own && own[PtOf(cr3, v)] in mem
      ensures status == -1 <==> old(mem[own[PtOf(cr3, v)]][v.i1].present)
      ensures status == -1 || status == -ENOMEM ==> mem == old(mem) && own == old(own)
      ensures status == -1 || status == -ENOMEM || status == 0
      ensures status == -ENOMEM ==> pmm.free == {}
      ensures status == 0 ==>
                && PageOf(cr3, v) !in old(own)
                && PageOf(cr3, v) in own && own[PageOf(cr3, v)] in old(pmm.free)
                && own == old(own)[PageOf(cr3, v) := own[PageOf(cr3, v)]]
                && mem[own[PtOf(cr3, v)]][v.i1].present
                && mem[own[PtOf(cr3, v)]][v.i1].base == own[PageOf(cr3, v)]
      ensures OthersSame(old(mem), old(own), mem, cr3, v)
    {
      ghost var q := PtOf(cr3, v);
      var e := Read(pl1, v.i1, q);
      NotAllocated(mem, own, q, v.i1);
      if e.present { return -1; }
      var phys := TakeFrame();
      if phys == 0 { return -ENOMEM; }
      EnterFrame(pl1, v, e, phys / PAGE_SIZE, old(pmm.free));
      return 0;
    }

    method EnterFrame(pl1: Indices, v: Indices, e: Entry, f: nat, ghost free: set<nat>)
      requires Inv(mem, own, owner, free, all, kernel, boot) && f in free && PtOf(cr3, v) in own && User(v)
      requires pl1 == TableIndices(PtOf(cr3, v)) && own[PtOf(cr3, v)] in mem
      requires e == mem[own[PtOf(cr3, v)]][v.i1] && !e.present
      modifies this`mem, this`own, this`owner
      ensures Inv(mem, own, owner, free - {f}, all, kernel, boot) && own == old(own)[PageOf(cr3, v) := f]
      ensures own[PtOf(cr3, v)] in mem
      ensures mem[own[PtOf(cr3, v)]][v.i1].present && mem[own[PtOf(cr3, v)]][v.i1].base == f
      ensures OthersSame(old(mem), old(own), mem, cr3, v)
    {
      ghost var q := PtOf(cr3, v);
      var e' := e.(present := true, avl := AVL_ALLOCATED, base := f);
      PageWritten(mem, own, owner, free, all, kernel, boot, q, v.i1, e');
      Write(pl1, v.i1, e', q);
      own, owner := own[Child(q, v.i1) := f], owner[f := Child(q, v.i1)];
      EntryOthersSame(old(mem), old(own), own, mem, cr3, v, e');
    }

    /** Maps a given physical page, which the space does not come to own. */
    method MapPage(v: Indices, t: Tables, phys: nat) returns (status: int)
      requires Valid() && InUserSpace() && RightTables(cr3, v, t)
      modifies this`mem, this`own, this`owner, pmm, pmm.bitmap
      ensures Valid() && Grew(old(own), own, cr3)
      ensures old(Translate(mem, cr3, v)).Some? ==> status == -1
      ensures old(Translate(mem, cr3, v)).None? && status != 0 ==> pmm.free == {}
      ensures status == 0 || status == -1
      ensures status == 0 ==> Translate(mem, cr3, v) == Some(phys / PAGE_SIZE)
      ensures status == 0 ==> kernel in boot && (UserPage(mem, cr3, v) <==> boot[kernel][v.i4].user)
      ensures OthersSame(old(mem), old(own), mem, cr3, v)
      ensures status != 0 ==> Translate(mem, cr3, v) == old(Translate(mem, cr3, v))
    {
      var ok := GetPage(v, t, true);
      ghost var mid, own1 := mem, own;
      assert SameAt(old(mem), mem, cr3, v);
      UserTranslate(mem, own, cr3, v);
      if !ok { return -1; }
      status := MapEntry(t.pl1, v, phys);
      UserTranslate(mem, own, cr3, v);
      if status == 0 { ModeOfPage(mem, own, owner, pmm.free, all, kernel, boot, cr3, v); }
      OthersTrans(old(mem), old(own), mid, own1, mem, cr3, v);
    }

    method MapEntry(pl1: Indices, v: Indices, phys: nat) returns (status: int)
      requires Valid() && InUserSpace() && PtOf(cr3, v) in own && User(v)
      requires pl1 == TableIndices(PtOf(cr3, v)) && own[PtOf(cr3, v)] in mem
      modifies this`mem
      ensures Valid() && own[PtOf(cr3, v)] in mem
      ensures status == -1 <==> old(mem[own[PtOf(cr3, v)]][v.i1].present)
      ensures status == 0 || status == -1
      ensures status == 0 ==>
                && mem[own[PtOf(cr3, v)]][v.i1].present
                && mem[own[PtOf(cr3, v)]][v.i1].base == phys / PAGE_SIZE
      ensures OthersSame(old(mem), own, mem, cr3, v) && (status != 0 ==> mem == old(mem))
    {
      ghost var q := PtOf(cr3, v);
      var e := Read(pl1, v.i1, q);
      if e.present { return -1; }
      var e' := e.(present := true, avl := AVL_MAPPED, base := phys / PAGE_SIZE);
      PageWritten(mem, own, owner, pmm.free, all, kernel, boot, q, v.i1, e');
      NotAllocated(mem, own, q, v.i1);
      Write(pl1, v.i1, e', q);
      EntryOthersSame(old(mem), own, own, mem, cr3, v, e');
      return 0;
    }

    method FreePage(v: Indices, t: Tables) returns (status: int)
      requires Valid() && InUserSpace() && RightTables(cr3, v, t)
      modifies this`mem, this`own, this`owner, pmm, pmm.bitmap
      ensures Valid()
      ensures own == old(own) - {PageOf(cr3, v)}
      ensures status == 0 || status == -1
      ensures status == 0 <==> old(Translate(mem, cr3, v)).Some?
      ensures Translate(mem, cr3, v) == None
      ensures OthersSame(old(mem), old(own), mem, cr3, v)
    {
      UserTranslate(mem, own, cr3, v);
      var ok := GetPage(v, t, false);
      if !ok {
        assert PageOf(cr3, v) in own ==> Linked(mem, own, PageOf(cr3, v));
        assert own == own - {PageOf(cr3, v)};
        return -1;
      }
      status := FreeEntry(t.pl1, v);
      UserTranslate(mem, own, cr3, v);
    }

    method FreeEntry(pl1: Indices, v: Indices) returns (status: int)
      requires Valid() && InUserSpace() && PtOf(cr3, v) in own && User(v)
      requires pl1 == TableIndices(PtOf(cr3, v)) && own[PtOf(cr3, v)] in mem
      modifies this`mem, this`own, this`owner, pmm, pmm.bitmap
      ensures Valid() && own == old(own) - {PageOf(cr3, v)}
      ensures own[PtOf(cr3, v)] in mem && !mem[own[PtOf(cr3, v)]][v.i1].present
      ensures status == 0 <==> old(mem[own[PtOf(cr3, v)]][v.i1].present)
      ensures status == 0 || status == -1
      ensures OthersSame(old(mem), old(own), mem, cr3, v)
    {
      ghost var q := PtOf(cr3, v);
      var e := Read(pl1, v.i1, q);
      NotAllocated(mem, own, q, v.i1);
      if !e.present {
        assert own == own - {PageOf(cr3, v)};
        return -1;
      }
      if e.avl == AVL_ALLOCATED {
        NotFree(e.base);
        Release(e.base * PAGE_SIZE, e.base);
      }
      Unmap(pl1, v, e, old(pmm.free));
      return 0;
    }

    lemma NotFree(f: nat)
      requires Valid() && f in owner
      ensures f !in pmm.free && f < 64 * pmm.bitmap.Length
    {
      assert f in all;
    }

    /** Clears a page entry; an allocated frame has been given back before. */
    method Unmap(pl1: Indices, v: Indices, e: Entry, ghost free: set<nat>)
      requires Inv(mem, own, owner, free, all, kernel, boot) && PtOf(cr3, v) in own && User(v)
      requires pl1 == TableIndices(PtOf(cr3, v)) && own[PtOf(cr3, v)] in mem && e == mem[own[PtOf(cr3, v)]][v.i1]
      modifies this`mem, this`own, this`owner
      ensures own == old(own) - {PageOf(cr3, v)}
      ensures Inv(mem, own, owner, if e.avl == AVL_ALLOCATED then free + {e.base} else free, all, kernel, boot)
      ensures own[PtOf(cr3, v)] in mem && !mem[own[PtOf(cr3, v)]][v.i1].present
      ensures OthersSame(old(mem), old(own), mem, cr3, v)
    {
      ghost var q := PtOf(cr3, v);
      var e' := Entry(false, e.user, false, 0, 0);
      PageWritten(mem, own, owner, free, all, kernel, boot, q, v.i1, e');
      NotAllocated(mem, own, q, v.i1);
      Write(pl1, v.i1, e', q);
      if e.avl == AVL_ALLOCATED {
        own, owner := own - {PageOf(cr3, v)}, owner - {e.base};
      } else {
        assert own == own - {PageOf(cr3, v)};
      }
      EntryOthersSame(old(mem), old(own), own, mem, cr3, v, e');
    }

    /** A new space: a copy of the kernel's top table with slot 510 turned to itself. */
    method CreateUserSpace() returns (phys: nat)
      requires Valid()
      modifies this`mem, this`own, this`owner, pmm, pmm.bitmap
      ensures Valid()
      ensures phys == 0 <==> old(pmm.free) == {}
      ensures phys == 0 ==> own == old(own) && pmm.free == {}
      ensures phys != 0 ==>
                var s := phys / PAGE_SIZE;
                && phys == s * PAGE_SIZE
                && (forall p | p in old(own) :: p.space != s)
                && own == old(own)[Root(s) := s]
                && (forall x: Indices | User(x) :: Translate(mem, s, x) == None)
                && KernelSeen(s)
      ensures AllSame(old(mem), old(own), mem)
    {
      phys := TakeFrame();
      if phys == 0 { return; }
      var s := phys / PAGE_SIZE;
      SpaceAdded(mem, own, owner, old(pmm.free), all, kernel, boot, s);
      mem := mem[s := TopTable(mem, kernel, s)];
      own, owner := own[Root(s) := s], owner[s := Root(s)];
      SpaceAllSame(old(mem), old(own), s, mem[s], mem);
      KernelIsSeen(s);
    }

    /** `virt` is the virtual address at which the table at place `q` appears. */
    ghost predicate Appears(virt: bv64, q: Place)
      reads this
    {
      q in own && !q.Page? && q.space == cr3 && Split(virt) == TableIndices(q) && virt & 0xFFF == 0
    }

    /** Frees every frame strictly below the table at `virt`; `q` is the place of that table. Each
        frame is released once, and the table is read only while its own frame is not free. */
    method FreeRecurse(virt: bv64, level: nat, ghost q: Place)
      requires Valid0() && Appears(virt, q) && level == Level(q) && own[q] !in pmm.free
      requires forall f | f in owner && Below(q, owner[f], 512) :: f !in pmm.free
      modifies pmm, pmm.bitmap
      ensures Valid0() && own[q] !in pmm.free
      ensures forall f :: f in pmm.free <==> f in old(pmm.free) || (f in owner && Below(q, owner[f], 512))
      decreases level, 1
    {
      var max := if level == 4 then 256 else 512;
      var ix := 0;
      while ix < max
        invariant 0 <= ix <= max
        invariant Valid0() && own[q] !in pmm.free
        invariant forall f :: f in pmm.free <==> f in old(pmm.free) || (f in owner && Below(q, owner[f], ix))
      {
        ghost var c := Child(q, ix);
        forall f | f in owner
          ensures Below(q, owner[f], ix + 1) <==>
                  Below(q, owner[f], ix) || owner[f] == c || Below(c, owner[f], 512)
        {
          BelowStep(mem, own, q, ix, owner[f]);
        }
        BelowStep(mem, own, q, ix + 1, q);
        FreeSlot(virt, level, ix, q);
        ix := ix + 1;
      }
      forall f | f in owner ensures Below(q, owner[f], 512) <==> Below(q, owner[f], max) {
        BelowStep(mem, own, q, 0, owner[f]);
      }
    }

    /** Frees what is behind one entry: everything below the table there, then its frame. */
    method FreeSlot(virt: bv64, level: nat, ix: nat, ghost q: Place)
      requires Valid0() && Appears(virt, q) && level == Level(q) && own[q] !in pmm.free && ix < Limit(q)
      requires forall f | f in owner
        && (owner[f] == Child(q, ix) || Below(Child(q, ix), owner[f], 512)) :: f !in pmm.free
      modifies pmm, pmm.bitmap
      ensures Valid0()
      ensures forall f :: f in pmm.free <==>
                f in old(pmm.free) || (f in owner && (owner[f] == Child(q, ix) || Below(Child(q, ix), owner[f], 512)))
      decreases level, 0
    {
      var e := Read(Split(virt), ix, q);
      ghost var c := Child(q, ix);
      forall f | f in owner ensures c !in own ==> owner[f] != c && !Below(c, owner[f], 512) {
        BelowStep(mem, own, q, ix, owner[f]);
      }
      if level == 1 {
        NotAllocated(mem, own, q, ix);
        if e.avl == AVL_ALLOCATED { Release(e.base * PAGE_SIZE, e.base); }
      } else {
        PresentIffOwned(mem, own, q, ix);
        if e.present {
          assert Linked(mem, own, c);
          ChildIndices(virt, ix);
          FreeRecurse(ChildAddress(virt, ix), level - 1, c);
          Release(e.base * PAGE_SIZE, e.base);
        }
      }
    }

    /** Tears down the current space and goes back to the kernel's table. */
    method DestroyUserSpace()
      requires Valid() && InUserSpace()
      modifies this`cr3, this`own, this`owner, pmm, pmm.bitmap
      ensures Valid() && cr3 == kernel
      ensures own == Dismantled(old(own), old(cr3))
    {
      ghost var s := cr3;
      TearDown();
      SpaceMembers(mem, own, owner, s);
      SpaceRemoved(mem, own, owner, old(pmm.free), pmm.free, all, kernel, boot, s);
      own, owner := Dismantled(own, s), (map f | f in owner && owner[f].space != s :: owner[f]);
    }

    /** Frees everything below the top table, then leaves the space and frees the top table itself. */
    method TearDown()
      requires Valid() && InUserSpace()
      modifies this`cr3, pmm, pmm.bitmap
      ensures pmm.Valid() && cr3 == kernel && old(cr3) in owner && own[Root(old(cr3))] == old(cr3)
      ensures forall f :: f in pmm.free <==>
                f in old(pmm.free) || (f in owner && (f == old(cr3) || Below(Root(old(cr3)), owner[f], 512)))
    {
      var phys := cr3 * PAGE_SIZE;
      ghost var s, root := cr3, Root(cr3);
      assert Linked(mem, own, root);
      TopAddress();
      FreeRecurse(PL4_BASE, 4, root);
      cr3 := kernel;
      Release(phys, s);
    }

    method LoadPml4(s: nat)
      requires Valid() && (s == kernel || Root(s) in own)
      modifies this`cr3
      ensures Valid() && cr3 == s
    {
      cr3 := s;
    }

    /** Create a space, do anything to it, destroy it: no frame is leaked, none is freed twice, and no
        other space is touched, whatever runs out on the way. */
    method Lifetime(ops: seq<UserOp>) returns (created: bool)
      requires Valid()
      requires forall i | 0 <= i < |ops| :: UserAddress(ops[i].virt)
      modifies this, pmm, pmm.bitmap
      ensures Valid()
      ensures created <==> old(pmm.free) != {}
      ensures own == old(own) && pmm.free == old(pmm.free)
      ensures AllSame(old(mem), old(own), mem)
    {
      ghost var own0, owner0, free0 := own, owner, pmm.free;
      var phys := CreateUserSpace();
      if phys == 0 { return false; }
      LoadPml4(phys / PAGE_SIZE);
      ghost var mid, own1 := mem, own;
      Use(ops);
      SpacesTrans(old(mem), own0, mid, own1, mem, cr3);
      BackToBefore(own0, own, cr3);
      DestroyUserSpace();
      FreeDetermined(own, owner0, owner, free0, pmm.free, all);
      return true;
    }

    method Use(ops: seq<UserOp>)
      requires Valid() && InUserSpace()
      requires forall i | 0 <= i < |ops| :: UserAddress(ops[i].virt)
      modifies this`mem, this`own, this`owner, pmm, pmm.bitmap
      ensures Valid() && InUserSpace() && Elsewhere(old(own), own, cr3) && KernelSeen(cr3)
      ensures OtherSpacesSame(old(mem), old(own), mem, cr3)
    {
      KernelIsSeen(cr3);
      for i := 0 to |ops|
        invariant Valid() && InUserSpace() && Elsewhere(old(own), own, cr3) && KernelSeen(cr3)
        invariant OtherSpacesSame(old(mem), old(own), mem, cr3)
      {
        ghost var mid, own1 := mem, own;
        Perform(ops[i]);
        MoreSpacesSame(old(mem), old(own), mid, own1, mem, cr3);
      }
    }

    method Perform(op: UserOp)
      requires Valid() && InUserSpace() && UserAddress(op.virt)
      modifies this`mem, this`own, this`owner, pmm, pmm.bitmap
      ensures Valid() && InUserSpace() && Elsewhere(old(own), own, cr3) && KernelSeen(cr3)
      ensures OtherSpacesSame(old(mem), old(own), mem, cr3)
    {
      RightAddresses(op.virt, cr3);
      Act(op, Split(op.virt), TablesOf(op.virt));
      KernelIsSeen(cr3);
    }

    method Act(op: UserOp, v: Indices, t: Tables)
      requires Valid() && InUserSpace() && RightTables(cr3, v, t)
      modifies this`mem, this`own, this`owner, pmm, pmm.bitmap
      ensures Valid() && InUserSpace() && Elsewhere(old(own), own, cr3)
      ensures OtherSpacesSame(old(mem), old(own), mem, cr3)
    {
      var status: int;
      match op {
        case AllocPage(_) => status := AllocPage(v, t);
        case MapPage(_, phys) => status := MapPage(v, t, phys);
        case FreePage(_) => status := FreePage(v, t);
      }
    }
  }
}
