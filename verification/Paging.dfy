/**
 Four-level page tables and the recursive slot of kernel/mem/vmm.h and kernel/mem/vmm.c: the
 ordinary hardware walk, and the proof that the table addresses the kernel builds from slot 510
 are translated by that walk to the very tables a walk of the original address visits.
 */
module Paging {
  import opened Prelude

  /** The fields of a directory or page entry that the kernel decides on; `base` is a frame number. */
  datatype Entry = Entry(present: bool, user: bool, ps: bool, avl: nat, base: nat)

  const AVL_ALLOCATED: nat := 1
  const AVL_MAPPED: nat := 2

  /** Physical memory seen as page tables: 512 entries to a frame. */
  type Table = t: seq<Entry> | |t| == 512 witness seq(512, _ => Entry(false, false, false, 0, 0))
  type Memory = map<nat, Table>

  // ---- virtual addresses -------------------------------------------------------------------

  const PL4_BASE: bv64 := 0xFFFFFF7FBFDFE000
  const PL3_BASE: bv64 := 0xFFFFFF7FBFC00000
  const PL2_BASE: bv64 := 0xFFFFFF7F80000000
  const PL1_BASE: bv64 := 0xFFFFFF0000000000

  function Field4(a: bv64): (i: bv64) ensures i < 512 { (a >> 39) & 0x1FF }
  function Field3(a: bv64): (i: bv64) ensures i < 512 { (a >> 30) & 0x1FF }
  function Field2(a: bv64): (i: bv64) ensures i < 512 { (a >> 21) & 0x1FF }
  function Field1(a: bv64): (i: bv64) ensures i < 512 { (a >> 12) & 0x1FF }

  lemma IncrementIndex(b: bv64)
    requires b < 511
    ensures b + 1 < 512 && (b + 1) as nat == b as nat + 1
  {}

  /** The machine word of a small counter, the inverse of `ToIndex`. */
  function ToBits(i: nat): (b: bv64)
    requires i < 512
    ensures b < 512 && ToIndex(b) == i
  {
    if i == 0 then 0 else
      var b := ToBits(i - 1);
      SmallerIndex(b);
      IncrementIndex(b);
      b + 1
  }

  lemma SmallerIndex(b: bv64)
    requires b < 512 && ToIndex(b) < 511
    ensures b < 511
  {}

  /** The four table indices of an address. */
  datatype Indices = Indices(i4: nat, i3: nat, i2: nat, i1: nat)

  function ToIndex(b: bv64): (i: nat)
    requires b < 512
    ensures i < 512
  {
    b as nat
  }

  function Split(a: bv64): (v: Indices)
    ensures v.i4 < 512 && v.i3 < 512 && v.i2 < 512 && v.i1 < 512
  {
    Indices(ToIndex(Field4(a)), ToIndex(Field3(a)), ToIndex(Field2(a)), ToIndex(Field1(a)))
  }

  function Pl3(a: bv64): bv64 { PL3_BASE | (Field4(a) << 12) }
  function Pl2(a: bv64): bv64 { PL2_BASE | (Field3(a) << 12) | (Field4(a) << 21) }
  function Pl1(a: bv64): bv64 { PL1_BASE | (Field2(a) << 12) | (Field3(a) << 21) | (Field4(a) << 30) }

  /** The address at which the table recursion looks at the table behind entry `ix` of the table at `virt`. */
  function ChildAddress(virt: bv64, ix: nat): bv64
    requires ix < 512
  {
    ((virt << 9) | 0xFFFF000000000000) | (ToBits(ix) << 12)
  }

  lemma Pl3Fields(a: bv64)
    ensures Field4(Pl3(a)) == 510 && Field3(Pl3(a)) == 510
    ensures Field2(Pl3(a)) == 510 && Field1(Pl3(a)) == Field4(a)
  {}

  lemma Pl2Fields(a: bv64)
    ensures Field4(Pl2(a)) == 510 && Field3(Pl2(a)) == 510
    ensures Field2(Pl2(a)) == Field4(a) && Field1(Pl2(a)) == Field3(a)
  {}

  lemma Pl1Fields(a: bv64)
    ensures Field4(Pl1(a)) == 510 && Field3(Pl1(a)) == Field4(a)
    ensures Field2(Pl1(a)) == Field3(a) && Field1(Pl1(a)) == Field2(a)
  {}

  lemma ChildFields(v: bv64, b: bv64)
    requires b < 512 && v & 0xFFF == 0
    ensures var c := ((v << 9) | 0xFFFF000000000000) | (b << 12);
            && Field4(c) == Field3(v) && Field3(c) == Field2(v)
            && Field2(c) == Field1(v) && Field1(c) == b && c & 0xFFF == 0
  {}

  /** The table addresses built from slot 510 carry the indices of the original address, shifted. */
  lemma TableAddresses(a: bv64)
    ensures Split(PL4_BASE) == Indices(510, 510, 510, 510)
    ensures Split(Pl3(a)) == Indices(510, 510, 510, Split(a).i4)
    ensures Split(Pl2(a)) == Indices(510, 510, Split(a).i4, Split(a).i3)
    ensures Split(Pl1(a)) == Indices(510, Split(a).i4, Split(a).i3, Split(a).i2)
  {
    Pl3Fields(a);
    Pl2Fields(a);
    Pl1Fields(a);
  }

  lemma TopAddress()
    ensures Split(PL4_BASE) == Indices(510, 510, 510, 510)
  {
    TableAddresses(0);
  }

  /** The indices of a child table's address, as the shift by nine leaves them. */
  function Shifted(v: Indices, ix: nat): Indices { Indices(v.i3, v.i2, v.i1, ix) }

  /** The shift-by-nine child address of a table walk carries the indices of the table one level down. */
  lemma ChildIndices(v: bv64, ix: nat)
    requires ix < 512 && v & 0xFFF == 0
    ensures Split(ChildAddress(v, ix)) == Shifted(Split(v), ix)
    ensures ChildAddress(v, ix) & 0xFFF == 0
  {
    ChildFields(v, ToBits(ix));
  }

  // ---- the hardware walk (section 4.5 of Intel SDM volume 3A) -----------------------------------

  /** Follows entry `i` of table `t`; a set PS bit ends the walk at a large page when `large` allows one. */
  function Next(mem: Memory, t: Option<nat>, i: nat, large: bool): (r: Option<nat>)
    requires i < 512
  {
    if t.None? || t.value !in mem then None
    else
      var e := mem[t.value][i];
      if !e.present || (large && e.ps) then None else Some(e.base)
  }

  function WalkPdp(mem: Memory, cr3: nat, v: Indices): Option<nat>
    requires v.i4 < 512
  { Next(mem, Some(cr3), v.i4, false) }

  function WalkPd(mem: Memory, cr3: nat, v: Indices): Option<nat>
    requires v.i4 < 512 && v.i3 < 512
  { Next(mem, WalkPdp(mem, cr3, v), v.i3, true) }

  function WalkPt(mem: Memory, cr3: nat, v: Indices): Option<nat>
    requires v.i4 < 512 && v.i3 < 512 && v.i2 < 512
  { Next(mem, WalkPd(mem, cr3, v), v.i2, true) }

  /** The 4 KiB frame behind a virtual address. */
  function Translate(mem: Memory, cr3: nat, v: Indices): Option<nat>
    requires v.i4 < 512 && v.i3 < 512 && v.i2 < 512 && v.i1 < 512
  { Next(mem, WalkPt(mem, cr3, v), v.i1, false) }

  /** Slot 510 points back at the table itself, and no top-level entry carries the reserved PS bit. */
  ghost predicate Recursive(mem: Memory, cr3: nat)
  {
    && cr3 in mem
    && mem[cr3][510].present && mem[cr3][510].base == cr3
    && forall i | 0 <= i < 512 :: !mem[cr3][i].ps
  }

  /** The recursive mapping is exact: `PL4_BASE`, `pl3`, `pl2` and `pl1` are translated to the top
      table and to the three tables a walk of `a` visits. A large-page directory entry stops the walk
      of `a` at level 2 but not that of `pl1`, which is why the kernel tests the PS bit itself. */
  lemma RecursiveMappingIsExact(mem: Memory, cr3: nat, a: bv64)
    requires Recursive(mem, cr3)
    ensures Translate(mem, cr3, Split(PL4_BASE)) == Some(cr3)
    ensures Translate(mem, cr3, Split(Pl3(a))) == WalkPdp(mem, cr3, Split(a))
    ensures Translate(mem, cr3, Split(Pl2(a))) ==
              Next(mem, WalkPdp(mem, cr3, Split(a)), Split(a).i3, false)
    ensures Translate(mem, cr3, Split(Pl1(a))) ==
              Next(mem, WalkPd(mem, cr3, Split(a)), Split(a).i2, false)
    ensures WalkPd(mem, cr3, Split(a)).Some? ==>
              Translate(mem, cr3, Split(Pl2(a))) == WalkPd(mem, cr3, Split(a))
    ensures WalkPt(mem, cr3, Split(a)).Some? ==>
              Translate(mem, cr3, Split(Pl1(a))) == WalkPt(mem, cr3, Split(a))
  {
    TableAddresses(a);
  }

  /** From the address of a table, the address shifted by nine leads through one of the entries of that
      very table, unless the table was itself reached through a large-page entry. */
  lemma ChildTranslates(mem: Memory, cr3: nat, virt: bv64, ix: nat)
    requires Recursive(mem, cr3) && ix < 512 && virt & 0xFFF == 0 && Split(virt).i4 == 510
    requires Next(mem, WalkPt(mem, cr3, Split(virt)), Split(virt).i1, true) == Translate(mem, cr3, Split(virt))
    ensures Translate(mem, cr3, Split(ChildAddress(virt, ix))) == Next(mem, Translate(mem, cr3, Split(virt)), ix, false)
    ensures ChildAddress(virt, ix) & 0xFFF == 0
  {
    ChildIndices(virt, ix);
    ShiftedTranslates(mem, cr3, Split(virt), ix);
  }

  lemma ShiftedTranslates(mem: Memory, cr3: nat, v: Indices, ix: nat)
    requires Recursive(mem, cr3) && ix < 512 && v.i4 == 510 && v.i3 < 512 && v.i2 < 512 && v.i1 < 512
    requires Next(mem, WalkPt(mem, cr3, v), v.i1, true) == Translate(mem, cr3, v)
    ensures Translate(mem, cr3, Shifted(v, ix)) == Next(mem, Translate(mem, cr3, v), ix, false)
  {
    assert WalkPdp(mem, cr3, v) == Some(cr3);
    assert WalkPd(mem, cr3, v) == WalkPdp(mem, cr3, Shifted(v, ix));
  }
}
