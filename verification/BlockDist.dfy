/** How many pointer blocks a file of so many data blocks needs, and back (ext2_blocks_dist).
    `s` is the number of block numbers that fit in one block. */
module BlockDist {
  import opened Arith

  const DIRECT := 12

  /** Blocks of data pointers behind the twelve direct ones. */
  function Leaves(s: nat, n: int): nat
    requires s >= 1
    decreases if n <= DIRECT then 0 else n
  {
    if n <= DIRECT then 0 else 1 + Leaves(s, n - s)
  }

  /** The blocks that leaf `j` brings with it: itself, the double root with the first leaf under
      it, the triple root with the first under that, and a middle block with every s-th. */
  function LeafCost(s: nat, j: nat): nat
    requires s >= 1
  {
    1 + (if j == 1 then 1 else 0) + (if j == s + 1 then 1 else 0)
      + (if j >= s + 1 && Rem(j - s - 1, s) == 0 then 1 else 0)
  }

  function Cost(s: nat, leaves: nat): nat
    requires s >= 1
  {
    if leaves == 0 then 0 else Cost(s, leaves - 1) + LeafCost(s, leaves - 1)
  }

  /** Pointer blocks of a file with `n` data blocks and no holes. */
  function Needed(s: nat, n: nat): nat
    requires s >= 1
  {
    Cost(s, Leaves(s, n))
  }

  /** Middle blocks above `t` leaves under the triple root. */
  function Middles(s: nat, t: nat): nat
    requires s >= 1
  {
    if t == 0 then 0 else Middles(s, t - 1) + if Rem(t - 1, s) == 0 then 1 else 0
  }

  lemma {:induction false} CostLow(s: nat, leaves: nat)
    requires s >= 1 && leaves <= s + 1
    ensures Cost(s, leaves) == if leaves <= 1 then leaves else leaves + 1
  {
    if leaves > 0 { CostLow(s, leaves - 1); }
  }

  lemma {:induction false} CostHigh(s: nat, t: nat)
    requires s >= 1 && t >= 1
    ensures Cost(s, s + 1 + t) == s + 3 + t + Middles(s, t)
  {
    if t == 1 {
      CostLow(s, s + 1);
      assert Middles(s, 1) == Middles(s, 0) + 1;
    } else {
      CostHigh(s, t - 1);
    }
  }

  lemma {:induction false} LeavesBounds(s: nat, n: int)
    requires s >= 1 && n > DIRECT
    ensures Leaves(s, n) >= 1 && (Leaves(s, n) - 1) * s < n - DIRECT <= Leaves(s, n) * s
    decreases n
  {
    if n - s > DIRECT {
      LeavesBounds(s, n - s);
      Distribute(Leaves(s, n - s), s);
      Distribute(Leaves(s, n - s) - 1, s);
    }
  }

  lemma Distribute(k: int, s: int)
    ensures (k + 1) * s == k * s + s
  {
  }

  lemma TripleMul(s: int, t: int)
    ensures (s + t) * s == s * s + s + (t - 1) * s
    ensures (s + 1 + t) * s == s * s + s + t * s
  {
  }

  lemma LeavesUnique(s: nat, n: int, k: nat)
    requires s >= 1 && k >= 1 && (k - 1) * s < n - DIRECT <= k * s
    ensures Leaves(s, n) == k
  {
    assert n > DIRECT by { MulMono(0, k - 1, s); }
    LeavesBounds(s, n);
    var l := Leaves(s, n);
    if l < k { MulMono(l, k - 1, s); } else if k < l { MulMono(k, l - 1, s); }
  }

  /** What one more data block at offset `n` costs in pointer blocks. */
  lemma NeededStep(s: nat, n: nat, j: nat, r: nat)
    requires s >= 1 && (n >= DIRECT ==> n - DIRECT == j * s + r && r < s)
    ensures Needed(s, n + 1) == Needed(s, n) + if n >= DIRECT && r == 0 then LeafCost(s, j) else 0
  {
    if n >= DIRECT {
      Distribute(j, s);
      LeavesUnique(s, n + 1, j + 1);
      if r > 0 {
        LeavesUnique(s, n, j + 1);
      } else if j > 0 {
        Distribute(j - 1, s);
        LeavesUnique(s, n, j);
      }
    }
  }

  lemma {:induction false} NeededMono(s: nat, n: nat, m: nat)
    requires s >= 1 && n <= m
    ensures Needed(s, n) <= Needed(s, m)
    decreases m
  {
    if n < m {
      NeededMono(s, n, m - 1);
      var behind := if m - 1 >= DIRECT then m - 1 - DIRECT else 0;
      QuotRem(behind, s);
      NeededStep(s, m - 1, Quot(behind, s), Rem(behind, s));
    }
  }

  /** Blocks used up by `t` leaves, counting their pointer blocks or not. */
  function Used(s: nat, t: nat, inclusive: bool): nat
    requires s >= 1
  {
    t * s + if inclusive then t + Middles(s, t) else 0
  }

  lemma {:induction false} UsedMono(s: nat, t: nat, u: nat, inclusive: bool)
    requires s >= 1 && t <= u
    ensures Used(s, t, inclusive) <= Used(s, u, inclusive)
    ensures Middles(s, t) <= Middles(s, u)
    decreases u
  {
    if t < u {
      UsedMono(s, t, u - 1, inclusive);
      Distribute(u - 1, s);
    }
  }

  /** The sizes for which counting back works: all but those in the upper end of the double
      range, where the pointer blocks push the count over s*s. */
  ghost predicate Reversible(s: nat, n: nat)
    requires s >= 1
  {
    DIRECT + s < n <= DIRECT + s + s * s ==> n - DIRECT - s + (Leaves(s, n) - 1) <= s * s
  }

  /** With blocks of 1 KiB, a file that fills the double range: its 257 pointer blocks push the count
      over the range. */
  lemma NotReversible()
    ensures !Reversible(256, DIRECT + 256 + 65536)
  {
    LeavesUnique(256, DIRECT + 256 + 65536, 257);
  }

  method DoubleLoop(s: nat, start: int, inclusive: bool) returns (nds: nat)
    requires s >= 1
    ensures DoubleTally(s, start, nds, inclusive)
  {
    var count := start;
    nds := 0;
    ghost var u := if inclusive then s + 1 else s;
    while count > 0
      invariant count == start - nds * u
      invariant nds > 0 ==> count + u > 0
      invariant start <= 0 ==> nds == 0
      decreases count
    {
      Distribute(nds, u);
      nds := nds + 1;
      if inclusive { count := count - 1; }
      count := count - s;
    }
    Distribute(nds - 1, u);
  }

  method TripleLoop(s: nat, start: int, inclusive: bool) returns (nds: nat, nts: nat)
    requires s >= 1
    ensures nds == s + Middles(s, nts)
    ensures TripleTally(s, start, nts, inclusive)
  {
    var count := start;
    nds, nts := s, 0;
    while count > 0
      invariant nds == s + Middles(s, nts)
      invariant count == start - Used(s, nts, inclusive)
      invariant start <= 0 ==> nts == 0
      invariant nts > 0 ==> Used(s, nts - 1, inclusive) < start
      decreases count
    {
      Distribute(nts, s);
      QuotIsDiv(nts, s);
      if nts % s == 0 {
        nds := nds + 1;
        if inclusive { count := count - 1; }
      }
      nts := nts + 1;
      if inclusive { count := count - 1; }
      count := count - s;
    }
  }

  datatype Shape = Shape(ns: nat, nd: nat, nds: nat, nt: nat, nts: nat)

  /** What the branches and loops leave behind; `q` is s*s. */
  ghost predicate Tallied(s: nat, q: nat, m: nat, r: Shape, inclusive: bool)
    requires s >= 1
  {
    var k := if inclusive then 1 else 0;
    if m <= 12 then r == Shape(0, 0, 0, 0, 0)
    else if m - 12 - k <= s then r == Shape(1, 0, 0, 0, 0)
    else
      var c := m - 12 - k - s - k;
      if c <= q then r == Shape(1, 1, r.nds, 0, 0) && DoubleTally(s, c, r.nds, inclusive)
      else
        var t := if inclusive then c - q - s - 1 else c - q;
        r == Shape(1, 1, s + Middles(s, r.nts), 1, r.nts) && TripleTally(s, t, r.nts, inclusive)
  }

  ghost predicate DoubleTally(s: nat, c: int, nds: nat, inclusive: bool)
    requires s >= 1
  {
    var u := if inclusive then s + 1 else s;
    if c <= 0 then nds == 0 else nds >= 1 && (nds - 1) * u < c <= nds * u
  }

  ghost predicate TripleTally(s: nat, t: int, nts: nat, inclusive: bool)
    requires s >= 1
  {
    if t <= 0 then nts == 0 else nts >= 1 && Used(s, nts - 1, inclusive) < t <= Used(s, nts, inclusive)
  }

  method Tally(s: nat, doubly: nat, nblocks: nat, inclusive: bool) returns (r: Shape)
    requires s >= 1
    ensures Tallied(s, doubly, nblocks, r, inclusive)
  {
    var ns, nd, nds, nt, nts := 0, 0, 0, 0, 0;
    var count: int := nblocks;
    if count > 12 {
      count := count - 12;
      ns := 1;
      if inclusive { count := count - ns; }
      if count > s {
        count := count - s;
        nd := 1;
        if inclusive { count := count - nd; }
        if count > doubly {
          count := count - doubly;
          nds := s;
          nt := 1;
          if inclusive { count := count - nds - nt; }
          nds, nts := TripleLoop(s, count, inclusive);
        } else {
          nds := DoubleLoop(s, count, inclusive);
        }
      }
    }
    r := Shape(ns, nd, nds, nt, nts);
  }

  /** ext2_blocks_dist. From data blocks it counts the pointer blocks needed; from all the blocks
      of a file it finds that split again exactly for the reversible sizes. */
  method BlocksDist(s: nat, nblocks: nat, inclusive: bool) returns (inum: nat, dnum: int)
    requires s >= 1
    ensures !inclusive ==> inum == Needed(s, nblocks) && dnum == nblocks
    ensures inclusive ==> forall n: nat | nblocks == n + Needed(s, n) ::
              (inum == Needed(s, n) && dnum == n <==> Reversible(s, n))
  {
    var r := Tally(s, s * s, nblocks, inclusive);
    inum := Sum(r);
    dnum := if inclusive then nblocks - inum else nblocks;
    if inclusive {
      forall n: nat | nblocks == n + Needed(s, n)
        ensures inum == Needed(s, n) <==> Reversible(s, n)
      {
        CountsBack(s, n, nblocks, r);
      }
    } else {
      Counts(s, nblocks, r);
    }
  }

  function Sum(r: Shape): nat { r.ns + r.nd + r.nds + r.nt + r.nts }

  lemma Counts(s: nat, n: nat, r: Shape)
    requires s >= 1 && Tallied(s, s * s, n, r, false)
    ensures Sum(r) == Needed(s, n)
  {
    if n <= 12 {
    } else if n - 12 <= s {
      LeavesUnique(s, n, 1);
      CostLow(s, 1);
    } else if n - 12 - s <= s * s {
      Distribute(r.nds - 1, s);
      Distribute(r.nds, s);
      LeavesUnique(s, n, r.nds + 1);
      FewLeaves(s, n);
      CostLow(s, r.nds + 1);
    } else {
      var k := s + 1 + r.nts;
      TripleMul(s, r.nts);
      LeavesUnique(s, n, k);
      CostHigh(s, r.nts);
    }
  }

  /** Up to the end of the double range there are at most s + 1 leaves. */
  lemma FewLeaves(s: nat, n: nat)
    requires s >= 1 && DIRECT < n
    ensures n - DIRECT - s <= s * s <==> Leaves(s, n) <= s + 1
  {
    LeavesBounds(s, n);
    var l := Leaves(s, n);
    Distribute(s, s);
    if l <= s + 1 { MulMono(l, s + 1, s); } else { MulMono(s + 1, l - 1, s); }
  }

  lemma CountsBack(s: nat, n: nat, m: nat, r: Shape)
    requires s >= 1 && m == n + Needed(s, n) && Tallied(s, s * s, m, r, true)
    ensures Sum(r) == Needed(s, n) <==> Reversible(s, n)
  {
    var l := Leaves(s, n);
    if n > 12 {
      LeavesBounds(s, n);
      FewLeaves(s, n);
      if l == 1 {
        CostLow(s, 1);
      } else if l <= s + 1 {
        CostLow(s, l);
        BackDouble(s, n, l - 1, m, r);
      } else {
        CostHigh(s, l - s - 1);
        BackTriple(s, n, l - s - 1, m, r);
      }
    }
  }

  lemma BackDouble(s: nat, n: nat, k: nat, m: nat, r: Shape)
    requires s >= 1 && n > 12 && 1 <= k <= s && Leaves(s, n) == k + 1
    requires m == n + k + 2 && Tallied(s, s * s, m, r, true)
    requires n - 12 - s <= s * s
    ensures Sum(r) == k + 2 <==> n - 12 - s + k <= s * s
    ensures n - 12 > s
  {
    LeavesBounds(s, n);
    MulMono(1, k, s);
    Distribute(k - 1, s);
    Distribute(k, s);
    var c := n - 12 - s + k;
    assert (k - 1) * s < n - 12 - s <= k * s;
    if c <= s * s {
      assert (k - 1) * (s + 1) == (k - 1) * s + (k - 1) && k * (s + 1) == k * s + k;
      if k < r.nds { MulMono(k, r.nds - 1, s + 1); } else if r.nds < k { MulMono(r.nds, k - 1, s + 1); }
    }
  }

  lemma BackTriple(s: nat, n: nat, t: nat, m: nat, r: Shape)
    requires s >= 1 && n > 12 && t >= 1 && Leaves(s, n) == s + 1 + t
    requires m == n + s + 3 + t + Middles(s, t) && Tallied(s, s * s, m, r, true)
    requires n - 12 - s > s * s
    ensures Sum(r) == s + 3 + t + Middles(s, t)
  {
    LeavesBounds(s, n);
    TripleMul(s, t);
    UsedMono(s, t - 1, t, true);
    if t < r.nts { UsedMono(s, t, r.nts - 1, true); } else if r.nts < t { UsedMono(s, r.nts, t - 1, true); }
  }
}
