/** Who uses a dentry: file descriptors share open files, open files and working directories hold
    dentries (fd.c, and the counters of vfs.c). */
module FileRefs {
  import opened Prelude
  import opened Dcache

  // ----- counting

  /** How many keys have this value. */
  ghost function Uses<K(!new), V>(m: map<K, V>, v: V): nat { |set k | k in m && m[k] == v| }

  lemma UsesPut<K(!new), V>(m: map<K, V>, k: K, v: V, u: V)
    requires k !in m
    ensures Uses(m[k := v], u) == Uses(m, u) + if u == v then 1 else 0
  {
    var before := set x | x in m && m[x] == u;
    var m' := m[k := v];
    var after := set x | x in m' && m'[x] == u;
    assert after == if u == v then before + {k} else before;
  }

  lemma UsesDrop<K(!new), V>(m: map<K, V>, k: K, u: V)
    requires k in m
    ensures Uses(m - {k}, u) == Uses(m, u) - if u == m[k] then 1 else 0
  {
    var before := set x | x in m && m[x] == u;
    var m' := m - {k};
    var after := set x | x in m' && m'[x] == u;
    assert before == if u == m[k] then after + {k} else after;
  }

  lemma UsesNone<K(!new), V>(m: map<K, V>, u: V)
    ensures Uses(m, u) == 0 <==> forall k | k in m :: m[k] != u
  {
    var all := set x | x in m && m[x] == u;
    if k :| k in m && m[k] == u { assert k in all; }
    if all != {} { var k :| k in all; }
  }

  // ----- the counters

  /** Counters of the dentries, the open files with their dentry and counter, the file descriptors of
      every process, and the working directories. */
  datatype Users = Users(numfd: map<Id, int>, files: map<nat, Id>, refs: map<nat, int>,
                         fds: map<(nat, nat), nat>, cwds: map<nat, Id>)

  /** A dentry that is reachable and positive. */
  ghost predicate Held(w: World, x: Id) { x in w.live && x in w.t && w.t[x].inode.Some? }

  ghost predicate FileAt(w: World, u: Users, f: nat) {
    && f in u.files && f in u.refs && u.refs[f] == Uses(u.fds, f) && u.refs[f] >= 1
    && Held(w, u.files[f])
  }

  ghost predicate FdAt(u: Users, k: (nat, nat)) { k in u.fds && u.fds[k] in u.files }

  ghost predicate CwdAt(w: World, u: Users, p: nat) { p in u.cwds && Held(w, u.cwds[p]) }

  /** A dentry's counter is the number of open files and working directories on it. */
  ghost predicate CountAt(u: Users, x: Id) { x in u.numfd && u.numfd[x] == Uses(u.files, x) + Uses(u.cwds, x) }

  ghost predicate Shared(w: World, u: Users) {
    && (forall f {:trigger FileAt(w, u, f)} | f in u.files :: FileAt(w, u, f))
    && (forall k {:trigger FdAt(u, k)} | k in u.fds :: FdAt(u, k))
    && (forall p {:trigger CwdAt(w, u, p)} | p in u.cwds :: CwdAt(w, u, p))
    && (forall x {:trigger CountAt(u, x)} | x in w.live :: CountAt(u, x))
  }

  /** A dentry whose counter is zero is not in use. */
  lemma Unused(w: World, u: Users, x: Id)
    requires Shared(w, u) && x in w.live && x in u.numfd && u.numfd[x] == 0
    ensures forall f | f in u.files :: u.files[f] != x
    ensures forall p | p in u.cwds :: u.cwds[p] != x
  {
    assert CountAt(u, x);
    UsesNone(u.files, x);
    UsesNone(u.cwds, x);
  }

  /** A change of the tree that leaves what is in use reachable and positive. */
  lemma TreeChange(w: World, w': World, u: Users)
    requires Shared(w, u) && w'.live <= w.live
    requires forall f {:trigger u.files[f]} | f in u.files :: Held(w', u.files[f])
    requires forall p {:trigger u.cwds[p]} | p in u.cwds :: Held(w', u.cwds[p])
    ensures Shared(w', u)
  {
    forall f | f in u.files ensures FileAt(w', u, f) { assert FileAt(w, u, f); }
    forall p | p in u.cwds ensures CwdAt(w', u, p) { assert CwdAt(w, u, p); }
    forall x | x in w'.live ensures CountAt(u, x) { assert CountAt(u, x); }
  }

  /** A new dentry is used by nobody. */
  lemma NewDentry(w: World, w': World, u: Users, c: Id, u': Users)
    requires Shared(w, u) && c !in w.live && w'.live == w.live + {c} && u' == u.(numfd := u.numfd[c := 0])
    requires forall x | Held(w, x) :: Held(w', x)
    ensures Shared(w', u')
  {
    forall f | f in u.files ensures FileAt(w', u', f) && u.files[f] != c { assert FileAt(w, u, f); }
    forall k | k in u.fds ensures FdAt(u', k) { assert FdAt(u, k); }
    forall p | p in u.cwds ensures CwdAt(w', u', p) && u.cwds[p] != c { assert CwdAt(w, u, p); }
    UsesNone(u.files, c);
    UsesNone(u.cwds, c);
    forall x | x in w'.live ensures CountAt(u', x) { if x != c { assert CountAt(u, x); } }
  }

  // ----- opening and closing

  /** vfs_open at its end: a new file with one descriptor, on a dentry. */
  function Opened(u: Users, f: nat, k: (nat, nat), d: Id): Users
    requires d in u.numfd
  {
    Users(u.numfd[d := u.numfd[d] + 1], u.files[f := d], u.refs[f := 1], u.fds[k := f], u.cwds)
  }

  lemma OpenKeeps(w: World, u: Users, f: nat, k: (nat, nat), d: Id)
    requires Shared(w, u) && f !in u.files && k !in u.fds && Held(w, d) && d in u.numfd
    ensures Shared(w, Opened(u, f, k, d))
  {
    var u' := Opened(u, f, k, d);
    forall k' | k' in u'.fds ensures FdAt(u', k') { assert k' in u.fds ==> FdAt(u, k'); }
    forall f' | f' in u'.files
      ensures FileAt(w, u', f')
    {
      UsesPut(u.fds, k, f, f');
      if f' == f {
        forall k' | k' in u.fds ensures u.fds[k'] != f { assert FdAt(u, k'); }
        UsesNone(u.fds, f);
      } else {
        assert FileAt(w, u, f');
      }
    }
    forall p | p in u'.cwds ensures CwdAt(w, u', p) { assert CwdAt(w, u, p); }
    forall x | x in w.live ensures CountAt(u', x) { assert CountAt(u, x); UsesPut(u.files, f, d, x); }
  }

  /** fd_clone: another descriptor for the same file. */
  function Cloned(u: Users, k: (nat, nat), f: nat): Users
    requires f in u.refs
  {
    u.(refs := u.refs[f := u.refs[f] + 1], fds := u.fds[k := f])
  }

  lemma CloneKeeps(w: World, u: Users, k: (nat, nat), f: nat)
    requires Shared(w, u) && f in u.files && f in u.refs && k !in u.fds
    ensures Shared(w, Cloned(u, k, f))
  {
    var u' := Cloned(u, k, f);
    forall k' | k' in u'.fds ensures FdAt(u', k') { assert k' in u.fds ==> FdAt(u, k'); }
    forall f' | f' in u'.files ensures FileAt(w, u', f') { assert FileAt(w, u, f'); UsesPut(u.fds, k, f, f'); }
    forall p | p in u'.cwds ensures CwdAt(w, u', p) { assert CwdAt(w, u, p); }
    forall x | x in w.live ensures CountAt(u', x) { assert CountAt(u, x); }
  }

  /** vfs_close: the descriptor goes, and with the last one the file lets go of its dentry. */
  function Closed(u: Users, k: (nat, nat)): Users
    requires k in u.fds && u.fds[k] in u.refs && u.fds[k] in u.files && u.files[u.fds[k]] in u.numfd
  {
    var f := u.fds[k];
    var left := u.(fds := u.fds - {k}, refs := u.refs[f := u.refs[f] - 1]);
    if left.refs[f] != 0 then left
    else
      var d := u.files[f];
      left.(files := u.files - {f}, numfd := u.numfd[d := u.numfd[d] - 1])
  }

  lemma CloseKeeps(w: World, u: Users, k: (nat, nat))
    requires Shared(w, u) && k in u.fds && u.fds[k] in u.refs && u.fds[k] in u.files && u.files[u.fds[k]] in u.numfd
    ensures Shared(w, Closed(u, k))
  {
    var u', f := Closed(u, k), u.fds[k];
    assert FileAt(w, u, f);
    forall f' | f' in u'.files ensures FileAt(w, u', f') { assert FileAt(w, u, f'); UsesDrop(u.fds, k, f'); }
    UsesDrop(u.fds, k, f);
    UsesNone(u'.fds, f);
    forall k' | k' in u'.fds ensures FdAt(u', k') { assert FdAt(u, k'); }
    forall p | p in u'.cwds ensures CwdAt(w, u', p) { assert CwdAt(w, u, p); }
    forall x | x in w.live
      ensures CountAt(u', x)
    {
      assert CountAt(u, x);
      if f !in u'.files { UsesDrop(u.files, f, x); }
    }
  }

  // ----- working directories

  /** vfs_proc_init. */
  function Joined(u: Users, p: nat, d: Id): Users
    requires d in u.numfd
  {
    u.(cwds := u.cwds[p := d], numfd := u.numfd[d := u.numfd[d] + 1])
  }

  lemma EnterKeeps(w: World, u: Users, p: nat, d: Id)
    requires Shared(w, u) && p !in u.cwds && Held(w, d) && d in u.numfd
    ensures Shared(w, Joined(u, p, d))
  {
    var u' := Joined(u, p, d);
    forall f | f in u'.files ensures FileAt(w, u', f) { assert FileAt(w, u, f); }
    forall k | k in u'.fds ensures FdAt(u', k) { assert FdAt(u, k); }
    forall q | q in u'.cwds ensures CwdAt(w, u', q) { assert q != p ==> CwdAt(w, u, q); }
    forall x | x in w.live ensures CountAt(u', x) { assert CountAt(u, x); UsesPut(u.cwds, p, d, x); }
  }

  /** vfs_proc_fini. */
  function Left(u: Users, p: nat): Users
    requires p in u.cwds && u.cwds[p] in u.numfd
  {
    var d := u.cwds[p];
    u.(cwds := u.cwds - {p}, numfd := u.numfd[d := u.numfd[d] - 1])
  }

  lemma LeaveKeeps(w: World, u: Users, p: nat)
    requires Shared(w, u) && p in u.cwds && u.cwds[p] in u.numfd
    ensures Shared(w, Left(u, p))
  {
    var u' := Left(u, p);
    forall f | f in u'.files ensures FileAt(w, u', f) { assert FileAt(w, u, f); }
    forall k | k in u'.fds ensures FdAt(u', k) { assert FdAt(u, k); }
    forall q | q in u'.cwds ensures CwdAt(w, u', q) { assert CwdAt(w, u, q); }
    forall x | x in w.live ensures CountAt(u', x) { assert CountAt(u, x); UsesDrop(u.cwds, p, x); }
  }
}
