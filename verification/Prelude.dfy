/** Error numbers, options, and lists without repeated elements. */
module Prelude {

  // the error numbers of kernel/main/errno.h
  const EBUSY: int := 3
  const ENOENT: int := 5
  const ENOTDIR: int := 6
  const EISDIR: int := 7
  const ENOTEMPTY: int := 8
  const ENOSPC: int := 12
  const EXDEV: int := 13
  const EBADF: int := 18
  const ENOMEM: int := 23
  const EINVAL: int := 24
  const EIO: int := 26
  const ENOTSUP: int := 27
  const EINTR: int := 29
  const EEXIST: int := 30

  datatype Option<+T> = None | Some(value: T)

  predicate NoDup<T(==)>(s: seq<T>) { forall i, j | 0 <= i < j < |s| :: s[i] != s[j] }

  /** The elements from one position up to another. */
  function Sub<T>(t: seq<T>, s: nat, e: nat): seq<T>
    requires s <= e <= |t|
  {
    seq(e - s, i requires 0 <= i < e - s => t[s + i])
  }

  /** A list with every occurrence of `u` taken out. */
  function Without<T(==,!new)>(list: seq<T>, u: T): (r: seq<T>)
    ensures forall x :: x in r <==> x in list && x != u
  {
    if list == [] then [] else if list[0] == u then Without(list[1..], u) else [list[0]] + Without(list[1..], u)
  }

  lemma NoDupTail<T(!new)>(list: seq<T>)
    requires NoDup(list) && list != []
    ensures NoDup(list[1..]) && forall x :: x in list[1..] <==> x in list && x != list[0]
  {
    forall x | x in list && x != list[0] ensures x in list[1..] {
      var i :| 0 <= i < |list| && list[i] == x;
      assert list[1..][i - 1] == x;
    }
  }

  lemma {:induction false} WithoutNoDup<T(!new)>(list: seq<T>, u: T)
    requires NoDup(list)
    ensures NoDup(Without(list, u))
  {
    if list != [] {
      NoDupTail(list);
      WithoutNoDup(list[1..], u);
      var rest := Without(list[1..], u);
      forall i | 0 <= i < |rest| ensures rest[i] != list[0] { assert rest[i] in rest; }
    }
  }

  lemma {:induction false} WithoutNone<T(!new)>(list: seq<T>, u: T)
    requires u !in list
    ensures Without(list, u) == list
  {
    if list != [] { WithoutNone(list[1..], u); }
  }

  /** Without repeated elements, taking out an element cuts it out of its only place. */
  lemma {:induction false} WithoutAt<T(!new)>(list: seq<T>, k: nat)
    requires k < |list| && NoDup(list)
    ensures Without(list, list[k]) == list[..k] + list[k + 1..]
  {
    if k == 0 {
      WithoutNone(list[1..], list[0]);
    } else {
      WithoutAt(list[1..], k - 1);
      assert list[1..][..k - 1] == list[1..k] && list[1..][k..] == list[k + 1..];
      assert [list[0]] + list[1..k] == list[..k];
    }
  }
}
