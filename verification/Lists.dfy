/**
 The intrusive doubly linked lists of kernel/main/lists.c: every operation rewrites head, tail,
 length and link pointers, and each is proved to be the plain operation on a sequence.
 */
module Lists {
  import opened Prelude

  /** The link fields inside a list item; the item is identified with its link. */
  class Link {
    var prev: Link?
    var next: Link?

    constructor ()
      ensures prev == null && next == null
    {
      prev, next := null, null;
    }
  }

  /** The `i`-th item, or null outside the list. */
  ghost function Nth(items: seq<Link>, i: int): Link? { if 0 <= i < |items| then items[i] else null }

  /** The items without the one at `k`. */
  ghost function Cut(items: seq<Link>, k: nat): seq<Link>
    requires k < |items|
  {
    seq(|items| - 1, i requires 0 <= i < |items| - 1 => if i < k then items[i] else items[i + 1])
  }

  class List {
    var head: Link?
    var tail: Link?
    var length: nat
    ghost var items: seq<Link>

    ghost predicate LinkedAt(i: nat)
      requires i < |items|
      reads this, items
    {
      items[i].prev == Nth(items, i - 1) && items[i].next == Nth(items, i + 1)
    }

    ghost predicate Valid()
      reads this, items
    {
      && head == Nth(items, 0) && tail == Nth(items, |items| - 1) && length == |items|
      && NoDup(items)
      && (forall i {:trigger LinkedAt(i)} | 0 <= i < |items| :: LinkedAt(i))
    }

    constructor ()
      ensures Valid() && items == []
    {
      head, tail, length, items := null, null, 0, [];
    }

    /** An item that is in no list. */
    static ghost predicate Detached(item: Link)
      reads item
    {
      item.prev == null && item.next == null
    }

    method Insert(item: Link)
      requires Valid() && item !in items
      modifies this, items, item
      ensures Valid() && items == [item] + old(items)
    {
      assert items != [] ==> LinkedAt(0);
      item.next := head;
      item.prev := null;
      head := item;
      length := length + 1;
      if tail == null { tail := item; }
      if item.next != null { item.next.prev := item; }
      items := [item] + items;
      forall i | 0 <= i < |items| ensures LinkedAt(i) {
        assert i > 0 ==> old(LinkedAt(i - 1));
      }
    }

    method Append(item: Link)
      requires Valid() && item !in items
      modifies this, items, item
      ensures Valid() && items == old(items) + [item]
    {
      item.prev := tail;
      item.next := null;
      tail := item;
      length := length + 1;
      if head == null { head := item; }
      if item.prev != null { item.prev.next := item; }
      items := items + [item];
      forall i | 0 <= i < |items| ensures LinkedAt(i) {
        assert i < |old(items)| ==> old(LinkedAt(i));
      }
    }

    method InsertAfter(at: Link, item: Link, ghost k: nat)
      requires Valid() && item !in items && k < |items| && items[k] == at
      modifies this, items, item
      ensures Valid() && items == old(items)[..k + 1] + [item] + old(items)[k + 1..]
    {
      assert LinkedAt(k);
      item.prev := at;
      item.next := at.next;
      at.next := item;
      length := length + 1;
      if tail == at { tail := item; }
      if item.next != null { item.next.prev := item; }
      items := items[..k + 1] + [item] + items[k + 1..];
      forall i | 0 <= i < |items| ensures LinkedAt(i) {
        assert i <= k ==> old(LinkedAt(i));
        assert i > k + 1 ==> old(LinkedAt(i - 1));
      }
    }

    method InsertBefore(at: Link, item: Link, ghost k: nat)
      requires Valid() && item !in items && k < |items| && items[k] == at
      modifies this, items, item
      ensures Valid() && items == old(items)[..k] + [item] + old(items)[k..]
    {
      assert LinkedAt(k);
      item.prev := at.prev;
      item.next := at;
      at.prev := item;
      length := length + 1;
      if head == at { head := item; }
      if item.prev != null { item.prev.next := item; }
      items := items[..k] + [item] + items[k..];
      forall i | 0 <= i < |items| ensures LinkedAt(i) {
        assert i < k ==> old(LinkedAt(i));
        assert i > k ==> old(LinkedAt(i - 1));
      }
    }

    /** Takes an item out, or does nothing and says so when the item is in no list. */
    method Remove(item: Link) returns (status: bool, ghost k: nat)
      requires Valid() && (item in items || Detached(item))
      modifies this, items, item
      ensures Valid() && Detached(item) && status == (item in old(items))
      ensures if status then k < |old(items)| && old(items)[k] == item && items == Cut(old(items), k)
              else items == old(items)
    {
      k := 0;
      if item in items {
        k :| 0 <= k < |items| && items[k] == item;
        assert LinkedAt(k);
      }
      var ends := Ends(item);
      forall i | 0 <= i < |items| ensures LinkedAt(i) { assert old(LinkedAt(i)); }
      var links := Bypass(item, k);
      status := ends || links;
      if status { TakeOff(item, k); }
    }

    /** An item at an end of the list is no longer there. */
    method Ends(item: Link) returns (status: bool)
      modifies this`head, this`tail
      ensures head == if old(head) == item then item.next else old(head)
      ensures tail == if old(tail) == item then item.prev else old(tail)
      ensures status <==> old(head) == item || old(tail) == item
    {
      status := false;
      if head == item { head := item.next; status := true; }
      if tail == item { tail := item.prev; status := true; }
    }

    /** Item `i` points past the item at `k`. */
    ghost predicate PastAt(i: nat, k: nat)
      requires i < |items|
      reads this, items
    {
      && items[i].prev == Nth(items, if i == k + 1 then k - 1 else i - 1)
      && items[i].next == Nth(items, if i + 1 == k then k + 1 else i + 1)
    }

    /** The neighbours of an item point past it. */
    method Bypass(item: Link, ghost k: nat) returns (status: bool)
      requires NoDup(items) && forall i {:trigger LinkedAt(i)} | 0 <= i < |items| :: LinkedAt(i)
      requires (k < |items| && items[k] == item) || (item !in items && Detached(item))
      modifies items
      ensures item in items ==> forall i {:trigger PastAt(i, k)} | 0 <= i < |items| && i != k :: PastAt(i, k)
      ensures item !in items ==> forall i {:trigger LinkedAt(i)} | 0 <= i < |items| :: LinkedAt(i)
      ensures item.prev == old(item.prev) && item.next == old(item.next)
      ensures status <==> item.prev != null || item.next != null
    {
      assert item in items ==> LinkedAt(k);
      status := false;
      if item.prev != null { item.prev.next := item.next; status := true; }
      if item.next != null { item.next.prev := item.prev; status := true; }
      if item in items {
        forall i | 0 <= i < |items| && i != k ensures PastAt(i, k) { assert old(LinkedAt(i)); }
      }
    }

    method TakeOff(item: Link, ghost k: nat)
      requires NoDup(items) && length == |items| && k < |items| && items[k] == item
      requires forall i {:trigger PastAt(i, k)} | 0 <= i < |items| && i != k :: PastAt(i, k)
      requires head == Nth(items, if k == 0 then 1 else 0)
      requires tail == Nth(items, if k == |items| - 1 then k - 1 else |items| - 1)
      modifies this`length, this`items, item
      ensures Valid() && Detached(item) && items == Cut(old(items), k)
    {
      item.prev := null;
      item.next := null;
      length := length - 1;
      items := Cut(items, k);
      forall i | 0 <= i < |items| ensures LinkedAt(i) {
        assert i < k ==> old(PastAt(i, k));
        assert i >= k ==> old(PastAt(i + 1, k));
      }
    }

    method Pop() returns (item: Link?)
      requires Valid()
      modifies this, items
      ensures Valid() && item == Nth(old(items), 0)
      ensures items == if old(items) == [] then [] else old(items)[1..]
      ensures item != null ==> Detached(item)
    {
      item := head;
      if item != null {
        assert LinkedAt(0);
        assert |items| > 1 ==> LinkedAt(1);
        head := item.next;
        if item.next != null { item.next.prev := null; } else { tail := null; }
        item.prev := null;
        item.next := null;
        length := length - 1;
        items := items[1..];
        forall i | 0 <= i < |items| ensures LinkedAt(i) {
          assert old(LinkedAt(i + 1));
        }
      }
    }

    /** Following `next` from the head visits the sequence in order and ends with null. */
    method Iterate(item: Link?, ghost k: int) returns (r: Link?)
      requires Valid() && -1 <= k < |items| && item == Nth(items, k)
      ensures r == Nth(items, k + 1)
    {
      if item == null { return head; }
      assert LinkedAt(k);
      return item.next;
    }
  }
}
