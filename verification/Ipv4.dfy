/**
 IPv4 fragmentation and reassembly of kernel/net/ipv4.c, after section 3.2 of RFC 791. A frame stands
 for the header fields the code looks at and the payload bytes behind them; its checksum and byte
 order are left out.
 */
module Ipv4 {
  import opened Arith
  import opened Prelude

  const HEADER: nat := 20

  type Bytes = seq<bv8>

  datatype Key = Key(ident: nat, saddr: nat, daddr: nat, proto: nat)

  /** `offset` counts units of 8 bytes, `more` is the MF flag. */
  datatype Frame = Frame(key: Key, offset: nat, more: bool, data: Bytes)

  // ---- sending -------------------------------------------------------------------------------------------

  /** Payload bytes per fragment: what the MTU leaves behind the header, rounded down to units of 8. */
  function Chunk(mtu: nat): (m: nat)
    requires mtu >= HEADER
    ensures m % 8 == 0 && m <= mtu - HEADER < m + 8
  {
    (mtu - HEADER) / 8 * 8
  }

  function Count(size: nat, m: nat): (n: nat)
    requires m > 0
  {
    (size + m - 1) / m
  }

  /** The `i`-th of the pieces of `m` bytes into which a payload is cut; the last one may be shorter. */
  function Piece(p: Bytes, m: nat, i: nat): (d: Bytes)
    ensures |d| == PieceSize(|p|, m, i)
  {
    assert (i + 1) * m == i * m + m;
    if i * m >= |p| then [] else if (i + 1) * m <= |p| then p[i * m..(i + 1) * m] else p[i * m..]
  }

  function PieceSize(size: nat, m: nat, i: nat): nat
  {
    if i * m >= size then 0 else if (i + 1) * m <= size then m else size - i * m
  }

  /** The `i`-th fragment of a datagram. */
  function Fragment(p: Bytes, m: nat, key: Key, i: nat): Frame
  {
    Frame(key, i * m / 8, (i + 1) * m < |p|, Piece(p, m, i))
  }

  lemma CountBounds(size: nat, m: nat)
    requires m > 0
    ensures size <= Count(size, m) * m < size + m
    ensures size == 0 <==> Count(size, m) == 0
  {
    var n := Count(size, m);
    if size == 0 { DivUnique(m - 1, m, 0, m - 1); }
    assert size + m - 1 == n * m + (size + m - 1) % m;
  }

  lemma InRange(size: nat, m: nat, i: nat)
    requires m > 0
    ensures i < Count(size, m) <==> i * m < size
    ensures i + 1 == Count(size, m) <==> i * m < size <= (i + 1) * m
  {
    var n := Count(size, m);
    CountBounds(size, m);
    assert (i + 1) * m == i * m + m;
    if i < n { MulMono(i, n, m); } else { MulMono(n, i, m); }
    if i + 1 < n { MulMono(i + 1, n, m); }
  }

  /** A fragment with its offset cut to the 13 bits of the header. */
  function OnTheWire(f: Frame): Frame { f.(offset := f.offset % 8192) }

  /** Even the last fragment begins within the 64 KiB that 13 bits can tell apart. */
  predicate OffsetsFit(size: nat, m: nat)
    requires m > 0
  {
    size == 0 || (Count(size, m) - 1) * m < 65536
  }

  /** With 1480 bytes to a fragment, one byte more than 45 of them. */
  lemma OffsetsDoNotFit()
    ensures !OffsetsFit(66601, 1480)
  {
  }

  /** The fragment loop of `ipv4_send`. */
  method Send(payload: Bytes, mtu: nat, key: Key) returns (frames: seq<Frame>)
    requires mtu >= HEADER + 8
    ensures |frames| == Count(|payload|, Chunk(mtu))
    ensures forall i | 0 <= i < |frames| :: frames[i] == OnTheWire(Fragment(payload, Chunk(mtu), key, i))
    ensures (forall i | 0 <= i < |frames| :: frames[i] == Fragment(payload, Chunk(mtu), key, i))
            <==> OffsetsFit(|payload|, Chunk(mtu))
  {
    var m := (mtu - HEADER) / 8 * 8;
    var offset, size := 0, |payload|;
    frames := [];
    CountBounds(|payload|, m);
    while size > 0
      invariant offset + size == |payload|
      invariant offset == if size > 0 then |frames| * m else |payload|
      invariant |frames| <= Count(|payload|, m) && (size == 0 ==> |frames| == Count(|payload|, m))
      invariant forall i | 0 <= i < |frames| :: frames[i] == OnTheWire(Fragment(payload, m, key, i))
    {
      ghost var i := |frames|;
      var length := if size > m then m else size;
      size := size - length;
      BuiltFragment(payload, m, key, i, offset, length);
      frames := frames + [Frame(key, offset / 8 % 8192, size != 0, payload[offset..offset + length])];
      offset := offset + length;
    }
    RightOffsets(payload, m, key, frames);
  }

  lemma RightOffsets(p: Bytes, m: nat, key: Key, frames: seq<Frame>)
    requires m > 0 && m % 8 == 0 && |frames| == Count(|p|, m)
    requires forall i | 0 <= i < |frames| :: frames[i] == OnTheWire(Fragment(p, m, key, i))
    ensures (forall i | 0 <= i < |frames| :: frames[i] == Fragment(p, m, key, i)) <==> OffsetsFit(|p|, m)
  {
    CountBounds(|p|, m);
    var last := |frames| - 1;
    forall i | 0 <= i < |frames|
      ensures frames[i] == Fragment(p, m, key, i) <==> i * m < 65536
      ensures i * m <= last * m
    {
      WireOffset(p, m, key, i);
      if i < last { MulMono(i, last, m); }
    }
    if frames != [] { assert frames[last] in frames; }
  }

  lemma WireOffset(p: Bytes, m: nat, key: Key, i: nat)
    requires m % 8 == 0
    ensures OnTheWire(Fragment(p, m, key, i)) == Fragment(p, m, key, i) <==> i * m < 65536
  {
    EightDivides(i, m);
  }

  /** One turn of the loop builds one fragment. */
  lemma BuiltFragment(p: Bytes, m: nat, key: Key, i: nat, offset: nat, length: nat)
    requires m > 0 && m % 8 == 0 && offset == i * m < |p|
    requires length == if |p| - offset > m then m else |p| - offset
    ensures Frame(key, offset / 8 % 8192, |p| - offset - length != 0, p[offset..offset + length]) ==
            OnTheWire(Fragment(p, m, key, i))
    ensures |p| - offset - length > 0 ==> offset + length == (i + 1) * m
    ensures i < Count(|p|, m) && (offset + length == |p| <==> i + 1 == Count(|p|, m))
  {
    assert (i + 1) * m == i * m + m;
    InRange(|p|, m, i);
  }

  lemma EightDivides(i: nat, m: nat)
    requires m % 8 == 0
    ensures i * m % 8 == 0 && 8 * (i * m / 8) == i * m
  {
    var k := m / 8;
    assert i * m == (i * k) * 8;
  }

  // ---- reassembly ----------------------------------------------------------------------------------------

  /** What is known of one datagram: its frames so far, the bytes in them, and its size (0 until the
      last fragment has come). */
  datatype Entry = Entry(key: Key, frames: seq<Frame>, tally: nat, total: nat)

  /** The entry after one more frame. */
  function Cached(e: Entry, f: Frame): Entry
  {
    Entry(e.key, e.frames + [f], e.tally + |f.data|, if f.more then e.total else |f.data| + 8 * f.offset)
  }

  predicate Complete(e: Entry) { e.tally == e.total }

  /** The frame's bytes lie inside a buffer of `total` bytes. */
  predicate Fits(f: Frame, total: nat) { 8 * f.offset + |f.data| <= total }

  /** Every frame that brings any bytes fits. */
  predicate AllFit(frames: seq<Frame>, total: nat)
  {
    forall i | 0 <= i < |frames| :: frames[i].data == [] || Fits(frames[i], total)
  }

  predicate Covers(f: Frame, j: nat) { 8 * f.offset <= j < 8 * f.offset + |f.data| }

  ghost predicate Touched(frames: seq<Frame>, j: nat) { exists i :: 0 <= i < |frames| && Covers(frames[i], j) }

  /** What `memcpy` of a frame makes of the bytes of the buffer. */
  function Copied(buf: Bytes, f: Frame): Bytes
  {
    seq(|buf|, j requires 0 <= j < |buf| => if Covers(f, j) then f.data[j - 8 * f.offset] else buf[j])
  }

  ghost function Assembled(buf: Bytes, frames: seq<Frame>): (r: Bytes)
    ensures |r| == |buf|
    decreases |frames|
  {
    if frames == [] then buf else Assembled(Copied(buf, frames[0]), frames[1..])
  }

  lemma {:induction false} AssembledOneMore(buf: Bytes, frames: seq<Frame>, f: Frame)
    ensures Assembled(buf, frames + [f]) == Copied(Assembled(buf, frames), f)
    decreases |frames|
  {
    if frames == [] {
      assert [f][1..] == [];
    } else {
      AssembledOneMore(Copied(buf, frames[0]), frames[1..], f);
      assert (frames + [f])[1..] == frames[1..] + [f];
    }
  }

  /** Bytes behind the end of the buffer are touched if and only if some frame with bytes does not fit. */
  lemma TouchedBehind(frames: seq<Frame>, total: nat)
    ensures AllFit(frames, total) <==> forall j: nat | j >= total :: !Touched(frames, j)
  {
    if !AllFit(frames, total) {
      var i :| 0 <= i < |frames| && frames[i].data != [] && !Fits(frames[i], total);
      var last := 8 * frames[i].offset + |frames[i].data| - 1;
      assert Covers(frames[i], last);
      assert Touched(frames, last);
    }
  }

  /** The frame holds bytes of `p` at the place it claims. */
  ghost predicate PieceOf(f: Frame, p: Bytes)
  {
    Fits(f, |p|) && f.data == p[8 * f.offset..8 * f.offset + |f.data|]
  }

  /** Copying pieces of `p` in any order gives `p` wherever some piece lies. */
  lemma {:induction false} AssembledAt(buf: Bytes, frames: seq<Frame>, p: Bytes, j: nat)
    requires |buf| == |p| && j < |p|
    requires forall i | 0 <= i < |frames| :: PieceOf(frames[i], p) && Fits(frames[i], |buf|)
    requires buf[j] == p[j] || exists i :: 0 <= i < |frames| && Covers(frames[i], j)
    ensures Assembled(buf, frames)[j] == p[j]
    decreases |frames|
  {
    if frames != [] {
      var f := frames[0];
      assert PieceOf(f, p);
      var buf' := Copied(buf, f);
      assert buf'[j] == if Covers(f, j) then p[j] else buf[j];
      if buf'[j] != p[j] {
        var i :| 0 <= i < |frames| && Covers(frames[i], j);
        assert frames[1..][i - 1] == frames[i];
      }
      AssembledAt(buf', frames[1..], p, j);
    }
  }

  // ---- all fragments, in any order -------------------------------------------------------------------------

  /** The bytes of the pieces below `k` whose numbers are in `got`. */
  ghost function Received(size: nat, m: nat, got: set<nat>, k: nat): nat
  {
    if k == 0 then 0 else Received(size, m, got, k - 1) + if k - 1 in got then PieceSize(size, m, k - 1) else 0
  }

  lemma {:induction false} ReceivedOneMore(size: nat, m: nat, got: set<nat>, k: nat, i: nat)
    requires i !in got
    ensures Received(size, m, got + {i}, k) == Received(size, m, got, k) + if i < k then PieceSize(size, m, i) else 0
  {
    if k > 0 { ReceivedOneMore(size, m, got, k - 1, i); }
  }

  /** The pieces below `k` are together the first `k * m` bytes; a missing one leaves a gap. */
  lemma {:induction false} ReceivedBound(size: nat, m: nat, got: set<nat>, k: nat)
    requires m > 0
    ensures Received(size, m, got, k) <= (if k * m <= size then k * m else size)
    ensures (forall i | 0 <= i < k :: i in got) ==>
              Received(size, m, got, k) == if k * m <= size then k * m else size
    ensures (exists i :: 0 <= i < k && i !in got && i * m < size) ==>
              Received(size, m, got, k) < if k * m <= size then k * m else size
  {
    if k > 0 {
      ReceivedBound(size, m, got, k - 1);
      assert k * m == (k - 1) * m + m;
    }
  }

  /** The entry after the fragments with the numbers `order` have come, in that order. */
  ghost function EntryAfter(p: Bytes, m: nat, key: Key, order: seq<nat>): (e: Entry)
    ensures |e.frames| == |order|
    ensures forall j | 0 <= j < |order| :: e.frames[j] == Fragment(p, m, key, order[j])
  {
    if order == [] then Entry(key, [], 0, 0)
    else
      var last := |order| - 1;
      Cached(EntryAfter(p, m, key, order[..last]), Fragment(p, m, key, order[last]))
  }

  /** All numbers in `order` are those of fragments. */
  ghost predicate Numbers(order: seq<nat>, n: nat) { forall j | 0 <= j < |order| :: order[j] < n }

  ghost function Elements(order: seq<nat>): set<nat> { set x | x in order }

  lemma {:induction false} EntryTally(p: Bytes, m: nat, key: Key, order: seq<nat>)
    requires m > 0 && m % 8 == 0 && NoDup(order) && Numbers(order, Count(|p|, m))
    ensures EntryAfter(p, m, key, order).tally == Received(|p|, m, Elements(order), Count(|p|, m))
  {
    var n := Count(|p|, m);
    if order == [] {
      NothingReceived(|p|, m, n);
      assert Elements(order) == {};
    } else {
      var last := |order| - 1;
      var rest, i := order[..last], order[last];
      EntryTally(p, m, key, rest);
      assert Elements(order) == Elements(rest) + {i};
      ReceivedOneMore(|p|, m, Elements(rest), n, i);
    }
  }

  lemma {:induction false} EntryTotal(p: Bytes, m: nat, key: Key, order: seq<nat>)
    requires m > 0 && m % 8 == 0 && NoDup(order) && Numbers(order, Count(|p|, m))
    ensures EntryAfter(p, m, key, order).total == if Count(|p|, m) - 1 in order then |p| else 0
  {
    if order != [] {
      var last := |order| - 1;
      var rest, i := order[..last], order[last];
      EntryTotal(p, m, key, rest);
      LastTellsTotal(p, m, key, i);
      assert forall x :: x in order <==> x in rest || x == i;
    }
  }

  /** The fragment without the MF flag is the last one, and it gives away the size of the payload. */
  lemma LastTellsTotal(p: Bytes, m: nat, key: Key, i: nat)
    requires m > 0 && m % 8 == 0 && i < Count(|p|, m)
    ensures var f := Fragment(p, m, key, i);
            (!f.more <==> i == Count(|p|, m) - 1) && (!f.more ==> |f.data| + 8 * f.offset == |p|)
  {
    InRange(|p|, m, i);
    EightDivides(i, m);
  }

  lemma {:induction false} NothingReceived(size: nat, m: nat, k: nat)
    ensures Received(size, m, {}, k) == 0
  {
    if k > 0 { NothingReceived(size, m, k - 1); }
  }

  /** Completion is reported exactly when the last missing fragment has come, never earlier. */
  lemma CompleteIffAllCame(p: Bytes, m: nat, key: Key, order: seq<nat>)
    requires m > 0 && m % 8 == 0 && NoDup(order) && order != []
    requires Numbers(order, Count(|p|, m))
    ensures Complete(EntryAfter(p, m, key, order)) <==> forall i | 0 <= i < Count(|p|, m) :: i in order
  {
    var n := Count(|p|, m);
    EntryTally(p, m, key, order);
    EntryTotal(p, m, key, order);
    AllReceived(p, m, order);
    if n - 1 !in order {
      CountBounds(|p|, m);
      InRange(|p|, m, order[0]);
      SomethingReceived(|p|, m, Elements(order), n, order[0]);
    }
  }

  /** The sizes of the fragments that came add up to the payload exactly when all came. */
  lemma AllReceived(p: Bytes, m: nat, order: seq<nat>)
    requires m > 0 && Numbers(order, Count(|p|, m))
    ensures Received(|p|, m, Elements(order), Count(|p|, m)) == |p| <==> forall i | 0 <= i < Count(|p|, m) :: i in order
  {
    var n := Count(|p|, m);
    CountBounds(|p|, m);
    ReceivedBound(|p|, m, Elements(order), n);
    if i :| 0 <= i < n && i !in order {
      InRange(|p|, m, i);
      assert i !in Elements(order);
    }
  }

  lemma {:induction false} SomethingReceived(size: nat, m: nat, got: set<nat>, k: nat, i: nat)
    requires m > 0 && i in got && i < k && i * m < size
    ensures Received(size, m, got, k) > 0
  {
    if i < k - 1 { SomethingReceived(size, m, got, k - 1, i); } else { assert k * m == (k - 1) * m + m; }
  }

  lemma FragmentIsPiece(p: Bytes, m: nat, key: Key, i: nat)
    requires m > 0 && m % 8 == 0 && i * m < |p|
    ensures PieceOf(Fragment(p, m, key, i), p)
    ensures forall j: nat | i * m <= j < (i + 1) * m && j < |p| :: Covers(Fragment(p, m, key, i), j)
  {
    EightDivides(i, m);
    assert (i + 1) * m == i * m + m;
  }

  /** All fragments of a datagram, once each and in any order, assemble to its payload. */
  lemma RoundTrip(p: Bytes, m: nat, key: Key, order: seq<nat>)
    requires m > 0 && m % 8 == 0 && p != [] && NoDup(order)
    requires Numbers(order, Count(|p|, m))
    requires forall i | 0 <= i < Count(|p|, m) :: i in order
    ensures var e := EntryAfter(p, m, key, order);
            && Complete(e) && e.total == |p|
            && (forall j | 0 <= j < |e.frames| :: Fits(e.frames[j], |p|))
            && Assembled(Zeros(|p|), e.frames) == p
  {
    var e, n := EntryAfter(p, m, key, order), Count(|p|, m);
    CountBounds(|p|, m);
    assert order != [] by { assert 0 in order; }
    EntryTotal(p, m, key, order);
    CompleteIffAllCame(p, m, key, order);
    forall j | 0 <= j < |order| ensures PieceOf(e.frames[j], p) {
      InRange(|p|, m, order[j]);
      FragmentIsPiece(p, m, key, order[j]);
    }
    var r := Assembled(Zeros(|p|), e.frames);
    forall x | 0 <= x < |p| ensures r[x] == p[x] { RoundTripAt(p, m, key, order, e.frames, x); }
  }

  lemma RoundTripAt(p: Bytes, m: nat, key: Key, order: seq<nat>, frames: seq<Frame>, x: nat)
    requires m > 0 && m % 8 == 0 && x < |p| && |frames| == |order|
    requires forall i | 0 <= i < Count(|p|, m) :: i in order
    requires forall j | 0 <= j < |order| :: frames[j] == Fragment(p, m, key, order[j])
    requires forall j | 0 <= j < |order| :: PieceOf(frames[j], p) && Fits(frames[j], |p|)
    ensures Assembled(Zeros(|p|), frames)[x] == p[x]
  {
    var i := NumberOf(|p|, m, x);
    assert i in order;
    var j :| 0 <= j < |order| && order[j] == i;
    assert Covers(frames[j], x) by { FragmentIsPiece(p, m, key, i); }
    AssembledAt(Zeros(|p|), frames, p, x);
  }

  /** The number of the fragment that carries byte `x`. */
  lemma NumberOf(size: nat, m: nat, x: nat) returns (i: nat)
    requires m > 0 && x < size
    ensures i < Count(size, m) && i * m <= x < (i + 1) * m
  {
    i := x / m;
    assert (i + 1) * m == i * m + m;
    InRange(size, m, i);
  }

  function Zeros(n: nat): (b: Bytes)
    ensures |b| == n
  {
    seq(n, _ => 0)
  }

  // ---- the receiver ----------------------------------------------------------------------------------------

  ghost predicate UniqueKeys(list: seq<Entry>)
  {
    forall i, j | 0 <= i < j < |list| :: list[i].key != list[j].key
  }

  /** The entry of a datagram; a new one if there is none. */
  ghost function Lookup(list: seq<Entry>, key: Key): (e: Entry)
    ensures e.key == key
  {
    if list == [] then Entry(key, [], 0, 0) else if list[0].key == key then list[0] else Lookup(list[1..], key)
  }

  /** All frames held in the cache. */
  ghost function Held(list: seq<Entry>): multiset<Frame>
  {
    if list == [] then multiset{} else multiset(list[0].frames) + Held(list[1..])
  }

  lemma {:induction false} LookupAt(list: seq<Entry>, k: nat)
    requires k < |list| && UniqueKeys(list)
    ensures Lookup(list, list[k].key) == list[k]
  {
    if k > 0 { LookupAt(list[1..], k - 1); }
  }

  lemma {:induction false} LookupNone(list: seq<Entry>, key: Key)
    requires forall i | 0 <= i < |list| :: list[i].key != key
    ensures Lookup(list, key) == Entry(key, [], 0, 0)
  {
    if list != [] { LookupNone(list[1..], key); }
  }

  lemma {:induction false} ReplacedAt(list: seq<Entry>, k: nat, e: Entry, key: Key)
    requires k < |list| && UniqueKeys(list) && list[k].key == e.key
    ensures UniqueKeys(list[k := e])
    ensures Lookup(list[k := e], key) == if key == e.key then e else Lookup(list, key)
  {
    if k > 0 {
      ReplacedAt(list[1..], k - 1, e, key);
      assert list[k := e][1..] == list[1..][k - 1 := e];
    } else {
      assert list[k := e][1..] == list[1..];
    }
  }

  /** A list without its element at `k`. */
  function Dropped<T>(list: seq<T>, k: nat): seq<T>
    requires k < |list|
  {
    if k == 0 then list[1..] else [list[0]] + Dropped(list[1..], k - 1)
  }

  lemma {:induction false} DroppedIn(list: seq<Entry>, k: nat, i: nat) returns (j: nat)
    requires k < |list| && i < |Dropped(list, k)|
    ensures j < |list| && Dropped(list, k)[i] == list[j] && j == if i < k then i else i + 1
  {
    if k == 0 {
      j := i + 1;
    } else if i == 0 {
      j := 0;
    } else {
      var m := DroppedIn(list[1..], k - 1, i - 1);
      j := m + 1;
    }
  }

  lemma DroppedUnique(list: seq<Entry>, k: nat)
    requires k < |list| && UniqueKeys(list)
    ensures UniqueKeys(Dropped(list, k))
  {
    var r := Dropped(list, k);
    forall i, j | 0 <= i < j < |r| ensures r[i].key != r[j].key {
      var a := DroppedIn(list, k, i);
      var b := DroppedIn(list, k, j);
    }
  }

  lemma {:induction false} DroppedLookup(list: seq<Entry>, k: nat, key: Key)
    requires k < |list| && UniqueKeys(list)
    ensures Lookup(Dropped(list, k), key) == if key == list[k].key then Entry(key, [], 0, 0) else Lookup(list, key)
  {
    var rest := list[1..];
    if k > 0 {
      DroppedLookup(rest, k - 1, key);
      assert ([list[0]] + Dropped(rest, k - 1))[1..] == Dropped(rest, k - 1);
    } else if key == list[0].key {
      LookupNone(rest, key);
    }
  }

  lemma {:induction false} HeldSplit(list: seq<Entry>, k: nat)
    requires k < |list|
    ensures Held(list) == multiset(list[k].frames) + Held(Dropped(list, k))
  {
    if k > 0 {
      var rest := list[1..];
      HeldSplit(rest, k - 1);
      assert ([list[0]] + Dropped(rest, k - 1))[1..] == Dropped(rest, k - 1);
    }
  }

  lemma {:induction false} DroppedSame(list: seq<Entry>, k: nat, e: Entry)
    requires k < |list|
    ensures Dropped(list[k := e], k) == Dropped(list, k)
  {
    if k > 0 {
      DroppedSame(list[1..], k - 1, e);
      assert list[k := e][1..] == list[1..][k - 1 := e];
    } else {
      assert list[k := e][1..] == list[1..];
    }
  }

  lemma HeldOneMore(list: seq<Entry>, k: nat, f: Frame)
    requires k < |list|
    ensures Held(list[k := Cached(list[k], f)]) == Held(list) + multiset{f}
  {
    var list' := list[k := Cached(list[k], f)];
    HeldSplit(list, k);
    HeldSplit(list', k);
    DroppedSame(list, k, Cached(list[k], f));
  }

  class Receiver {
    var fragments: seq<Entry>

    constructor ()
      ensures fragments == []
    {
      fragments := [];
    }

    /** Searches the list for a datagram. */
    method Find(key: Key) returns (k: nat)
      requires UniqueKeys(fragments)
      ensures k <= |fragments|
      ensures if k < |fragments| then fragments[k].key == key && Lookup(fragments, key) == fragments[k]
              else Lookup(fragments, key) == Entry(key, [], 0, 0)
      ensures k == |fragments| ==> forall i | 0 <= i < |fragments| :: fragments[i].key != key
    {
      k := 0;
      while k < |fragments|
        invariant 0 <= k <= |fragments|
        invariant forall i | 0 <= i < k :: fragments[i].key != key
      {
        if fragments[k].key == key {
          LookupAt(fragments, k);
          return;
        }
        k := k + 1;
      }
      LookupNone(fragments, key);
    }

    /** `ipv4_fragment_cache`: the frame joins the frames of its datagram; other datagrams stay as they
        are. The result is the place of the datagram if it is now complete. */
    method FragmentCache(f: Frame) returns (r: Option<nat>)
      requires UniqueKeys(fragments)
      modifies this
      ensures UniqueKeys(fragments)
      ensures var e := Cached(Lookup(old(fragments), f.key), f);
              && r.Some? == Complete(e)
              && (r.Some? ==> r.value < |fragments| && fragments[r.value] == e)
              && forall key :: Lookup(fragments, key) == if key == f.key then e else Lookup(old(fragments), key)
      ensures Held(fragments) == Held(old(fragments)) + multiset{f}
    {
      var k := Find(f.key);
      if k == |fragments| {
        fragments := [Entry(f.key, [], 0, 0)] + fragments;
        assert fragments[1..] == old(fragments);
        k := 0;
      }
      ghost var list := fragments;
      var e := Cached(fragments[k], f);
      fragments := fragments[k := e];
      forall key ensures Lookup(fragments, key) == if key == f.key then e else Lookup(list, key) {
        ReplacedAt(list, k, e, key);
      }
      ReplacedAt(list, k, e, f.key);
      HeldOneMore(list, k, f);
      r := if e.tally == e.total then Some(k) else None;
    }

    /** `ipv4_fragment_assemble`: copies every frame to its place, releases it, and drops the datagram. `outside`
        are the bytes behind the buffer that the copies overwrite. */
    method FragmentAssemble(k: nat) returns (data: Bytes, released: seq<Frame>, outside: set<nat>)
      requires UniqueKeys(fragments) && k < |fragments|
      modifies this
      ensures UniqueKeys(fragments)
      ensures data == Assembled(Zeros(old(fragments)[k].total), old(fragments)[k].frames)
      ensures outside == {} <==> AllFit(old(fragments)[k].frames, old(fragments)[k].total)
      ensures released == old(fragments)[k].frames
      ensures forall key :: Lookup(fragments, key) ==
                if key == old(fragments)[k].key then Entry(key, [], 0, 0) else Lookup(old(fragments), key)
      ensures Held(fragments) + multiset(released) == Held(old(fragments))
    {
      var e := fragments[k];
      data, released, outside := CopyAll(e);
      forall key ensures Lookup(Dropped(fragments, k), key) ==
                         if key == e.key then Entry(key, [], 0, 0) else Lookup(fragments, key) {
        DroppedLookup(fragments, k, key);
      }
      DroppedUnique(fragments, k);
      HeldSplit(fragments, k);
      fragments := Dropped(fragments, k);
    }

    /** `ipv4_recv`: an unfragmented frame is passed on at once, a fragment when its datagram is complete.
        Every frame is either kept or released, once. */
    method Recv(f: Frame) returns (payload: Option<Bytes>, released: seq<Frame>, outside: set<nat>)
      requires UniqueKeys(fragments)
      modifies this
      ensures UniqueKeys(fragments)
      ensures Held(fragments) + multiset(released) == Held(old(fragments)) + multiset{f}
      ensures !f.more && f.offset == 0 ==> payload == Some(f.data) && fragments == old(fragments) && outside == {}
      ensures f.more || f.offset > 0 ==>
                var e := Cached(Lookup(old(fragments), f.key), f);
                && (outside == {} <==> (Complete(e) ==> AllFit(e.frames, e.total)))
                && payload == (if Complete(e) then Some(Assembled(Zeros(e.total), e.frames)) else None)
                && forall key :: Lookup(fragments, key) ==
                     if key != f.key then Lookup(old(fragments), key)
                     else if Complete(e) then Entry(key, [], 0, 0) else e
    {
      outside := {};
      if f.more || f.offset > 0 {
        var k := FragmentCache(f);
        if k.None? { return None, [], {}; }
        var data;
        data, released, outside := FragmentAssemble(k.value);
        payload := Some(data);
      } else {
        payload, released := Some(f.data), [f];
      }
    }
  }

  // ---- copying ---------------------------------------------------------------------------------------------

  /** Memory from the beginning of a buffer on, as far as it belongs to the buffer or has been written. */
  type Memory = map<nat, bv8>

  /** A new buffer, cleared. */
  function Blank(total: nat): (mem: Memory)
    ensures forall a: nat :: a in mem <==> a < total
    ensures forall a | a in mem :: mem[a] == 0
  {
    if total == 0 then map[] else Blank(total - 1)[total - 1 := 0]
  }

  /** `memcpy`, byte by byte. */
  method CopyFrame(mem0: Memory, f: Frame) returns (mem: Memory)
    ensures forall a :: a in mem <==> a in mem0 || Covers(f, a)
    ensures forall a | a in mem :: mem[a] == if Covers(f, a) then f.data[a - 8 * f.offset] else mem0[a]
  {
    mem := mem0;
    var r := 0;
    while r < |f.data|
      invariant 0 <= r <= |f.data|
      invariant forall a :: a in mem <==> a in mem0 || 8 * f.offset <= a < 8 * f.offset + r
      invariant forall a | a in mem ::
                  mem[a] == if 8 * f.offset <= a < 8 * f.offset + r then f.data[a - 8 * f.offset] else mem0[a]
    {
      mem := mem[8 * f.offset + r := f.data[r]];
      r := r + 1;
    }
  }

  /** The memory after the frames have been copied into a buffer of `total` bytes that was cleared before. */
  ghost predicate After(mem: Memory, total: nat, frames: seq<Frame>)
  {
    && (forall a: nat :: a in mem <==> a < total || Touched(frames, a))
    && (forall a: nat | a < total :: mem[a] == Assembled(Zeros(total), frames)[a])
  }

  lemma AfterOneMore(mem: Memory, total: nat, frames: seq<Frame>, f: Frame, mem': Memory)
    requires After(mem, total, frames)
    requires forall a :: a in mem' <==> a in mem || Covers(f, a)
    requires forall a | a in mem' :: mem'[a] == if Covers(f, a) then f.data[a - 8 * f.offset] else mem[a]
    ensures After(mem', total, frames + [f])
  {
    AssembledOneMore(Zeros(total), frames, f);
    forall a: nat ensures Touched(frames + [f], a) <==> Touched(frames, a) || Covers(f, a) {
      TouchedOneMore(frames, f, a);
    }
  }

  lemma TouchedOneMore(frames: seq<Frame>, f: Frame, a: nat)
    ensures Touched(frames + [f], a) <==> Touched(frames, a) || Covers(f, a)
  {
    var more := frames + [f];
    if Touched(frames, a) {
      var i :| 0 <= i < |frames| && Covers(frames[i], a);
      assert Covers(more[i], a);
    }
    if Covers(f, a) { assert Covers(more[|frames|], a); }
  }

  /** Every frame is copied and released. */
  method CopyAll(e: Entry) returns (data: Bytes, released: seq<Frame>, outside: set<nat>)
    ensures data == Assembled(Zeros(e.total), e.frames) && released == e.frames
    ensures outside == {} <==> AllFit(e.frames, e.total)
  {
    var mem: Memory := Blank(e.total);
    released := [];
    while |released| < |e.frames|
      invariant |released| <= |e.frames| && released == e.frames[..|released|] && After(mem, e.total, released)
    {
      var f := e.frames[|released|];
      var mem': Memory := CopyFrame(mem, f);
      AfterOneMore(mem, e.total, released, f, mem');
      mem, released := mem', released + [f];
    }
    assert released == e.frames;
    data := seq(e.total, a requires 0 <= a < e.total && a in mem => mem[a]);
    outside := set a | a in mem && a >= e.total;
    TouchedBehind(e.frames, e.total);
    assert outside == {} <==> forall a: nat | a >= e.total :: !Touched(e.frames, a) by {
      forall a: nat ensures a in outside <==> a >= e.total && Touched(e.frames, a) {}
    }
  }

  /** Fragments that are not those of one payload can complete a datagram without fitting into it: a first
      one far out, and a last one near the beginning. */
  lemma CompleteWithoutFitting(key: Key)
    ensures var a, b := Frame(key, 1000, true, Zeros(8)), Frame(key, 1, false, Zeros(8));
            var e := Cached(Cached(Entry(key, [], 0, 0), a), b);
            Complete(e) && !AllFit(e.frames, e.total)
  {
    var a, b := Frame(key, 1000, true, Zeros(8)), Frame(key, 1, false, Zeros(8));
    assert Cached(Cached(Entry(key, [], 0, 0), a), b).frames[0] == a;
  }

  /** End to end: the fragments a payload is sent in, delivered once each in any order to a receiver that
      knows nothing of the datagram, hand up nothing until the last of them, and then the payload. */
  method EndToEnd(r: Receiver, p: Bytes, mtu: nat, key: Key, order: seq<nat>) returns (out: seq<Option<Bytes>>)
    requires UniqueKeys(r.fragments) && Lookup(r.fragments, key) == Entry(key, [], 0, 0)
    requires mtu >= HEADER + 8 && p != [] && OffsetsFit(|p|, Chunk(mtu))
    requires NoDup(order) && Numbers(order, Count(|p|, Chunk(mtu)))
    requires forall i | 0 <= i < Count(|p|, Chunk(mtu)) :: i in order
    modifies r
    ensures UniqueKeys(r.fragments) && Lookup(r.fragments, key) == Entry(key, [], 0, 0)
    ensures |out| == |order| > 0 && out[|out| - 1] == Some(p)
    ensures forall i | 0 <= i < |out| - 1 :: out[i] == None
  {
    ghost var m, n := Chunk(mtu), Count(|p|, Chunk(mtu));
    CountBounds(|p|, m);
    assert 0 in order;
    var frames := Send(p, mtu, key);
    out := [];
    var i := 0;
    while i < |order|
      invariant 0 <= i <= |order| && |out| == i && UniqueKeys(r.fragments)
      invariant Lookup(r.fragments, key) == if i < |order| then EntryAfter(p, m, key, order[..i])
        else Entry(key, [], 0, 0)
      invariant forall j | 0 <= j < i :: out[j] == if j < |order| - 1 then None else Some(p)
    {
      var payload := Deliver(r, frames[order[i]], p, m, key, order, i);
      out := out + [payload];
      i := i + 1;
    }
  }

  /** One delivery: the payload comes up with the last fragment, and before it nothing. */
  method Deliver(r: Receiver, f: Frame, ghost p: Bytes, ghost m: nat, key: Key, ghost order: seq<nat>, ghost i: nat)
    returns (payload: Option<Bytes>)
    requires UniqueKeys(r.fragments) && m > 0 && m % 8 == 0 && p != [] && NoDup(order)
    requires Numbers(order, Count(|p|, m)) && (forall x | 0 <= x < Count(|p|, m) :: x in order)
    requires i < |order| && f == Fragment(p, m, key, order[i])
    requires Lookup(r.fragments, key) == EntryAfter(p, m, key, order[..i])
    modifies r
    ensures UniqueKeys(r.fragments) && payload == if i < |order| - 1 then None else Some(p)
    ensures Lookup(r.fragments, key) ==
            if i < |order| - 1 then EntryAfter(p, m, key, order[..i + 1]) else Entry(key, [], 0, 0)
  {
    ghost var e := EntryAfter(p, m, key, order[..i + 1]);
    assert e == Cached(EntryAfter(p, m, key, order[..i]), f) by { assert order[..i + 1][..i] == order[..i]; }
    Arrival(p, m, key, order, i);
    if !f.more && f.offset == 0 { LoneFrame(p, m, key, order, order[i]); }
    var released, outside;
    payload, released, outside := r.Recv(f);
  }

  /** Of several fragments only the last to come completes the datagram, and it completes it rightly. */
  lemma Arrival(p: Bytes, m: nat, key: Key, order: seq<nat>, i: nat)
    requires m > 0 && m % 8 == 0 && p != [] && NoDup(order) && Numbers(order, Count(|p|, m))
    requires forall i | 0 <= i < Count(|p|, m) :: i in order
    requires i < |order|
    ensures var e := EntryAfter(p, m, key, order[..i + 1]);
            && (Complete(e) <==> i == |order| - 1)
            && (i == |order| - 1 ==>
                  && AllFit(e.frames, e.total)
                  && Assembled(Zeros(e.total), e.frames) == p)
  {
    var n, got := Count(|p|, m), order[..i + 1];
    assert NoDup(got) && Numbers(got, n) && got != [];
    CompleteIffAllCame(p, m, key, got);
    if i < |order| - 1 {
      var last := order[|order| - 1];
      assert last < n && last !in got;
    } else {
      assert got == order;
      RoundTrip(p, m, key, order);
    }
  }

  /** A frame that is no fragment is the only frame, and carries the whole payload. */
  lemma LoneFrame(p: Bytes, m: nat, key: Key, order: seq<nat>, x: nat)
    requires m > 0 && m % 8 == 0 && x < Count(|p|, m) && NoDup(order) && Numbers(order, Count(|p|, m)) && order != []
    requires var f := Fragment(p, m, key, x); !f.more && f.offset == 0
    ensures Fragment(p, m, key, x).data == p && |order| == 1
  {
    InRange(|p|, m, x);
    EightDivides(x, m);
    LastTellsTotal(p, m, key, x);
    if x > 0 { MulMono(1, x, m); }
    assert x == 0 && Numbers(order, 1);
    OnlyOne(order);
  }

  lemma OnlyOne(order: seq<nat>)
    requires NoDup(order) && Numbers(order, 1) && order != []
    ensures |order| == 1
  {
    assert order[|order| - 1] == order[0];
  }
}
