/** The application-trace ring buffer: contiguous regions, early wrap by shrinking, full size restored on read wrap. */
module RingBuffers {
  import opened Basics
  import opened Bytes

  /** The queue held between read index rd and write index wr of a storage that currently wraps at cur. */
  ghost function Queue(d: seq<byte>, cur: nat, rd: nat, wr: nat): (s: seq<byte>)
    requires if rd <= wr then wr <= |d| else rd <= cur <= |d|
    ensures |s| == if rd <= wr then wr - rd else cur - rd + wr
  {
    if rd <= wr then d[rd..wr] else d[rd..cur] + d[..wr]
  }

  /** The exact condition under which a region of n octets is granted in a storage of len octets. */
  predicate Grants(len: nat, rd: nat, wr: nat, n: nat) {
    if rd <= wr then
      wr + n < len || (rd > 0 && (wr + n == len || n < rd))
    else
      wr + n < rd
  }

  /** The indices of a ring: storage size, where it wraps at present, read and write index. */
  datatype Ring = Ring(size: nat, cur: nat, rd: nat, wr: nat) {
    predicate Valid() {
      if rd <= wr then cur == size && (wr < size || (wr == 0 && size == 0)) else rd < cur <= size
    }

    /** How many octets are queued. */
    function Len(): (n: nat)
      requires Valid()
      ensures n < size || (n == 0 && size == 0)
    {
      if rd <= wr then wr - rd else cur - rd + wr
    }

    /** A region of n octets is granted. */
    predicate Opens(n: nat) { Grants(size, rd, wr, n) }

    /** Where that region is: at the write index, or at offset 0 if the ring wraps early. */
    function Place(n: nat): (off: nat) { if rd <= wr && wr + n > size then 0 else wr }

    /** Is cell i of the storage part of the queue? */
    predicate Holds(i: nat) {
      if rd <= wr then rd <= i < wr else rd <= i < cur || i < wr
    }

    /** The indices after a region of n octets is granted. */
    function Take(n: nat): (r: Ring)
      requires Valid() && Opens(n)
      ensures r.Valid() && r.size == size && r.Len() == Len() + n
    {
      if rd > wr || wr + n < size then Ring(size, cur, rd, wr + n)
      else if wr + n == size then Ring(size, cur, rd, 0)
      else if rd == wr then Ring(size, size, 0, n)
      else Ring(size, wr, rd, n)
    }

    /** The indices after the n oldest octets are consumed. */
    function Drop(n: nat): (r: Ring)
      requires Valid() && n <= Len()
      ensures r.Valid() && r.size == size && r.wr == wr && r.Len() == Len() - n
    {
      if rd <= wr || n < cur - rd then Ring(size, cur, rd + n, wr) else Ring(size, size, n - (cur - rd), wr)
    }

    /** How many of the oldest octets lie in consecutive cells. */
    function Front(): (n: nat)
      requires Valid()
      ensures n <= Len() && (n == 0 <==> Len() == 0)
    {
      if rd <= wr then wr - rd else cur - rd
    }

    /** How many octets more a ring that does not wrap early can queue. */
    function Free(): (n: nat)
      requires Valid()
    {
      if size == 0 then 0 else size - 1 - Len()
    }

    /** The indices of such a ring after n more octets are queued. */
    function Put(n: nat): (r: Ring)
      requires Valid() && cur == size && n <= Free()
      ensures r.Valid() && r.size == r.cur == size && r.rd == rd && r.Len() == Len() + n
    {
      if wr + n < size || size == 0 then Ring(size, cur, rd, wr + n) else Ring(size, cur, rd, wr + n - size)
    }
  }

  /** Granting at the write index does not shrink the ring. */
  lemma TakeInPlace(r: Ring, n: nat)
    requires r.Valid() && r.Opens(n) && r.wr + n <= r.size
    ensures r.Take(n).cur == r.cur && (r.cur == r.size ==> n <= r.Free() && r.Take(n) == r.Put(n))
  {
  }

  lemma NothingMoved(r: Ring)
    requires r.Valid()
    ensures r.Drop(0) == r && (r.cur == r.size ==> r.Put(0) == r)
  {
  }

  lemma DropTwice(r: Ring, a: nat, b: nat)
    requires r.Valid() && a + b <= r.Len()
    ensures r.Drop(a).Drop(b) == r.Drop(a + b)
  {
  }

  lemma PutTwice(r: Ring, a: nat, b: nat)
    requires r.Valid() && r.cur == r.size && a + b <= r.Free()
    ensures r.Put(a).Put(b) == r.Put(a + b)
  {
  }

  /** An empty ring grants n wherever its indices happen to stand exactly when two such regions fit the storage:
      the early-wrap test compares with the read index even though nothing is queued. */
  lemma EmptyRingGuarantee(len: nat, n: nat)
    requires len > 0
    ensures (forall at: nat | at < len :: Grants(len, at, at, n)) <==> 2 * n <= len
  {
    if 2 * n > len {
      var at := if n < len then n else 0;
      assert !Grants(len, at, at, n);
    }
  }

  /** Moving the write index over n cells appends those cells, whether it stays, wraps at the end or wraps early. */
  lemma QueueExtends(d: seq<byte>, cur: nat, rd: nat, wr: nat, n: nat)
    requires if rd <= wr then cur == |d| && wr < |d| else rd < cur <= |d|
    ensures wr + n <= |d| && (rd <= wr || wr + n < rd) ==>
      Queue(d, cur, rd, wr + n) == Queue(d, cur, rd, wr) + d[wr..wr + n]
    ensures wr + n == |d| && 0 < rd <= wr ==> Queue(d, cur, rd, 0) == Queue(d, cur, rd, wr) + d[wr..wr + n]
    ensures rd < wr && n < rd ==> Queue(d, wr, rd, n) == Queue(d, cur, rd, wr) + d[0..n]
    ensures rd == wr && n < rd ==> Queue(d, cur, 0, n) == Queue(d, cur, rd, wr) + d[0..n]
  {
  }

  /** A granted region is free, and granting it appends its cells to the queue. */
  lemma TakeExtends(d: seq<byte>, r: Ring, n: nat)
    requires r.Valid() && r.Opens(n) && |d| == r.size
    ensures var t, off := r.Take(n), r.Place(n);
      && off + n <= r.size && (forall i :: off <= i < off + n ==> !r.Holds(i))
      && Queue(d, t.cur, t.rd, t.wr) == Queue(d, r.cur, r.rd, r.wr) + d[off..off + n]
      && (n == 0 || t.wr == off + n || (t.wr == 0 && off + n == r.size == t.cur))
  {
    QueueExtends(d, r.cur, r.rd, r.wr, n);
    hide Queue;
    if r.rd > r.wr || r.wr + n < r.size {
      assert r.Take(n) == Ring(r.size, r.cur, r.rd, r.wr + n);
    } else if r.wr + n == r.size {
      assert r.Take(n) == Ring(r.size, r.cur, r.rd, 0);
    } else {
      assert r.Take(n) == if r.rd == r.wr then Ring(r.size, r.size, 0, n) else Ring(r.size, r.wr, r.rd, n);
    }
  }

  /** Overwriting the youngest cells replaces the youngest octets and nothing else. */
  lemma QueueTailReplaced(d: seq<byte>, cur: nat, rd: nat, wr: nat, off: nat, bytes: seq<byte>)
    requires if rd <= wr then wr <= |d| else rd < cur <= |d|
    requires |bytes| <= |Queue(d, cur, rd, wr)| && off + |bytes| <= |d|
    requires |bytes| == 0 || wr == off + |bytes| || (wr == 0 && off + |bytes| == |d| == cur)
    ensures Queue(d[..off] + bytes + d[off + |bytes|..], cur, rd, wr)
         == Queue(d, cur, rd, wr)[..|Queue(d, cur, rd, wr)| - |bytes|] + bytes
  {
    if bytes == [] {
      assert d[..off] + bytes + d[off..] == d;
    } else if rd <= wr {
      SliceReplaced(d, off, bytes, rd, wr);
    } else if wr == 0 {
      SliceReplaced(d, off, bytes, rd, cur);
      assert d[rd..cur] + d[..0] == d[rd..cur];
    } else {
      SliceReplaced(d, off, bytes, rd, cur);
      SliceReplaced(d, off, bytes, 0, wr);
      EndReplaced(d[rd..cur], d[..wr], bytes);
    }
  }

  /** What a slice holds after some cells are replaced, if it ends with them or lies apart from them. */
  lemma SliceReplaced(d: seq<byte>, off: nat, bytes: seq<byte>, lo: nat, hi: nat)
    requires off + |bytes| <= |d| && lo <= hi <= |d|
    ensures var e := d[..off] + bytes + d[off + |bytes|..];
      && |e| == |d|
      && (lo <= off && hi == off + |bytes| ==> e[lo..hi] == d[lo..hi][..hi - lo - |bytes|] + bytes)
      && (off + |bytes| <= lo ==> e[lo..hi] == d[lo..hi])
  {
  }

  /** Replacing the end of the second of two parts. */
  lemma EndReplaced(x: seq<byte>, y: seq<byte>, bytes: seq<byte>)
    requires |bytes| <= |y|
    ensures x + (y[..|y| - |bytes|] + bytes) == (x + y)[..|x + y| - |bytes|] + bytes
  {
  }

  /** Overwriting some of the youngest n cells changes just the corresponding octets of the queue. */
  lemma QueueTailPatched(d: seq<byte>, cur: nat, rd: nat, wr: nat, off: nat, n: nat, at: nat, bytes: seq<byte>)
    requires if rd <= wr then wr <= |d| else rd < cur <= |d|
    requires n <= |Queue(d, cur, rd, wr)| && off + n <= |d| && at + |bytes| <= n
    requires n == 0 || wr == off + n || (wr == 0 && off + n == |d| == cur)
    ensures Queue(Patched(d, off + at, bytes), cur, rd, wr)
         == Patched(Queue(d, cur, rd, wr), |Queue(d, cur, rd, wr)| - n + at, bytes)
  {
    hide Queue, Patched;
    var same, whole := d[off..off + n], Patched(d[off..off + n], at, bytes);
    var q := Queue(d, cur, rd, wr);
    QueueTailReplaced(d, cur, rd, wr, off, whole);
    QueueTailReplaced(d, cur, rd, wr, off, same);
    PatchMiddle(d, off, n, at, bytes);
    PatchTail(q, q[..|q| - n], same, at, bytes);
  }

  /** The storage cell that holds the k-th octet of the queue. */
  function CellOf(cur: nat, rd: nat, wr: nat, k: nat): (c: nat) {
    if rd <= wr || k < cur - rd then rd + k else k - (cur - rd)
  }

  lemma QueueCell(d: seq<byte>, cur: nat, rd: nat, wr: nat, k: nat)
    requires if rd <= wr then wr <= |d| else rd < cur <= |d|
    requires k < |Queue(d, cur, rd, wr)|
    ensures CellOf(cur, rd, wr, k) < |d| && Queue(d, cur, rd, wr)[k] == d[CellOf(cur, rd, wr, k)]
  {
  }

  /** Writing into cells that hold nothing queued leaves the queue alone. */
  lemma QueueDeadPatched(d: seq<byte>, cur: nat, rd: nat, wr: nat, at: nat, bytes: seq<byte>)
    requires if rd <= wr then wr <= |d| else rd < cur <= |d|
    requires at + |bytes| <= |d|
    requires bytes == [] || (if rd <= wr then at + |bytes| <= rd || wr <= at else wr <= at && at + |bytes| <= rd)
    ensures Queue(Patched(d, at, bytes), cur, rd, wr) == Queue(d, cur, rd, wr)
  {
    var e := Patched(d, at, bytes);
    forall k | 0 <= k < |Queue(d, cur, rd, wr)|
      ensures Queue(e, cur, rd, wr)[k] == Queue(d, cur, rd, wr)[k]
    {
      QueueCell(d, cur, rd, wr, k);
      QueueCell(e, cur, rd, wr, k);
    }
  }

  lemma PatchedInTwo(d: seq<byte>, at: nat, k: nat, bytes: seq<byte>)
    requires at + |bytes| <= |d| && k <= |bytes|
    ensures Patched(d, at, bytes) == Patched(Patched(d, at, bytes[..k]), at + k, bytes[k..])
  {
  }

  /** Writing into n cells that end where the queue ends: of the octets still queued just the written ones change. */
  lemma QueueEndPatched(d: seq<byte>, cur: nat, rd: nat, wr: nat, off: nat, n: nat, at: nat, bytes: seq<byte>)
    requires if rd <= wr then wr <= |d| else rd < cur <= |d|
    requires n > |Queue(d, cur, rd, wr)| && off + n <= |d| && at + |bytes| <= n
    requires if wr == 0 && off + n == |d| then rd == 0 || cur == |d| else wr == off + n
    ensures var q := Queue(d, cur, rd, wr);
      Queue(Patched(d, off + at, bytes), cur, rd, wr) == Landing(q, |q| - n, n - |q|, at, bytes)
  {
    hide Queue, Patched;
    var q := Queue(d, cur, rd, wr);
    var cut := n - |q|;
    if at + |bytes| <= cut {
      QueueDeadPatched(d, cur, rd, wr, off + at, bytes);
    } else if cut <= at {
      QueueTailPatched(d, cur, rd, wr, off + cut, |q|, at - cut, bytes);
    } else {
      var k := cut - at;
      PatchedInTwo(d, off + at, k, bytes);
      QueueDeadPatched(d, cur, rd, wr, off + at, bytes[..k]);
      QueueTailPatched(Patched(d, off + at, bytes[..k]), cur, rd, wr, off + cut, |q|, 0, bytes[k..]);
    }
  }

  lemma PatchMiddle(d: seq<byte>, off: nat, n: nat, at: nat, bytes: seq<byte>)
    requires off + n <= |d| && at + |bytes| <= n
    ensures d == d[..off] + d[off..off + n] + d[off + n..]
    ensures Patched(d, off + at, bytes) == d[..off] + Patched(d[off..off + n], at, bytes) + d[off + n..]
  {
  }

  /** Moving the read index over n contiguous cells removes the oldest n octets, also when it wraps. */
  lemma QueueShrinks(d: seq<byte>, cur: nat, rd: nat, wr: nat, n: nat)
    requires if rd <= wr then wr <= |d| && rd + n <= wr else rd < cur <= |d| && rd + n <= cur
    ensures d[rd..rd + n] == Queue(d, cur, rd, wr)[..n]
    ensures rd + n < cur || rd <= wr ==> Queue(d, cur, rd + n, wr) == Queue(d, cur, rd, wr)[n..]
    ensures rd > wr && rd + n == cur ==> Queue(d, |d|, 0, wr) == Queue(d, cur, rd, wr)[n..]
  {
  }

  /** Consuming the n oldest octets that lie in consecutive cells leaves the others. */
  lemma DropShrinks(d: seq<byte>, r: Ring, n: nat)
    requires r.Valid() && |d| == r.size && n <= (if r.rd <= r.wr then r.wr - r.rd else r.cur - r.rd)
    ensures var t := r.Drop(n);
      && (t.cur == r.cur || t.cur == r.size) && r.rd + n <= r.size
      && d[r.rd..r.rd + n] == Queue(d, r.cur, r.rd, r.wr)[..n]
      && Queue(d, t.cur, t.rd, t.wr) == Queue(d, r.cur, r.rd, r.wr)[n..]
  {
    QueueShrinks(d, r.cur, r.rd, r.wr, n);
    hide Queue;
  }

  class RingBuffer {
    const data: array<byte>
    var curSize: nat
    var rd: nat
    var wr: nat

    ghost predicate Valid()
      reads this
    {
      Indices().Valid()
    }

    function Indices(): (r: Ring)
      reads this
    {
      Ring(data.Length, curSize, rd, wr)
    }

    constructor (size: nat)
      ensures Valid() && fresh(data) && data.Length == size && Live() == [] && Indices() == Ring(size, size, 0, 0)
    {
      data := new byte[size](_ => 0);
      curSize, rd, wr := size, 0, 0;
    }

    /** The queued octets, oldest first. */
    ghost function Live(): (s: seq<byte>)
      requires Valid()
      reads this, data
      ensures |s| == Indices().Len() && (|s| < data.Length || (s == [] && data.Length == 0))
    {
      Queue(data[..], curSize, rd, wr)
    }

    /** Is cell i of the storage part of the queue? */
    ghost predicate LiveCell(i: nat)
      requires Valid()
      reads this
    {
      Indices().Holds(i)
    }

    /** Octets one Consume call can return. */
    function ReadSize(): (n: nat)
      requires Valid()
      reads this, data
      ensures n <= |Live()| && (n == 0 <==> Live() == [])
    {
      if rd <= wr then wr - rd else curSize - rd
    }

    /** The k oldest octets lie in consecutive cells. */
    ghost predicate InRow(k: nat)
      requires Valid()
      reads this
    {
      k <= Indices().Len() && forall i: nat :: i < k ==> CellOf(curSize, rd, wr, i) == rd + i
    }

    /** The k cells from the write index on are free, and filling them does not make the ring look empty. */
    ghost predicate FitsHere(k: nat)
      requires Valid()
      reads this
    {
      && wr + k <= data.Length && (forall i :: wr <= i < wr + k ==> !LiveCell(i))
      && (if wr + k == data.Length then 0 else wr + k) != rd
    }

    /** Octets one Produce call is certain to be granted. */
    function WriteSize(): (n: nat)
      requires Valid()
      reads this
      ensures forall k :: 0 < k <= n ==> CanProduce(k)
      ensures n == 0 ==> forall k :: k > 0 ==> !CanProduce(k)
    {
      if rd <= wr then
        var free := data.Length - wr;
        if free != 0 && rd == 0 then free - 1 else free
      else
        rd - wr - 1
    }

    /** The exact condition under which a region of n octets is granted. */
    ghost predicate CanProduce(n: nat)
      requires Valid()
      reads this
    {
      Indices().Opens(n)
    }

    /** The n cells from off on end where the queue ends; some or all of them may have been consumed already. */
    ghost predicate Ends(off: nat, n: nat)
      requires Valid()
      reads this
    {
      off + n <= data.Length && (n == 0 || wr == off + n || (wr == 0 && off + n == data.Length == curSize))
    }

    /** How many of the n cells that end the queue have been consumed. */
    ghost function Cut(n: nat): (c: nat)
      requires Valid()
      reads this, data
      ensures c <= n && c + |Live()| >= n
    {
      if n <= |Live()| then 0 else n - |Live()|
    }

    /** The n cells from off on hold the youngest n queued octets. */
    ghost predicate IsTail(off: nat, n: nat)
      requires Valid()
      reads this, data
    {
      n <= |Live()| && Ends(off, n)
    }

    /** Move the write index over a region of n octets, if there is one. */
    method Advance(n: nat) returns (r: Option<nat>)
      requires Valid()
      modifies this
      ensures Valid()
      ensures r == if old(CanProduce(n)) then Some(old(Indices()).Place(n)) else None
      ensures r.Some? ==> Indices() == old(Indices()).Take(n)
      ensures r.None? ==> unchanged(this)
    {
      var off := wr;
      if rd <= wr {
        if wr + n >= data.Length {
          if rd == 0 {
            return None;
          }
          if wr + n == data.Length {
            wr := 0;
          } else {
            if n > rd - 1 {
              return None;
            }
            curSize := wr;
            wr := 0;
            off := 0;
            if rd == curSize {
              rd := 0;
              if curSize < data.Length {
                curSize := data.Length;
              }
            }
            wr := wr + n;
          }
        } else {
          wr := wr + n;
        }
      } else {
        if n > rd - wr - 1 {
          return None;
        }
        wr := wr + n;
      }
      return Some(off);
    }

    method Produce(n: nat) returns (r: Option<nat>)
      requires Valid()
      modifies this
      ensures Valid()
      ensures r.Some? <==> old(CanProduce(n))
      ensures r.None? ==> unchanged(this)
      ensures r.Some? ==>
        && r.value + n <= data.Length
        && (forall i :: r.value <= i < r.value + n ==> !old(LiveCell(i)))
        && Live() == old(Live()) + data[..][r.value..r.value + n]
        && IsTail(r.value, n)
        && Indices() == old(Indices()).Take(n)
      ensures 0 < n <= old(WriteSize()) ==> curSize == old(curSize)
    {
      hide Queue, Ring.Take, Ring.Place, Ring.Opens, Ring.Valid, Ring.Len, Ring.Holds, Ring.Free, Ring.Put;
      ghost var was := Indices();
      KeepsSize(n);
      r := Advance(n);
      if r.Some? {
        TakeExtends(data[..], was, n);
      }
    }

    lemma KeepsSize(n: nat)
      requires Valid()
      ensures 0 < n <= WriteSize() ==> Indices().Take(n).cur == curSize
    {
      if 0 < n <= WriteSize() {
        TakeInPlace(Indices(), n);
      }
    }

    /** Write into the region granted last, of which the front may be consumed meanwhile. */
    method Store(off: nat, ghost n: nat, at: nat, bytes: seq<byte>)
      requires Valid() && Ends(off, n) && at + |bytes| <= n
      modifies data
      ensures Valid() && Ends(off, n)
      ensures Live() == Landing(old(Live()), |old(Live())| - n, old(Cut(n)), at, bytes)
    {
      hide Queue, Patched;
      if IsTail(off, n) {
        QueueTailPatched(data[..], curSize, rd, wr, off, n, at, bytes);
        PatchedNothing(Live(), |Live()| - n + at);
      } else {
        QueueEndPatched(data[..], curSize, rd, wr, off, n, at, bytes);
      }
      CopyTo(data, off + at, bytes);
    }

    /** Grant a region that is certain to fit and fill it at once. */
    method Append(bytes: seq<byte>)
      requires Valid() && 0 < |bytes| <= WriteSize()
      modifies this, data
      ensures Valid() && curSize == old(curSize)
      ensures Live() == old(Live()) + bytes
      ensures curSize == data.Length ==>
        |bytes| <= old(Indices()).Free() && Indices() == old(Indices()).Put(|bytes|)
    {
      hide Queue;
      TakeInPlace(Indices(), |bytes|);
      ghost var was := Live();
      var p := Produce(|bytes|);
      assert Live()[..|Live()| - |bytes|] == was;
      Store(p.value, |bytes|, 0, bytes);
    }

    /** Move the read index over n octets, if so many lie in consecutive cells. */
    method Retreat(n: nat) returns (r: Option<nat>)
      requires Valid()
      modifies this
      ensures r == if n <= old(ReadSize()) then Some(old(rd)) else None
      ensures r.Some? ==> Indices() == old(Indices()).Drop(n)
      ensures r.None? ==> unchanged(this)
    {
      var off := rd;
      if rd <= wr {
        if rd + n > wr {
          return None;
        }
        rd := rd + n;
      } else {
        if rd + n > curSize {
          return None;
        } else if rd + n == curSize {
          if curSize < data.Length {
            curSize := data.Length;
          }
          rd := 0;
        } else {
          rd := rd + n;
        }
      }
      return Some(off);
    }

    method Consume(n: nat) returns (r: Option<nat>)
      requires Valid()
      modifies this
      ensures Valid() && wr == old(wr) && (curSize == old(curSize) || curSize == data.Length)
      ensures r.Some? <==> n <= old(ReadSize())
      ensures r.None? ==> unchanged(this)
      ensures r.Some? ==>
        && r.value + n <= data.Length
        && data[..][r.value..r.value + n] == old(Live())[..n]
        && Live() == old(Live())[n..] && Indices() == old(Indices()).Drop(n)
    {
      ghost var was := Indices();
      if n <= ReadSize() {
        DropShrinks(data[..], was, n);
      }
      hide Queue;
      r := Retreat(n);
    }
  }

  /** The read size is the longest front of the queue that lies in consecutive cells. */
  lemma ReadSizeLongest(rb: RingBuffer, k: nat)
    requires rb.Valid()
    ensures rb.InRow(k) <==> k <= rb.ReadSize()
  {
    hide Queue;
    var n := rb.ReadSize();
    assert rb.rd > rb.wr ==> CellOf(rb.curSize, rb.rd, rb.wr, n) == 0 != rb.rd + n;
  }

  /** The write size is the longest region that fits at the write index. */
  lemma WriteSizeLongest(rb: RingBuffer, k: nat)
    requires rb.Valid() && k > 0
    ensures rb.FitsHere(k) <==> k <= rb.WriteSize()
  {
    assert rb.rd > rb.wr ==> rb.LiveCell(rb.rd);
  }

  /** A ring that never wrapped early refuses every octet only when it is full. */
  lemma NoWriteSizeMeansFull(rb: RingBuffer)
    requires rb.Valid() && rb.curSize == rb.data.Length && rb.WriteSize() == 0
    ensures |rb.Live()| + 1 == rb.data.Length || rb.data.Length == 0
  {
  }

  /** A refused request has no place: at the write index and at offset 0 alike the region leaves the storage,
      covers a queued cell, or would make a full ring look empty. */
  lemma RefusedMeansNoPlace(rb: RingBuffer, n: nat, off: nat)
    requires rb.Valid() && rb.Live() != [] && n > 0 && !rb.CanProduce(n)
    requires off == rb.wr || off == 0
    ensures off + n > rb.data.Length || rb.rd == (if off + n == rb.data.Length then 0 else off + n)
         || exists i :: off <= i < off + n && rb.LiveCell(i)
  {
    if off + n <= rb.data.Length && rb.rd != (if off + n == rb.data.Length then 0 else off + n) {
      var i := if off == 0 && rb.wr < rb.rd && 0 < rb.wr then 0 else if rb.rd >= off then rb.rd else off;
      assert off <= i < off + n && rb.LiveCell(i);
    }
  }
}
