/** The trace transport: a ping-pong pair of memory blocks swapped with a host, and a ring for what does not fit. */
module MemBufs {
  import opened Basics
  import opened Bytes
  import opened RingBuffers

  /** Octets of the header in front of each packet: allocated size and written size. */
  const HDR: nat := 4

  /** Answer of the hardware to one swap request; a granted swap may bring octets from the host. */
  datatype Attempt = Busy | Ready(fromHost: seq<byte>)

  /** Where a granted packet lives: offset of its header in a block or in the pending ring. */
  datatype Grant = Null | InBlock(blk: nat, off: nat) | InRing(off: nat)

  /** Header plus payload of a finished packet; the core number is the top bit of both sizes. */
  function Packet(core: nat, payload: seq<byte>): (p: seq<byte>)
    requires core < 2 && |payload| < 0x8000
    ensures |p| == HDR + |payload|
  {
    LE16(0x8000 * core + |payload|) + LE16(0x8000 * core + |payload|) + payload
  }

  /** The i-th answer is the first that grants the swap. */
  predicate FirstReady(script: seq<Attempt>, i: nat) {
    i < |script| && script[i].Ready? && forall j :: 0 <= j < i ==> script[j].Busy?
  }

  predicate SomeReady(script: seq<Attempt>) {
    exists i :: 0 <= i < |script| && script[i].Ready?
  }

  /** Write a stretch of host data into the down ring until it is full. */
  method DownBufferWrite(down: RingBuffer, bytes: seq<byte>) returns (total: nat)
    requires down.Valid() && down.curSize == down.data.Length
    modifies down, down.data
    ensures down.Valid() && down.curSize == down.data.Length
    ensures total <= |bytes| && down.Live() == old(down.Live()) + bytes[..total]
    ensures total < |bytes| ==> |down.Live()| + 1 >= down.data.Length
    ensures total == Min(|bytes|, old(down.Indices()).Free()) && down.Indices() == old(down.Indices()).Put(total)
  {
    hide Queue, Ring.Put, Ring.Take, Ring.Len, Ring.Valid, Grants;
    total := 0;
    ghost var was := down.Indices();
    NothingMoved(was);
    while total < |bytes|
      invariant total <= |bytes| && down.Valid() && down.curSize == down.data.Length
      invariant down.Live() == old(down.Live()) + bytes[..total]
      invariant total <= was.Free() && down.Indices() == was.Put(total)
    {
      var n := down.WriteSize();
      if n == 0 {
        NoWriteSizeMeansFull(down);
        break;
      }
      if n > |bytes| - total {
        n := |bytes| - total;
      }
      down.Append(bytes[total..total + n]);
      PutTwice(was, total, n);
      assert bytes[..total + n] == bytes[..total] + bytes[total..total + n];
      total := total + n;
    }
  }

  /** One call on the transport, with what the hardware answers during it. A traced packet is reserved, filled and
      closed; the hardware may be asked for swaps before it is filled and again before it is closed. */
  datatype Op =
    | Trace(core: nat, payload: seq<byte>, tryNow: Attempt, script: seq<Attempt>,
            before: seq<Attempt>, after: seq<Attempt>)
    | Exchange(att: Attempt)
    | Flush(minSz: nat, waits: nat -> seq<Attempt>)
    | Fetch(size: nat, rounds: seq<Round>)

  /** One turn of the loop that waits for host data: a swap when the host has some, else a look at the timeout. */
  datatype Round = Pending(script: seq<Attempt>) | Idle(expired: bool)

  /** How full a transport is: the octets in its current block, and the indices of its two rings. */
  datatype Room = Room(marker: nat, pend: Ring, down: Ring) {
    predicate Valid() { pend.Valid() && down.Valid() && down.cur == down.size }

    /** The current block can take raw octets in order. */
    predicate BlockOpen(sz: nat, raw: nat)
      requires Valid()
    {
      pend.Len() == 0 && marker + raw <= sz
    }

    /** Some place can take raw octets in order. */
    predicate Open(sz: nat, raw: nat)
      requires Valid()
    {
      BlockOpen(sz, raw) || pend.Opens(raw)
    }

    /** After a granted swap: the other block takes pending octets as far as they fit, the down ring host octets. */
    function Swapped(sz: nat, fromHost: seq<byte>): (r: Room)
      requires Valid()
      ensures r.Valid() && r.marker + r.pend.Len() == pend.Len()
    {
      var n := Min(pend.Len(), sz);
      Room(n, pend.Drop(n), down.Put(Min(|fromHost|, down.Free())))
    }

    /** After one request for a swap. */
    function After(sz: nat, att: Attempt): (r: Room)
      requires Valid()
      ensures r.Valid()
    {
      if att.Ready? then Swapped(sz, att.fromHost) else this
    }

    /** After requests for a swap that end with the first one granted. */
    function Waited(sz: nat, script: seq<Attempt>): (r: Room)
      requires Valid()
      ensures r.Valid() && (marker > 0 && SomeReady(script) ==> r.marker + r.pend.Len() < marker + pend.Len())
      decreases |script|
    {
      if script == [] then this
      else if script[0].Ready? then Swapped(sz, script[0].fromHost)
      else Waited(sz, script[1..])
    }

    /** After any number of requests for a swap. */
    function AfterAll(sz: nat, atts: seq<Attempt>): (r: Room)
      requires Valid()
      ensures r.Valid()
      decreases |atts|
    {
      if atts == [] then this else After(sz, atts[0]).AfterAll(sz, atts[1..])
    }

    /** Where a place for raw octets is looked for in the end: a swap is tried at once if octets are pending, and waited
        for only if there is no place without it. */
    function Found(sz: nat, raw: nat, tryNow: Attempt, script: seq<Attempt>): (r: Room)
      requires Valid()
      ensures r.Valid()
    {
      var r := if pend.Len() > 0 then After(sz, tryNow) else this;
      if r.Open(sz, raw) then r else r.Waited(sz, script)
    }

    /** After raw octets are taken, in the block if it can take them. */
    function Taken(sz: nat, raw: nat): (r: Room)
      requires Valid() && Open(sz, raw)
      ensures r.Valid() && r.marker + r.pend.Len() == marker + pend.Len() + raw
    {
      if BlockOpen(sz, raw) then this.(marker := marker + raw) else this.(pend := pend.Take(raw))
    }

    /** After a flush down to minSz octets in the block, and whether it gets there. */
    function Flushed(sz: nat, minSz: nat, waits: nat -> seq<Attempt>, k: nat): (r: (Room, bool))
      requires Valid()
      ensures r.0.Valid()
      decreases marker + pend.Len()
    {
      if marker <= minSz then (this, true)
      else if !SomeReady(waits(k)) then (this, false)
      else Waited(sz, waits(k)).Flushed(sz, minSz, waits, k + 1)
    }

    /** After waiting for host data. */
    function Awaited(sz: nat, rounds: seq<Round>): (r: Room)
      requires Valid()
      ensures r.Valid()
      decreases |rounds|
    {
      if rounds == [] || down.Len() > 0 then this else
        match rounds[0]
        case Pending(script) => Waited(sz, script).Awaited(sz, rounds[1..])
        case Idle(expired) => if expired then this else Awaited(sz, rounds[1..])
    }

    /** Whether a call gets what it asks for. */
    predicate Grants(sz: nat, op: Op)
      requires Valid()
    {
      match op
      case Trace(_, payload, tryNow, script, _, _) =>
        var raw := |payload| + HDR;
        raw <= sz && Found(sz, raw, tryNow, script).Open(sz, raw)
      case Exchange(att) => att.Ready?
      case Flush(minSz, waits) => Flushed(sz, minSz, waits, 0).1
      case Fetch(_, rounds) => Awaited(sz, rounds).down.Len() > 0
    }

    /** After a call. */
    function Next(sz: nat, op: Op): (r: Room)
      requires Valid()
      ensures r.Valid()
    {
      match op
      case Trace(_, payload, tryNow, script, before, after) =>
        var raw := |payload| + HDR;
        if raw > sz then this else
          var r := Found(sz, raw, tryNow, script);
          if r.Open(sz, raw) then r.Taken(sz, raw).AfterAll(sz, before).AfterAll(sz, after) else r
      case Exchange(att) => After(sz, att)
      case Flush(minSz, waits) => Flushed(sz, minSz, waits, 0).0
      case Fetch(size, rounds) =>
        var r := Awaited(sz, rounds);
        r.(down := r.down.Drop(Min(size, r.down.Front())))
    }
  }

  /** Which calls of a run get what they ask for. */
  function Answers(sz: nat, r: Room, ops: seq<Op>): (g: seq<bool>)
    requires r.Valid()
    ensures |g| == |ops|
    decreases |ops|
  {
    if ops == [] then [] else [r.Grants(sz, ops[0])] + Answers(sz, r.Next(sz, ops[0]), ops[1..])
  }

  lemma NextAnswer(sz: nat, r: Room, ops: seq<Op>, i: nat)
    requires r.Valid() && i < |ops|
    ensures Answers(sz, r, ops[i..]) == [r.Grants(sz, ops[i])] + Answers(sz, r.Next(sz, ops[i]), ops[i + 1..])
    ensures Answers(sz, r, []) == []
  {
    assert ops[i..][1..] == ops[i + 1..];
    hide Room.Grants, Room.Next;
  }

  /** The swap of this round is granted and brings host data. */
  ghost predicate Carries(round: Round) {
    round.Pending? && exists i: nat :: FirstReady(round.script, i) && round.script[i].fromHost != []
  }

  /** Round j brings host data, and no earlier round ends the wait. */
  ghost predicate Brings(rounds: seq<Round>, j: nat) {
    j < |rounds| && Carries(rounds[j]) && forall k :: 0 <= k < j ==> rounds[k] != Idle(true)
  }

  ghost predicate SomeBrings(rounds: seq<Round>) {
    exists j: nat :: Brings(rounds, j)
  }

  lemma FirstBrings(rounds: seq<Round>)
    requires rounds != []
    ensures SomeBrings(rounds) <==> Carries(rounds[0]) || (rounds[0] != Idle(true) && SomeBrings(rounds[1..]))
  {
    var rest := rounds[1..];
    if j: nat :| Brings(rounds, j) {
      assert j > 0 ==> Brings(rest, j - 1);
    }
    if Carries(rounds[0]) {
      assert Brings(rounds, 0);
    }
    if j: nat :| Brings(rest, j) && rounds[0] != Idle(true) {
      assert Brings(rounds, j + 1);
    }
  }

  lemma WaitedDown(r: Room, sz: nat, script: seq<Attempt>)
    requires r.Valid() && r.down.Len() == 0
    ensures var w := r.Waited(sz, script);
      w.down.size == r.down.size && (w.down.Len() > 0 <==> r.down.size >= 2 && Carries(Pending(script)))
  {
    NeverWaited(r, sz, script);
    if SomeReady(script) {
      var i := TheFirst(script);
      WaitedFirst(r, sz, script, i);
    }
  }

  lemma {:induction false} TheFirst(script: seq<Attempt>) returns (i: nat)
    requires SomeReady(script)
    ensures FirstReady(script, i) && forall j: nat :: FirstReady(script, j) ==> j == i
    decreases |script|
  {
    if script[0].Ready? {
      i := 0;
    } else {
      assert SomeReady(script[1..]) by {
        var k :| 0 <= k < |script| && script[k].Ready?;
        assert script[1..][k - 1].Ready?;
      }
      i := TheFirst(script[1..]);
      i := i + 1;
    }
  }

  /** When waiting with an empty down ring brings something: if and only if some round brings host data before the wait
      has expired and the ring can hold any. */
  lemma {:induction false} AwaitedExactly(r: Room, sz: nat, rounds: seq<Round>)
    requires r.Valid() && r.down.Len() == 0
    ensures r.Awaited(sz, rounds).down.Len() > 0 <==> r.down.size >= 2 && SomeBrings(rounds)
    decreases |rounds|
  {
    if rounds != [] {
      FirstBrings(rounds);
      var w := if rounds[0].Pending? then r.Waited(sz, rounds[0].script) else r;
      if rounds[0].Pending? {
        WaitedDown(r, sz, rounds[0].script);
      }
      assert rounds[0].Idle? ==> !Carries(rounds[0]);
      if w.down.Len() == 0 {
        AwaitedExactly(w, sz, rounds[1..]);
      }
      hide SomeBrings, Carries, Room.Waited;
      assert w.down.Len() > 0 ==> w.Awaited(sz, rounds[1..]) == w;
    }
  }

  lemma NothingReady(r: Room, sz: nat, att: Attempt)
    requires r.Valid()
    ensures att.Busy? ==> r.After(sz, att) == r
  {
  }

  lemma {:induction false} WaitedFirst(r: Room, sz: nat, script: seq<Attempt>, i: nat)
    requires r.Valid() && FirstReady(script, i)
    ensures r.Waited(sz, script) == r.Swapped(sz, script[i].fromHost)
    decreases i
  {
    if i > 0 {
      WaitedFirst(r, sz, script[1..], i - 1);
    }
  }

  lemma {:induction false} NeverWaited(r: Room, sz: nat, script: seq<Attempt>)
    requires r.Valid()
    ensures !SomeReady(script) ==> r.Waited(sz, script) == r
    decreases |script|
  {
    if script != [] {
      NeverWaited(r, sz, script[1..]);
      assert script == [script[0]] + script[1..];
    }
  }

  /** What a packet may look like in the stream: its allocated size is right, it is finished if undisturbed, and a
      written size that equals the allocated size means that all of it is there. */
  ghost predicate Framed(core: nat, payload: seq<byte>, undisturbed: bool, piece: seq<byte>) {
    && core < 2 && |payload| < 0x8000 && |piece| == HDR + |payload|
    && piece[..2] == LE16(0x8000 * core + |payload|)
    && (undisturbed || piece[2..4] == piece[..2] ==> piece == Packet(core, payload))
  }

  /** What a call adds to the stream: a packet if it traced one and got room, else nothing. */
  ghost predicate Adds(op: Op, granted: bool, piece: seq<byte>) {
    if op.Trace? && granted then
      Framed(op.core, op.payload, !SomeReady(op.before) && !SomeReady(op.after), piece)
    else
      piece == []
  }

  ghost predicate AllAdd(ops: seq<Op>, grants: seq<bool>, pieces: seq<seq<byte>>) {
    |ops| == |grants| == |pieces| && forall i :: 0 <= i < |ops| ==> Adds(ops[i], grants[i], pieces[i])
  }

  lemma AllAddOneMore(ops: seq<Op>, i: nat, grants: seq<bool>, pieces: seq<seq<byte>>, granted: bool, piece: seq<byte>)
    requires i < |ops| && AllAdd(ops[..i], grants, pieces) && Adds(ops[i], granted, piece)
    ensures AllAdd(ops[..i + 1], grants + [granted], pieces + [piece])
    ensures Concat(pieces + [piece]) == Concat(pieces) + piece
  {
    ConcatOneMore(pieces, piece);
  }

  /** What a call brings to the application: at most what it asked for, and nothing unless it fetches. */
  ghost predicate Gets(op: Op, granted: bool, got: seq<byte>) {
    got != [] ==> op.Fetch? && granted && |got| <= op.size
  }

  ghost predicate AllGet(ops: seq<Op>, grants: seq<bool>, got: seq<seq<byte>>) {
    |ops| == |grants| == |got| && forall i :: 0 <= i < |ops| ==> Gets(ops[i], grants[i], got[i])
  }

  lemma AllGetOneMore(ops: seq<Op>, i: nat, grants: seq<bool>, got: seq<seq<byte>>, granted: bool, some: seq<byte>)
    requires i < |ops| && AllGet(ops[..i], grants, got) && Gets(ops[i], granted, some)
    ensures AllGet(ops[..i + 1], grants + [granted], got + [some])
    ensures Concat(got + [some]) == Concat(got) + some
  {
    ConcatOneMore(got, some);
  }

  /** The allocated size at the start of a packet, without the core bit. */
  function AllocatedSize(s: seq<byte>): (n: nat)
    requires |s| >= 2
  {
    ((s[0] as int) + 256 * (s[1] as int)) % 0x8000
  }

  /** Cut a stream into packets by the allocated sizes in it, as the host does. */
  ghost function Frames(s: seq<byte>): (f: seq<seq<byte>>) {
    if |s| < HDR then [] else
      var n := HDR + AllocatedSize(s);
      if n > |s| then [] else [s[..n]] + Frames(s[n..])
  }

  ghost function NonEmpty(pieces: seq<seq<byte>>): (f: seq<seq<byte>>) {
    if pieces == [] then [] else (if pieces[0] == [] then [] else [pieces[0]]) + NonEmpty(pieces[1..])
  }

  /** The host finds every packet of a run in the stream, finished or not. */
  lemma {:induction false} HostFindsPackets(ops: seq<Op>, grants: seq<bool>, pieces: seq<seq<byte>>)
    requires AllAdd(ops, grants, pieces)
    ensures Frames(Concat(pieces)) == NonEmpty(pieces)
  {
    hide Frames, Framed, SomeReady;
    if pieces == [] {
      NoFrame();
    } else {
      HostFindsPackets(ops[1..], grants[1..], pieces[1..]);
      assert Adds(ops[0], grants[0], pieces[0]);
      if pieces[0] != [] {
        FirstFrame(ops[0], pieces[0], Concat(pieces[1..]));
      } else {
        assert [] + Concat(pieces[1..]) == Concat(pieces[1..]);
      }
    }
  }

  lemma NoFrame()
    ensures Frames([]) == []
  {
  }

  lemma FirstFrame(op: Op, piece: seq<byte>, rest: seq<byte>)
    requires op.Trace? && Adds(op, true, piece)
    ensures Frames(piece + rest) == [piece] + Frames(rest)
  {
    var s := piece + rest;
    assert s[0] == piece[..2][0] && s[1] == piece[..2][1];
    assert AllocatedSize(s) == |op.payload|;
    assert s[..|piece|] == piece && s[|piece|..] == rest;
  }

  /** The down ring now also holds the host data, cut short only by a full ring. */
  ghost predicate TakenFrom(down: RingBuffer, before: seq<byte>, bytes: seq<byte>)
    requires down.Valid()
    reads down, down.data
  {
    && |before| <= |down.Live()| <= |before| + |bytes|
    && down.Live() == before + bytes[..|down.Live()| - |before|]
    && (|down.Live()| < |before| + |bytes| ==> |down.Live()| + 1 >= down.data.Length)
  }

  lemma TwoOctets(front: seq<byte>, tail: seq<byte>, n: nat, h: seq<byte>)
    requires n + 2 <= |tail| && h == [tail[n], tail[n + 1]]
    ensures h == (front + tail)[|front| + n..|front| + n + 2]
  {
  }

  /** Does a write of n octets at a place inside a granted region land there? */
  predicate Hits(g: Grant, at: nat, n: nat, home: Grant) {
    match g
    case Null => false
    case InBlock(b, off) => home.InBlock? && home.blk == b && off + at <= home.off < off + at + n
    case InRing(off) => home.InRing? && off + at <= home.off < off + at + n
  }

  class MemBufs {
    const sz: nat
    const block0: array<byte>
    const block1: array<byte>
    const pend: RingBuffer
    const down: RingBuffer
    var markers: seq<nat>
    var inBlock: nat
    /** Everything handed to the host so far. */
    ghost var host: seq<byte>
    /** Everything queued from the host so far, and what of it the application has fetched. */
    ghost var arrived: seq<byte>
    ghost var fetched: seq<byte>

    ghost const Repr: set<object> := {this, block0, block1, pend, pend.data, down, down.data}

    ghost predicate Shape()
      reads this, pend, down
    {
      && HDR <= sz <= 0x8000
      && block0.Length == block1.Length == sz
      && block0 != block1 && pend.data != down.data && pend != down
      && pend.data != block0 && pend.data != block1 && down.data != block0 && down.data != block1
      && |markers| == 2 && markers[0] <= sz && markers[1] <= sz
      && pend.Valid() && down.Valid() && down.curSize == down.data.Length
    }

    /** Pending octets wait only behind a block that has something to hand over; what came down is fetched or queued. */
    ghost predicate Valid()
      reads Repr
      ensures Valid() ==> Shape()
    {
      Shape() && (pend.Live() != [] ==> markers[inBlock % 2] > 0) && arrived == fetched + down.Live()
    }

    constructor (sz: nat, pendSize: nat, downSize: nat)
      requires HDR <= sz <= 0x8000
      ensures Valid() && fresh(Repr) && this.sz == sz && Stream() == [] && host == [] && arrived == [] && fetched == []
    {
      this.sz := sz;
      block0 := new byte[sz](_ => 0);
      block1 := new byte[sz](_ => 0);
      pend := new RingBuffer(pendSize);
      down := new RingBuffer(downSize);
      markers, inBlock, host, arrived, fetched := [0, 0], 0, [], [], [];
    }

    function Block(k: nat): (b: array<byte>)
    {
      if k % 2 == 0 then block0 else block1
    }

    /** Octets of the current block up to its marker. */
    ghost function Current(): (s: seq<byte>)
      requires Shape()
      reads this, pend, down, block0, block1
    {
      Block(inBlock)[..markers[inBlock % 2]]
    }

    /** How full the transport is. */
    function Now(): (r: Room)
      requires Shape()
      reads this, pend, down
      ensures r.Valid()
    {
      Room(markers[inBlock % 2], pend.Indices(), down.Indices())
    }

    /** The whole upward stream: handed over, then in the current block, then pending. */
    ghost function Stream(): (s: seq<byte>)
      requires Shape()
      reads Repr
    {
      host + Current() + pend.Live()
    }

    /** Host data may have joined what came down, and the application has fetched none of it. */
    twostate predicate DownGrows()
      reads this
    {
      fetched == old(fetched) && old(arrived) <= arrived
    }

    /** The pending ring still ends where it ended. */
    twostate predicate SameEnd()
      reads pend
    {
      pend.wr == old(pend.wr) && (pend.curSize == old(pend.curSize) || pend.curSize == pend.data.Length)
    }

    /** What a granted swap does: the block is handed over, the next one takes pending octets until it is full. */
    twostate predicate Swapped(fromHost: seq<byte>)
      requires old(Shape()) && Shape()
      reads Repr
    {
      && host == old(host + Current())
      && Current() + pend.Live() == old(pend.Live())
      && (pend.Live() != [] ==> markers[inBlock % 2] == sz)
      && inBlock % 2 == 1 - old(inBlock) % 2 && SameEnd()
      && DownGrows() && TakenFrom(down, old(down.Live()), fromHost)
    }

    method Swap(att: Attempt) returns (ok: bool)
      requires Valid() && HostFits([att])
      modifies Repr
      ensures Valid() && Stream() == old(Stream()) && DownGrows()
      ensures ok == att.Ready? && Now() == old(Now()).After(sz, att)
      ensures !ok ==> unchanged(Repr)
      ensures ok ==> Swapped(att.fromHost)
      ensures |host| == |old(host)| + if ok then old(markers[inBlock % 2]) else 0
    {
      hide Queue;
      if att.Busy? {
        return false;
      }
      assert [att][0] == att;
      Exchange(att.fromHost);
      return true;
    }

    /** The part of a swap after the hardware has granted it. */
    method Exchange(fromHost: seq<byte>)
      requires Valid() && |fromHost| + 2 <= sz
      modifies Repr
      ensures Valid() && Swapped(fromHost) && Now() == old(Now()).Swapped(sz, fromHost)
    {
      hide Queue, TakenFrom;
      var prev := inBlock % 2;
      var next := if prev != 0 then 0 else 1;
      host := host + Current();
      markers := markers[next := 0];
      inBlock := (inBlock + 1) % 0x1_0000_0000;
      assert inBlock % 2 == next;
      TakeHostData(next, fromHost);
      assert pend.Live() == old(pend.Live());
      Pump(next);
    }

    /** The host left a length and octets at the start of block `next`: queue them and clear the length. */
    method TakeHostData(next: nat, fromHost: seq<byte>)
      requires Shape() && next < 2 && |fromHost| + 2 <= sz && arrived == fetched + down.Live()
      modifies this`arrived, down, down.data, Block(next)
      ensures Shape() && TakenFrom(down, old(down.Live()), fromHost) && arrived == fetched + down.Live() && DownGrows()
      ensures var was := old(down.Indices()); down.Indices() == was.Put(Min(|fromHost|, was.Free()))
    {
      hide Queue, Ring.Put, Ring.Take, Ring.Len, Ring.Valid, LE16, Ring.Free;
      NothingMoved(down.Indices());
      var blk := Block(next);
      if |fromHost| > 0 {
        CopyTo(blk, 0, LE16(|fromHost|) + fromHost);
        assert blk[2..2 + |fromHost|] == fromHost;
        var total := DownBufferWrite(down, blk[2..2 + |fromHost|]);
        arrived := arrived + fromHost[..total];
        CopyTo(blk, 0, LE16(0));
      }
    }

    /** Copy pending octets into block `next` until it is full or nothing is pending. */
    method Pump(next: nat)
      requires Shape() && next == inBlock % 2 && markers[next] == 0
      modifies this`markers, pend, Block(next)
      ensures Shape() && markers[1 - next] == old(markers[1 - next]) && SameEnd()
      ensures Current() + pend.Live() == old(pend.Live())
      ensures pend.Live() != [] ==> markers[next] == sz
      ensures var was := old(pend.Indices());
        markers[next] == Min(was.Len(), sz) && pend.Indices() == was.Drop(markers[next])
    {
      ghost var was := pend.Indices();
      hide Queue, Ring.Drop, Ring.Len, Ring.Valid;
      NothingMoved(was);
      while markers[next] < sz
        invariant Shape() && markers[1 - next] == old(markers[1 - next]) && SameEnd()
        invariant Current() + pend.Live() == old(pend.Live())
        invariant markers[next] <= was.Len() && pend.Indices() == was.Drop(markers[next])
        decreases sz - markers[next]
      {
        var n := pend.ReadSize();
        if n == 0 {
          break;
        }
        if n > sz - markers[next] {
          n := sz - markers[next];
        }
        DropTwice(was, markers[next], n);
        PumpSome(next, n);
      }
    }

    /** Move the n oldest pending octets behind the marker of block `next`. */
    method PumpSome(next: nat, n: nat)
      requires Shape() && next == inBlock % 2 && 0 < n <= pend.ReadSize() && markers[next] + n <= sz
      modifies this`markers, pend, Block(next)
      ensures Shape() && markers == old(markers)[next := old(markers[next]) + n] && SameEnd()
      ensures Current() + pend.Live() == old(Current() + pend.Live())
      ensures pend.Indices() == old(pend.Indices()).Drop(n)
    {
      hide Queue, Ring.Drop;
      ghost var was, q := Current(), pend.Live();
      var p := pend.Consume(n);
      CopyTo(Block(next), markers[next], pend.data[p.value..p.value + n]);
      markers := markers[next := markers[next] + n];
      assert Current() == was + q[..n];
    }

    ghost predicate HostFits(script: seq<Attempt>) {
      forall i :: 0 <= i < |script| && script[i].Ready? ==> |script[i].fromHost| + 2 <= sz
    }

    /** Retry the swap until the hardware grants it or the timeout ends the script. */
    method SwapWait(script: seq<Attempt>) returns (ok: bool)
      requires Valid() && HostFits(script)
      modifies Repr
      ensures Valid() && Stream() == old(Stream()) && DownGrows()
      ensures ok == SomeReady(script) && Now() == old(Now()).Waited(sz, script)
      ensures !ok ==> unchanged(Repr)
      ensures ok ==> exists i: nat :: FirstReady(script, i) && Swapped(script[i].fromHost)
    {
      hide Queue;
      NeverWaited(Now(), sz, script);
      for i := 0 to |script|
        invariant unchanged(Repr)
        invariant forall j :: 0 <= j < i ==> script[j].Busy?
      {
        ok := Swap(script[i]);
        if ok {
          assert FirstReady(script, i);
          WaitedFirst(old(Now()), sz, script, i);
          return;
        }
      }
      return false;
    }

    /** The grant names the youngest `raw` octets of the stream. */
    ghost predicate IsTail(g: Grant, raw: nat)
      requires Shape()
      reads Repr
    {
      match g
      case Null => false
      case InBlock(b, off) => b == inBlock % 2 && off + raw == markers[inBlock % 2] && pend.Live() == []
      case InRing(off) => pend.IsTail(off, raw)
    }

    /** The grant was the last one given; since then blocks may have been swapped. */
    ghost predicate Issued(g: Grant, raw: nat)
      requires Shape()
      reads Repr
      ensures Issued(g, raw) ==> HDR <= raw <= |Stream()|
    {
      && HDR <= raw <= |Stream()|
      && match g
         case Null => false
         case InBlock(b, off) =>
           b < 2 && off + raw <= sz && pend.Live() == [] && (markers[inBlock % 2] == 0 || IsTail(g, raw))
         case InRing(off) => pend.Ends(off, raw)
    }

    /** How many leading octets of the granted region have left for the host's side, out of the writer's reach. */
    ghost function Cut(g: Grant, raw: nat): (c: nat)
      requires Shape()
      reads Repr
      ensures Issued(g, raw) ==> (c == 0 <==> IsTail(g, raw))
    {
      match g
      case Null => raw
      case InBlock(b, off) => if IsTail(g, raw) then 0 else raw
      case InRing(off) => pend.Cut(raw)
    }

    /** A swap while a packet is reserved but not yet closed: the grant stays the last one, and a granted swap can only
        take more of it out of reach. */
    method SwapMeanwhile(att: Attempt, ghost g: Grant, ghost raw: nat)
      requires Valid() && HostFits([att]) && Issued(g, raw)
      modifies Repr
      ensures Valid() && Stream() == old(Stream()) && Issued(g, raw) && DownGrows()
      ensures old(Cut(g, raw)) <= Cut(g, raw)
      ensures att.Busy? ==> Cut(g, raw) == old(Cut(g, raw))
      ensures Now() == old(Now()).After(sz, att)
    {
      hide Queue, Stream;
      var ok := Swap(att);
      assert ok ==> |Current() + pend.Live()| == |old(pend.Live())|;
    }

    method Swaps(atts: seq<Attempt>, ghost g: Grant, ghost raw: nat)
      requires Valid() && HostFits(atts) && Issued(g, raw)
      modifies Repr
      ensures Valid() && Stream() == old(Stream()) && Issued(g, raw) && DownGrows()
      ensures old(Cut(g, raw)) <= Cut(g, raw)
      ensures !SomeReady(atts) ==> Cut(g, raw) == old(Cut(g, raw))
      ensures Now() == old(Now()).AfterAll(sz, atts)
    {
      hide Queue, Stream, Current, Valid, Issued, Cut, Room.After;
      assert atts[0..] == atts;
      for i := 0 to |atts|
        invariant Valid() && Stream() == old(Stream()) && Issued(g, raw) && DownGrows()
        invariant Now().AfterAll(sz, atts[i..]) == old(Now()).AfterAll(sz, atts)
        invariant old(Cut(g, raw)) <= Cut(g, raw)
        invariant !SomeReady(atts) ==> Cut(g, raw) == old(Cut(g, raw))
      {
        assert atts[i..][1..] == atts[i + 1..];
        SwapMeanwhile(atts[i], g, raw);
      }
    }

    /** The stream grew by `raw` octets that the grant names, and is otherwise what it was. */
    twostate predicate Granted(g: Grant, raw: nat)
      requires old(Shape()) && Shape()
      reads Repr
    {
      && IsTail(g, raw)
      && |Stream()| == |old(Stream())| + raw
      && Stream()[..|old(Stream())|] == old(Stream())
    }

    method TakeBlock(raw: nat) returns (g: Grant)
      requires Valid() && pend.Live() == [] && markers[inBlock % 2] + raw <= sz
      modifies this`markers
      ensures Valid() && Granted(g, raw) && g == InBlock(inBlock % 2, old(markers[inBlock % 2]))
      ensures Now() == old(Now()).Taken(sz, raw)
    {
      hide Queue;
      g := InBlock(inBlock % 2, markers[inBlock % 2]);
      ghost var was := Current();
      markers := markers[inBlock % 2 := markers[inBlock % 2] + raw];
      assert Current()[..|was|] == was;
    }

    method TakeRing(raw: nat) returns (g: Grant)
      requires Valid() && raw > 0 && markers[inBlock % 2] > 0
      modifies pend
      ensures Valid()
      ensures g.Null? <==> !old(pend.CanProduce(raw))
      ensures g.Null? ==> unchanged(pend)
      ensures !g.Null? ==> g.InRing? && Granted(g, raw) && pend.Indices() == old(pend.Indices()).Take(raw)
    {
      hide Queue;
      var r := pend.Produce(raw);
      g := if r.Some? then InRing(r.value) else Null;
    }

    /** Neither the current block nor the pending ring can take `raw` more octets in order. */
    ghost predicate NoRoom(raw: nat)
      requires Shape()
      reads Repr
    {
      !pend.CanProduce(raw) && (pend.Live() != [] || markers[inBlock % 2] + raw > sz)
    }

    /** Swap, then find a place; the caller advances the marker when the place is in the block. */
    method Wait4Buf(raw: nat, script: seq<Attempt>) returns (g: Grant)
      requires Valid() && HostFits(script) && 0 < raw <= sz
      modifies Repr
      ensures Valid() && DownGrows()
      ensures g.Null? ==> Stream() == old(Stream()) && (SomeReady(script) || old(NoRoom(raw)) ==> NoRoom(raw))
      ensures g.InRing? ==> Granted(g, raw)
      ensures g.InBlock? ==> Stream() == old(Stream()) && pend.Live() == [] && markers[inBlock % 2] + raw <= sz
      ensures |host| >= |old(host)| && (SomeReady(script) && old(NoRoom(raw)) ==> |host| > |old(host)|)
      ensures var r := old(Now()).Waited(sz, script);
        && (g.Null? <==> !SomeReady(script) || !r.Open(sz, raw))
        && (g.InBlock? <==> SomeReady(script) && r.BlockOpen(sz, raw))
        && Now() == if g.InRing? then r.Taken(sz, raw) else r
    {
      hide Queue, TakenFrom, Room.Waited, Room.Swapped, Ring.Drop, Ring.Put;
      assert NoRoom(raw) ==> |Current()| > 0;
      var ok := SwapWait(script);
      if !ok {
        NeverWaited(Now(), sz, script);
        return Null;
      }
      if pend.ReadSize() > 0 || markers[inBlock % 2] + raw > sz {
        g := TakeRing(raw);
      } else {
        g := InBlock(inBlock % 2, markers[inBlock % 2]);
      }
    }

    /** Take a place for a packet where there is one now, else wait for a swap and look again. */
    method Settle(raw: nat, script: seq<Attempt>) returns (g: Grant)
      requires Valid() && HostFits(script) && 0 < raw <= sz
      modifies Repr
      ensures Valid() && DownGrows()
      ensures g.Null? ==> Stream() == old(Stream()) && NoRoom(raw)
      ensures !g.Null? ==> Granted(g, raw)
      ensures old(!NoRoom(raw)) ==> !g.Null? && inBlock == old(inBlock)
      ensures |host| >= |old(host)| && (old(NoRoom(raw)) && SomeReady(script) ==> |host| > |old(host)|)
      ensures old(pend.Live() == [] && markers[inBlock % 2] + raw <= sz) ==>
        g == InBlock(inBlock % 2, old(markers[inBlock % 2]))
      ensures var now := old(Now());
        var r := if now.Open(sz, raw) then now else now.Waited(sz, script);
        && (g.Null? <==> !r.Open(sz, raw)) && (g.InBlock? <==> r.BlockOpen(sz, raw))
        && Now() == if g.Null? then r else r.Taken(sz, raw)
    {
      hide Queue, TakenFrom, Stream, Current, Room.Waited, Room.Swapped, Ring.Take, Ring.Drop, Ring.Put, Ring.Opens;
      if pend.ReadSize() > 0 || markers[inBlock % 2] + raw > sz {
        g := TakeRing(raw);
        if g.Null? {
          g := Wait4Buf(raw, script);
          if g.InBlock? {
            g := TakeBlock(raw);
          }
        }
      } else {
        g := TakeBlock(raw);
      }
    }

    /** Reserve room for a packet: in the block if nothing is pending and it fits, else in the pending ring. It is
        refused only if in the end neither has room, room there is at once is given without waiting, and otherwise
        every swap that is to be had is made: at once if octets are pending, and before the call is refused. */
    method Reserve(raw: nat, tryNow: Attempt, script: seq<Attempt>) returns (g: Grant)
      requires Valid() && HostFits([tryNow]) && HostFits(script) && 0 < raw <= sz
      modifies Repr
      ensures Valid() && DownGrows()
      ensures g.Null? ==> Stream() == old(Stream()) && NoRoom(raw)
      ensures !g.Null? ==> Granted(g, raw)
      ensures old(pend.Live() == [] && markers[inBlock % 2] + raw <= sz) ==>
        g == InBlock(inBlock % 2, old(markers[inBlock % 2])) && inBlock == old(inBlock)
      ensures old(!NoRoom(raw)) && (old(pend.Live()) == [] || tryNow.Busy?) ==> !g.Null? && inBlock == old(inBlock)
      ensures (old(pend.Live()) != [] && tryNow.Ready?) || (g.Null? && SomeReady(script)) ==> |host| > |old(host)|
      ensures var r := old(Now()).Found(sz, raw, tryNow, script);
        && (g.Null? <==> !r.Open(sz, raw)) && (g.InBlock? <==> r.BlockOpen(sz, raw))
        && Now() == if g.Null? then r else r.Taken(sz, raw)
    {
      hide Queue, TakenFrom, Stream, Current, Room.Waited, Room.Swapped, Room.Taken, Room.After;
      hide Ring.Take, Ring.Drop, Ring.Put, Ring.Opens, Swapped, Ring.Front;
      NothingReady(Now(), sz, tryNow);
      if pend.ReadSize() > 0 {
        var _ := Swap(tryNow);
      }
      g := Settle(raw, script);
    }

    /** Write through the last grant; what has left for the host's side meanwhile stays as it left. */
    method Poke(g: Grant, ghost raw: nat, at: nat, bytes: seq<byte>)
      requires Valid() && Issued(g, raw) && at + |bytes| <= raw
      modifies block0, block1, pend.data
      ensures Valid() && Issued(g, raw) && Cut(g, raw) == old(Cut(g, raw))
      ensures Stream() == Landing(old(Stream()), |old(Stream())| - raw, old(Cut(g, raw)), at, bytes)
    {
      hide Queue, Landing, Patched, Stream, Current, Valid, Issued, Cut;
      if g.InBlock? {
        PokeBlock(g, raw, at, bytes);
      } else {
        PokeRing(g, raw, at, bytes);
      }
    }

    method PokeRing(g: Grant, ghost raw: nat, at: nat, bytes: seq<byte>)
      requires Valid() && Issued(g, raw) && !g.InBlock? && at + |bytes| <= raw
      modifies pend.data
      ensures Valid() && Issued(g, raw) && Cut(g, raw) == old(Cut(g, raw))
      ensures Stream() == Landing(old(Stream()), |old(Stream())| - raw, old(Cut(g, raw)), at, bytes)
    {
      hide Queue, Landing, Patched;
      ghost var front := host + Current();
      LandingTail(Stream(), front, pend.Live(), |pend.Live()| - raw, pend.Cut(raw), at, bytes);
      pend.Store(g.off, raw, at, bytes);
      assert host + Current() == front;
    }

    method PokeBlock(g: Grant, ghost raw: nat, at: nat, bytes: seq<byte>)
      requires Valid() && Issued(g, raw) && g.InBlock? && at + |bytes| <= raw
      modifies block0, block1
      ensures Valid() && Issued(g, raw) && Cut(g, raw) == old(Cut(g, raw))
      ensures Stream() == Landing(old(Stream()), |old(Stream())| - raw, old(Cut(g, raw)), at, bytes)
    {
      hide Queue, Patched;
      ghost var was, d := Current(), Block(inBlock)[..];
      assert Stream() == host + was;
      if IsTail(g, raw) {
        PatchTail(Stream(), host, was, g.off + at, bytes);
        PatchPrefix(d, g.off + raw, g.off + at, bytes);
        PatchedNothing(Stream(), |Stream()| - raw + at);
      }
      CopyTo(Block(g.blk), g.off + at, bytes);
      assert Stream() == host + Current();
    }

    /** Allocated size of a granted packet, as memory holds it. */
    method PeekSize(g: Grant, ghost raw: nat) returns (h: seq<byte>)
      requires Valid() && Issued(g, raw)
      ensures |h| == 2
      ensures IsTail(g, raw) ==> h == Stream()[|Stream()| - raw..|Stream()| - raw + 2]
    {
      hide Queue;
      match g
      case InBlock(b, off) =>
        h := [Block(b)[off], Block(b)[off + 1]];
        if IsTail(g, raw) {
          assert Current()[off] == Block(b)[off] && Current()[off + 1] == Block(b)[off + 1];
          TwoOctets(host, Current(), off, h);
          assert Stream() == host + Current() && |Current()| == off + raw;
        }
      case InRing(off) =>
        h := [pend.data[off], pend.data[off + 1]];
        ghost var n := |pend.Live()| - raw;
        if n >= 0 {
          QueueCell(pend.data[..], pend.curSize, pend.rd, pend.wr, n);
          QueueCell(pend.data[..], pend.curSize, pend.rd, pend.wr, n + 1);
          TwoOctets(host + Current(), pend.Live(), n, h);
        }
    }

    /** Reserve a packet and write its header with written size 0. */
    method UpBufferGet(core: nat, size: nat, tryNow: Attempt, script: seq<Attempt>) returns (g: Grant)
      requires Valid() && HostFits([tryNow]) && HostFits(script) && core < 2
      modifies Repr
      ensures Valid() && DownGrows()
      ensures g.Null? ==> Stream() == old(Stream()) && (size + HDR <= sz ==> NoRoom(size + HDR))
      ensures size + HDR > sz ==> g.Null? && unchanged(Repr)
      ensures size + HDR <= sz && old(!NoRoom(size + HDR)) && (old(pend.Live()) == [] || tryNow.Busy?) ==>
        !g.Null? && inBlock == old(inBlock)
      ensures size + HDR <= sz && ((old(pend.Live()) != [] && tryNow.Ready?) || (g.Null? && SomeReady(script))) ==>
        |host| > |old(host)|
      ensures size + HDR <= sz ==>
        var r := old(Now()).Found(sz, size + HDR, tryNow, script);
        && (g.Null? <==> !r.Open(sz, size + HDR)) && (g.InBlock? <==> r.BlockOpen(sz, size + HDR))
        && Now() == if g.Null? then r else r.Taken(sz, size + HDR)
      ensures !g.Null? ==>
        && size + HDR <= sz && Issued(g, size + HDR) && Cut(g, size + HDR) == 0
        && Opened(old(Stream()), Stream(), core, size)
      ensures old(pend.Live() == [] && markers[inBlock % 2] + size + HDR <= sz) ==>
        g == InBlock(inBlock % 2, old(markers[inBlock % 2])) && inBlock == old(inBlock)
    {
      hide Queue, Stream, Current, Landing, Patched;
      if size > sz - HDR {
        return Null;
      }
      g := Reserve(size + HDR, tryNow, script);
      if !g.Null? {
        HeaderWritten(old(Stream()), Stream(), core, size);
        Poke(g, size + HDR, 0, LE16(0x8000 * core + size) + LE16(0));
      }
    }

    /** Close a packet: copy the allocated size that memory holds into its written size. */
    method UpBufferPut(g: Grant, ghost raw: nat) returns (ghost h: seq<byte>)
      requires Valid() && Issued(g, raw)
      modifies block0, block1, pend.data
      ensures Valid() && |h| == 2 && Issued(g, raw) && Cut(g, raw) == old(Cut(g, raw))
      ensures old(Cut(g, raw)) == 0 ==> h == old(Stream())[|old(Stream())| - raw..|old(Stream())| - raw + 2]
      ensures Stream() == Landing(old(Stream()), |old(Stream())| - raw, old(Cut(g, raw)), 2, h)
    {
      hide Queue, Stream, Current, Valid, Issued, Cut, IsTail, Landing;
      var size := PeekSize(g, raw);
      h := size;
      Poke(g, raw, 2, size);
    }

    /** Fill a packet and close it, with swaps requested before each of the two. */
    method FillAndPut(g: Grant, payload: seq<byte>, before: seq<Attempt>, after: seq<Attempt>)
      returns (ghost c: nat, ghost d: nat, ghost h: seq<byte>)
      requires Valid() && Issued(g, |payload| + HDR) && HostFits(before) && HostFits(after)
      modifies Repr
      ensures Valid() && Closing(old(Stream()), Stream(), payload, c, d, h) && DownGrows()
      ensures Now() == old(Now()).AfterAll(sz, before).AfterAll(sz, after)
      ensures old(Cut(g, |payload| + HDR)) == 0 && !SomeReady(before) && !SomeReady(after) ==> d == 0
    {
      hide Queue, Stream, Current, Valid, Issued, Cut, Landing, Room.AfterAll, Now, SomeReady;
      ghost var raw := |payload| + HDR;
      Swaps(before, g, raw);
      c := Cut(g, raw);
      Poke(g, raw, HDR, payload);
      Swaps(after, g, raw);
      d := Cut(g, raw);
      ghost var filled, p := Stream(), |old(Stream())| - |payload| - HDR;
      assert filled == Landing(old(Stream()), p, c, HDR, payload);
      h := UpBufferPut(g, raw);
      assert Stream() == Landing(filled, p, d, 2, h);
    }

    /** One traced packet: reserve, let the user fill it, close it. */
    method WritePacket(core: nat, payload: seq<byte>, tryNow: Attempt, script: seq<Attempt>,
                       before: seq<Attempt>, after: seq<Attempt>)
      returns (granted: bool, ghost piece: seq<byte>)
      requires Valid() && HostFits([tryNow]) && HostFits(script) && HostFits(before) && HostFits(after) && core < 2
      modifies Repr
      ensures Valid() && Stream() == old(Stream()) + piece && DownGrows()
      ensures granted ==> |payload| + HDR <= sz && Framed(core, payload, !SomeReady(before) && !SomeReady(after), piece)
      ensures !granted ==> piece == [] && (|payload| + HDR <= sz ==> NoRoom(|payload| + HDR))
      ensures var op := Trace(core, payload, tryNow, script, before, after);
        granted == old(Now()).Grants(sz, op) && Now() == old(Now()).Next(sz, op)
    {
      hide Queue, Stream, Current, Valid, Issued, Cut, Room.AfterAll, Room.Found, Room.Taken, Room.Open, Now;
      hide NoRoom, Opened, Closing, SomeReady, Packet, LE16;
      var g := UpBufferGet(core, |payload|, tryNow, script);
      if g.Null? {
        return false, [];
      }
      ghost var reserved := Stream();
      ghost var c, d, h := FillAndPut(g, payload, before, after);
      piece := PacketAssembled(old(Stream()), reserved, Stream(), core, payload, c, d, h);
      return true, piece;
    }

    /** Two granted swaps with nothing pending: the block that was current is current again, and empty. */
    method TwoSwaps(att0: seq<byte>, att1: seq<byte>)
      requires Valid() && pend.Live() == [] && HostFits([Ready(att0)]) && HostFits([Ready(att1)])
      modifies Repr
      ensures Valid() && Stream() == old(Stream()) && DownGrows()
      ensures pend.Live() == [] && markers[inBlock % 2] == 0 && inBlock % 2 == old(inBlock) % 2
    {
      hide Queue, TakenFrom;
      var _ := Swap(Ready(att0));
      assert |Current() + pend.Live()| == 0;
      var _ := Swap(Ready(att1));
      assert |Current() + pend.Live()| == 0;
    }

    /** A packet that is not closed does not keep its memory: after two granted swaps its region is given out again. */
    method StaleGrant(core: nat, size: nat, other: nat, att0: seq<byte>, att1: seq<byte>)
      returns (g: Grant, h: Grant, ghost before: seq<byte>)
      requires Valid() && Stream() == host && core < 2 && size + HDR <= sz && other + HDR <= sz
      requires HostFits([Ready(att0)]) && HostFits([Ready(att1)])
      modifies Repr
      ensures Valid() && !g.Null? && h == g && Issued(h, other + HDR) && Cut(h, other + HDR) == 0
      ensures Opened(old(Stream()), before, core, size) && Opened(before, Stream(), core, other)
    {
      assert pend.Live() == [] && markers[inBlock % 2] == 0 by {
        assert |Stream()| == |host| + |Current()| + |pend.Live()|;
      }
      g := UpBufferGet(core, size, Busy, []);
      assert pend.Live() == [];
      hide Queue, Opened, TakenFrom, Cut, Stream, Current;
      TwoSwaps(att0, att1);
      before := Stream();
      h := UpBufferGet(core, other, Busy, []);
    }

    /** Closing the packet whose memory was given out again closes the packet that has it now: the newer packet gets
        equal sizes although nothing was written into it since it was reserved. */
    method StaleClose(core: nat, size: nat, other: nat, att0: seq<byte>, att1: seq<byte>)
      returns (ghost before: seq<byte>, ghost reserved: seq<byte>)
      requires Valid() && Stream() == host && core < 2 && size + HDR <= sz && other + HDR <= sz
      requires HostFits([Ready(att0)]) && HostFits([Ready(att1)])
      modifies Repr
      ensures Valid() && Opened(old(Stream()), before, core, size) && Opened(before, reserved, core, other)
      ensures Stream() == before + Packet(core, reserved[|before| + HDR..])
    {
      hide Queue, Stream, Current, Valid, Issued, Cut, Landing;
      var g, h;
      g, h, before := StaleGrant(core, size, other, att0, att1);
      reserved := Stream();
      ghost var written := UpBufferPut(g, other + HDR);
      ForgedPacket(before, reserved, core, other, written);
    }

    /** Closing through any place of a block, whoever owns it now: memory changes there and nowhere else. */
    method CloseAt(b: nat, off: nat)
      requires Valid() && b < 2 && off + HDR <= sz
      modifies block0, block1
      ensures Valid() && Block(b)[..] == Closed(old(Block(b)[..]), off)
      ensures Block(1 - b)[..] == old(Block(1 - b)[..])
      ensures b != inBlock % 2 || markers[inBlock % 2] <= off + 2 ==> Stream() == old(Stream())
    {
      hide Queue;
      ghost var d := Block(inBlock)[..];
      var size := [Block(b)[off], Block(b)[off + 1]];
      assert size == Block(b)[..][off..off + 2];
      CopyTo(Block(b), off + 2, size);
      assert b != inBlock % 2 ==> Block(inBlock)[..] == d;
      assert markers[inBlock % 2] <= off + 2 ==>
        Patched(d, off + 2, size)[..markers[inBlock % 2]] == d[..markers[inBlock % 2]];
    }

    /** Where octet i of the stream is stored; what the host has received is out of reach. */
    ghost function Home(i: nat): (g: Grant)
      requires Shape() && i < |Stream()|
      reads Repr
    {
      var n := |host| + markers[inBlock % 2];
      if i < |host| then Null
      else if i < n then InBlock(inBlock % 2, i - |host|)
      else InRing(CellOf(pend.curSize, pend.rd, pend.wr, i - n))
    }

    lemma HomeHolds(i: nat)
      requires Shape() && i < |Stream()|
      ensures match Home(i)
        case Null => i < |host| && Stream()[i] == host[i]
        case InBlock(b, off) => b < 2 && off < sz && Stream()[i] == Block(b)[off]
        case InRing(off) => off < pend.data.Length && Stream()[i] == pend.data[off]
    {
      hide Queue;
      var n := |host| + markers[inBlock % 2];
      if i >= n {
        QueueCell(pend.data[..], pend.curSize, pend.rd, pend.wr, i - n);
      }
    }

    /** A write at a place that was granted some time ago, whoever owns it now: it reaches exactly the octets of the
        stream that are stored where it lands. */
    method LateWrite(g: Grant, at: nat, bytes: seq<byte>)
      requires Valid() && !g.Null? && (g.InBlock? ==> g.blk < 2 && g.off + at + |bytes| <= sz)
      requires g.InRing? ==> g.off + at + |bytes| <= pend.data.Length
      modifies block0, block1, pend.data
      ensures Valid() && |Stream()| == |old(Stream())|
      ensures forall i {:trigger Home(i)} :: 0 <= i < |Stream()| ==>
        && Home(i) == old(Home(i))
        && Stream()[i] == if Hits(g, at, |bytes|, Home(i)) then bytes[Home(i).off - g.off - at] else old(Stream())[i]
    {
      hide Queue, Ring.Len, Ring.Valid, CellOf;
      ghost var was := Stream();
      forall i | 0 <= i < |Stream()| {
        HomeHolds(i);
      }
      hide Stream;
      CopyTo(if g.InRing? then pend.data else Block(g.blk), g.off + at, bytes);
      forall i | 0 <= i < |Stream()| {
        HomeHolds(i);
      }
    }

    /** The writer of a packet whose memory was given out again overwrites the newer packet, finished as that is: the
        host sees equal sizes and the older payload in front of what is left of the newer one. */
    method StaleWrite(core: nat, first: seq<byte>, second: seq<byte>, att0: seq<byte>, att1: seq<byte>)
      returns (ghost before: seq<byte>)
      requires Valid() && Stream() == host && core < 2 && |first| <= |second| && |second| + HDR <= sz
      requires HostFits([Ready(att0)]) && HostFits([Ready(att1)])
      modifies Repr
      ensures Valid() && Opened(old(Stream()), before, core, |first|)
      ensures Stream() == before + Packet(core, first + second[|first|..])
    {
      hide Queue, Stream, Current, Valid, Issued, Cut, Landing, Packet;
      var g, h;
      g, h, before := StaleGrant(core, |first|, |second|, att0, att1);
      ghost var reserved, raw := Stream(), |second| + HDR;
      Poke(h, raw, HDR, second);
      ghost var written := UpBufferPut(h, raw);
      FinishedPacket(before, reserved, Stream(), core, second, written);
      Poke(g, raw, HDR, first);
      OverwrittenPacket(before, core, first, second);
    }

    /** Octets not handed over yet. */
    ghost function Unflushed(): (n: nat)
      requires Valid()
      reads Repr
      ensures markers[inBlock % 2] <= n
      ensures markers[inBlock % 2] == 0 ==> n == 0 && Stream() == host && pend.Live() == []
    {
      markers[inBlock % 2] + |pend.Live()|
    }

    /** A granted swap of a non-empty block leaves strictly less to hand over. */
    method FlushRound(script: seq<Attempt>) returns (ok: bool)
      requires Valid() && HostFits(script) && markers[inBlock % 2] > 0
      modifies Repr
      ensures Valid() && Stream() == old(Stream()) && ok == SomeReady(script) && DownGrows()
      ensures ok ==> Unflushed() < old(Unflushed())
      ensures Now() == old(Now()).Waited(sz, script) && (!ok ==> Now() == old(Now()))
    {
      hide Queue;
      ok := SwapWait(script);
      assert ok ==> |Current() + pend.Live()| == |old(pend.Live())|;
    }

    /** Hand blocks over until the current one holds at most minSz octets; waits(k) is the script for round k. */
    method Flush(minSz: nat, waits: nat -> seq<Attempt>) returns (ok: bool)
      requires Valid() && forall k: nat :: HostFits(waits(k))
      modifies Repr
      ensures Valid() && Stream() == old(Stream()) && DownGrows()
      ensures (forall k: nat :: SomeReady(waits(k))) ==> ok
      ensures ok ==> markers[inBlock % 2] <= minSz
      ensures ok && minSz == 0 ==> pend.Live() == [] && markers[inBlock % 2] == 0 && host == old(Stream())
      ensures (Now(), ok) == old(Now()).Flushed(sz, minSz, waits, 0)
      ensures old(markers[inBlock % 2]) <= minSz ==> ok && host == old(host) && inBlock == old(inBlock)
    {
      hide Queue, Stream, Current, Room.Waited, Ring.Len, Ring.Valid, SomeReady;
      if markers[inBlock % 2] < minSz {
        return true;
      }
      var k := 0;
      while markers[inBlock % 2] > minSz
        invariant Valid() && Stream() == old(Stream()) && DownGrows()
        invariant Now().Flushed(sz, minSz, waits, k) == old(Now()).Flushed(sz, minSz, waits, 0)
        invariant old(markers[inBlock % 2]) <= minSz ==> k == 0
        invariant k == 0 ==> host == old(host) && inBlock == old(inBlock) && markers == old(markers)
        decreases Unflushed()
      {
        ok := FlushRound(waits(k));
        if !ok {
          return;
        }
        k := k + 1;
      }
      assert minSz == 0 ==> Unflushed() == 0;
      return true;
    }

    /** Take up to `size` octets from a down ring that holds some. */
    method FetchQueued(size: nat) returns (bytes: seq<byte>)
      requires Valid() && down.Live() != []
      modifies this`fetched, down
      ensures Valid() && |bytes| <= size && (size > 0 ==> bytes != []) && fetched == old(fetched) + bytes
      ensures bytes <= old(down.Live())
      ensures var was := old(down.Indices());
        |bytes| == Min(size, was.Front()) && down.Indices() == was.Drop(|bytes|)
    {
      hide Queue;
      var n := if size < down.ReadSize() then size else down.ReadSize();
      var p := down.Consume(n);
      bytes := down.data[p.value..p.value + n];
      fetched := fetched + bytes;
    }

    /** Wait for host data and take some of it: the next octets in arrival order, none lost and none twice. */
    method DownBufferGet(size: nat, rounds: seq<Round>) returns (r: Option<seq<byte>>)
      requires Valid() && forall i :: 0 <= i < |rounds| && rounds[i].Pending? ==> HostFits(rounds[i].script)
      modifies Repr
      ensures Valid() && Stream() == old(Stream()) && old(arrived) <= arrived
      ensures r.Some? ==> |r.value| <= size && (size > 0 ==> r.value != []) && fetched == old(fetched) + r.value
      ensures r.None? ==> fetched == old(fetched) && down.Live() == []
      ensures old(down.Live()) != [] ==> r.Some? && r.value <= old(down.Live()) && arrived == old(arrived)
      ensures var w := old(Now()).Awaited(sz, rounds);
        && (r.Some? <==> w.down.Len() > 0) && (r.Some? ==> |r.value| == Min(size, w.down.Front()))
        && Now() == old(Now()).Next(sz, Fetch(size, rounds))
    {
      hide Queue;
      assert rounds[0..] == rounds;
      for i := 0 to |rounds|
        invariant Valid() && Stream() == old(Stream()) && DownGrows()
        invariant old(down.Live()) != [] ==> i == 0 && down.Live() == old(down.Live()) && arrived == old(arrived)
        invariant Now().Awaited(sz, rounds[i..]) == old(Now()).Awaited(sz, rounds)
      {
        assert rounds[i..][1..] == rounds[i + 1..];
        if down.ReadSize() != 0 {
          break;
        }
        if rounds[i].Pending? {
          var _ := SwapWait(rounds[i].script);
        } else if rounds[i].expired {
          return None;
        }
      }
      if down.ReadSize() == 0 {
        return None;
      }
      var bytes := FetchQueued(size);
      return Some(bytes);
    }

    ghost predicate OpFits(op: Op) {
      match op
      case Trace(core, _, tryNow, script, before, after) =>
        core < 2 && HostFits([tryNow]) && HostFits(script) && HostFits(before) && HostFits(after)
      case Exchange(att) => HostFits([att])
      case Flush(_, waits) => forall k: nat :: HostFits(waits(k))
      case Fetch(_, rounds) => forall i :: 0 <= i < |rounds| && rounds[i].Pending? ==> HostFits(rounds[i].script)
    }

    method Step(op: Op) returns (granted: bool, ghost piece: seq<byte>, ghost got: seq<byte>)
      requires Valid() && OpFits(op)
      modifies Repr
      ensures Valid() && Adds(op, granted, piece) && Stream() == old(Stream()) + piece
      ensures Gets(op, granted, got) && fetched == old(fetched) + got && old(arrived) <= arrived
      ensures granted == old(Now()).Grants(sz, op) && Now() == old(Now()).Next(sz, op)
    {
      hide Queue;
      piece, got := [], [];
      match op
      case Trace(core, payload, tryNow, script, before, after) =>
        granted, piece := WritePacket(core, payload, tryNow, script, before, after);
      case Exchange(att) =>
        granted := Swap(att);
      case Flush(minSz, waits) =>
        granted := this.Flush(minSz, waits);
      case Fetch(size, rounds) =>
        var r := DownBufferGet(size, rounds);
        granted := r.Some?;
        got := if r.Some? then r.value else [];
    }

    /** Over any run the stream to the host is what it was plus one packet for each granted call, whatever the hardware
        granted or refused and whenever it did. What comes down from the host only ever grows, and the application has
        fetched the front of it: call by call the next octets, none lost and none twice. */
    method Run(ops: seq<Op>)
      returns (grants: seq<bool>, ghost pieces: seq<seq<byte>>, ghost got: seq<seq<byte>>)
      requires Valid() && forall i :: 0 <= i < |ops| ==> OpFits(ops[i])
      modifies Repr
      ensures Valid() && AllAdd(ops, grants, pieces) && AllGet(ops, grants, got)
      ensures Stream() == old(Stream()) + Concat(pieces)
      ensures fetched == old(fetched) + Concat(got) && fetched <= arrived && old(arrived) <= arrived
      ensures grants == Answers(sz, old(Now()), ops)
    {
      hide *;
      grants, pieces, got := [], [], [];
      NothingAdded();
      assert ops[..0] == [] && ops[0..] == ops;
      assert [] + Answers(sz, Now(), ops) == Answers(sz, Now(), ops);
      for i := 0 to |ops|
        invariant Valid() && AllAdd(ops[..i], grants, pieces) && AllGet(ops[..i], grants, got)
        invariant Stream() == old(Stream()) + Concat(pieces)
        invariant fetched == old(fetched) + Concat(got) && old(arrived) <= arrived
        invariant grants + Answers(sz, Now(), ops[i..]) == Answers(sz, old(Now()), ops)
      {
        NextAnswer(sz, Now(), ops, i);
        ghost var earlier := grants;
        var granted;
        ghost var piece, some;
        granted, piece, some := Step(ops[i]);
        AllAddOneMore(ops, i, grants, pieces, granted, piece);
        AllGetOneMore(ops, i, grants, got, granted, some);
        grants, pieces, got := grants + [granted], pieces + [piece], got + [some];
        assert grants + Answers(sz, Now(), ops[i + 1..]) == earlier + ([granted] + Answers(sz, Now(), ops[i + 1..]));
      }
      assert ops[..|ops|] == ops;
      FetchedIsFront();
    }

    lemma FetchedIsFront()
      requires Valid()
      ensures fetched <= arrived
    {
    }
  }

  /** From a fresh transport to a completed flush: cutting up what the host has received gives one packet for each
      granted call, in call order, each of them judged right by its two sizes. */
  method Session(m: MemBufs, ops: seq<Op>, waits: nat -> seq<Attempt>)
    returns (grants: seq<bool>, ok: bool, ghost pieces: seq<seq<byte>>, ghost got: seq<seq<byte>>)
    requires m.Valid() && m.Stream() == [] && m.fetched == []
    requires (forall i :: 0 <= i < |ops| ==> m.OpFits(ops[i])) && forall k: nat :: m.HostFits(waits(k))
    modifies m.Repr
    ensures m.Valid() && AllAdd(ops, grants, pieces) && AllGet(ops, grants, got)
    ensures (forall k: nat :: SomeReady(waits(k))) ==> ok
    ensures ok ==> Frames(m.host) == NonEmpty(pieces)
    ensures Concat(got) <= m.arrived
    ensures grants == Answers(m.sz, old(m.Now()), ops)
  {
    hide Answers, MemBufs.Stream, MemBufs.Current, MemBufs.Valid, Concat, AllAdd, AllGet, Frames, NonEmpty, SomeReady;
    hide Queue;
    grants, pieces, got := m.Run(ops);
    ok := m.Flush(0, waits);
    m.FetchedIsFront();
    HostFindsPackets(ops, grants, pieces);
    assert [] + Concat(pieces) == Concat(pieces) && [] + Concat(got) == Concat(got);
  }

  lemma NothingAdded()
    ensures AllAdd([], [], []) && AllGet([], [], []) && Concat<byte>([]) == []
  {
  }

  /** The stream grew by a packet whose header says nothing is written yet. */
  ghost predicate Opened(before: seq<byte>, after: seq<byte>, core: nat, size: nat)
    requires core < 2 && size < 0x8000
  {
    && |after| == |before| + HDR + size && after[..|before|] == before
    && after[|before|..|before| + HDR] == LE16(0x8000 * core + size) + LE16(0)
  }

  lemma HeaderWritten(before: seq<byte>, grown: seq<byte>, core: nat, size: nat)
    requires core < 2 && size < 0x8000 && |grown| == |before| + HDR + size && grown[..|before|] == before
    ensures Opened(before, Landing(grown, |before|, 0, 0, LE16(0x8000 * core + size) + LE16(0)), core, size)
  {
  }

  /** Memory after the two octets at c are copied over the two behind them. */
  ghost function Closed(m: seq<byte>, c: nat): (r: seq<byte>)
    requires c + HDR <= |m|
    ensures |r| == |m|
  {
    Patched(m, c + 2, m[c..c + 2])
  }

  lemma ClosedAt(m: seq<byte>, c: nat, i: nat)
    requires c + HDR <= |m| && i < |m|
    ensures Closed(m, c)[i] == if c + 2 <= i < c + 4 then m[i - 2] else m[i]
  {
  }

  /** When closing at c makes an open packet at o, whose size is not 0, look finished: exactly if c is the packet's own
      place, or one octet off and the size octet that is missed happens to be 0. */
  lemma ForgedExactly(m: seq<byte>, o: nat, c: nat)
    requires o + HDR <= |m| && c + HDR <= |m| && m[o + 2] == 0 && m[o + 3] == 0 && (m[o] != 0 || m[o + 1] != 0)
    ensures var r := Closed(m, c);
      (r[o] == m[o] && r[o + 1] == m[o + 1] && r[o + 2] == m[o] && r[o + 3] == m[o + 1])
      <==> c == o || (c == o + 1 && m[o] == 0) || (c + 1 == o && m[o + 1] == 0 && m[c] == 0)
  {
    ClosedAt(m, c, o);
    ClosedAt(m, c, o + 1);
    ClosedAt(m, c, o + 2);
    ClosedAt(m, c, o + 3);
    hide Closed;
  }

  /** A packet that is closed right after it was reserved carries whatever memory held. */
  lemma ForgedPacket(before: seq<byte>, reserved: seq<byte>, core: nat, size: nat, written: seq<byte>)
    requires core < 2 && size < 0x8000 && Opened(before, reserved, core, size) && |written| == 2
    requires written == reserved[|before|..|before| + 2]
    ensures Landing(reserved, |before|, 0, 2, written) == before + Packet(core, reserved[|before| + HDR..])
  {
    var v := LE16(0x8000 * core + size);
    assert reserved[|before|..|before| + HDR][..2] == v;
    var r := Patched(reserved, |before| + 2, written);
    assert r[..|before|] == before && r[|before|..|before| + 2] == v && r[|before| + 2..|before| + HDR] == v;
    assert r == r[..|before|] + r[|before|..|before| + 2] + r[|before| + 2..|before| + HDR] + r[|before| + HDR..];
  }

  /** A packet filled and closed undisturbed. */
  lemma FinishedPacket(before: seq<byte>, reserved: seq<byte>, closed: seq<byte>, core: nat, payload: seq<byte>,
                       h: seq<byte>)
    requires core < 2 && |payload| < 0x8000 && Opened(before, reserved, core, |payload|) && |h| == 2
    requires var filled := Landing(reserved, |before|, 0, HDR, payload);
      h == filled[|before|..|before| + 2] && closed == Landing(filled, |before|, 0, 2, h)
    ensures closed == before + Packet(core, payload)
  {
    assert Closing(reserved, closed, payload, 0, 0, h);
    hide Landing, Closing, Opened;
    var piece := PacketAssembled(before, reserved, closed, core, payload, 0, 0, h);
  }

  lemma OverwrittenPacket(before: seq<byte>, core: nat, first: seq<byte>, second: seq<byte>)
    requires core < 2 && |first| <= |second| < 0x8000
    ensures Landing(before + Packet(core, second), |before|, 0, HDR, first)
         == before + Packet(core, first + second[|first|..])
  {
    var v := LE16(0x8000 * core + |second|);
    assert Packet(core, second) == v + v + second && |first + second[|first|..]| == |second|;
    assert Packet(core, first + second[|first|..]) == v + v + (first + second[|first|..]);
    hide LE16, Packet;
    assert before + (v + v + second) == (before + v + v) + second;
    assert Patched((before + v + v) + second, |before| + HDR, first) == (before + v + v) + Patched(second, 0, first);
  }

  /** The last packet of stream s was filled when its first c octets were out of reach, and closed with h when its first
      d octets were. */
  ghost predicate Closing(s: seq<byte>, after: seq<byte>, payload: seq<byte>, c: nat, d: nat, h: seq<byte>) {
    && |payload| + HDR <= |s| && c <= d && |h| == 2
    && var p := |s| - |payload| - HDR;
       var filled := Landing(s, p, c, HDR, payload);
       (d == 0 ==> h == filled[p..p + 2]) && after == Landing(filled, p, d, 2, h)
  }

  /** Reserve, fill and close together append one packet that the host can find and judge. */
  lemma PacketAssembled(s: seq<byte>, reserved: seq<byte>, closed: seq<byte>, core: nat, payload: seq<byte>,
                        c: nat, d: nat, h: seq<byte>) returns (piece: seq<byte>)
    requires core < 2 && |payload| < 0x8000 && Opened(s, reserved, core, |payload|)
    requires Closing(reserved, closed, payload, c, d, h)
    ensures closed == s + piece && Framed(core, payload, d == 0, piece)
  {
    hide Landing, Framed;
    piece := closed[|s|..];
    var filled := Landing(reserved, |s|, c, HDR, payload);
    FilledFacts(s, reserved, core, payload, c);
    if d < HDR {
      ClosedInTime(|s|, filled, core, payload, d, h);
    } else {
      ClosedTooLate(|s|, filled, core, payload, d, h);
    }
    assert closed[..|s|] == s;
  }

  lemma FilledFacts(s: seq<byte>, reserved: seq<byte>, core: nat, payload: seq<byte>, c: nat)
    requires core < 2 && |payload| < 0x8000 && Opened(s, reserved, core, |payload|)
    ensures var filled := Landing(reserved, |s|, c, HDR, payload);
      && filled[..|s|] == s && filled[|s|..|s| + 2] == LE16(0x8000 * core + |payload|)
      && filled[|s| + 2..|s| + HDR] == LE16(0) && (c <= HDR ==> filled[|s| + HDR..] == payload)
  {
    var v, filled := LE16(0x8000 * core + |payload|), Landing(reserved, |s|, c, HDR, payload);
    assert filled[..|s| + HDR] == reserved[..|s| + HDR];
    assert filled[|s|..|s| + HDR] == v + LE16(0);
    assert filled[|s|..|s| + 2] == filled[|s|..|s| + HDR][..2];
    assert filled[|s| + 2..|s| + HDR] == filled[|s|..|s| + HDR][2..];
  }

  /** The written size was still in reach, so all of the payload was when it was filled. */
  lemma ClosedInTime(p: nat, filled: seq<byte>, core: nat, payload: seq<byte>, d: nat, h: seq<byte>)
    requires core < 2 && |payload| < 0x8000 && |filled| == p + HDR + |payload| && |h| == 2 && d < HDR
    requires filled[p..p + 2] == LE16(0x8000 * core + |payload|) && filled[p + HDR..] == payload
    requires d == 0 ==> h == filled[p..p + 2]
    ensures var closed := Landing(filled, p, d, 2, h);
      closed[..p] == filled[..p] && Framed(core, payload, d == 0, closed[p..])
  {
    var closed := Landing(filled, p, d, 2, h);
    var piece := closed[p..];
    ClosedElsewhere(filled, p, d, h);
    hide Landing, Patched, LE16;
    assert piece[..2] == closed[..p + 2][p..] == filled[p..p + 2];
    assert piece[HDR..] == payload;
    assert d == 0 ==> piece[2..4] == closed[p + 2..p + HDR] == piece[..2];
    assert piece == piece[..2] + piece[2..4] + piece[HDR..];
  }

  /** Closing a packet writes at most its written size. */
  lemma ClosedElsewhere(s: seq<byte>, p: nat, d: nat, h: seq<byte>)
    requires p + HDR <= |s| && |h| == 2
    ensures var closed := Landing(s, p, d, 2, h);
      && closed[..p + 2] == s[..p + 2] && closed[p + HDR..] == s[p + HDR..]
      && (d <= 2 ==> closed[p + 2..p + HDR] == h)
  {
    if d <= 2 {
      PatchedParts(s, p + 2, h);
    } else if d == 3 {
      PatchedParts(s, p + 3, h[1..]);
      hide Patched;
      var r := Landing(s, p, d, 2, h);
      assert r[..p + 2] == r[..p + 3][..p + 2];
    }
  }

  /** The written size had left as 0: it equals the allocated size only if there is nothing to write. */
  lemma ClosedTooLate(p: nat, filled: seq<byte>, core: nat, payload: seq<byte>, d: nat, h: seq<byte>)
    requires core < 2 && |payload| < 0x8000 && |filled| == p + HDR + |payload| && |h| == 2 && d >= HDR
    requires filled[p..p + 2] == LE16(0x8000 * core + |payload|) && filled[p + 2..p + HDR] == LE16(0)
    ensures Landing(filled, p, d, 2, h) == filled && Framed(core, payload, d == 0, filled[p..])
  {
    var piece := filled[p..];
    assert piece[..2] == filled[p..p + 2] && piece[2..4] == filled[p + 2..p + HDR];
    assert piece == piece[..2] + piece[2..4] + piece[HDR..];
    assert piece[2..4] == piece[..2] ==> 0x8000 * core + |payload| == 0;
  }
}
