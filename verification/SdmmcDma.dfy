/** The four-entry DMA descriptor ring of the SD/MMC host: refilled by the driver while the DMA engine drains it. */
module SdmmcDma {
  import opened Basics
  import opened Modular

  const DESC_CNT: nat := 4
  const MAX_BUF: nat := 4096

  /** A hardware descriptor: buffer offset, length register and link to the next descriptor. */
  datatype Desc = Desc(owned: bool, first: bool, last: bool, buf: nat, len: nat, next: Option<nat>)

  /** A stretch of the caller's buffer. */
  datatype Piece = Piece(off: nat, len: nat)

  /** Number of descriptors a transfer of `total` octets takes. */
  function Pieces(total: nat): (n: nat)
    ensures (n - 1) * MAX_BUF < total <= n * MAX_BUF || (n == 0 && total == 0)
  {
    (total + MAX_BUF - 1) / MAX_BUF
  }

  function PieceAt(total: nat, k: nat): (p: Piece)
    requires k < Pieces(total)
    ensures p.off < total && 0 < p.len <= MAX_BUF && p.off + p.len <= total
    ensures k + 1 < Pieces(total) ==> p.len == MAX_BUF
    ensures k + 1 == Pieces(total) ==> p.off + p.len == total
  {
    var rest := total - k * MAX_BUF;
    Piece(k * MAX_BUF, if rest < MAX_BUF then rest else MAX_BUF)
  }

  /** The piece that starts after k full ones, seen from the driver's side. */
  lemma NextPiece(total: nat, k: nat)
    requires k < Pieces(total)
    ensures var rest := total - k * MAX_BUF;
      && rest > 0
      && PieceAt(total, k) == Piece(k * MAX_BUF, if rest < MAX_BUF then rest else MAX_BUF)
      && (rest <= MAX_BUF <==> k + 1 == Pieces(total))
      && (Accepted(total) ==> PieceAt(total, k).len < 4 || PieceAt(total, k).len % 4 == 0)
  {
    hide Pieces;
    RoundedUp(total, k);
  }

  /** Ring position of the k-th descriptor filled. */
  function Pos(k: nat): (j: nat)
    ensures j < DESC_CNT
  {
    k % DESC_CNT
  }

  lemma PosShift(k: nat, i: nat)
    ensures Pos(k + i) == (Pos(k) + i) % DESC_CNT
    ensures k >= DESC_CNT ==> Pos(k - DESC_CNT) == Pos(k)
    ensures 0 < i < DESC_CNT ==> Pos(k + i) != Pos(k)
  {
    var q, r := k / 4, k % 4;
    var q', r' := (r + i) / 4, (r + i) % 4;
    DivModUnique(k + i, q + q', r', 4);
    if k >= 4 {
      DivModUnique(k - 4, q - 1, r, 4);
    }
  }

  lemma OthersApart(f: nat)
    ensures forall k: nat :: f < k + DESC_CNT && k < f ==> Pos(k) != Pos(f)
    ensures forall k :: f < k < DESC_CNT ==> Pos(k) != Pos(f)
  {
  }

  lemma WindowApart(f: nat, k: nat)
    requires k < f <= k + DESC_CNT
    ensures forall j: nat :: f <= j + DESC_CNT && j < f && j != k ==> Pos(j) != Pos(k)
    ensures forall j :: f <= j < DESC_CNT ==> Pos(j) != Pos(k)
  {
  }

  lemma PosBack(f: nat, i: nat)
    requires i < DESC_CNT
    ensures Pos(if i < f then f - 1 - i else f + DESC_CNT - 1 - i) == (Pos(f) + DESC_CNT - 1 - i) % DESC_CNT
  {
  }

  /** Lengths the driver accepts. */
  predicate Accepted(total: nat) {
    total < 4 || total % 4 == 0
  }

  /** What the engine is to move for the k-th piece: it counts whole words. */
  function WordsAt(total: nat, k: nat): (p: Piece)
    requires k < Pieces(total)
  {
    Piece(PieceAt(total, k).off, (PieceAt(total, k).len + 3) / 4 * 4)
  }

  /** The words moved for a piece cover it and end within a word behind it. */
  lemma WordsCover(total: nat, k: nat)
    requires k < Pieces(total)
    ensures var p, w := PieceAt(total, k), WordsAt(total, k);
      w.off == p.off && p.len <= w.len < p.len + 4 && w.len % 4 == 0
  {
    hide Pieces, PieceAt;
  }

  /** What the driver writes for the k-th piece: the length register is rounded up to whole words. */
  ghost predicate Describes(d: Desc, total: nat, k: nat)
    requires k < Pieces(total)
  {
    && Piece(d.buf, d.len) == WordsAt(total, k)
    && d.last == (k + 1 == Pieces(total))
    && d.next == if d.last then None else Some(Pos(k + 1))
  }

  class Transfer {
    const total: nat
    const desc: array<Desc>
    var ptr: nat
    var sizeRemaining: nat
    var nextDesc: nat
    var descRemaining: nat
    /** The descriptor the DMA engine handles next. */
    var engine: Option<nat>
    /** Completions the driver has not handled yet. */
    var events: nat
    /** Descriptors filled so far. */
    ghost var filled: nat
    /** Stretches the engine has moved, in order, as its descriptors told it. */
    ghost var moved: seq<Piece>

    ghost predicate Counters()
      reads this
    {
      && desc.Length == DESC_CNT && Accepted(total)
      && |moved| <= filled <= |moved| + DESC_CNT && filled <= Pieces(total)
      && nextDesc == Pos(filled)
      && ptr == (if filled < Pieces(total) then filled * MAX_BUF else total)
      && ptr + sizeRemaining == total
      && descRemaining + |moved| == Pieces(total) + events
      && events <= |moved|
    }

    ghost predicate Ring()
      requires Counters()
      reads this, desc
    {
      && (forall k :: filled <= k < DESC_CNT ==> !desc[Pos(k)].owned)
      && (forall k: nat :: filled <= k + DESC_CNT && k < filled ==>
            Describes(desc[Pos(k)], total, k) && (desc[Pos(k)].owned <==> |moved| <= k))
      && (forall j :: 0 <= j < DESC_CNT ==> (desc[j].first <==> j == 0))
    }

    ghost predicate Valid()
      reads this, desc
      ensures Valid() ==> Counters()
    {
      && Counters() && Ring()
      && engine == (if |moved| < Pieces(total) then Some(Pos(|moved|)) else None)
      && (forall k :: 0 <= k < |moved| ==> moved[k] == WordsAt(total, k))
    }

    /** While octets remain, every descriptor is in use or accounted for by an event still to be handled. */
    ghost predicate Primed()
      reads this
    {
      sizeRemaining > 0 ==> filled >= DESC_CNT && filled + events >= |moved| + DESC_CNT
    }

    /** Unless all descriptors are in flight, the next one to fill is not the engine's. */
    lemma NextIsFree()
      requires Counters() && Ring() && filled < |moved| + DESC_CNT
      ensures !desc[Pos(filled)].owned
    {
      if filled >= DESC_CNT {
        assert Pos(filled - DESC_CNT) == Pos(filled);
      }
    }

    /** The i-th descriptor from the next one to fill is the i-th oldest of the last four filled. */
    lemma Inspected(i: nat)
      requires Valid() && sizeRemaining > 0 && filled >= DESC_CNT && i < DESC_CNT
      ensures var d := desc[(nextDesc + i) % DESC_CNT];
        (d.owned <==> |moved| + DESC_CNT <= filled + i) && d.next.Some?
    {
      hide Pos, Pieces, PieceAt;
      var k := filled - DESC_CNT;
      PosShift(filled, i);
      PosShift(filled + i, 0);
      assert Describes(desc[Pos(k + i)], total, k + i);
    }

    /** Set up a transfer: clear the descriptors and fill as many as there are. */
    constructor (total: nat)
      requires Accepted(total)
      ensures Valid() && Primed() && fresh(desc) && this.total == total
      ensures descRemaining == Pieces(total) && events == 0 && moved == []
    {
      this.total := total;
      desc := new Desc[DESC_CNT](_ => Desc(false, false, false, 0, 0, None));
      ptr, sizeRemaining, nextDesc := 0, total, 0;
      descRemaining := (total + MAX_BUF - 1) / MAX_BUF;
      engine := if total > 0 then Some(0) else None;
      events, filled, moved := 0, 0, [];
      new;
      desc[0] := desc[0].(first := true);
      Fill(DESC_CNT, _ => 0);
    }

    /** The engine finishes the descriptor it is at, hands it back, follows its link and raises an event. */
    method Complete()
      requires Valid() && engine.Some? && desc[engine.value].owned
      modifies this`engine, this`events, this`moved, desc
      ensures Valid() && filled == old(filled) && events == old(events) + 1
      ensures var d := old(desc[engine.value]); moved == old(moved) + [Piece(d.buf, d.len)]
    {
      hide Pos, Pieces, PieceAt;
      var d := desc[engine.value];
      ghost var k := |moved|;
      if k == filled {
        NextIsFree();
      }
      assert Describes(d, total, k);
      desc[engine.value] := d.(owned := false);
      engine := d.next;
      events := events + 1;
      moved := moved + [Piece(d.buf, d.len)];
      RingGivenBack(k);
    }

    /** Giving one descriptor back leaves the three others alone. */
    twostate lemma RingGivenBack(k: nat)
      requires old(Counters() && Ring()) && Counters() && k == |old(moved)| < filled == old(filled) && |moved| == k + 1
      requires forall j :: 0 <= j < DESC_CNT && j != Pos(k) ==> desc[j] == old(desc[j])
      requires desc[Pos(k)] == old(desc[Pos(k)]).(owned := false)
      ensures Ring()
    {
      hide Pieces, PieceAt;
      WindowApart(filled, k);
    }

    /** The engine makes up to n steps, as far as it owns descriptors. */
    method EngineRun(n: nat)
      requires Valid()
      modifies this`engine, this`events, this`moved, desc
      ensures Valid() && filled == old(filled)
      ensures |moved| >= |old(moved)| && events - |moved| == old(events - |moved|)
      ensures n == 0 ==> moved == old(moved)
    {
      var i := 0;
      while i < n && engine.Some? && desc[engine.value].owned
        invariant Valid() && filled == old(filled)
        invariant |moved| >= |old(moved)| && events - |moved| == old(events - |moved|)
        invariant n == 0 ==> moved == old(moved)
        decreases n - i
      {
        Complete();
        i := i + 1;
      }
    }

    /** Hand the next piece to the engine. */
    method FillOne()
      requires Valid() && sizeRemaining > 0 && filled < |moved| + DESC_CNT
      modifies this`ptr, this`sizeRemaining, this`nextDesc, this`filled, desc
      ensures Valid() && filled == old(filled) + 1 && !old(desc[nextDesc].owned)
    {
      hide Pos, Pieces, PieceAt;
      ghost var f := filled;
      NextPiece(total, f);
      NextIsFree();
      PosShift(f, 1);
      var d := desc[nextDesc];
      assert !d.owned;
      var n := if sizeRemaining < MAX_BUF then sizeRemaining else MAX_BUF;
      var last := n == sizeRemaining;
      assert n < 4 || n % 4 == 0;
      var link := if last then None else Some((nextDesc + 1) % DESC_CNT);
      desc[nextDesc] := Desc(true, d.first, last, ptr, (n + 3) / 4 * 4, link);
      sizeRemaining := sizeRemaining - n;
      ptr := ptr + n;
      nextDesc := (nextDesc + 1) % DESC_CNT;
      filled := filled + 1;
      assert desc[Pos(f)].owned && Describes(desc[Pos(f)], total, f);
      RingExtended(f);
    }

    /** Filling one descriptor leaves the three others alone. */
    twostate lemma RingExtended(f: nat)
      requires old(Counters() && Ring()) && Counters() && f == old(filled) && filled == f + 1 && moved == old(moved)
      requires forall j :: 0 <= j < DESC_CNT && j != Pos(f) ==> desc[j] == old(desc[j])
      requires desc[Pos(f)].owned && Describes(desc[Pos(f)], total, f) && desc[Pos(f)].first == old(desc[Pos(f)].first)
      ensures Ring()
    {
      hide Describes;
      OthersApart(f);
    }

    /** Fill up to num descriptors while the engine runs on: steps(i) of its steps fall before the i-th. */
    method Fill(num: nat, steps: nat -> nat)
      requires Valid() && filled + num <= |moved| + DESC_CNT
      modifies this, desc
      ensures Valid() && descRemaining == old(descRemaining) && events - |moved| == old(events - |moved|)
      ensures |moved| >= |old(moved)|
      ensures sizeRemaining == 0 || filled == old(filled) + num
      ensures (forall i :: steps(i) == 0) ==> moved == old(moved)
    {
      for i := 0 to num
        invariant Valid() && filled == old(filled) + i && |moved| >= |old(moved)|
        invariant (forall i :: steps(i) == 0) ==> moved == old(moved)
        invariant descRemaining == old(descRemaining) && events - |moved| == old(events - |moved|)
      {
        EngineRun(steps(i));
        if sizeRemaining == 0 {
          return;
        }
        FillOne();
      }
    }

    /** Count the descriptors given back, starting at the next one to fill, while the engine runs on. */
    method FreeCount(steps: nat -> nat) returns (count: nat)
      requires Valid() && sizeRemaining > 0 && filled >= DESC_CNT
      modifies this`engine, this`events, this`moved, desc
      ensures Valid() && filled == old(filled) && events - |moved| == old(events - |moved|)
      ensures |moved| >= |old(moved)|
      ensures |old(moved)| + DESC_CNT <= filled + count <= |moved| + DESC_CNT
    {
      hide Ring;
      var next := nextDesc;
      count := 0;
      for i := 0 to DESC_CNT
        invariant Valid() && filled == old(filled) && events - |moved| == old(events - |moved|)
        invariant |moved| >= |old(moved)| && count == i
        invariant filled + count <= |moved| + DESC_CNT
      {
        EngineRun(steps(i));
        Inspected(i);
        var d := desc[(next + i) % DESC_CNT];
        if d.owned {
          break;
        }
        count := count + 1;
        if d.next.None? {
          break;
        }
      }
    }

    /** Handle one completion event: scan(i) engine steps fall before the i-th inspection, refill(i) before the i-th
        fill. */
    method OnDmaDone(scan: nat -> nat, refill: nat -> nat) returns (finished: bool)
      requires Valid() && Primed() && events > 0
      modifies this, desc
      ensures Valid() && Primed()
      ensures descRemaining == old(descRemaining) - 1
      ensures finished <==> descRemaining == 0
      ensures finished ==> events == 0 && |moved| == Pieces(total)
    {
      descRemaining := descRemaining - 1;
      events := events - 1;
      if sizeRemaining > 0 {
        var n := FreeCount(scan);
        Fill(n, refill);
      }
      finished := descRemaining == 0;
    }

    /** A whole transfer: whenever no event is pending the engine makes a step, and arbitrary further steps of it fall
        into the handling of each event. It ends after exactly the announced number of events, with the buffer
        transferred piece by piece. */
    method Drive(scan: nat -> nat -> nat, refill: nat -> nat -> nat) returns (handled: nat)
      requires Valid() && Primed() && events == 0 && moved == []
      modifies this, desc
      ensures Valid() && handled == Pieces(total) == filled == |moved|
      ensures forall k :: 0 <= k < |moved| ==> moved[k] == WordsAt(total, k)
      ensures total % 4 == 0 ==> forall data: seq<nat> :: |data| == total ==> Fetched(data, moved, |moved|) == data
    {
      handled := 0;
      while descRemaining > 0
        invariant Valid() && Primed() && handled + descRemaining == Pieces(total)
        decreases descRemaining
      {
        if events == 0 {
          EngineCanStep();
          Complete();
        }
        var _ := OnDmaDone(scan(handled), refill(handled));
        handled := handled + 1;
      }
      if total % 4 == 0 {
        forall data: seq<nat> | |data| == total
          ensures Fetched(data, moved, |moved|) == data
        {
          AllFetched(data, moved, |moved|);
        }
      }
    }

    /** An unfinished transfer never stalls: an event is pending, or the engine owns the descriptor it is at. */
    lemma EngineCanStep()
      requires Valid() && Primed() && |moved| < Pieces(total)
      ensures events > 0 || (engine.Some? && desc[engine.value].owned)
    {
      if events == 0 {
        assert |moved| < filled;
        assert Describes(desc[Pos(|moved|)], total, |moved|);
      }
    }

    /** The engine's descriptors form one circular stretch that ends just before the next one to fill. */
    lemma OwnedStretch(i: nat)
      requires Valid() && i < DESC_CNT
      ensures desc[(nextDesc + DESC_CNT - 1 - i) % DESC_CNT].owned <==> i < filled - |moved|
    {
      hide Describes, PieceAt, Pieces, Pos;
      PosBack(filled, i);
    }
  }

  /** The pieces tile the buffer: octet i belongs to piece i / 4096 and to no other. */
  lemma PiecesTile(total: nat, i: nat, k: nat)
    requires i < total && k < Pieces(total)
    ensures i / MAX_BUF < Pieces(total)
    ensures PieceAt(total, k).off <= i < PieceAt(total, k).off + PieceAt(total, k).len <==> k == i / MAX_BUF
  {
  }

  /** The length register never exceeds the piece, except for the single piece of a transfer of 1 to 3 octets. */
  lemma LengthRegisterExact(total: nat, k: nat)
    requires Accepted(total) && k < Pieces(total)
    ensures (PieceAt(total, k).len + 3) / 4 * 4 == PieceAt(total, k).len <==> total % 4 == 0
  {
    NextPiece(total, k);
    RoundedUp(total, k);
    RoundedUp(PieceAt(total, k).len, 0);
    hide PieceAt, Pieces;
    assert total % 4 != 0 ==> total < 4;
  }

  /** The octets at the first n stretches of a buffer, one stretch after the other. */
  ghost function Fetched(data: seq<nat>, moved: seq<Piece>, n: nat): (s: seq<nat>)
    requires n <= |moved|
  {
    if n == 0 then [] else
      var p := moved[n - 1];
      Fetched(data, moved, n - 1) + if p.off + p.len <= |data| then data[p.off..p.off + p.len] else []
  }

  /** Stretches that are the pieces of a buffer fetch its octets in order, each once. */
  lemma {:induction false} AllFetched(data: seq<nat>, moved: seq<Piece>, n: nat)
    requires |data| % 4 == 0 && n <= |moved| <= Pieces(|data|)
    requires forall k :: 0 <= k < |moved| ==> moved[k] == WordsAt(|data|, k)
    ensures var end := if n < Pieces(|data|) then n * MAX_BUF else |data|;
      end <= |data| && Fetched(data, moved, n) == data[..end]
  {
    if n > 0 {
      var p := moved[n - 1];
      assert Fetched(data, moved, n)
          == Fetched(data, moved, n - 1) + if p.off + p.len <= |data| then data[p.off..p.off + p.len] else [];
      hide Pieces, WordsAt, PieceAt, Fetched;
      AllFetched(data, moved, n - 1);
      WholeWords(|data|, n - 1);
      NextStretch(data, p.off, p.len);
    }
  }

  lemma WholeWords(total: nat, k: nat)
    requires total % 4 == 0 && k < Pieces(total)
    ensures WordsAt(total, k) == PieceAt(total, k) && PieceAt(total, k).off == k * MAX_BUF
    ensures (k + 1) * MAX_BUF == k * MAX_BUF + MAX_BUF && (k + 1 < Pieces(total) ==> (k + 1) * MAX_BUF <= total)
  {
    LengthRegisterExact(total, k);
    NextPiece(total, k);
    hide Pieces;
  }

  lemma NextStretch(data: seq<nat>, k: nat, len: nat)
    requires k + len <= |data|
    ensures data[..k] + data[k..k + len] == data[..k + len]
  {
  }

  lemma RoundedUp(n: nat, k: nat)
    ensures (n + 3) / 4 * 4 == n <==> n % 4 == 0
    ensures k * MAX_BUF <= n ==> (n - k * MAX_BUF) % 4 == n % 4
  {
    var q, r := n / 4, n % 4;
    assert n - k * MAX_BUF == 4 * (q - 1024 * k) + r;
  }
}
