/** The two-sector record that selects the boot slot, rewritten by the device and by the host tool. */
module OtaBoot {
  import opened Basics
  import opened Modular

  const UMAX: nat := 0xFFFF_FFFF

  /** Unsigned 32-bit arithmetic. */
  function U32(v: int): (r: nat)
    ensures r <= UMAX && (0 <= v <= UMAX ==> r == v)
  {
    v % 0x1_0000_0000
  }

  datatype ImgState = New | PendingVerify | Accepted | Invalid | Aborted | Undefined

  datatype Entry = Entry(otaSeq: nat, state: ImgState, crc: nat) {
    predicate Marked() { state.Invalid? || state.Aborted? }
  }

  /** What an erased sector reads as. */
  const BLANK := Entry(UMAX, Undefined, UMAX)

  datatype OtaData = OtaData(e0: Entry, e1: Entry) {
    function At(k: nat): (e: Entry) { if k == 0 then e0 else e1 }

    function Put(k: nat, e: Entry): (d: OtaData) { if k == 0 then OtaData(e, e1) else OtaData(e0, e) }
  }

  predicate EntryValid(crc: nat -> nat, e: Entry) {
    e.otaSeq != UMAX && !e.Marked() && e.crc == crc(e.otaSeq)
  }

  /** The valid entry with the greatest sequence number, the first one on a tie. */
  function Active(crc: nat -> nat, d: OtaData): (k: Option<nat>)
    ensures k.None? <==> !EntryValid(crc, d.e0) && !EntryValid(crc, d.e1)
    ensures k.Some? ==>
      && k.value < 2 && EntryValid(crc, d.At(k.value))
      && (EntryValid(crc, d.At(1 - k.value)) ==> d.At(1 - k.value).otaSeq <= d.At(k.value).otaSeq)
  {
    if EntryValid(crc, d.e0) && EntryValid(crc, d.e1) then
      var greatest := if d.e0.otaSeq > d.e1.otaSeq then d.e0.otaSeq else d.e1.otaSeq;
      if greatest == d.e0.otaSeq then Some(0) else Some(1)
    else if EntryValid(crc, d.e0) then Some(0)
    else if EntryValid(crc, d.e1) then Some(1)
    else None
  }

  datatype Boot = Default | Slot(k: nat)

  function SlotOf(otaSeq: nat, count: nat): (k: nat)
    requires count > 0
  {
    U32(otaSeq - 1) % count
  }

  /** The image that boots, given the record and the number of slots. */
  function BootChoice(crc: nat -> nat, d: OtaData, count: nat): (b: Boot) {
    if count == 0 || ((d.e0.otaSeq == UMAX || d.e0.Marked()) && (d.e1.otaSeq == UMAX || d.e1.Marked())) then Default
    else
      match Active(crc, d)
      case None => Default
      case Some(k) => Slot(SlotOf(d.At(k).otaSeq, count))
  }

  /** An entry that may boot: written, with the right checksum, and in none of the two states of a rejected image. */
  predicate Counts(crc: nat -> nat, e: Entry) {
    && e.otaSeq != 0xFFFF_FFFF && e.crc == crc(e.otaSeq)
    && (e.state.New? || e.state.PendingVerify? || e.state.Accepted? || e.state.Undefined?)
  }

  /** Entry j may boot, and the other one may not or has no greater number; on a tie the first one decides. */
  ghost predicate Decides(crc: nat -> nat, d: OtaData, j: nat)
    requires j < 2
  {
    var e, f := d.At(j), d.At(1 - j);
    Counts(crc, e) && (Counts(crc, f) ==> f.otaSeq < e.otaSeq || (j == 0 && f.otaSeq == e.otaSeq))
  }

  /** Entry j decides, and its number, counted from 1 and round 32 bits, is one of slot k. */
  ghost predicate Leads(crc: nat -> nat, d: OtaData, count: nat, j: nat, k: nat)
    requires count > 0 && j < 2
  {
    var n := d.At(j).otaSeq;
    Decides(crc, d, j) && k == (if n > 0 then n - 1 else 0xFFFF_FFFF) % count
  }

  /** A slot boots if and only if the entry that decides leads to it, and none does if and only if no entry may boot. */
  lemma BootsExactly(crc: nat -> nat, d: OtaData, count: nat, k: nat)
    requires d.e0.otaSeq <= UMAX && d.e1.otaSeq <= UMAX
    ensures BootChoice(crc, d, count) == Slot(k)
       <==> count > 0 && (Leads(crc, d, count, 0, k) || Leads(crc, d, count, 1, k))
    ensures BootChoice(crc, d, count) == Default <==> count == 0 || (!Counts(crc, d.e0) && !Counts(crc, d.e1))
  {
    assert forall e: Entry :: Counts(crc, e) <==> EntryValid(crc, e);
    hide Counts, EntryValid;
  }

  /** v is the least sequence number from base on that belongs to the slot. */
  ghost predicate IsNext(v: nat, base: nat, slot: nat, count: nat)
    requires count > 0
  {
    base <= v && v % count == (slot + 1) % count && NoneBefore(v, base, (slot + 1) % count, count)
  }

  /** No number from base up to v has residue x. */
  ghost predicate NoneBefore(v: nat, base: nat, x: nat, count: nat)
    requires count > 0
  {
    forall u: nat :: base <= u < v ==> u % count != x
  }

  lemma NextUnique(v: nat, u: nat, base: nat, slot: nat, count: nat)
    requires count > 0 && IsNext(v, base, slot, count) && IsNext(u, base, slot, count)
    ensures v == u
  {
  }

  /** Among the numbers between two neighbours of a residue class the residue does not occur. */
  lemma NoneBetween(x: nat, i: nat, count: nat, d: nat)
    requires x < count && 0 < d < count
    ensures (i * count + x + d) % count != x
  {
    if x + d < count {
      DivModUnique(i * count + x + d, i, x + d, count);
    } else {
      assert (i + 1) * count == i * count + count;
      DivModUnique(i * count + x + d, i + 1, x + d - count, count);
    }
  }

  lemma FirstRound(base: nat, x: nat, count: nat)
    requires x < count
    ensures NoneBefore(x, base, x, count)
  {
    forall u: nat | base <= u < x
      ensures u % count != x
    {
      DivModUnique(u, 0, u, count);
    }
  }

  /** One more round of the loop skips no number of the residue class. */
  lemma NextRound(base: nat, x: nat, i: nat, count: nat)
    requires x < count && base > x + i * count
    ensures (i + 1) * count == i * count + count
    ensures NoneBefore(x + (i + 1) * count, base, x, count)
  {
    assert (i + 1) * count == i * count + count;
    forall u: nat | base <= u < x + (i + 1) * count
      ensures u % count != x
    {
      NoneBetween(x, i, count, u - x - i * count);
    }
  }

  /** A residue class that reaches from base on up to v has a least number there. */
  lemma {:induction false} LeastFrom(v: nat, base: nat, slot: nat, count: nat) returns (w: nat)
    requires count > 0 && base <= v && v % count == (slot + 1) % count
    ensures IsNext(w, base, slot, count) && w <= v
    decreases v
  {
    if u: nat :| base <= u < v && u % count == (slot + 1) % count {
      w := LeastFrom(u, base, slot, count);
    } else {
      w := v;
    }
  }

  /** Among `count` neighbours every residue occurs. */
  lemma NextExists(base: nat, slot: nat, count: nat) returns (w: nat)
    requires count > 0
    ensures IsNext(w, base, slot, count) && w < base + count
  {
    var x, q, r := (slot + 1) % count, base / count, base % count;
    var v := if r <= x then base + (x - r) else base + (count + x - r);
    assert base == q * count + r;
    if r <= x {
      DivModUnique(v, q, x, count);
    } else {
      assert (q + 1) * count == q * count + count;
      DivModUnique(v, q + 1, x, count);
    }
    w := LeastFrom(v, base, slot, count);
  }

  lemma ResidueKept(n: nat, m: nat, count: nat)
    requires m > 0 && count > 0 && m % count == 0
    ensures n % m % count == n % count
  {
    var k, q, r := m / count, n / m, n % m;
    assert m == k * count && n == q * m + r;
    assert q * m == (q * k) * count;
    var q', r' := r / count, r % count;
    assert r == q' * count + r';
    assert (q * k + q') * count == (q * k) * count + q' * count;
    DivModUnique(n, q * k + q', r', count);
  }

  /** The loop condition fails in some round. */
  ghost predicate LoopEnds(base: nat, x: nat, count: nat) {
    exists i: nat :: RoundEnds(base, x, count, i)
  }

  /** The number the loop looks at in round i, on 32 bits. */
  function RoundValue(x: nat, count: nat, i: nat): (v: nat)
    ensures v <= UMAX
  {
    U32(x + i * count)
  }

  predicate RoundEnds(base: nat, x: nat, count: nat, i: nat) { RoundValue(x, count, i) >= base }

  function Pow2(k: nat): (p: nat)
    ensures p > 0
  {
    if k == 0 then 1 else 2 * Pow2(k - 1)
  }

  lemma {:induction false} Pow2Sum(a: nat, b: nat)
    ensures Pow2(a + b) == Pow2(a) * Pow2(b)
  {
    if a > 0 {
      Pow2Sum(a - 1, b);
      assert 2 * Pow2(a - 1) * Pow2(b) == 2 * (Pow2(a - 1) * Pow2(b));
    }
  }

  lemma Pow2Word()
    ensures Pow2(32) == 0x1_0000_0000
  {
    assert Pow2(4) == 16;
    Pow2Sum(4, 4);
    Pow2Sum(8, 8);
    Pow2Sum(16, 16);
  }

  /** A number is an odd one times a power of two. */
  lemma {:induction false} OddPart(n: nat) returns (k: nat, m: nat)
    requires n > 0
    ensures n == Pow2(k) * m && m % 2 == 1
  {
    if n % 2 == 1 {
      k, m := 0, n;
    } else {
      k, m := OddPart(n / 2);
      assert n == 2 * (Pow2(k) * m);
      assert 2 * Pow2(k) * m == 2 * (Pow2(k) * m);
      k := k + 1;
    }
  }

  /** Multiples of an odd number reach every residue modulo a power of two. */
  lemma {:induction false} OddReaches(m: nat, t: nat, k: nat) returns (i: nat, q: int)
    requires m % 2 == 1
    ensures i * m == t + q * Pow2(k)
    decreases k
  {
    if k == 0 {
      i, q := 0, 0 - t;
    } else {
      i, q := OddReaches(m, t, k - 1);
      if q % 2 != 0 {
        HalfStep(i, q, m, t, Pow2(k - 1));
        i, q := i + Pow2(k - 1), q + m;
      }
      Halve(q, Pow2(k - 1));
      q := q / 2;
    }
  }

  lemma Halve(q: int, p: nat)
    requires q % 2 == 0
    ensures q * p == (q / 2) * (2 * p)
  {
    var h := q / 2;
    assert q == 2 * h;
    assert (2 * h) * p == h * (2 * p);
  }

  lemma HalfStep(i: nat, q: int, m: nat, t: nat, p: nat)
    requires i * m == t + q * p && q % 2 != 0 && m % 2 == 1
    ensures (i + p) * m == t + (q + m) * p && (q + m) % 2 == 0
  {
    assert (i + p) * m == i * m + m * p;
    assert (q + m) * p == q * p + m * p;
  }

  /** v is a 32-bit number that leaves the same remainder by g as x. */
  ghost predicate Meets(x: nat, v: nat, g: nat)
    requires g > 0
  {
    v <= UMAX && v % g == x % g
  }

  lemma RoundsMeet(x: nat, count: nat, k: nat, m: nat, i: nat)
    requires 0 < count <= UMAX && count == Pow2(k) * m && m % 2 == 1
    ensures Meets(x, RoundValue(x, count, i), Pow2(k))
  {
    PowDivides(k, m, count);
    hide Pow2;
    RoundsMeetBy(x, count, Pow2(k), m, i);
  }

  lemma RoundsMeetBy(x: nat, count: nat, g: nat, m: nat, i: nat)
    requires g > 0 && count == g * m && 0x1_0000_0000 % g == 0
    ensures Meets(x, RoundValue(x, count, i), g)
  {
    var n := x + i * count;
    MultipleGone(x, i, m, g, n);
    assert RoundValue(x, count, i) == n % 0x1_0000_0000;
    hide RoundValue;
    ResidueKept(n, 0x1_0000_0000, g);
  }

  lemma MultipleGone(x: nat, i: nat, m: nat, g: nat, n: nat)
    requires g > 0 && n == x + i * (g * m)
    ensures n % g == x % g
  {
    var q, r := x / g, x % g;
    assert i * (g * m) == (i * m) * g;
    assert (q + i * m) * g == q * g + (i * m) * g;
    DivModUnique(n, q + i * m, r, g);
  }

  lemma {:induction false} Pow2Grows(k: nat)
    ensures k >= 32 ==> Pow2(k) >= 0x1_0000_0000
  {
    if k == 32 {
      Pow2Word();
    } else if k > 32 {
      Pow2Grows(k - 1);
    }
  }

  lemma PowDivides(k: nat, m: nat, count: nat)
    requires 0 < count <= UMAX && count == Pow2(k) * m && m % 2 == 1
    ensures k <= 32 && 0x1_0000_0000 == Pow2(32 - k) * Pow2(k) && 0x1_0000_0000 % Pow2(k) == 0
  {
    ProductAtLeast(m, Pow2(k));
    Pow2Grows(k);
    Pow2Word();
    Pow2Sum(32 - k, k);
    DivModUnique(0x1_0000_0000, Pow2(32 - k), 0, Pow2(k));
  }

  lemma MeetIsRound(x: nat, count: nat, k: nat, m: nat, v: nat) returns (i: nat)
    requires x < count <= UMAX && count == Pow2(k) * m && m % 2 == 1 && Meets(x, v, Pow2(k))
    ensures RoundValue(x, count, i) == v
  {
    var g, h := Pow2(k), Pow2(32 - (if k <= 32 then k else 0));
    PowDivides(k, m, count);
    var t := SameRemainder(x, v, g, h);
    var q;
    i, q := OddReaches(m, t, 32 - k);
    hide Pow2;
    TimesPower(i, m, t, q, g, h);
    assert x + i * count == (q + 1) * 0x1_0000_0000 + v;
    DivModUnique(x + i * count, q + 1, v, 0x1_0000_0000);
  }

  lemma TimesPower(i: nat, m: nat, t: nat, q: int, g: nat, h: nat)
    requires i * m == t + q * h && h * g == 0x1_0000_0000
    ensures i * (g * m) == g * t + q * 0x1_0000_0000
  {
    assert i * (g * m) == g * (i * m);
    assert g * (t + q * h) == g * t + g * (q * h);
    assert g * (q * h) == q * (h * g);
  }

  lemma SameRemainder(x: nat, v: nat, g: nat, h: nat) returns (t: nat)
    requires g > 0 && v % g == x % g && h * g == 0x1_0000_0000 && x <= UMAX
    ensures g * t == v - x + 0x1_0000_0000
  {
    var a, b := v / g, x / g;
    assert v == a * g + v % g && x == b * g + x % g;
    assert (a - b + h) * g == a * g - b * g + h * g;
    NonNegative(a - b + h, g);
    t := a - b + h;
  }

  lemma NonNegative(a: int, g: nat)
    requires a * g > 0
    ensures a >= 0
  {
    if a < 0 {
      ProductMonotone(a, 0, g);
    }
  }

  /** For every number of slots: the loop ends exactly if 32 bits have a number, not below base, that leaves the same
      remainder as the slot's class by the power of two in the number of slots. */
  lemma LoopEndsExactly(base: nat, x: nat, count: nat) returns (g: nat)
    requires x < count <= UMAX
    ensures g > 0 && count % g == 0 && count / g % 2 == 1 && (exists k :: g == Pow2(k))
    ensures LoopEnds(base, x, count) <==> exists v: nat :: base <= v && Meets(x, v, g)
  {
    var k, m := OddPart(count);
    g := Pow2(k);
    DivModUnique(count, m, 0, g);
    hide RoundEnds, Meets;
    if i: nat :| RoundEnds(base, x, count, i) {
      RoundsMeet(x, count, k, m, i);
      assert RoundValue(x, count, i) >= base by {
        RoundEndsMeans(base, x, count, i);
      }
    }
    if v: nat :| base <= v && Meets(x, v, g) {
      var i := MeetIsRound(x, count, k, m, v);
      RoundEndsMeans(base, x, count, i);
    }
  }

  lemma RoundEndsMeans(base: nat, x: nat, count: nat, i: nat)
    ensures RoundEnds(base, x, count, i) <==> RoundValue(x, count, i) >= base
  {
  }

  /** The rounds repeat after 2^32 of them, so a loop that has not ended by then never ends. */
  lemma RoundsRepeat(base: nat, x: nat, count: nat)
    requires forall j: nat :: j < 0x1_0000_0000 ==> !RoundEnds(base, x, count, j)
    ensures !LoopEnds(base, x, count)
  {
    hide RoundEnds;
    forall i: nat
      ensures !RoundEnds(base, x, count, i)
    {
      SameRound(x, count, i);
      RoundEndsMeans(base, x, count, i);
      RoundEndsMeans(base, x, count, i % 0x1_0000_0000);
    }
  }

  lemma SameRound(x: nat, count: nat, i: nat)
    ensures RoundValue(x, count, i) == RoundValue(x, count, i % 0x1_0000_0000)
  {
    var word := 0x1_0000_0000;
    var q, r := i / word, i % word;
    assert i == q * word + r;
    var a, b := (x + r * count) / word, (x + r * count) % word;
    assert x + i * count == (q * count + a) * word + b by {
      assert (q * word + r) * count == (q * count) * word + r * count;
      assert (q * count + a) * word == (q * count) * word + a * word;
    }
    DivModUnique(x + i * count, q * count + a, b, word);
  }

  /** The residue of the numbers that select a slot. */
  function Class(slot: nat, count: nat): (x: nat)
    requires slot < count
    ensures x < count
  {
    (slot + 1) % count
  }

  predicate InClass(v: nat, slot: nat, count: nat)
    requires slot < count
  {
    v % count == Class(slot, count)
  }

  /** The value of the round in which the loop ends: the least fitting number if 32 bits have one, otherwise a number
      of another class. */
  lemma FirstEnd(base: nat, slot: nat, count: nat, w: nat, i: nat)
    requires slot < count <= UMAX && IsNext(w, base, slot, count)
    requires RoundEnds(base, Class(slot, count), count, i)
    requires forall j: nat :: j < i ==> !RoundEnds(base, Class(slot, count), count, j)
    ensures var v := RoundValue(Class(slot, count), count, i); if w <= UMAX then v == w else !InClass(v, slot, count)
  {
    hide *;
    var x := Class(slot, count);
    var v := RoundValue(x, count, i);
    RoundEndsMeans(base, x, count, i);
    if w <= UMAX {
      var j := FittingRound(base, slot, count, w);
      UpToRound(slot, i, j, count, w);
    }
    OnlyNext(v, w, base, slot, count);
  }

  /** Below the least fitting number nothing fits. */
  lemma OnlyNext(v: nat, w: nat, base: nat, slot: nat, count: nat)
    requires slot < count && IsNext(w, base, slot, count) && base <= v <= w
    ensures InClass(v, slot, count) <==> v == w
  {
  }

  lemma FittingRound(base: nat, slot: nat, count: nat, w: nat) returns (j: nat)
    requires slot < count && w <= UMAX && IsNext(w, base, slot, count)
    ensures w == Class(slot, count) + j * count && RoundEnds(base, Class(slot, count), count, j)
  {
    j := w / count;
    assert w == Class(slot, count) + j * count;
  }

  /** Up to the round of w the values do not wrap around and belong to the class. */
  lemma UpToRound(slot: nat, i: nat, j: nat, count: nat, w: nat)
    requires slot < count && i <= j && w == Class(slot, count) + j * count && w <= UMAX
    ensures var v := RoundValue(Class(slot, count), count, i); v <= w && InClass(v, slot, count)
  {
    ProductMonotone(i, j, count);
    ProductMonotone(0, i, count);
    var x := Class(slot, count);
    var n := x + i * count;
    assert RoundValue(x, count, i) == n;
    hide RoundValue, Class;
    DivModUnique(n, i, x, count);
  }

  /** The counting loop of the device, on 32 bits, with no answer if it never ends. It finds the least fitting number if
      32 bits have one; otherwise, if it ends at all, the number it finds belongs to another slot. */
  method NextSeq(base: nat, slot: nat, count: nat, ghost w: nat) returns (v: Option<nat>)
    requires slot < count <= UMAX && IsNext(w, base, slot, count)
    ensures v.Some? <==> LoopEnds(base, Class(slot, count), count)
    ensures v.Some? ==> base <= v.value <= UMAX
    ensures w <= UMAX ==> v == Some(w)
    ensures v.Some? && w > UMAX ==> !InClass(v.value, slot, count)
  {
    var x := (slot + 1) % count;
    assert x == Class(slot, count);
    var i: nat := 0;
    hide RoundEnds, IsNext, InClass, Class;
    while i < 0x1_0000_0000
      invariant i <= 0x1_0000_0000
      invariant forall j: nat :: j < i ==> !RoundEnds(base, x, count, j)
    {
      RoundEndsMeans(base, x, count, i);
      if !(base > U32(x + i * count)) {
        FirstEnd(base, slot, count, w, i);
        return Some(U32(x + i * count));
      }
      i := i + 1;
    }
    RoundsRepeat(base, x, count);
    if w <= UMAX {
      var j := FittingRound(base, slot, count, w);
    }
    return None;
  }

  /** A number of the slot's residue class selects that slot, except that 0 wraps around and then selects the last slot
      only if the number of slots divides 2^32. */
  lemma SlotRecovered(v: nat, slot: nat, count: nat)
    requires slot < count && v <= UMAX && v % count == (slot + 1) % count
    ensures SlotOf(v, count) == slot <==> v > 0 || 0x1_0000_0000 % count == 0
  {
    if v > 0 {
      PreviousResidue(v, slot, count);
    } else {
      DivModUnique(0, 0, 0, count);
      if slot + 1 < count {
        DivModUnique(slot + 1, 0, slot + 1, count);
      }
      LastResidue(0x1_0000_0000, count);
    }
  }

  lemma PreviousResidue(v: nat, slot: nat, count: nat)
    requires slot < count && v > 0 && v % count == (slot + 1) % count
    ensures (v - 1) % count == slot
  {
    var q := v / count;
    if slot + 1 < count {
      DivModUnique(slot + 1, 0, slot + 1, count);
      DivModUnique(v - 1, q, slot, count);
    } else {
      DivModUnique(count, 1, 0, count);
      assert (q - 1) * count == q * count - count;
      DivModUnique(v - 1, q - 1, count - 1, count);
    }
  }

  lemma LastResidue(n: nat, count: nat)
    requires n > 0 && count > 0
    ensures (n - 1) % count == count - 1 <==> n % count == 0
  {
    var q, r := (n - 1) / count, (n - 1) % count;
    if r == count - 1 {
      assert (q + 1) * count == q * count + count;
      DivModUnique(n, q + 1, 0, count);
    } else {
      DivModUnique(n, q, r + 1, count);
    }
  }

  /** With four slots and sequence number 2^32 - 2 the loop looking for slot 0 never ends. */
  lemma LoopCanSpin(i: nat)
    ensures 0xFFFF_FFFE > U32((0 + 1) % 4 + i * 4)
  {
    assert U32(1 + i * 4) % 4 == 1;
  }

  /** With four slots and number 2^32 - 2 the least number for slot 2 is the one that marks a blank entry. */
  lemma BlankNumberFits()
    ensures IsNext(UMAX, UMAX - 1, 2, 4)
  {
  }

  /** With three slots and number 2^32 - 2 no 32-bit number fits slot 0; the loop wraps around and ends with a number
      of slot 2. */
  lemma WrapsToAnotherSlot()
    ensures IsNext(UMAX + 1, UMAX - 1, 0, 3)
    ensures RoundEnds(UMAX - 1, Class(0, 3), 3, 0xAAAA_AAAA)
    ensures InClass(RoundValue(Class(0, 3), 3, 0xAAAA_AAAA), 2, 3)
  {
    assert Class(0, 3) == 1 && Class(2, 3) == 0;
    assert 1 + 0xAAAA_AAAA * 3 == UMAX + 0x1_0000_0000;
  }

  /** The least number from base on that belongs to the slot. */
  ghost function Least(base: nat, slot: nat, count: nat): (w: nat)
    requires slot < count
    ensures IsNext(w, base, slot, count) && w < base + count
  {
    NextThere(base, slot, count);
    var w: nat :| IsNext(w, base, slot, count) && w < base + count;
    w
  }

  lemma NextThere(base: nat, slot: nat, count: nat)
    requires slot < count
    ensures exists w: nat :: IsNext(w, base, slot, count) && w < base + count
  {
    var w := NextExists(base, slot, count);
  }

  /** When power fails during a rewrite; a torn sector is one whose checksum or number is not valid. */
  datatype Cut = Never | BeforeErase | TornErase(e: Entry) | AfterErase | TornWrite(e: Entry) | AfterWrite {
    /** The new entry is in the sector. */
    predicate Written() { Never? || AfterWrite? }
  }

  predicate TearsInvalid(crc: nat -> nat, cut: Cut) {
    cut.TornErase? || cut.TornWrite? ==> !EntryValid(crc, cut.e)
  }

  /** A number that selects its slot: below the blank mark, and positive unless the number of slots divides 2^32. */
  predicate Selects(v: nat, count: nat)
    requires count > 0
  {
    v < UMAX && (v > 0 || 0x1_0000_0000 % count == 0)
  }

  /** A switch to this slot will take effect. */
  ghost predicate Effective(crc: nat -> nat, d: OtaData, slot: nat, count: nat)
    requires slot < count
  {
    match Active(crc, d)
    case None => slot + 1 < UMAX
    case Some(k) => Selects(Least(d.At(k).otaSeq, slot, count), count)
  }

  /** A valid entry whose number is not below that of the other one decides what boots. */
  lemma NewEntryDecides(crc: nat -> nat, d: OtaData, k: nat, e: Entry, count: nat)
    requires k < 2 && count > 0 && EntryValid(crc, e)
    requires EntryValid(crc, d.At(1 - k)) ==> d.At(1 - k).otaSeq <= e.otaSeq
    ensures BootChoice(crc, d.Put(k, e), count) == Slot(SlotOf(e.otaSeq, count))
  {
    hide SlotOf;
  }

  /** Replacing the inactive entry by an invalid one changes nothing. */
  lemma InvalidEntryIgnored(crc: nat -> nat, d: OtaData, k: nat, e: Entry, count: nat)
    requires k < 2 && !EntryValid(crc, e)
    requires Active(crc, d).None? || Active(crc, d) == Some(1 - k)
    ensures BootChoice(crc, d.Put(k, e), count) == BootChoice(crc, d, count)
  {
    hide SlotOf;
  }

  /** A positive number selects exactly the slot of its class. */
  lemma SlotExactly(v: nat, slot: nat, count: nat)
    requires slot < count && 0 < v <= UMAX
    ensures SlotOf(v, count) == slot <==> InClass(v, slot, count)
  {
    if InClass(v, slot, count) {
      SlotRecovered(v, slot, count);
    } else {
      var s := (v - 1) % count;
      assert SlotOf(v, count) == s;
      if s == slot {
        NextResidue(v, slot, count);
      }
    }
  }

  lemma NextResidue(v: nat, slot: nat, count: nat)
    requires slot < count && v > 0 && (v - 1) % count == slot
    ensures v % count == (slot + 1) % count
  {
    var q := (v - 1) / count;
    assert v == q * count + (slot + 1);
    if slot + 1 < count {
      DivModUnique(v, q, slot + 1, count);
      DivModUnique(slot + 1, 0, slot + 1, count);
    } else {
      assert (q + 1) * count == q * count + count;
      DivModUnique(v, q + 1, 0, count);
      DivModUnique(count, 1, 0, count);
    }
  }

  /** What the number found by the loop selects: the requested slot if it is the least fitting one and usable. */
  lemma FoundSelects(base: nat, slot: nat, count: nat, w: nat, v: nat)
    requires slot < count <= UMAX && IsNext(w, base, slot, count) && w < base + count && base <= v < UMAX
    requires if w <= UMAX then v == w else !InClass(v, slot, count)
    ensures SlotOf(v, count) == slot <==> Selects(w, count)
  {
    if w <= UMAX {
      SlotRecovered(w, slot, count);
    } else {
      SlotExactly(v, slot, count);
    }
  }

  /** If the least fitting number is the blank mark or beyond, the current number does not select the slot. */
  lemma NotThereYet(base: nat, slot: nat, count: nat, w: nat)
    requires slot < count <= UMAX && IsNext(w, base, slot, count) && w < base + count && base < UMAX <= w
    ensures SlotOf(base, count) != slot
  {
    hide SlotOf;
    OnlyNext(base, w, base, slot, count);
    SlotExactly(base, slot, count);
  }

  /** The entry that a switch writes makes the requested slot boot exactly if the switch is effective. */
  lemma SwitchBoots(crc: nat -> nat, d: OtaData, slot: nat, count: nat, v: nat, state: ImgState)
    requires slot < count <= UMAX && !state.Invalid? && !state.Aborted? && v <= UMAX
    requires d.e0.otaSeq <= UMAX && d.e1.otaSeq <= UMAX
    requires Active(crc, d).None? ==> v == slot + 1
    requires Active(crc, d).Some? ==>
      var base := d.At(Active(crc, d).value).otaSeq;
      var w := Least(base, slot, count);
      base <= v && if w <= UMAX then v == w else !InClass(v, slot, count)
    ensures var k := if Active(crc, d) == Some(0) then 1 else 0;
      BootChoice(crc, d.Put(k, Entry(v, state, crc(v))), count) == Slot(slot) <==> Effective(crc, d, slot, count)
  {
    var active := Active(crc, d);
    var k := if active == Some(0) then 1 else 0;
    var e := Entry(v, state, crc(v));
    hide SlotOf, BootChoice, Least, IsNext, InClass;
    if active.None? {
      if v < UMAX {
        NewEntryDecides(crc, d, k, e, count);
      } else {
        InvalidEntryIgnored(crc, d, k, e, count);
        NothingBoots(crc, d, count);
      }
      FirstNumber(slot, count);
    } else {
      var base := d.At(active.value).otaSeq;
      var w := Least(base, slot, count);
      if v < UMAX {
        NewEntryDecides(crc, d, k, e, count);
        FoundSelects(base, slot, count, w, v);
      } else {
        InvalidEntryIgnored(crc, d, k, e, count);
        ActiveBoots(crc, d, count);
        NotThereYet(base, slot, count, w);
      }
    }
  }

  lemma NothingBoots(crc: nat -> nat, d: OtaData, count: nat)
    requires Active(crc, d).None?
    ensures BootChoice(crc, d, count) == Default
  {
  }

  lemma ActiveBoots(crc: nat -> nat, d: OtaData, count: nat)
    requires Active(crc, d).Some? && count > 0
    ensures BootChoice(crc, d, count) == Slot(SlotOf(d.At(Active(crc, d).value).otaSeq, count))
  {
    hide SlotOf;
  }

  /** On a blank record the number is the slot plus one. */
  lemma FirstNumber(slot: nat, count: nat)
    requires slot < count <= UMAX
    ensures SlotOf(slot + 1, count) == slot
  {
    DivModUnique(slot, 0, slot, count);
  }

  datatype Result = Done | InvalidArg | Spins | PowerLost

  /** The otadata partition. */
  class OtaStore {
    var d: OtaData
    const count: nat

    constructor Blank(count: nat)
      ensures d == OtaData(BLANK, BLANK) && this.count == count
    {
      d, this.count := OtaData(BLANK, BLANK), count;
    }

    /** Both numbers are 32-bit numbers, and so is the number of slots. */
    ghost predicate Sized()
      reads this
    {
      d.e0.otaSeq <= UMAX && d.e1.otaSeq <= UMAX && count <= UMAX
    }

    /** Erase one sector and write the new entry into it, unless power fails on the way. */
    method RewriteSector(k: nat, e: Entry, cut: Cut) returns (r: Result)
      requires k < 2
      modifies this
      ensures r == if cut.Never? then Done else PowerLost
      ensures cut.Written() ==> d == old(d).Put(k, e)
      ensures cut.BeforeErase? ==> d == old(d)
      ensures cut.AfterErase? ==> d == old(d).Put(k, BLANK)
      ensures cut.TornErase? || cut.TornWrite? ==> d == old(d).Put(k, cut.e)
    {
      if cut.BeforeErase? { return PowerLost; }
      if cut.TornErase? { d := d.Put(k, cut.e); return PowerLost; }
      d := d.Put(k, BLANK);
      if cut.AfterErase? { return PowerLost; }
      if cut.TornWrite? { d := d.Put(k, cut.e); return PowerLost; }
      d := d.Put(k, e);
      if cut.AfterWrite? { return PowerLost; }
      return Done;
    }

    /** The counting loop for this slot never ends. */
    ghost predicate Stalls(crc: nat -> nat, slot: nat)
      requires slot < count
      reads this
    {
      Active(crc, d).Some? && !LoopEnds(d.At(Active(crc, d).value).otaSeq, Class(slot, count), count)
    }

    /** The number to write for a slot and the sector to put it in, if the counting loop ends. */
    method Choose(crc: nat -> nat, slot: nat) returns (v: Option<nat>, next: nat)
      requires Sized() && slot < count
      ensures next == if Active(crc, d) == Some(0) then 1 else 0
      ensures Active(crc, d).None? ==> v == Some(slot + 1)
      ensures Active(crc, d).Some? ==>
        var base := d.At(Active(crc, d).value).otaSeq;
        var w := Least(base, slot, count);
        && (v.Some? <==> LoopEnds(base, Class(slot, count), count))
        && (v.Some? ==> base <= v.value && if w <= UMAX then v.value == w else !InClass(v.value, slot, count))
      ensures v.Some? ==> v.value <= UMAX
    {
      hide IsNext, LoopEnds, InClass, Least;
      var active := Active(crc, d);
      v, next := Some(slot + 1), 0;
      if active.Some? {
        ghost var w := Least(d.At(active.value).otaSeq, slot, count);
        v := NextSeq(d.At(active.value).otaSeq, slot, count, w);
        next := 1 - active.value;
      }
    }

    /** Make a slot boot next: write the number found into the sector that is not active. A completed switch boots the
        requested slot exactly if it is effective; an interrupted one boots what a completed one would or what booted
        before, and the active entry is never touched. */
    method Switch(crc: nat -> nat, slot: nat, state: ImgState, cut: Cut) returns (r: Result)
      requires Sized() && TearsInvalid(crc, cut) && !state.Invalid? && !state.Aborted?
      requires cut.TornErase? || cut.TornWrite? ==> cut.e.otaSeq <= UMAX
      modifies this
      ensures Sized()
      ensures r.InvalidArg? <==> slot >= count
      ensures r.Spins? <==> slot < count && old(Stalls(crc, slot))
      ensures r.InvalidArg? || r.Spins? ==> d == old(d)
      ensures r.Done? ==> cut.Never?
      ensures r.PowerLost? ==> !cut.Never?
      ensures r.Done? || (r.PowerLost? && cut.AfterWrite?) ==>
        (BootChoice(crc, d, count) == Slot(slot) <==> old(Effective(crc, d, slot, count)))
      ensures r.PowerLost? && !cut.AfterWrite? ==> BootChoice(crc, d, count) == old(BootChoice(crc, d, count))
      ensures old(Active(crc, d).Some?) ==>
        var k := old(Active(crc, d)).value; d.At(k) == old(d).At(k)
      ensures r.Done? || (r.PowerLost? && cut.AfterWrite?) ==>
        var k := if old(Active(crc, d)) == Some(0) then 1 else 0;
        var v := d.At(k).otaSeq;
        && d == old(d).Put(k, Entry(v, state, crc(v)))
        && (old(Active(crc, d).None?) ==> v == slot + 1)
        && (old(Active(crc, d).Some?) ==>
              var w := Least(old(d.At(Active(crc, d).value).otaSeq), slot, count);
              if w <= UMAX then v == w else !InClass(v, slot, count))
      ensures r.PowerLost? && !cut.AfterWrite? ==>
        var k := if old(Active(crc, d)) == Some(0) then 1 else 0;
        d == old(d) || (d == old(d).Put(k, d.At(k)) && !EntryValid(crc, d.At(k)))
    {
      hide Least, LoopEnds, InClass, BootChoice;
      if slot >= count {
        return InvalidArg;
      }
      var v, next := Choose(crc, slot);
      if v.None? {
        return Spins;
      }
      SwitchBoots(crc, d, slot, count, v.value, state);
      InvalidEntryIgnored(crc, d, next, BLANK, count);
      if cut.TornErase? || cut.TornWrite? {
        InvalidEntryIgnored(crc, d, next, cut.e, count);
      }
      r := RewriteSector(next, Entry(v.value, state, crc(v.value)), cut);
    }

    /** One request: what is to boot then does, exactly if the number it calls for is usable. */
    method Serve(crc: nat -> nat, r: Request)
      requires Sized() && r.Proper(crc)
      modifies this
      ensures Sized()
      ensures BootChoice(crc, d, count) == (if r.Writes(count) then Slot(r.slot) else old(BootChoice(crc, d, count)))
         <==> Usable(old(Number(crc, d)), r, count)
      ensures Usable(old(Number(crc, d)), r, count) ==> Number(crc, d) == NumberNext(old(Number(crc, d)), r, count)
    {
      hide Least, InClass, BootChoice;
      ghost var was := d;
      if r.slot < count {
        NotSelected(crc, d, r.slot, count);
      }
      hide LoopEnds;
      var res := Switch(crc, r.slot, r.state, r.cut);
      if res.Done? || (res.PowerLost? && r.cut.AfterWrite?) {
        NumberWritten(crc, was, r.slot, count, d);
      }
    }

    /** Over any run of switches from any record, with power failing wherever it likes: as long as every number called
        for is usable, what boots is the slot of the last entry written; the first one that is not breaks this. */
    method Run(crc: nat -> nat, requests: seq<Request>)
      requires Sized() && forall i :: 0 <= i < |requests| ==> requests[i].Proper(crc)
      modifies this
      ensures AllUsable(old(Number(crc, d)), requests, count) ==>
        BootChoice(crc, d, count) == LastWritten(old(BootChoice(crc, d, count)), requests, count)
      ensures requests != [] && AllUsable(old(Number(crc, d)), requests[..|requests| - 1], count) ==>
        (BootChoice(crc, d, count) == LastWritten(old(BootChoice(crc, d, count)), requests, count)
         <==> AllUsable(old(Number(crc, d)), requests, count))
    {
      if requests == [] {
        return;
      }
      var n := |requests| - 1;
      ghost var first := requests[..n];
      assert requests[..0] == [];
      hide BootChoice, Number, Usable, NumberNext;
      for i := 0 to n
        invariant Sized()
        invariant AllUsable(old(Number(crc, d)), first, count) ==>
          && Number(crc, d) == NumberAfter(old(Number(crc, d)), requests[..i], count)
          && BootChoice(crc, d, count) == LastWritten(old(BootChoice(crc, d, count)), requests[..i], count)
      {
        if AllUsable(old(Number(crc, d)), first, count) {
          UsableUpTo(old(Number(crc, d)), first, count, i + 1);
        }
        assert requests[..i + 1] == requests[..i] + [requests[i]] && first[..i + 1] == requests[..i + 1];
        OneMoreRequest(old(Number(crc, d)), old(BootChoice(crc, d, count)), requests[..i], requests[i], count);
        Serve(crc, requests[i]);
      }
      assert requests == requests[..n] + [requests[n]];
      OneMoreRequest(old(Number(crc, d)), old(BootChoice(crc, d, count)), requests[..n], requests[n], count);
      Serve(crc, requests[n]);
    }
  }

  datatype Request = Request(slot: nat, state: ImgState, cut: Cut) {
    predicate Proper(crc: nat -> nat) {
      && TearsInvalid(crc, cut) && !state.Invalid? && !state.Aborted?
      && (cut.TornErase? || cut.TornWrite? ==> cut.e.otaSeq <= UMAX)
    }

    /** The slot exists and power lasts until its entry is written. */
    predicate Writes(count: nat) { slot < count && cut.Written() }
  }

  /** The number that counts at present. */
  function Number(crc: nat -> nat, d: OtaData): (n: Option<nat>) {
    match Active(crc, d)
    case None => None
    case Some(k) => Some(d.At(k).otaSeq)
  }

  /** The number that a switch to a slot calls for. */
  ghost function NumberFor(now: Option<nat>, slot: nat, count: nat): (v: nat)
    requires slot < count
  {
    if now.None? then slot + 1 else Least(now.value, slot, count)
  }

  /** A request that is carried out calls for a number that selects its slot. */
  ghost predicate Usable(now: Option<nat>, r: Request, count: nat) {
    r.Writes(count) ==> Selects(NumberFor(now, r.slot, count), count)
  }

  ghost function NumberNext(now: Option<nat>, r: Request, count: nat): (n: Option<nat>) {
    if r.Writes(count) then Some(NumberFor(now, r.slot, count)) else now
  }

  /** The number after a run of requests. */
  ghost function NumberAfter(now: Option<nat>, requests: seq<Request>, count: nat): (n: Option<nat>) {
    if requests == [] then now else
      NumberNext(NumberAfter(now, requests[..|requests| - 1], count), requests[|requests| - 1], count)
  }

  /** Every number that a run of requests calls for is usable. */
  ghost predicate AllUsable(now: Option<nat>, requests: seq<Request>, count: nat) {
    requests == [] ||
    (var before := requests[..|requests| - 1];
     AllUsable(now, before, count) && Usable(NumberAfter(now, before, count), requests[|requests| - 1], count))
  }

  /** What boots after a run of requests. */
  function LastWritten(was: Boot, requests: seq<Request>, count: nat): (b: Boot) {
    if requests == [] then was else
      var last := requests[|requests| - 1];
      if last.Writes(count) then Slot(last.slot) else LastWritten(was, requests[..|requests| - 1], count)
  }

  lemma OneMoreRequest(now: Option<nat>, was: Boot, requests: seq<Request>, r: Request, count: nat)
    ensures NumberAfter(now, requests + [r], count) == NumberNext(NumberAfter(now, requests, count), r, count)
    ensures AllUsable(now, requests + [r], count)
       <==> AllUsable(now, requests, count) && Usable(NumberAfter(now, requests, count), r, count)
    ensures LastWritten(was, requests + [r], count)
         == if r.Writes(count) then Slot(r.slot) else LastWritten(was, requests, count)
  {
    assert (requests + [r])[..|requests|] == requests;
  }

  lemma {:induction false} UsableUpTo(now: Option<nat>, requests: seq<Request>, count: nat, i: nat)
    requires AllUsable(now, requests, count) && i <= |requests|
    ensures AllUsable(now, requests[..i], count)
    decreases |requests|
  {
    if i < |requests| {
      UsableUpTo(now, requests[..|requests| - 1], count, i);
      assert requests[..|requests| - 1][..i] == requests[..i];
    } else {
      assert requests[..i] == requests;
    }
  }

  /** A switch whose number is not usable finds another slot booting, and its loop ends if the number is usable. */
  lemma NotSelected(crc: nat -> nat, d: OtaData, slot: nat, count: nat)
    requires slot < count <= UMAX && d.e0.otaSeq <= UMAX && d.e1.otaSeq <= UMAX
    ensures Effective(crc, d, slot, count) <==> Selects(NumberFor(Number(crc, d), slot, count), count)
    ensures Active(crc, d).Some? && !LoopEnds(d.At(Active(crc, d).value).otaSeq, Class(slot, count), count) ==>
      !Effective(crc, d, slot, count) && BootChoice(crc, d, count) != Slot(slot)
  {
    hide BootChoice, SlotOf, InClass, IsNext, RoundEnds;
    if Active(crc, d).Some? {
      var base := d.At(Active(crc, d).value).otaSeq;
      var w := Least(base, slot, count);
      if w <= UMAX {
        var j := FittingRound(base, slot, count, w);
      } else {
        NotThereYet(base, slot, count, w);
        ActiveBoots(crc, d, count);
      }
    }
  }

  /** The number of a valid entry written into the inactive sector counts from then on. */
  lemma NumberWritten(crc: nat -> nat, d: OtaData, slot: nat, count: nat, d': OtaData)
    requires slot < count <= UMAX
    requires var k := if Active(crc, d) == Some(0) then 1 else 0;
      var v := d'.At(k).otaSeq;
      && d' == d.Put(k, d'.At(k)) && !d'.At(k).Marked() && d'.At(k).crc == crc(v)
      && (Active(crc, d).None? ==> v == slot + 1)
      && (Active(crc, d).Some? ==>
            var w := Least(d.At(Active(crc, d).value).otaSeq, slot, count);
            if w <= UMAX then v == w else !InClass(v, slot, count))
    ensures Selects(NumberFor(Number(crc, d), slot, count), count) ==>
      Number(crc, d') == Some(NumberFor(Number(crc, d), slot, count))
  {
    hide InClass;
  }

  /** Runs from a blank record that are short enough not to exhaust the numbers are usable throughout. */
  lemma {:induction false} ShortRunsUsable(requests: seq<Request>, count: nat)
    requires (|requests| + 1) * count < UMAX
    ensures AllUsable(None, requests, count)
    ensures var n := NumberAfter(None, requests, count); n.Some? ==> 1 <= n.value <= |requests| * count
    decreases |requests|
  {
    if requests != [] {
      var k := |requests| - 1;
      assert (k + 2) * count == k * count + count + count && (k + 1) * count == k * count + count;
      ShortRunsUsable(requests[..k], count);
      hide Least, IsNext;
      var now := NumberAfter(None, requests[..k], count);
      if requests[k].slot < count && now.Some? {
        LeastNear(now.value, requests[k].slot, count);
      }
    }
  }

  lemma LeastNear(base: nat, slot: nat, count: nat)
    requires slot < count
    ensures base <= Least(base, slot, count) < base + count
  {
  }

  /** The host tool looks at number and checksum only. */
  predicate ToolValid(crc: nat -> nat, e: Entry) {
    e.otaSeq < UMAX && e.crc == crc(e.otaSeq)
  }

  /** The entry the host tool counts on from. */
  function ToolBase(crc: nat -> nat, d: OtaData): (k: Option<nat>)
    ensures k.Some? ==> k.value < 2
  {
    if ToolValid(crc, d.e0) && ToolValid(crc, d.e1) then
      if d.e0.otaSeq >= d.e1.otaSeq then Some(0) else Some(1)
    else if ToolValid(crc, d.e0) then Some(0)
    else if ToolValid(crc, d.e1) then Some(1)
    else None
  }

  /** Tool and device start from the same entry exactly when the tool's choice is not marked invalid or aborted. */
  lemma ToolAgrees(crc: nat -> nat, d: OtaData)
    requires d.e0.otaSeq <= UMAX && d.e1.otaSeq <= UMAX
    ensures ToolBase(crc, d) == Active(crc, d)
       <==> (ToolBase(crc, d).Some? ==> !d.At(ToolBase(crc, d).value).Marked())
  {
  }

  /** The record the tool writes: number and checksum are new, the state of the sector is kept. */
  function ToolRecord(crc: nat -> nat, d: OtaData, v: nat, sector: nat): (d': OtaData) {
    d.Put(sector, Entry(v, d.At(sector).state, crc(v)))
  }

  /** The host tool's computation of the next number and of the sector to put it in; a number that does not fit 32 bits
      cannot be packed. */
  method ToolSwitch(crc: nat -> nat, d: OtaData, slot: nat, count: nat)
    returns (v: nat, sector: nat, record: Option<OtaData>)
    requires slot < count && d.e0.otaSeq <= UMAX && d.e1.otaSeq <= UMAX
    ensures ToolBase(crc, d).None? ==> v == slot + 1 && sector == 0
    ensures ToolBase(crc, d).Some? ==>
      sector == 1 - ToolBase(crc, d).value && v == Least(d.At(ToolBase(crc, d).value).otaSeq, slot, count)
    ensures record == if v <= UMAX then Some(ToolRecord(crc, d, v, sector)) else None
  {
    var from := ToolBase(crc, d);
    v := slot + 1;
    if from.Some? {
      v := ToolCount(d.At(from.value).otaSeq, slot, count);
      NextUnique(v, Least(d.At(from.value).otaSeq, slot, count), d.At(from.value).otaSeq, slot, count);
    }
    sector := if from == Some(0) then 1 else 0;
    record := if v <= UMAX then Some(ToolRecord(crc, d, v, sector)) else None;
  }

  /** The tool's counting loop, on unbounded numbers. */
  method ToolCount(base: nat, slot: nat, count: nat) returns (v: nat)
    requires slot < count
    ensures IsNext(v, base, slot, count)
  {
    var x := (slot + 1) % count;
    var i := 0;
    assert NoneBefore(x + i * count, base, x, count) by {
      FirstRound(base, x, count);
    }
    hide NoneBefore;
    while base > x + i * count
      invariant NoneBefore(x + i * count, base, x, count)
      decreases base - i * count
    {
      NextRound(base, x, i, count);
      i := i + 1;
    }
    v := x + i * count;
    DivModUnique(v, i, x, count);
  }

  /** The tool's switch boots the requested slot exactly if its number selects it and the state kept in the sector is
      not invalid or aborted, or if the other entry alone boots that slot anyway. */
  lemma ToolBoots(crc: nat -> nat, d: OtaData, slot: nat, count: nat, v: nat, sector: nat)
    requires slot < count <= UMAX && d.e0.otaSeq <= UMAX && d.e1.otaSeq <= UMAX && v <= UMAX
    requires ToolBase(crc, d).None? ==> v == slot + 1 && sector == 0
    requires ToolBase(crc, d).Some? ==>
      sector == 1 - ToolBase(crc, d).value && v == Least(d.At(ToolBase(crc, d).value).otaSeq, slot, count)
    ensures BootChoice(crc, ToolRecord(crc, d, v, sector), count) == Slot(slot)
       <==> (Selects(v, count) && !d.At(sector).Marked()) || BootChoice(crc, d.Put(sector, BLANK), count) == Slot(slot)
  {
    var e := Entry(v, d.At(sector).state, crc(v));
    hide SlotOf, BootChoice, Least;
    if EntryValid(crc, e) {
      NewEntryDecides(crc, d, sector, e, count);
      ToolNumber(crc, d, slot, count, v);
      OtherAlone(crc, d, sector, count);
    } else {
      SameWhenInvalid(crc, d, sector, e, BLANK, count);
    }
  }

  lemma ToolNumber(crc: nat -> nat, d: OtaData, slot: nat, count: nat, v: nat)
    requires slot < count <= UMAX && v < UMAX
    requires ToolBase(crc, d).None? ==> v == slot + 1
    requires ToolBase(crc, d).Some? ==> v == Least(d.At(ToolBase(crc, d).value).otaSeq, slot, count)
    ensures SlotOf(v, count) == slot <==> Selects(v, count)
    ensures ToolBase(crc, d).Some? ==> v >= d.At(ToolBase(crc, d).value).otaSeq
  {
    if ToolBase(crc, d).None? {
      FirstNumber(slot, count);
    } else {
      SlotRecovered(v, slot, count);
    }
  }

  /** What the other entry boots if this sector is blank. */
  lemma OtherAlone(crc: nat -> nat, d: OtaData, sector: nat, count: nat)
    requires sector < 2 && count > 0
    ensures BootChoice(crc, d.Put(sector, BLANK), count)
         == if EntryValid(crc, d.At(1 - sector)) then Slot(SlotOf(d.At(1 - sector).otaSeq, count)) else Default
  {
    hide SlotOf;
  }

  lemma SameWhenInvalid(crc: nat -> nat, d: OtaData, sector: nat, e: Entry, f: Entry, count: nat)
    requires sector < 2 && !EntryValid(crc, e) && !EntryValid(crc, f)
    requires (e.otaSeq == UMAX || e.Marked()) && (f.otaSeq == UMAX || f.Marked())
    ensures BootChoice(crc, d.Put(sector, e), count) == BootChoice(crc, d.Put(sector, f), count)
  {
    hide SlotOf;
  }

  /** The tool keeps an aborted state and its switch is lost: number 3 in sector 0 is valid, sector 1 is aborted. */
  lemma ToolKeepsAborted(crc: nat -> nat)
    ensures var d := OtaData(Entry(3, Accepted, crc(3)), Entry(2, Aborted, crc(2)));
      && ToolBase(crc, d) == Some(0) && IsNext(4, 3, 1, 2)
      && BootChoice(crc, ToolRecord(crc, d, 4, 1), 2) == Slot(0)
  {
  }

  /** Host tool and device write the same number into the same sector whenever they start from the same entry; the
      tool keeps the state that the device sets. */
  method BothSwitch(store: OtaStore, crc: nat -> nat, slot: nat, state: ImgState)
    returns (v: nat, sector: nat, record: Option<OtaData>)
    requires store.Sized() && slot < store.count && !state.Invalid? && !state.Aborted?
    requires ToolBase(crc, store.d).Some? ==> !store.d.At(ToolBase(crc, store.d).value).Marked()
    modifies store
    ensures record.Some? ==>
      && record.value == ToolRecord(crc, old(store.d), v, sector)
      && store.d == old(store.d).Put(sector, Entry(v, state, crc(v)))
  {
    ToolAgrees(crc, store.d);
    v, sector, record := ToolSwitch(crc, store.d, slot, store.count);
    hide Least, LoopEnds, InClass, BootChoice, Effective;
    if record.Some? && Active(crc, store.d).Some? {
      var j := FittingRound(store.d.At(1 - sector).otaSeq, slot, store.count, v);
      RoundMeansEnds(store.d.At(1 - sector).otaSeq, Class(slot, store.count), store.count, j);
    }
    var _ := store.Switch(crc, slot, state, Never);
  }

  lemma RoundMeansEnds(base: nat, x: nat, count: nat, i: nat)
    requires RoundEnds(base, x, count, i)
    ensures LoopEnds(base, x, count)
  {
  }

  /** If the newer entry is marked aborted, the tool overwrites the very entry the device boots from. */
  lemma ToolOverwritesActive(crc: nat -> nat)
    ensures var d := OtaData(Entry(5, Aborted, crc(5)), Entry(4, Accepted, crc(4)));
      ToolBase(crc, d) == Some(0) && Active(crc, d) == Some(1)
  {
  }
}
