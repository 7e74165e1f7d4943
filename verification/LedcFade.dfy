/** Interrupt-driven duty fades: the hardware ramps a limited number of steps, an interrupt programs the next ramp. */
module LedcFade {
  import opened Basics
  import opened Modular

  datatype Direction = Increase | Decrease
  datatype Fsm = IdleState | HwFade

  /** A hardware ramp: start duty, direction, number of steps and duty change per step. */
  datatype Ramp = Ramp(start: nat, dir: Direction, num: nat, scale: nat) {
    /** Duty after i steps. */
    function At(i: nat): (d: int) { if dir.Increase? then start + i * scale else start - i * scale }

    /** Duty when the ramp is over. */
    function End(): (d: int) { At(num) }

    /** The duties that the hardware goes through. */
    function Duties(): (s: seq<int>)
      ensures |s| >= 1
    {
      if num == 0 || scale == 0 then [start] else seq(num + 1, i requires 0 <= i => At(i))
    }
  }

  /** How far a duty still is from the target in the given direction. */
  function Distance(duty: int, target: int, dir: Direction): (d: int) {
    if dir.Decrease? then duty - target else target - duty
  }

  /** As many steps as the hardware can make in one ramp without passing a target at this distance. */
  predicate Fullest(num: nat, delta: int, scale: nat, maxSteps: nat) {
    num <= maxSteps && num * scale <= delta && (num == maxSteps || (num + 1) * scale > delta)
  }

  /** The duties come nearer to the target without passing it, by no more than one step width at a time. */
  ghost predicate Smooth(s: seq<int>, target: int, dir: Direction, scale: nat) {
    && (forall i :: 0 <= i < |s| ==> Distance(s[i], target, dir) >= 0)
    && (forall i :: 0 < i < |s| ==> Near(s[i - 1], s[i], target, dir, scale))
  }

  predicate Near(a: int, b: int, target: int, dir: Direction, scale: nat) {
    0 <= Distance(a, target, dir) - Distance(b, target, dir) <= scale
  }

  lemma SmoothAppend(a: seq<int>, b: seq<int>, target: int, dir: Direction, scale: nat)
    requires Smooth(a, target, dir, scale) && Smooth(b, target, dir, scale) && a != [] && b != []
    requires Near(a[|a| - 1], b[0], target, dir, scale)
    ensures Smooth(a + b, target, dir, scale)
  {
    var s := a + b;
    forall i | 0 < i < |s|
      ensures Near(s[i - 1], s[i], target, dir, scale)
    {
      if i > |a| {
        assert s[i - 1] == b[i - 1 - |a|] && s[i] == b[i - |a|];
      }
    }
  }

  /** The duties of a ramp that goes towards the target and does not pass it. */
  lemma RampSmooth(r: Ramp, target: int)
    requires Distance(r.start, target, r.dir) >= r.num * r.scale
    ensures Smooth(r.Duties(), target, r.dir, r.scale)
    ensures r.Duties()[0] == r.start && r.Duties()[|r.Duties()| - 1] == r.End()
  {
    var s, delta := r.Duties(), Distance(r.start, target, r.dir);
    if r.num == 0 || r.scale == 0 {
      ZeroRamp(r);
    } else {
      forall i | 0 <= i < |s|
        ensures s[i] == r.At(i) && Distance(s[i], target, r.dir) == delta - i * r.scale
        ensures i * r.scale <= r.num * r.scale
      {
        ProductMonotone(i, r.num, r.scale);
      }
      forall i | 0 < i < |s|
        ensures Near(s[i - 1], s[i], target, r.dir, r.scale)
      {
        assert i * r.scale == (i - 1) * r.scale + r.scale;
      }
    }
  }

  /** Interrupts until the fade is idle, counted from the end of a ramp that stopped `delta` short of the target. */
  function Interrupts(delta: nat, scale: nat, maxSteps: nat): (n: nat)
    requires scale > 0 && maxSteps > 0
    decreases delta
  {
    if delta == 0 then 1
    else if delta <= scale then 2
    else
      StepsAdvance(delta, scale, maxSteps);
      1 + Interrupts(delta - Min(maxSteps, delta / scale) * scale, scale, maxSteps)
  }

  /** A ramp of as many whole steps as fit goes forward and does not overshoot. */
  lemma StepsAdvance(delta: nat, scale: nat, maxSteps: nat)
    requires scale > 0 && maxSteps > 0
    ensures 0 <= Min(maxSteps, delta / scale) * scale <= delta
    ensures delta >= scale ==> Min(maxSteps, delta / scale) * scale >= scale
  {
    var q, m := delta / scale, Min(maxSteps, delta / scale);
    assert delta == q * scale + delta % scale;
    assert q * scale == m * scale + (q - m) * scale && (q - m) * scale >= 0;
    if delta >= scale {
      assert q >= 1;
      ProductAtLeast(m, scale);
    }
  }

  /** A full ramp costs one interrupt; once the rest fits into one ramp, three more are enough. */
  lemma InterruptsStep(delta: nat, scale: nat, maxSteps: nat)
    requires scale > 0 && maxSteps > 0
    ensures delta / scale <= maxSteps ==> Interrupts(delta, scale, maxSteps) <= 3
    ensures delta / scale > maxSteps ==>
      && 0 <= delta - maxSteps * scale < delta
      && Interrupts(delta, scale, maxSteps) <= 1 + Interrupts(delta - maxSteps * scale, scale, maxSteps)
  {
    StepsAdvance(delta, scale, maxSteps);
    if delta > scale && delta / scale <= maxSteps {
      assert delta - delta / scale * scale == delta % scale;
    } else if delta <= scale && delta / scale > maxSteps {
      DivModUnique(delta, if delta == scale then 1 else 0, if delta == scale then 0 else delta, scale);
    }
  }

  /** The number of interrupts is bounded by the number of full hardware ramps plus three. */
  lemma {:induction false} InterruptsBounded(delta: nat, scale: nat, maxSteps: nat, ramp: nat)
    requires scale > 0 && maxSteps > 0 && ramp == maxSteps * scale && ramp > 0
    ensures Interrupts(delta, scale, maxSteps) <= delta / ramp + 3
    decreases delta
  {
    hide Interrupts;
    InterruptsStep(delta, scale, maxSteps);
    if delta / scale > maxSteps {
      InterruptsBounded(delta - ramp, scale, maxSteps, ramp);
      OneRampLess(delta, ramp);
    }
  }

  lemma OneRampLess(delta: nat, w: nat)
    requires 0 < w <= delta
    ensures (delta - w) / w + 1 == delta / w
  {
    var q, r := delta / w, delta % w;
    assert delta - w == (q - 1) * w + r by {
      assert (q - 1) * w == q * w - w;
    }
    DivModUnique(delta - w, q - 1, r, w);
  }

  /** A ramp that travels no further than the distance to the target ends on the near side of it. */
  lemma StaysShort(r: Ramp, target: nat, delta: nat)
    requires delta == Distance(r.start, target, r.dir) && 0 <= r.num * r.scale <= delta
    ensures r.End() >= 0 && 0 <= Distance(r.End(), target, r.dir) <= delta
  {
    var travel := r.num * r.scale;
    assert r.End() == if r.dir.Increase? then r.start + travel else r.start - travel;
  }

  lemma ZeroRamp(r: Ramp)
    requires r.num == 0 || r.scale == 0
    ensures r.End() == r.start
  {
  }

  class Channel {
    const maxDuty: nat
    const maxSteps: nat
    var ramp: Ramp
    var target: nat
    var scale: nat
    var dir: Direction
    var fsm: Fsm

    constructor (maxDuty: nat, maxSteps: nat)
      requires maxDuty > 0 && maxSteps > 0
      ensures this.maxDuty == maxDuty && this.maxSteps == maxSteps && fsm.IdleState?
    {
      this.maxDuty, this.maxSteps := maxDuty, maxSteps;
      ramp, target, scale, dir, fsm := Ramp(0, Decrease, 0, 0), 0, 0, Decrease, IdleState;
    }

    /** The running ramp ends on the near side of the target, and exactly on it if no step width is set. */
    ghost predicate OnTrack()
      reads this
    {
      && maxDuty > 0 && maxSteps > 0
      && ramp.End() >= 0 && Distance(ramp.End(), target, dir) >= 0
      && (scale == 0 ==> ramp.End() == target)
    }

    /** The ramp starts at this duty and has the most steps that do not pass the target. */
    ghost predicate GoesOn(from: int)
      reads this
    {
      && ramp.start == from && ramp.dir == dir && ramp.scale == scale && ramp.num > 0
      && Fullest(ramp.num, Distance(from, target, dir), scale, maxSteps)
    }

    /** The ramp just sets the target. */
    ghost predicate Jumps()
      reads this
    {
      ramp.Duties() == [target as int]
    }

    /** Start a fade from the current duty; a start at maximum duty first drops by one. */
    method SetFade(duty: nat, target: nat, scale: nat)
      requires maxDuty > 0 && maxSteps > 0 && duty <= maxDuty
      modifies this
      ensures OnTrack() && fsm.HwFade? && this.target == target && this.scale == scale
      ensures scale > 0 ==>
        var from := if duty == maxDuty then duty - 1 else duty;
        && dir == (if from > target then Decrease else Increase)
        && 0 <= Distance(ramp.End(), target, dir) <= Distance(from, target, dir)
        && if Distance(from, target, dir) >= scale then GoesOn(from) else Jumps()
      ensures scale == 0 ==> Jumps()
    {
      var from := if duty == maxDuty then duty - 1 else duty;
      this.target, this.scale := target, scale;
      var delta := if from > target then from - target else target - from;
      var steps := 0;
      if scale > 0 {
        dir := if from > target then Decrease else Increase;
        steps := Min(maxSteps, delta / scale);
        StepsAdvance(delta, scale, maxSteps);
        StepsExactly(steps, delta, scale, maxSteps);
      }
      hide Min, Ramp.End, Fullest;
      if scale > 0 && steps > 0 {
        ramp := Ramp(from, dir, steps, scale);
        StaysShort(ramp, target, delta);
      } else {
        ramp := Ramp(target, dir, 0, 0);
        ZeroRamp(ramp);
      }
      fsm := HwFade;
    }

    /** The fade-end interrupt: the duty has reached the end of the ramp; stop or program the next ramp. */
    method FadeEnd()
      requires OnTrack() && fsm.HwFade?
      modifies this
      ensures OnTrack() && target == old(target) && scale == old(scale) && dir == old(dir)
      ensures fsm.IdleState? <==> old(ramp.End()) == target
      ensures fsm.IdleState? ==> ramp == old(ramp)
      ensures fsm.HwFade? ==>
        && scale > 0
        && 0 <= Distance(ramp.End(), target, dir) < Distance(old(ramp.End()), target, dir)
        && Interrupts(Distance(old(ramp.End()), target, dir), scale, maxSteps)
             == 1 + Interrupts(Distance(ramp.End(), target, dir), scale, maxSteps)
        && if Distance(old(ramp.End()), target, dir) > scale then GoesOn(old(ramp.End())) else Jumps()
    {
      var cur := ramp.End();
      if cur == target || scale == 0 {
        fsm := IdleState;
        return;
      }
      var delta := Distance(cur, target, dir);
      StepsAdvance(delta, scale, maxSteps);
      StepsExactly(Min(maxSteps, delta / scale), delta, scale, maxSteps);
      if delta > scale {
        ramp := Ramp(cur, dir, Min(maxSteps, delta / scale), scale);
      } else {
        ramp := Ramp(target, dir, 1, 0);
      }
    }

    lemma TraceContinues(trace: seq<int>)
      requires trace != []
      requires GoesOn(trace[|trace| - 1]) || (Jumps() && 0 <= Distance(trace[|trace| - 1], target, dir) <= scale)
      requires Smooth(trace, target, dir, scale)
      ensures var longer := trace + ramp.Duties();
        Smooth(longer, target, dir, scale) && longer[0] == trace[0] && longer[|longer| - 1] == ramp.End()
    {
      DutiesEnd(ramp);
      if GoesOn(trace[|trace| - 1]) {
        RampSmooth(ramp, target);
      }
      hide Ramp.Duties, Ramp.End;
      SmoothAppend(trace, ramp.Duties(), target, dir, scale);
    }

    /** A whole fade lands exactly on the target, going from the duty at the start towards it by at most one step width
        at a time, and the number of interrupts it takes is bounded. The trace holds all duties on the way. */
    method Fade(duty: nat, target: nat, scale: nat) returns (n: nat, ghost trace: seq<int>)
      requires maxDuty > 0 && maxSteps > 0 && duty <= maxDuty
      modifies this
      ensures fsm.IdleState? && ramp.End() == target
      ensures scale == 0 ==> n == 1
      ensures scale > 0 ==>
        var from := if duty == maxDuty then duty - 1 else duty;
        var delta: nat := if from > target then from - target else target - from;
        && maxSteps * scale > 0 && n <= delta / (maxSteps * scale) + 3
        && Smooth(trace, target, if from > target then Decrease else Increase, scale)
      ensures trace != [] && trace[|trace| - 1] == target
      ensures trace[0] == if duty == maxDuty then duty - 1 else duty
    {
      hide Smooth, Fullest, Interrupts, Ramp.End, Ramp.Duties;
      ghost var from := if duty == maxDuty then duty - 1 else duty;
      ghost var delta := if from > target then from - target else target - from;
      SetFade(duty, target, scale);
      ghost var d := Distance(ramp.End(), target, dir);
      n, trace := 0, [from] + ramp.Duties();
      DutiesEnd(ramp);
      if scale > 0 {
        OneDuty(from, target, dir, scale);
        TraceContinues([from]);
      }
      while fsm.HwFade?
        invariant OnTrack() && this.target == target && this.scale == scale
        invariant fsm.IdleState? ==> ramp.End() == target
        invariant scale > 0 ==> fsm.HwFade? ==>
          n + Interrupts(Distance(ramp.End(), target, dir), scale, maxSteps) == Interrupts(d, scale, maxSteps)
        invariant scale > 0 ==> fsm.IdleState? ==> n == Interrupts(d, scale, maxSteps)
        invariant scale == 0 ==> n == if fsm.HwFade? then 0 else 1
        invariant trace != [] && trace[0] == from && trace[|trace| - 1] == ramp.End()
        invariant scale > 0 ==> dir == (if from > target then Decrease else Increase)
        invariant scale > 0 ==> Smooth(trace, target, dir, scale)
        decreases if fsm.HwFade? then 1 else 0, Distance(ramp.End(), target, dir)
      {
        NoneLeft(scale, maxSteps);
        FadeEnd();
        n := n + 1;
        if fsm.HwFade? {
          TraceContinues(trace);
          trace := trace + ramp.Duties();
        }
      }
      if scale > 0 {
        ProductAtLeast(maxSteps, scale);
        InterruptsBounded(d, scale, maxSteps, maxSteps * scale);
        QuotientMonotone(d, delta, maxSteps * scale);
      }
    }
  }

  lemma NoneLeft(scale: nat, maxSteps: nat)
    requires maxSteps > 0
    ensures scale > 0 ==> Interrupts(0, scale, maxSteps) == 1
  {
  }

  lemma OneDuty(d: int, target: int, dir: Direction, scale: nat)
    requires Distance(d, target, dir) >= 0
    ensures Smooth([d], target, dir, scale)
  {
  }

  lemma DutiesEnd(r: Ramp)
    ensures r.Duties()[0] == r.start && r.Duties()[|r.Duties()| - 1] == r.End()
  {
    if r.num == 0 || r.scale == 0 {
      ZeroRamp(r);
    }
  }

  /** The number of steps is the fullest; at least one fits exactly if the distance is not less than a step. */
  lemma StepsExactly(num: nat, delta: nat, scale: nat, maxSteps: nat)
    requires scale > 0 && maxSteps > 0 && num == Min(maxSteps, delta / scale)
    ensures num > 0 <==> delta >= scale
    ensures Fullest(num, delta, scale, maxSteps)
  {
    var q := delta / scale;
    assert delta == q * scale + delta % scale && (q + 1) * scale == q * scale + scale;
    ProductMonotone(num, q, scale);
    if delta < scale {
      DivModUnique(delta, 0, delta, scale);
    } else {
      StepsAdvance(delta, scale, maxSteps);
      assert num == 0 ==> num * scale == 0;
    }
  }

  lemma QuotientMonotone(a: nat, b: nat, w: nat)
    requires a <= b && w > 0
    ensures a / w <= b / w
  {
    if a / w > b / w {
      ProductAtLeast(a / w - b / w, w);
    }
  }
}
