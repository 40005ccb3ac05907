/** TickManager: a once-per-second clock driven by per-frame time deltas.
    Time is modelled as `real` (the source uses float). */
module Clock {

  /** `active` is whether step series are being recorded; `secondsLeft` is
      the time left before the next EverySecond notification. */
  datatype Clock = Clock(active: bool, secondsLeft: real)

  /** A fresh TickManager: inactive, one second left. */
  const Initial: Clock := Clock(false, 1.0)

  function Enable(c: Clock): (r: Clock)
    ensures r.active && r.secondsLeft == c.secondsLeft
  {
    c.(active := true)
  }

  function Disable(c: Clock): (r: Clock)
    ensures !r.active && r.secondsLeft == c.secondsLeft
  {
    c.(active := false)
  }

  /** The catch-up loop `while (left < 0) { left += 1; fire; }`: the time left
      afterwards and the number of notifications fired. */
  function CatchUp(left: real): (r: (real, nat))
    ensures r.0 == left + r.1 as real
    ensures r.0 >= 0.0
    ensures r.1 > 0 ==> r.0 < 1.0
    ensures left >= 0.0 ==> r.1 == 0
    decreases if left < 0.0 then (-left).Floor + 1 else 0
  {
    if left >= 0.0 then (left, 0)
    else
      assert (-(left + 1.0)).Floor == (-left).Floor - 1;
      var rest := CatchUp(left + 1.0);
      (rest.0, rest.1 + 1)
  }

  /** One frame of `delta` seconds: nothing happens while inactive; otherwise
      the delta is subtracted and one EverySecond fires per whole second
      crossed. Reaching exactly zero does not fire. */
  function Update(c: Clock, delta: real): (r: (Clock, nat))
    ensures r.0.active == c.active
    ensures !c.active ==> r == (c, 0)
    ensures c.active ==> r.0.secondsLeft == c.secondsLeft - delta + r.1 as real && r.0.secondsLeft >= 0.0
    ensures c.active ==> (r.1 == 0 <==> c.secondsLeft - delta >= 0.0)
    ensures c.active && r.1 > 0 ==> r.0.secondsLeft < 1.0
  {
    if !c.active then (c, 0)
    else
      var caught := CatchUp(c.secondsLeft - delta);
      (c.(secondsLeft := caught.0), caught.1)
  }

  /** The number of notifications is the only one that satisfies the loop's exit conditions. */
  lemma FiresUnique(c: Clock, delta: real, k: nat)
    requires c.active
    requires c.secondsLeft - delta + k as real >= 0.0
    requires k > 0 ==> c.secondsLeft - delta + k as real < 1.0
    ensures Update(c, delta).1 == k
  {
  }

  /** With non-negative deltas the time left stays within [0, 1]. */
  lemma UpdateKeepsBounds(c: Clock, delta: real)
    requires 0.0 <= c.secondsLeft <= 1.0 && delta >= 0.0
    ensures 0.0 <= Update(c, delta).0.secondsLeft <= 1.0
  {
  }
}
