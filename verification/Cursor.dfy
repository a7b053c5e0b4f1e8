/** Cursor animations (foreign/wayland/cursor/wayland-cursor.c). */
module Cursor {

  import opened Words
  import opened Lists

  datatype Animation = Animation(delays: seq<nat>, totalDelay: nat)

  ghost function Sum(delays: seq<nat>): nat {
    if delays == [] then 0 else Sum(delays[..|delays| - 1]) + delays[|delays| - 1]
  }

  predicate Delays(delays: seq<nat>) { forall i :: 0 <= i < |delays| ==> delays[i] < U32 }

  ghost predicate Made(c: Animation) {
    c.delays != [] && Delays(c.delays) && c.totalDelay == Sum(c.delays) % U32
  }

  lemma SumStep(delays: seq<nat>, i: nat)
    requires i < |delays|
    ensures Sum(delays[..i + 1]) == Sum(delays[..i]) + delays[i]
  {
    assert delays[..i + 1][..i] == delays[..i];
  }

  lemma WrapOnce(sum: nat, delay: nat)
    ensures (sum % U32 + delay) % U32 == (sum + delay) % U32
  {
  }

  lemma NoDelays(delays: seq<nat>)
    ensures Sum(delays[..0]) == 0
  {
  }

  lemma {:induction false} SumMonotone(delays: seq<nat>, i: nat, j: nat)
    requires i <= j <= |delays|
    ensures Sum(delays[..i]) <= Sum(delays[..j])
    decreases j
  {
    if i < j {
      SumStep(delays, j - 1);
      SumMonotone(delays, i, j - 1);
    }
  }

  /** wl_cursor_create_from_xcursor_images: keeps the images up to the first that cannot
      be stored; the total is kept in 32 bits. */
  method Create(delays: seq<nat>, stored: seq<bool>) returns (r: Option<Animation>)
    requires Delays(delays) && |stored| == |delays|
    ensures r.None? <==> delays == [] || !stored[0]
    ensures r.Some? ==> Made(r.value) && r.value.delays <= delays
    ensures r.Some? ==> var n := |r.value.delays|;
              (forall i :: 0 <= i < n ==> stored[i]) && (n < |delays| ==> !stored[n])
  {
    var total, i := 0, 0;
    assert delays[..0] == [];
    while i < |delays| && stored[i]
      invariant i <= |delays| && total == Sum(delays[..i]) % U32
      invariant forall k :: 0 <= k < i ==> stored[k]
    {
      SumStep(delays, i);
      WrapOnce(Sum(delays[..i]), delays[i]);
      total := (total + delays[i]) % U32;
      i := i + 1;
    }
    if i == 0 {
      return None;
    }
    r := Some(Animation(delays[..i], total));
  }

  /** The time within a round of the animation, as the code computes it. */
  function Phase(c: Animation, time: nat): nat
    requires c.totalDelay != 0
  {
    time % c.totalDelay
  }

  /** Frame i is shown at time t of a round: every earlier delay is positive and over, and
      its own is not over or is 0. */
  ghost predicate Shows(delays: seq<nat>, t: nat, i: nat) {
    && i < |delays|
    && (forall k :: 0 <= k < i ==> delays[k] > 0)
    && Sum(delays[..i]) <= t
    && (delays[i] == 0 || t < Sum(delays[..i + 1]))
  }

  /** Subtraction of 32-bit numbers. */
  function Sub(a: nat, b: nat): nat { (a - b) % U32 }

  lemma LoopTest(t: nat, d: nat)
    requires t < U32 && d < U32
    ensures Sub(t, d) < t <==> 0 < d <= t
    ensures 0 < d <= t ==> Sub(t, d) == t - d
  {
  }

  /** wl_cursor_frame_and_duration.  The index stays in range for every cursor with a
      total that is not 0, even one that wrapped around. */
  method FrameAndDuration(c: Animation, time: nat) returns (frame: nat, duration: nat)
    requires Made(c) && time < U32 && (|c.delays| > 1 ==> c.totalDelay != 0)
    ensures frame < |c.delays|
    ensures |c.delays| == 1 ==> frame == 0 && duration == 0
    ensures |c.delays| > 1 ==> Shows(c.delays, Phase(c, time), frame)
    ensures |c.delays| > 1 ==>
              duration == if c.delays[frame] == 0 then 1 else Sum(c.delays[..frame + 1]) - Phase(c, time)
  {
    hide Sum;
    Remainder(Sum(c.delays));
    if |c.delays| == 1 {
      return 0, 0;
    }
    var i := 0;
    var t: nat := time % c.totalDelay;
    ghost var t0 := t;
    NoDelays(c.delays);
    TotalBeyond(c, t0);
    while Sub(t, c.delays[i]) < t
      invariant i < |c.delays| && t < U32 && t + Sum(c.delays[..i]) == t0
      invariant forall k :: 0 <= k < i ==> c.delays[k] > 0
      decreases t
    {
      LoopTest(t, c.delays[i]);
      SumStep(c.delays, i);
      t := Sub(t, c.delays[i]);
      i := i + 1;
    }
    LoopTest(t, c.delays[i]);
    SumStep(c.delays, i);
    frame := i;
    duration := if t >= c.delays[i] then 1 else c.delays[i] - t;
  }

  /** The sum of all delays is beyond every time of the round. */
  lemma TotalBeyond(c: Animation, t: nat)
    requires Made(c) && t < c.totalDelay
    ensures t < Sum(c.delays[..|c.delays|])
  {
    assert c.delays[..|c.delays|] == c.delays;
    Remainder(Sum(c.delays));
  }

  lemma Remainder(n: nat)
    ensures n % U32 <= n && n % U32 < U32
  {
  }

  /** With positive delays exactly one frame's interval contains a time of the round. */
  lemma OneFrame(delays: seq<nat>, t: nat, i: nat, j: nat)
    requires forall k :: 0 <= k < |delays| ==> delays[k] > 0
    requires Shows(delays, t, i) && j < |delays|
    ensures Sum(delays[..i]) <= t < Sum(delays[..i + 1])
    ensures Sum(delays[..j]) <= t < Sum(delays[..j + 1]) <==> j == i
  {
    if j < i {
      SumMonotone(delays, j + 1, i);
    } else if i < j {
      SumMonotone(delays, i + 1, j);
    }
  }

  /** The round that the code counts is that of the animation exactly when the total did
      not wrap or the time is below what is left of it. */
  lemma PhaseExactly(c: Animation, time: nat)
    requires Made(c) && c.totalDelay != 0 && time < U32
    ensures Phase(c, time) == time % Sum(c.delays) <==> Sum(c.delays) < U32 || time < c.totalDelay
  {
    var sum := Sum(c.delays);
    if sum >= U32 {
      SmallMod(time, sum);
      if time < c.totalDelay {
        SmallMod(time, c.totalDelay);
      }
    } else {
      SmallMod(sum, U32);
    }
  }

  /** A wrapped total: at 5 ms into an animation of over 49 days the first frame should
      show for 2^31 - 5 ms more, and the code takes the time modulo 1. */
  lemma WrappedTotal()
    ensures var delays := [0x8000_0000, 0x8000_0001];
            var c := Animation(delays, 1);
            && Made(c) && Phase(c, 5) == 0 && 5 % Sum(delays) == 5
            && Shows(delays, 0, 0) && Shows(delays, 5, 0)
            && Sum(delays[..1]) - Phase(c, 5) == 0x8000_0000 && Sum(delays[..1]) - 5 == 0x7fff_fffb
  {
    var delays := [0x8000_0000, 0x8000_0001];
    SumStep(delays, 0);
    SumStep(delays, 1);
    NoDelays(delays);
    assert delays[..2] == delays;
  }

  /** ... and a wrapped total can show the wrong frame for good: the second one never comes. */
  lemma WrappedTotalHidesFrame(time: nat)
    requires time < U32
    ensures var delays := [0x8000_0000, 0x8000_0001];
            var c := Animation(delays, 1);
            Made(c) && Shows(delays, Phase(c, time), 0) &&
            (time >= 0x8000_0000 ==> Shows(delays, time % Sum(delays), 1))
  {
    var delays := [0x8000_0000, 0x8000_0001];
    SumStep(delays, 0);
    SumStep(delays, 1);
    NoDelays(delays);
    assert delays[..2] == delays;
    SmallMod(time, Sum(delays));
  }

  lemma SmallMod(a: nat, b: nat)
    requires a < b
    ensures a % b == a
  {
  }
}
