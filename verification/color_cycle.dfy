/**
  The colour-cycling index shift `(fractal_data + frame) % max_iter` of the
  animations: every escape time is moved `frame` steps around a cycle of
  `max_iter` colours. The escape-time field is a value here, so the shift
  builds a new field and leaves its input as it was.
 */
module ColorCycle {

  /** A grid of escape times, row by row. */
  type Field = seq<seq<int>>

  /** Every entry of the field lies in [0, modulus). */
  predicate InRange(field: Field, modulus: int)
  {
    forall r, k :: 0 <= r < |field| && 0 <= k < |field[r]| ==> 0 <= field[r][k] < modulus
  }

  /**
    The colour index of every cell moved `frame` steps forward modulo
    `modulus`; with a positive modulus the remainder of Python's `%`
    operator is the non-negative one, as here.
   */
  function Shift(field: Field, frame: int, modulus: int): (shifted: Field)
    requires modulus > 0
    // same shape as the input
    ensures |shifted| == |field|
    ensures forall r :: 0 <= r < |field| ==> |shifted[r]| == |field[r]|
    // every entry is a valid colour index
    ensures InRange(shifted, modulus)
  {
    seq(|field|, r requires 0 <= r < |field| =>
      seq(|field[r]|, k requires 0 <= k < |field[r]| => (field[r][k] + frame) % modulus))
  }

  /**
    Each shifted entry is congruent to the escape time plus the frame; with
    the range of Shift this fixes the entry uniquely.
   */
  lemma ShiftCongruent(field: Field, frame: int, modulus: int)
    requires modulus > 0
    ensures forall r, k :: 0 <= r < |field| && 0 <= k < |field[r]| ==>
      (Shift(field, frame, modulus)[r][k] - field[r][k] - frame) % modulus == 0
  {
    forall r, k | 0 <= r < |field| && 0 <= k < |field[r]|
      ensures (Shift(field, frame, modulus)[r][k] - field[r][k] - frame) % modulus == 0
    {
      var a := field[r][k] + frame;
      ModUnique(a % modulus - a, modulus, -(a / modulus), 0);
    }
  }

  /** The remainder is characterised by the quotient-remainder decomposition. */
  lemma ModUnique(a: int, m: int, q: int, r: int)
    requires m > 0 && 0 <= r < m && a == q * m + r
    ensures a % m == r
  {
    var q', r' := a / m, a % m;
    assert a == q' * m + r';
    var d := q - q';
    assert d * m == r' - r;
    if d >= 1 {
      MultipleAtLeast(d, m);
    } else if d <= -1 {
      MultipleAtLeast(-d, m);
    }
  }

  /** A positive multiple of m is at least m. */
  lemma MultipleAtLeast(d: int, m: int)
    requires d >= 1 && m > 0
    ensures d * m >= m && (-d) * m <= -m
  {
    assert d * m == m + (d - 1) * m;
  }

  /** Adding b after reducing a modulo m gives the same remainder as adding it before. */
  lemma ModOfSum(a: int, b: int, m: int)
    requires m > 0
    ensures (a % m + b) % m == (a + b) % m
  {
    var s := a % m + b;
    ModUnique(a + b, m, a / m + s / m, s % m);
  }

  /** A whole number of cycles added to the frame changes nothing. */
  lemma ModPeriodic(a: int, k: int, m: int)
    requires m > 0
    ensures (a + k * m) % m == a % m
  {
    ModUnique(a + k * m, m, a / m + k, a % m);
  }

  /** Frames f and f + modulus give identical fields. */
  lemma ShiftPeriodic(field: Field, frame: int, modulus: int)
    requires modulus > 0
    ensures Shift(field, frame + modulus, modulus) == Shift(field, frame, modulus)
  {
    var s1, s2 := Shift(field, frame + modulus, modulus), Shift(field, frame, modulus);
    forall r | 0 <= r < |field| ensures s1[r] == s2[r] {
      forall k | 0 <= k < |field[r]| ensures s1[r][k] == s2[r][k] {
        ModPeriodic(field[r][k] + frame, 1, modulus);
      }
    }
  }

  /** Consecutive frames move every cell exactly one colour forward, wrapping around. */
  lemma ShiftNextFrame(field: Field, frame: int, modulus: int)
    requires modulus > 0
    ensures forall r, k :: 0 <= r < |field| && 0 <= k < |field[r]| ==>
      Shift(field, frame + 1, modulus)[r][k] == (Shift(field, frame, modulus)[r][k] + 1) % modulus
  {
    forall r, k | 0 <= r < |field| && 0 <= k < |field[r]|
      ensures Shift(field, frame + 1, modulus)[r][k] == (Shift(field, frame, modulus)[r][k] + 1) % modulus
    {
      ModOfSum(field[r][k] + frame, 1, modulus);
    }
  }

  /** Shifting twice is shifting by the sum. */
  lemma ShiftCompose(field: Field, a: int, b: int, modulus: int)
    requires modulus > 0
    ensures Shift(Shift(field, a, modulus), b, modulus) == Shift(field, a + b, modulus)
  {
    var s1, s2 := Shift(Shift(field, a, modulus), b, modulus), Shift(field, a + b, modulus);
    forall r | 0 <= r < |field| ensures s1[r] == s2[r] {
      forall k | 0 <= k < |field[r]| ensures s1[r][k] == s2[r][k] {
        ModOfSum(field[r][k] + a, b, modulus);
      }
    }
  }

  /** Frame 0 shows a field whose entries are already colour indices unchanged. */
  lemma ShiftZero(field: Field, modulus: int)
    requires modulus > 0 && InRange(field, modulus)
    ensures Shift(field, 0, modulus) == field
  {
    var s := Shift(field, 0, modulus);
    forall r | 0 <= r < |field| ensures s[r] == field[r] {
      forall k | 0 <= k < |field[r]| ensures s[r][k] == field[r][k] {
        ModUnique(field[r][k], modulus, 0, field[r][k]);
      }
    }
  }

  /** x + d and x have the same remainder exactly when d is a multiple of m. */
  lemma SameRemainderIff(x: int, d: int, m: int)
    requires m > 0
    ensures (x + d) % m == x % m <==> d % m == 0
  {
    if d % m == 0 {
      ModPeriodic(x, d / m, m);
    }
    if (x + d) % m == x % m {
      ModUnique(d, m, (x + d) / m - x / m, 0);
    }
  }

  /**
    An animation of `frames` frames that restarts at frame 0 moves a cell one
    colour forward at the restart, as between consecutive frames, exactly when
    `frames` is a multiple of the modulus; otherwise every cell jumps.
   */
  lemma RestartStep(field: Field, frames: int, modulus: int)
    requires modulus > 0
    ensures forall r, k :: 0 <= r < |field| && 0 <= k < |field[r]| ==>
      ((Shift(field, 0, modulus)[r][k] == (Shift(field, frames - 1, modulus)[r][k] + 1) % modulus)
        <==> frames % modulus == 0)
  {
    forall r, k | 0 <= r < |field| && 0 <= k < |field[r]|
      ensures (Shift(field, 0, modulus)[r][k] == (Shift(field, frames - 1, modulus)[r][k] + 1) % modulus)
        <==> frames % modulus == 0
    {
      var e := field[r][k];
      assert Shift(field, 0, modulus)[r][k] == e % modulus;
      assert (Shift(field, frames - 1, modulus)[r][k] + 1) % modulus == (e + frames) % modulus by {
        ModOfSum(e + (frames - 1), 1, modulus);
      }
      SameRemainderIff(e, frames, modulus);
    }
  }

  /**
    In an animation of `frames` frames that repeats, every tick moves every
    cell one colour forward, the restart included, when `frames` is a
    multiple of the modulus.
   */
  lemma RepeatingStep(field: Field, frames: nat, modulus: int, tick: nat)
    requires modulus > 0 && frames > 0 && frames % modulus == 0
    ensures forall r, k :: 0 <= r < |field| && 0 <= k < |field[r]| ==>
      Shift(field, (tick + 1) % frames, modulus)[r][k] == (Shift(field, tick % frames, modulus)[r][k] + 1) % modulus
  {
    var f := tick % frames;
    if f + 1 < frames {
      assert (tick + 1) % frames == f + 1 by {
        ModOfSum(tick, 1, frames);
        ModUnique(f + 1, frames, 0, f + 1);
      }
      ShiftNextFrame(field, f, modulus);
    } else {
      assert (tick + 1) % frames == 0 by {
        ModOfSum(tick, 1, frames);
        ModUnique(frames, frames, 1, 0);
      }
      RestartStep(field, frames, modulus);
    }
  }
}
