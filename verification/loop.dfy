/**
  The looping animation: an 800 x 800 escape-time grid over the view held in
  module-level globals, coloured by a shift that cycles through max_iter = 100
  colours, shown as an animation of max_iter frames that repeats.
 */
module Loop {
  import opened Orbits
  import opened Grid
  import opened Mandelbrot
  import opened ColorCycle

  const Width: nat := 800
  const Height: nat := 800
  /** The number of rounds, and also the number of colour steps in the loop. */
  const MaxIter: int := 100
  /** The module-level view xmin, xmax, ymin, ymax. */
  const View: Rect := Rect(-2.0, 0.5, -1.25, 1.25)
  /** The animation runs `frames=max_iter` frames and then repeats. */
  const Frames: nat := MaxIter as nat

  /** `get_mandelbrot_data(w, h, m)`: the escape-time grid of the global view. */
  method GetMandelbrotData(w: nat, h: nat, m: int) returns (escapeTime: array2<int>)
    ensures fresh(escapeTime)
    ensures escapeTime.Length0 == h && escapeTime.Length1 == w
    ensures forall r: nat, k: nat :: r < h && k < w ==>
      escapeTime[r, k] == EscapeTime(Sample(View, w, h, r, k), m)
    ensures forall r: nat, k: nat :: r < h && k < w ==>
      if m > 0 then 0 <= escapeTime[r, k] < m else escapeTime[r, k] == 0
  {
    escapeTime := GenerateMandelbrot(View, w, h, m);
  }

  /** `update(frame)`: a new field of colour indices in [0, max_iter), of the same shape. */
  function Update(fractalData: Field, frame: int): (shifted: Field)
    ensures |shifted| == |fractalData|
    ensures forall r :: 0 <= r < |fractalData| ==> |shifted[r]| == |fractalData[r]|
    ensures InRange(shifted, MaxIter)
  {
    Shift(fractalData, frame, MaxIter)
  }

  /** The frame shown at the given tick of a repeating animation of Frames frames. */
  function FrameAt(tick: nat): (frame: nat)
    ensures frame < Frames
  {
    tick % Frames
  }

  /**
    The loop is seamless: from every tick to the next, including the restart
    from the last frame to frame 0, every cell moves exactly one colour forward.
   */
  lemma SeamlessLoop(fractalData: Field, tick: nat)
    ensures forall r, k :: 0 <= r < |fractalData| && 0 <= k < |fractalData[r]| ==>
      Update(fractalData, FrameAt(tick + 1))[r][k] == (Update(fractalData, FrameAt(tick))[r][k] + 1) % MaxIter
  {
    RepeatingStep(fractalData, Frames, MaxIter, tick);
  }

  /** Frames max_iter apart show identical fields. */
  lemma UpdatePeriodic(fractalData: Field, frame: int)
    ensures Update(fractalData, frame + MaxIter) == Update(fractalData, frame)
  {
    ShiftPeriodic(fractalData, frame, MaxIter);
  }
}
