/**
  The colour-cycling animation: a 600 x 600 escape-time grid with 80 rounds
  over the view [-2.0, 0.5] x [-1.25, 1.25] written into the generator itself,
  coloured by a shift that cycles through max_iter = 80 colours, shown as an
  animation of 200 frames that repeats.
 */
module Colorize {
  import opened Orbits
  import opened Grid
  import opened Mandelbrot
  import opened ColorCycle

  const Width: nat := 600
  const Height: nat := 600
  /** The number of rounds, and also the number of colours the shift cycles through. */
  const MaxIter: int := 80
  /** The view the generator always samples. */
  const View: Rect := Rect(-2.0, 0.5, -1.25, 1.25)
  /** The animation runs `frames=200` frames and then repeats. */
  const Frames: nat := 200

  /** `get_mandelbrot(width, height, max_iter)`: the escape-time grid of the fixed view. */
  method GetMandelbrot(width: nat, height: nat, maxIter: int) returns (escapeTime: array2<int>)
    ensures fresh(escapeTime)
    ensures escapeTime.Length0 == height && escapeTime.Length1 == width
    ensures forall r: nat, k: nat :: r < height && k < width ==>
      escapeTime[r, k] == EscapeTime(Sample(View, width, height, r, k), maxIter)
    ensures forall r: nat, k: nat :: r < height && k < width ==>
      if maxIter > 0 then 0 <= escapeTime[r, k] < maxIter else escapeTime[r, k] == 0
  {
    escapeTime := GenerateMandelbrot(View, width, height, maxIter);
  }

  /**
    The cell in the middle row and the left column of a grid with an odd
    number of rows samples c = -2, which lies in the set with |z(k)| = 2 from
    round 0 on; the strict test keeps it active, and it is given 0.
   */
  lemma MiddleOfLeftEdge(width: nat, height: nat, maxIter: int)
    requires width >= 1 && height >= 3 && height % 2 == 1
    ensures Sample(View, width, height, (height - 1) / 2, 0).re == -2.0
    ensures Sample(View, width, height, (height - 1) / 2, 0).im == 0.0
    ensures EscapeTime(Sample(View, width, height, (height - 1) / 2, 0), maxIter) == 0
  {
    var c := Sample(View, width, height, (height - 1) / 2, 0);
    LinspaceMiddle(View.ymin, View.ymax, height);
    assert c.re == -2.0 && c.im == 0.0;
    MinusTwoNeverEscapes(c, Budget(maxIter));
  }

  /** `update(frame)`: a new field of colour indices in [0, max_iter), of the same shape. */
  function Update(fractalData: Field, frame: int): (shifted: Field)
    ensures |shifted| == |fractalData|
    ensures forall r :: 0 <= r < |fractalData| ==> |shifted[r]| == |fractalData[r]|
    ensures InRange(shifted, MaxIter)
  {
    Shift(fractalData, frame, MaxIter)
  }

  /** The frame shown at the given tick of a repeating animation of Frames frames. */
  function FrameAt(tick: nat): (frame: nat)
    ensures frame < Frames
  {
    tick % Frames
  }

  /** Within one run of the animation every cell moves one colour forward per frame. */
  lemma StepWithinRun(fractalData: Field, tick: nat)
    requires FrameAt(tick) + 1 < Frames
    ensures forall r, k :: 0 <= r < |fractalData| && 0 <= k < |fractalData[r]| ==>
      Update(fractalData, FrameAt(tick + 1))[r][k] == (Update(fractalData, FrameAt(tick))[r][k] + 1) % MaxIter
  {
    assert FrameAt(tick + 1) == FrameAt(tick) + 1;
    ShiftNextFrame(fractalData, FrameAt(tick), MaxIter);
  }

  /**
    The restart is not seamless: 200 frames is not a multiple of 80 colours,
    so going from the last frame back to frame 0 moves no cell one colour
    forward (a cell with escape time 0 goes from colour 39 to colour 0).
   */
  lemma RestartJumps(fractalData: Field, tick: nat)
    requires FrameAt(tick) == Frames - 1
    ensures forall r, k :: 0 <= r < |fractalData| && 0 <= k < |fractalData[r]| ==>
      Update(fractalData, FrameAt(tick + 1))[r][k] != (Update(fractalData, FrameAt(tick))[r][k] + 1) % MaxIter
  {
    assert FrameAt(tick + 1) == 0;
    assert Frames % MaxIter == 40;
    RestartStep(fractalData, Frames, MaxIter);
  }

  /** Frames max_iter apart show identical fields. */
  lemma UpdatePeriodic(fractalData: Field, frame: int)
    ensures Update(fractalData, frame + MaxIter) == Update(fractalData, frame)
  {
    ShiftPeriodic(fractalData, frame, MaxIter);
  }
}
