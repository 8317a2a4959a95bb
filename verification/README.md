# Mandelbrot escape times and colour cycling, modelled in Dafny

The program draws the Mandelbrot set in three scripts. All three use the
same masked escape-time computation:

- `mandelbrot.py` renders a still image. Its `generate_mandelbrot` takes the
  view rectangle as arguments.
- `loop.py` shows an animation that loops. Its `get_mandelbrot_data` reads the
  rectangle from module-level globals.
- `colorize.py` shows an animation that cycles colours. Its `get_mandelbrot`
  writes the rectangle into the function.

The computation works like this:

- It samples a height x width grid. Each sample is c = x[col] + i*y[row],
  where x and y are evenly spaced axes that include both endpoints.
- It keeps three parallel arrays, `Z`, `escape_time` and `mask`. They start at
  0, 0 and all true.
- It then runs `max_iter` rounds. In round i it:
  - applies z -> z^2 + c to the active cells;
  - tests every cell for |z| > 2;
  - writes i into the cells that escape while still active;
  - clears their mask bit.

The two animations then cycle colours with `update(frame)`. It maps every
escape time e to `(e + frame) % max_iter`.

The model is split into these modules:

- `Orbits` (orbits.dfy): complex numbers over exact reals, the recurrence
  z(0) = 0, z(k+1) = z(k)^2 + c, and the escape-time specification
  `EscapeTime`. `EscapeTime` is the least round i < max_iter with
  |z(i+1)| > 2, or 0 when there is none.
- `Grid` (grid.dfy): `linspace`, the view rectangle and the sample of each cell.
- `Mandelbrot` (mandelbrot.dfy): the generator as a method over `array2`s,
  with two specifications:
  - one round over the whole grid is specified cell by cell through the
    function `MaskedStep`;
  - the whole loop is specified through `CellAfter`, which is proved equal to
    the state the orbit predicts.
- `ColorCycle` (color_cycle.dfy): the colour shift and its modular arithmetic.
- `Loop` (loop.dfy) and `Colorize` (colorize.dfy): the two scripts' own
  generators, constants, `update` functions and frame sequences.

The model follows the code as written:

- A cell whose sample never escapes keeps its initial 0. No `max_iter`
  sentinel is written, so such a cell cannot be told apart from one that
  escapes in round 0 (`EscapeTimeZeroIff`).
- No parameter is validated. A `max_iter` of 0 or less runs no round and
  leaves every cell at 0.

Two facts follow from the code as written:

- The loop in `loop.py` is seamless, because it shows exactly `max_iter`
  frames (`Loop.SeamlessLoop`).
- The animation in `colorize.py` shows 200 frames of 80 colours. Its restart
  from the last frame to frame 0 moves no cell one colour forward
  (`Colorize.RestartJumps`). The comment at colorize.py:40 says 100 frames,
  and 100 is not a multiple of 80 either (`ColorCycle.RestartStep`).

## Model

| member | source | states |
|---|---|---|
| Orbits.Step | mandelbrot.py:19 | definition: one application of z -> z^2 + c, written out over real and imaginary parts |
| Orbits.Escaped | mandelbrot.py:22 | definition: the strict test abs(z) > 2, compared as re^2 + im^2 > 4 |
| Orbits.Budget | mandelbrot.py:17 | definition: the number of rounds range(max_iter) runs, none when max_iter <= 0 |
| Orbits.EscapeRound | mandelbrot.py:17-27 | a round it returns is below the budget and escapes |
| Orbits.EscapeTime | mandelbrot.py:13-14 | the value is below max_iter when max_iter > 0, and 0 when max_iter <= 0 |
| Orbits.EscapeRoundIsLeast | mandelbrot.py:17-27 | a round is found exactly when some round below the budget escapes, and the one found is the least |
| Orbits.EscapeTimeIsLeast | mandelbrot.py:13-27 | the result is the least round i < max_iter with abs(z(i+1)) > 2, or 0 when there is none |
| Orbits.EscapeTimeZeroIff | mandelbrot.py:14 | a 0 means either an escape in round 0 or no escape within the budget, and nothing else |
| Orbits.EscapeRoundStable | mandelbrot.py:17 | running more rounds after an escape finds the same round |
| Orbits.BudgetMonotone | mandelbrot.py:17-27 | raising max_iter never changes the value of a cell that escaped under the smaller budget |
| Orbits.FirstEscapeIsEscapeTime | mandelbrot.py:25-26 | an escaping round below the budget, with no escape before it, is the recorded value |
| Orbits.OriginNeverEscapes | mandelbrot.py:19-22 | c = 0 never escapes, whatever the budget |
| Orbits.MinusTwoNeverEscapes | mandelbrot.py:21-22 | c = -2 never escapes: abs(z(k)) = 2 is not an escape under the strict test |
| Orbits.ThreeEscapesInRoundZero | mandelbrot.py:22-26 | c = 3 escapes in round 0 and so gets the same 0 as a point that never escapes |
| Orbits.TwoFirstRounds | mandelbrot.py:21-22 | for c = 2, abs(z(1)) = 2 is not an escape and z(2) = 6 is |
| Orbits.TwoEscapesInRoundOne | mandelbrot.py:21-26 | c = 2 gets escape time 1 for every budget of at least 2 |
| Grid.Linspace | mandelbrot.py:7-8 | n points; the first is the start and, for n >= 2, the last is the stop |
| Grid.LinspaceEvenlySpaced | mandelbrot.py:7-8 | consecutive points are (b - a) / (n - 1) apart |
| Grid.LinspaceInRange | mandelbrot.py:7-8 | for a <= b every point lies in [a, b] |
| Grid.LinspaceMiddle | colorize.py:8 | for an odd count of at least 3 the middle point is the midpoint of the interval |
| Grid.LinspacePoint | mandelbrot.py:7-8 | definition: point j is the start plus j steps of (stop - start) / (n - 1), and the start alone when n = 1 |
| Grid.Sample | mandelbrot.py:9-10 | definition: cell (row, col) samples x[col] + i*y[row], the meshgrid in 'xy' order |
| Grid.SampleCorners | mandelbrot.py:7-10 | the four corner cells sample the four corners of the rectangle |
| Grid.SampleInRect | mandelbrot.py:7-10 | for ordered bounds every sample lies in the rectangle |
| Mandelbrot.InitialCell | mandelbrot.py:13-15 | definition: a cell before the first round holds Z = 0, escape time 0 and mask true |
| Mandelbrot.MaskedStep | mandelbrot.py:19-27 | an inactive cell is frozen; an active cell advances by z^2 + c and stays active exactly when abs(z) <= 2; the round is written only when the cell leaves the active set; abs(z) = 2 stays active |
| Mandelbrot.CellAfter | mandelbrot.py:17-27 | definition: one cell's Z, escape time and mask after rounds 0 .. n-1, one masked step per round |
| Mandelbrot.CellAfterIsPredicted | mandelbrot.py:13-27 | after n rounds a cell holds z(n), time 0 and mask true while no round escaped, and otherwise is frozen at the first escaping value with its round |
| Mandelbrot.CellAfterTime | mandelbrot.py:14-29 | after the loop the cell's escape time equals the specification `EscapeTime` |
| Mandelbrot.CellAfterFrozen | mandelbrot.py:19-27 | a cell whose mask is cleared never re-enters the active set, and its Z and escape time are not written again |
| Mandelbrot.CellAfterTimeIsFirstEscape | mandelbrot.py:25-27 | the escape time is 0 while a cell is active, and once it is inactive it is the first round whose test succeeded |
| Mandelbrot.MaskedRound | mandelbrot.py:19-27 | one round updates every cell of the three arrays by exactly one masked step |
| Mandelbrot.SampleGrid | mandelbrot.py:7-10 | a new height x width array whose cell (r, k) is the sample x[k] + i*y[r] |
| Mandelbrot.InitialArrays | mandelbrot.py:13-15 | new Z, escape_time and mask arrays in which every cell is Z = 0, time 0, mask true |
| Mandelbrot.RunRounds | mandelbrot.py:17-27 | after the loop every cell equals the cell after all max_iter rounds (none when max_iter <= 0) |
| Mandelbrot.GenerateMandelbrot | mandelbrot.py:5-29 | a height x width result whose cell (r, k) is the escape time of sample x[k] + i*y[r], in [0, max_iter) or 0 when max_iter <= 0 |
| ColorCycle.Shift | loop.py:40 | same shape as the input, every entry in [0, max_iter) |
| ColorCycle.ShiftCongruent | loop.py:40 | each entry is congruent to e + frame modulo max_iter |
| ColorCycle.ShiftPeriodic | loop.py:38-40 | frames f and f + max_iter give identical fields |
| ColorCycle.ShiftNextFrame | loop.py:38-40 | from frame f to f + 1 every cell moves one colour forward, wrapping at max_iter |
| ColorCycle.ShiftCompose | colorize.py:36 | shifting by a and then by b is shifting by a + b |
| ColorCycle.ShiftZero | colorize.py:35-36 | frame 0 leaves a field of valid colour indices unchanged |
| ColorCycle.RestartStep | loop.py:44-47 | the restart from the last frame to frame 0 moves a cell one colour forward exactly when the frame count is a multiple of max_iter |
| ColorCycle.RepeatingStep | loop.py:44-47 | in a repeating animation whose frame count is a multiple of max_iter, every tick, the restart included, moves every cell one colour forward |
| Loop.GetMandelbrotData | loop.py:12-27 | the escape-time grid over the global view, with values in [0, m) or 0 when m <= 0 |
| Loop.Update | loop.py:37-42 | a new field of the same shape with entries in [0, 100) |
| Loop.FrameAt | loop.py:46-47 | the repeating animation only shows frames below max_iter |
| Loop.SeamlessLoop | loop.py:38-47 | from every tick to the next, including the restart, every cell moves one colour forward |
| Loop.UpdatePeriodic | loop.py:38-40 | frames 100 apart show identical fields |
| Colorize.GetMandelbrot | colorize.py:6-21 | the escape-time grid over [-2.0, 0.5] x [-1.25, 1.25], with values in [0, max_iter) or 0 when max_iter <= 0 |
| Colorize.MiddleOfLeftEdge | colorize.py:7-19 | with an odd number of rows the middle cell of the left column samples -2 + 0i and is given 0 for every max_iter |
| Colorize.Update | colorize.py:33-38 | a new field of the same shape with entries in [0, 80) |
| Colorize.FrameAt | colorize.py:41 | the repeating animation only shows frames below 200 |
| Colorize.StepWithinRun | colorize.py:36 | between consecutive frames of one run every cell moves one colour forward |
| Colorize.RestartJumps | colorize.py:24-41 | at the restart from frame 199 to frame 0 no cell moves one colour forward, since 200 is not a multiple of 80 |
| Colorize.UpdatePeriodic | colorize.py:36 | frames 80 apart show identical fields |

## Left out

- Rendering is not modelled because it holds no logic to verify. This covers:
  - figures, axes, `imshow`, colormaps, colour bars and titles (mandelbrot.py:42-48, loop.py:32-35, colorize.py:28-31);
  - `set_array` and the returned artist list (loop.py:41-42, colorize.py:37-38);
  - `FuncAnimation` timing and blitting;
  - `plt.show`.
- The frame sequence of `FuncAnimation` is modelled as tick mod frames (`FrameAt`). This reflects `repeat=True`, which is also the default that colorize.py:41 relies on. The interval between frames is not modelled.
- Floating point is idealised:
  - complex128 values and `linspace` points are exact reals;
  - rounding, overflow to infinity and NaN are not modelled;
  - `np.abs(Z) > 2` is compared as re^2 + im^2 > 4, which is equivalent over the reals and avoids the square root.
- NumPy's whole-array semantics are modelled by their effect:
  - `MaskedRound` does the four masked statements of a round cell by cell in one sweep. This is equivalent because no statement reads another cell.
  - The `escaped` and `new_escape` arrays become per-cell values.
  - The `X` and `Y` meshgrid arrays are not built; each sample is formed from `x` and `y` directly.
- The escape times that loop.py and colorize.py store in float arrays are modelled as integers. They only ever hold whole round numbers.
- Negative widths and heights, for which NumPy raises an error, are not modelled: sizes are natural numbers.
- ColorCycle.Shift: requires a positive modulus. Both scripts use a fixed `max_iter` of 100 or 80, so a zero or negative modulus is not modelled.
- Loop.Update: receives the escape-time field as a value. How the module-level `fractal_data` array is read into that value is not modelled.
- Colorize.Update: receives the escape-time field as a value, the same way as `Loop.Update`.
- The top-level runs at 1000 x 1000, 800 x 800 and 600 x 600 (mandelbrot.py:33-40, loop.py:6-9, 29, colorize.py:24-25) are not evaluated. Their constants are recorded in `Loop` and `Colorize` only.
