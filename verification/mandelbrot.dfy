/**
  The masked escape-time computation. Three parallel height x width arrays
  are kept: Z (the current orbit value, starting at 0), escapeTime (starting
  at 0) and mask (starting all true). Each of max_iter rounds advances the
  active cells, tests every cell for |z| > 2, records the round number in the
  cells that escape while still active, and clears their mask bit.

  Every cell evolves independently of the others, so one cell's history is
  described by a function (CellAfter) and the array loop is proved to keep
  each cell equal to it; CellAfter in turn is proved equal to the escape-time
  specification of module Orbits.
 */
module Mandelbrot {
  import opened Orbits
  import opened Grid

  /** One cell of the three arrays: Z[r, c], escape_time[r, c] and mask[r, c]. */
  datatype Cell = Cell(z: Complex, time: int, active: bool)

  /** A cell before the first round: Z = 0, escape_time = 0, mask = True. */
  function InitialCell(): Cell
  {
    Cell(Zero, 0, true)
  }

  /**
    Round i applied to one cell whose sample is c: the masked update of Z, the
    escape test, the write of i into escape_time for a newly escaped cell, and
    the clearing of the mask.
   */
  function MaskedStep(c: Complex, i: int, s: Cell): (t: Cell)
    // an inactive cell is frozen: its Z, its escape time and its cleared mask stay as they are
    ensures !s.active ==> t == s
    // an active cell advances by z^2 + c and stays active exactly when it has not escaped
    ensures s.active ==> t.z == Step(s.z, c) && (t.active <==> !Escaped(t.z))
    // the escape time is written only in the round the cell leaves the active set
    ensures s.active && !t.active ==> t.time == i
    ensures t.active ==> t.time == s.time
    // the test is strict: a value with |z| exactly 2 keeps the cell active
    ensures s.active && AbsSquared(t.z) == 4.0 ==> t.active
  {
    var z := if s.active then Step(s.z, c) else s.z;
    var escaped := Escaped(z);
    var newEscape := escaped && s.active;
    Cell(z, if newEscape then i else s.time, s.active && !escaped)
  }

  /** The cell with sample c after rounds 0 .. n-1. */
  function CellAfter(c: Complex, n: nat): Cell
  {
    if n == 0 then InitialCell() else MaskedStep(c, n - 1, CellAfter(c, n - 1))
  }

  /**
    The state the escape-time specification predicts after n rounds: an
    active cell holding z(n) while no round has escaped, otherwise an inactive
    cell frozen at the first escaping value z(j+1) with escape time j.
   */
  function Predicted(c: Complex, n: nat): Cell
  {
    match EscapeRound(c, n)
    case None => Cell(Orbit(c, n), 0, true)
    case Some(j) => Cell(Orbit(c, j + 1), j, false)
  }

  /** The masked rounds compute exactly the predicted state. */
  lemma {:induction false} CellAfterIsPredicted(c: Complex, n: nat)
    ensures CellAfter(c, n) == Predicted(c, n)
  {
    if n == 0 {
      OrbitZero(c);
      assert Orbit(c, 0) == Zero;
    } else {
      CellAfterIsPredicted(c, n - 1);
      OrbitNext(c, n - 1);
      match EscapeRound(c, n - 1)
      case Some(j) =>
        assert EscapeRound(c, n) == Some(j);
      case None =>
        if EscapesInRound(c, n - 1) {
          assert EscapeRound(c, n) == Some(n - 1);
        } else {
          assert EscapeRound(c, n) == None;
        }
    }
  }

  /** After the whole loop the cell holds the escape time of its sample. */
  lemma CellAfterTime(c: Complex, maxIter: int)
    ensures CellAfter(c, Budget(maxIter)).time == EscapeTime(c, maxIter)
  {
    CellAfterIsPredicted(c, Budget(maxIter));
  }

  /**
    A cell that has left the active set never re-enters it, and its Z and its
    escape time are never written again.
   */
  lemma {:induction false} CellAfterFrozen(c: Complex, n1: nat, n2: nat)
    requires n1 <= n2 && !CellAfter(c, n1).active
    ensures CellAfter(c, n2) == CellAfter(c, n1)
  {
    if n1 < n2 {
      CellAfterFrozen(c, n1, n2 - 1);
    }
  }

  /**
    The escape time in a cell is 0 while the cell is active, and once the cell
    is inactive it is the first round whose test succeeded.
   */
  lemma CellAfterTimeIsFirstEscape(c: Complex, n: nat)
    ensures CellAfter(c, n).active ==> CellAfter(c, n).time == 0
    ensures !CellAfter(c, n).active ==>
      && 0 <= CellAfter(c, n).time < n
      && EscapesInRound(c, CellAfter(c, n).time)
      && forall i {:trigger EscapesInRound(c, i)} :: 0 <= i < CellAfter(c, n).time ==> !EscapesInRound(c, i)
  {
    CellAfterIsPredicted(c, n);
    EscapeRoundIsLeast(c, n);
  }

  /** All four arrays have the same height x width shape. */
  predicate SameShape(C: array2<Complex>, Z: array2<Complex>, escapeTime: array2<int>, mask: array2<bool>)
  {
    && Z.Length0 == C.Length0 && Z.Length1 == C.Length1
    && escapeTime.Length0 == C.Length0 && escapeTime.Length1 == C.Length1
    && mask.Length0 == C.Length0 && mask.Length1 == C.Length1
  }

  /** Cell (r, k) read out of the three arrays. */
  function CellAt(Z: array2<Complex>, escapeTime: array2<int>, mask: array2<bool>, r: nat, k: nat): Cell
    reads Z, escapeTime, mask
    requires r < Z.Length0 && k < Z.Length1
    requires r < escapeTime.Length0 && k < escapeTime.Length1
    requires r < mask.Length0 && k < mask.Length1
  {
    Cell(Z[r, k], escapeTime[r, k], mask[r, k])
  }

  /** Round i over the whole grid: every cell takes one masked step, in place. */
  method MaskedRound(C: array2<Complex>, Z: array2<Complex>, escapeTime: array2<int>, mask: array2<bool>, i: int)
    requires SameShape(C, Z, escapeTime, mask) && Z != C
    modifies Z, escapeTime, mask
    ensures forall r: nat, k: nat :: r < C.Length0 && k < C.Length1 ==>
      CellAt(Z, escapeTime, mask, r, k) == MaskedStep(C[r, k], i, old(CellAt(Z, escapeTime, mask, r, k)))
  {
    var r := 0;
    while r < C.Length0
      invariant 0 <= r <= C.Length0
      invariant forall r': nat, k: nat :: r' < r && k < C.Length1 ==>
        CellAt(Z, escapeTime, mask, r', k) == MaskedStep(C[r', k], i, old(CellAt(Z, escapeTime, mask, r', k)))
      invariant forall r': nat, k: nat :: r <= r' < C.Length0 && k < C.Length1 ==>
        CellAt(Z, escapeTime, mask, r', k) == old(CellAt(Z, escapeTime, mask, r', k))
    {
      var k := 0;
      while k < C.Length1
        invariant 0 <= k <= C.Length1
        invariant forall r': nat, k': nat :: (r' < r || (r' == r && k' < k)) && k' < C.Length1 ==>
          CellAt(Z, escapeTime, mask, r', k') == MaskedStep(C[r', k'], i, old(CellAt(Z, escapeTime, mask, r', k')))
        invariant forall r': nat, k': nat :: ((r' == r && k <= k') || r < r' < C.Length0) && k' < C.Length1 ==>
          CellAt(Z, escapeTime, mask, r', k') == old(CellAt(Z, escapeTime, mask, r', k'))
      {
        // the masked update: only an active cell advances
        if mask[r, k] {
          Z[r, k] := Step(Z[r, k], C[r, k]);
        }
        // the escape test, applied to every cell
        var escaped := Escaped(Z[r, k]);
        // record the round for a cell that escapes while active
        if escaped && mask[r, k] {
          escapeTime[r, k] := i;
        }
        // an escaped cell leaves the active set
        if escaped {
          mask[r, k] := false;
        }
        k := k + 1;
      }
      r := r + 1;
    }
  }

  /** The grid C of samples x[k] + i*y[r] over the rectangle. */
  method SampleGrid(rect: Rect, width: nat, height: nat) returns (C: array2<Complex>)
    ensures fresh(C) && C.Length0 == height && C.Length1 == width
    ensures forall r: nat, k: nat :: r < height && k < width ==> C[r, k] == Sample(rect, width, height, r, k)
  {
    var x := Linspace(rect.xmin, rect.xmax, width);
    var y := Linspace(rect.ymin, rect.ymax, height);
    C := new Complex[height, width]((r: nat, k: nat) requires r < height && k < width => Complex(x[k], y[r]));
  }

  /** Z, escapeTime and mask before the first round: every cell is the initial cell. */
  method InitialArrays(height: nat, width: nat) returns (Z: array2<Complex>, escapeTime: array2<int>, mask: array2<bool>)
    ensures fresh(Z) && fresh(escapeTime) && fresh(mask)
    ensures Z.Length0 == escapeTime.Length0 == mask.Length0 == height
    ensures Z.Length1 == escapeTime.Length1 == mask.Length1 == width
    ensures forall r: nat, k: nat :: r < height && k < width ==> CellAt(Z, escapeTime, mask, r, k) == InitialCell()
  {
    Z := new Complex[height, width]((r: nat, k: nat) => Zero);
    escapeTime := new int[height, width]((r: nat, k: nat) => 0);
    mask := new bool[height, width]((r: nat, k: nat) => true);
  }

  /** The `for i in range(max_iter)` loop: after it every cell has taken all its rounds. */
  method RunRounds(C: array2<Complex>, Z: array2<Complex>, escapeTime: array2<int>, mask: array2<bool>, maxIter: int)
    requires SameShape(C, Z, escapeTime, mask) && Z != C
    requires forall r: nat, k: nat :: r < C.Length0 && k < C.Length1 ==> CellAt(Z, escapeTime, mask, r, k) == InitialCell()
    modifies Z, escapeTime, mask
    ensures forall r: nat, k: nat :: r < C.Length0 && k < C.Length1 ==>
      CellAt(Z, escapeTime, mask, r, k) == CellAfter(C[r, k], Budget(maxIter))
  {
    var i := 0;
    while i < maxIter
      invariant 0 <= i && (i <= maxIter || i == 0)
      invariant forall r: nat, k: nat :: r < C.Length0 && k < C.Length1 ==>
        CellAt(Z, escapeTime, mask, r, k) == CellAfter(C[r, k], i)
    {
      label before:
      MaskedRound(C, Z, escapeTime, mask, i);
      forall r: nat, k: nat | r < C.Length0 && k < C.Length1
        ensures CellAt(Z, escapeTime, mask, r, k) == CellAfter(C[r, k], i + 1)
      {
        assert old@before(CellAt(Z, escapeTime, mask, r, k)) == CellAfter(C[r, k], i);
      }
      i := i + 1;
    }
  }

  /**
    The escape-time grid of a height x width sampling of the rectangle with a
    budget of maxIter rounds: cell (r, k) holds the escape time of the sample
    x[k] + i*y[r], so it lies in [0, maxIter) and is 0 for every cell when
    maxIter <= 0.
   */
  method GenerateMandelbrot(rect: Rect, width: nat, height: nat, maxIter: int) returns (escapeTime: array2<int>)
    ensures fresh(escapeTime)
    ensures escapeTime.Length0 == height && escapeTime.Length1 == width
    ensures forall r: nat, k: nat :: r < height && k < width ==>
      escapeTime[r, k] == EscapeTime(Sample(rect, width, height, r, k), maxIter)
    ensures forall r: nat, k: nat :: r < height && k < width ==>
      if maxIter > 0 then 0 <= escapeTime[r, k] < maxIter else escapeTime[r, k] == 0
  {
    var C := SampleGrid(rect, width, height);
    var Z, mask;
    Z, escapeTime, mask := InitialArrays(height, width);
    RunRounds(C, Z, escapeTime, mask, maxIter);
    forall r: nat, k: nat | r < height && k < width
      ensures escapeTime[r, k] == EscapeTime(Sample(rect, width, height, r, k), maxIter)
    {
      CellAfterTime(C[r, k], maxIter);
    }
  }
}
