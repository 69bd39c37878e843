/** Index arithmetic of the three-wheel timer: which wheel and slot a delay selects,
    and the frame at which a delay really comes due. */
module TimingWheelArithmetic {
  import opened Division

  const WHEEL_COUNT: nat := 3

  /** Frames covered by one slot of wheel `w`: 1, n, n*n. */
  function SlotSpan(n: nat, w: nat): nat
  {
    if w == 0 then 1 else if w == 1 then n else n * n
  }

  /** The first delay that does not fit three wheels of n slots. */
  function Capacity(n: nat): nat
  {
    n * n * n
  }

  /** How often wheel `w` has advanced once frame `f` is completely processed. */
  function Turn(n: nat, f: nat, w: nat): nat
    requires n >= 1
  {
    if w == 0 then f else if w == 1 then f / n else f / n / n
  }

  /** The wheel a delay is filed on, and how many slots ahead of that wheel's current one. */
  function Placement(n: nat, delay: nat): (r: (nat, nat))
    requires n >= 1
  {
    if delay < n then (0, delay)
    else if delay / n < n then (1, delay / n)
    else (2, delay / n / n)
  }

  /** The frame in which a task armed in frame `armed` with `delay` frames really runs. A task that
      went through a higher wheel and is due on a multiple of n reaches wheel 0 one visit too late. */
  function DueFrame(n: nat, armed: nat, delay: nat): nat
    requires n >= 1
  {
    if delay >= n && (armed + delay) % n == 0 then armed + delay + n else armed + delay
  }

  /** Two floor divisions by n leave a remainder below n*n. */
  lemma NestedDivisionBounds(x: nat, n: nat)
    requires n >= 1
    ensures 0 <= x - n * n * (x / n / n) < n * n
  {
    DivisionBounds(x, n);
    DivisionBounds(x / n, n);
    NestedBounds(x, n, x / n, x / n / n);
  }

  lemma NestedBounds(x: nat, n: nat, a: nat, b: nat)
    requires 0 <= x - n * a < n && 0 <= a - n * b < n
    ensures 0 <= x - n * n * b < n * n
  {
    var c := n * b;
    assert n * n * b == n * c;
    MulLe(n, c, a);
    MulLe(n, a, c + n - 1);
    assert n * (c + n - 1) == n * c + n * n - n;
  }

  /** The odometer: a wheel advances exactly when the wheel below it returns to slot 0. */
  lemma TurnAdvances(n: nat, f: nat, w: nat)
    requires n >= 1 && f >= 1 && 1 <= w <= 2
    ensures Turn(n, f, w - 1) == Turn(n, f - 1, w - 1) ==> Turn(n, f, w) == Turn(n, f - 1, w)
    ensures Turn(n, f, w - 1) == Turn(n, f - 1, w - 1) + 1 ==>
              Turn(n, f, w) == Turn(n, f - 1, w) + (if Turn(n, f, w - 1) % n == 0 then 1 else 0)
  {
    var y := Turn(n, f, w - 1);
    if y == Turn(n, f - 1, w - 1) + 1 { Carry(n, y); }
  }

  lemma Carry(n: nat, y: nat)
    requires n >= 1 && y >= 1
    ensures y / n == (y - 1) / n + (if y % n == 0 then 1 else 0)
  {
    DivisionBounds(y, n);
    var q := y / n;
    if y % n == 0 {
      assert n * (q - 1) == n * q - n;
      QuotientUnique(y - 1, n, q - 1);
    } else {
      QuotientUnique(y - 1, n, q);
    }
  }

  lemma SecondWheelBounds(n: nat, delay: nat, k: nat)
    requires n <= delay && n * k <= delay < n * k + n && k < n
    ensures 1 <= k && delay < n * n
  {
    if k == 0 { assert false; }
    MulLe(n, k, n - 1);
    assert n * (n - 1) == n * n - n;
  }

  lemma ThirdWheelBounds(n: nat, delay: nat, a: nat, k: nat)
    requires n <= a && n * a <= delay && n * n * k <= delay < n * n * k + n * n
    ensures 1 <= k && (k < n <==> delay < n * n * n) && n * n <= delay
  {
    MulLe(n, n, a);
    if k == 0 { assert false; }
    var square := n * n;
    if k < n {
      MulLe(square, k, n - 1);
      assert square * (n - 1) == square * n - square;
    } else {
      MulLe(square, n, k);
    }
  }

  /** What a placement says about the delay; a delay fits the wheels exactly when it is below n^3. */
  lemma PlacementBounds(n: nat, delay: nat)
    requires n >= 1
    ensures var (w, k) := Placement(n, delay);
            && 0 <= w <= 2
            && (k < n <==> delay < n * n * n)
            && SlotSpan(n, w) * k <= delay < SlotSpan(n, w) * k + SlotSpan(n, w)
            && (w == 0 <==> delay < n)
            && (w == 1 ==> delay < n * n)
            && (w == 2 ==> n * n <= delay)
            && (w >= 1 ==> 1 <= k)
  {
    DivisionBounds(delay, n);
    if delay < n {
      MulLe(n, 1, n);
      MulLe(n * n, 1, n);
    } else if delay / n < n {
      SecondWheelBounds(n, delay, delay / n);
      MulLe(n * n, 1, n);
    } else {
      NestedDivisionBounds(delay, n);
      ThirdWheelBounds(n, delay, delay / n, delay / n / n);
    }
  }

  /** Arming in frame c on a wheel whose advance counter is that of frame x, where x is c itself or,
      while a slot of wheel 0 runs, the frame before: the chosen slot is visited no later than the
      timeout and less than two slot spans before it. */
  lemma ArmWindow(n: nat, c: nat, x: nat, delay: nat)
    requires n >= 2 && (x == c || x + 1 == c) && n <= delay < n * n * n
    ensures var (w, k) := Placement(n, delay);
            w >= 1 && 1 <= k < n &&
            var q := Turn(n, x, w) + k;
            0 <= c + delay - SlotSpan(n, w) * q < 2 * SlotSpan(n, w)
  {
    var (w, k) := Placement(n, delay);
    assert w >= 1 && 1 <= k < n && SlotSpan(n, w) * k <= delay < SlotSpan(n, w) * k + SlotSpan(n, w) by {
      PlacementBounds(n, delay);
    }
    TurnBounds(n, x, w);
    SumBounds(SlotSpan(n, w), Turn(n, x, w), x, k, delay);
  }

  lemma SumBounds(span: nat, a: nat, x: nat, k: nat, d: nat)
    requires span * a <= x < span * a + span && span * k <= d < span * k + span
    ensures span * (a + k) <= x + d < span * (a + k) + 2 * span - 1
  {
    assert span * (a + k) == span * a + span * k;
  }

  lemma TurnBounds(n: nat, x: nat, w: nat)
    requires n >= 1 && w <= 2
    ensures SlotSpan(n, w) * Turn(n, x, w) <= x < SlotSpan(n, w) * Turn(n, x, w) + SlotSpan(n, w)
  {
    DivisionBounds(x, n);
    NestedDivisionBounds(x, n);
  }

  /** The frames at which wheel `w` is visited are the multiples of its slot span. */
  lemma VisitFrame(n: nat, f: nat, w: nat)
    requires n >= 1 && 1 <= w <= 2
    requires f % n == 0 && (w == 2 ==> (f / n) % n == 0)
    ensures f == SlotSpan(n, w) * Turn(n, f, w)
  {
    DivisionBounds(f, n);
    if w == 2 {
      DivisionBounds(f / n, n);
      assert n * n * (f / n / n) == n * (n * (f / n / n));
    }
  }

  /** A task with `r` frames left, cascaded in frame f from wheel v, drops to a lower wheel or moves one
      slot ahead on the same one, and keeps the window of ArmWindow. */
  lemma CascadeWindow(n: nat, f: nat, v: nat, r: nat)
    requires n >= 2 && 1 <= v <= 2
    requires f == SlotSpan(n, v) * Turn(n, f, v) && f % n == 0
    requires r < 2 * SlotSpan(n, v)
    ensures var (w, k) := Placement(n, r);
            k < n && w <= v && (w == v ==> k == 1) && (w >= 1 ==> k >= 1) &&
            (w == 0 ==> k == r) &&
            (w >= 1 ==> 0 <= f + r - SlotSpan(n, w) * (Turn(n, f, w) + k) < 2 * SlotSpan(n, w))
  {
    var (w, k) := Placement(n, r);
    var span := SlotSpan(n, w);
    assert 0 <= w <= 2 && (w >= 1 ==> 1 <= k) && span * k <= r < span * k + span
           && (w == 0 <==> r < n) && (w == 1 ==> r < n * n) && (w == 2 ==> n * n <= r)
           && (w == 0 ==> k == r) by {
      PlacementBounds(n, r);
    }
    assert 2 * n <= n * n by { MulLe(n, 2, n); }
    if w >= 1 {
      assert w <= v;
      assert k < n && (w == v ==> k == 1) by {
        if w == v {
          if k >= 2 { MulLe(span, 2, k); assert false; }
        } else if k >= n {
          MulLe(n, n, k);
          assert false;
        }
      }
      LowerWheelVisited(n, f, v, w);
      SumBounds(span, Turn(n, f, w), f, k, r);
    }
  }

  lemma LowerWheelVisited(n: nat, f: nat, v: nat, w: nat)
    requires n >= 1 && 1 <= w <= 2 && 1 <= v <= 2
    requires f == SlotSpan(n, v) * Turn(n, f, v) && f % n == 0
    ensures w <= v ==> f == SlotSpan(n, w) * Turn(n, f, w)
  {
    DivisionBounds(f, n);
  }

  /** The lateness rule from wheel 0's side: a task with r frames left, filed on wheel 0 in a frame
      divisible by n, is visited in its due frame. */
  lemma CascadeToWheelZero(n: nat, f: nat, armed: nat, delay: nat)
    requires n >= 1 && f % n == 0 && delay >= n
    requires f <= armed + delay < f + n
    ensures DueFrame(n, armed, delay) == if armed + delay == f then f + n else armed + delay
  {
    DivisionBounds(f, n);
    QuotientUnique(armed + delay, n, f / n);
  }
}
