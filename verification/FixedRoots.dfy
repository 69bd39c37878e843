/** Square and cube roots of fixed-point numbers, digit by digit. A number with F fraction bits is its raw integer;
    a root of it is the root of the raw value scaled by F (or 2F) more bits. */
module FixedRoots {
  import opened PowersOfTwo

  /** The index of the most significant bit. */
  function HighestBit(v: nat): (h: nat)
    requires v != 0
    ensures Pow2(h) <= v < Pow2(h + 1)
  {
    if v == 1 then 0 else 1 + HighestBit(v / 2)
  }

  function Sq(x: int): int {
    x * x
  }

  function Cube(x: int): int {
    x * x * x
  }

  lemma SqUp(a: int, b: int)
    requires 0 <= a <= b
    ensures 0 <= Sq(a) <= Sq(b)
  {
    assert a * a <= a * b <= b * b;
  }

  lemma SqOfProduct(a: int, b: int)
    ensures Sq(a * b) == Sq(a) * Sq(b)
  {
    assert a * b * (a * b) == a * a * (b * b);
  }

  lemma SqOfSum(a: int, b: int)
    ensures Sq(a + b) == Sq(a) + 2 * (a * b) + Sq(b)
  {
  }

  // ---- Square root ----

  /** The root is found down to the digit worth c: `num` is what is left of x, `res` the root so far, doubled and
      scaled for the next comparison. */
  ghost predicate SqrtSoFar(x: nat, num: int, res: int, p: nat, c: nat) {
    res == p * Sq(c) && num == x - Sq(p * c) && num >= 0 && x < Sq((p + 1) * c)
  }

  lemma SqrtStep(x: nat, num: int, res: int, p: nat, d: nat)
    requires d >= 1 && SqrtSoFar(x, num, res, p, 2 * d)
    ensures res % 2 == 0
    ensures if num >= res + Sq(d) then SqrtSoFar(x, num - (res + Sq(d)), res / 2 + Sq(d), 2 * p + 1, d)
            else SqrtSoFar(x, num, res / 2, 2 * p, d)
  {
    Digits(p, d);
    SqOfSum(2 * p * d, d);
    hide Sq;
  }

  /** The products of one step, spelled out. */
  lemma Digits(p: nat, d: nat)
    ensures p * (2 * d) == 2 * p * d && (p + 1) * (2 * d) == (2 * p + 1 + 1) * d && (2 * p + 1) * d == 2 * p * d + d
    ensures p * Sq(2 * d) == 2 * (2 * p * Sq(d)) == 2 * (2 * p * d * d) && (2 * p + 1) * Sq(d) == 2 * p * Sq(d) + Sq(d)
  {
    assert Sq(2 * d) == 4 * Sq(d);
    assert p * (4 * Sq(d)) == 2 * (2 * p * Sq(d));
    assert 2 * p * (d * d) == 2 * p * d * d;
    assert p * (2 * d) == 2 * p * d;
  }

  lemma SqrtStart(x: nat, c: nat)
    requires x < Sq(c)
    ensures SqrtSoFar(x, x, 0, 0, c)
  {
  }

  lemma SqrtDone(x: nat, num: int, res: int, p: nat)
    requires SqrtSoFar(x, num, res, p, 1)
    ensures res == p && 0 <= num == x - Sq(res) && x < Sq(res + 1)
  {
  }

  lemma SquarePow2(k: nat)
    ensures Pow2(2 * k) == Sq(Pow2(k))
  {
    hide Pow2;
    Pow2Add(k, k);
    assert 2 * k == k + k;
  }

  /** The digit worth 2^((h+f)/2) is the first that can be set. */
  lemma FirstSquare(v: nat, f: nat)
    requires v > 0
    ensures var k := (HighestBit(v) + f) / 2;
            0 < v * Pow2(f) < Sq(Pow2(k + 1)) && Pow2(k * 2) == Sq(Pow2(k))
  {
    var h := HighestBit(v);
    var k := (h + f) / 2;
    hide Pow2, Sq;
    BelowPow2(v, h + 1, f);
    Pow2Up(h + 1 + f, 2 * (k + 1));
    SquarePow2(k + 1);
    SquarePow2(k);
  }

  lemma BelowPow2(v: nat, n: nat, f: nat)
    requires 0 < v < Pow2(n)
    ensures 0 < v * Pow2(f) < Pow2(n + f)
  {
    Pow2Add(n, f);
    hide Pow2;
    assert (Pow2(n) - v) * Pow2(f) > 0;
  }

  /** The nearest integer to the root: no integer and no half-integer lies between. */
  ghost predicate Nearest(r: int, x: nat) {
    r >= 0 && (if x == 0 then r == 0 else Sq(2 * r - 1) < 4 * x < Sq(2 * r + 1))
  }

  lemma Rounded(x: nat, num: int, res: nat)
    requires x > 0 && 0 <= num == x - Sq(res) && x < Sq(res + 1)
    ensures Nearest(if num > res then res + 1 else res, x)
  {
  }

  /** Rounds to nearest, so the answer is unique. */
  lemma NearestIsUnique(r: int, s: int, x: nat)
    requires Nearest(r, x) && Nearest(s, x)
    ensures r == s
  {
    hide Sq;
    if r < s && x > 0 { SqUp(2 * r + 1, 2 * s - 1); }
    if s < r && x > 0 { SqUp(2 * s + 1, 2 * r - 1); }
  }

  /** The square root of v with f fraction bits. */
  method Sqrt(v: nat, f: nat) returns (r: nat)
    ensures Nearest(r, v * Pow2(f))
  {
    hide SqrtSoFar, Sq, Pow2;
    if v == 0 {
      return 0;
    }
    var num: int := v * Pow2(f);
    var res: int := 0;
    ghost var x := v * Pow2(f);
    ghost var k: nat, p: nat := (HighestBit(v) + f) / 2, 0;
    ghost var c := Pow2(k + 1);
    FirstSquare(v, f);
    SqrtStart(x, c);
    var bit: int := Pow2((HighestBit(v) + f) / 2 * 2);
    while bit != 0
      invariant bit >= 0 && if bit == 0 then c == 1 else c == Pow2(k + 1) && bit == Sq(Pow2(k))
      invariant SqrtSoFar(x, num, res, p, c)
      decreases bit
    {
      var val := res + bit;
      BitDown(k);
      SqrtStep(x, num, res, p, Pow2(k));
      res := res / 2;
      if num >= val {
        num := num - val;
        res := res + bit;
        p := 2 * p + 1;
      } else {
        p := 2 * p;
      }
      c := Pow2(k);
      bit := bit / 4;
      k := if k > 0 then k - 1 else 0;
    }
    SqrtDone(x, num, res, p);
    Rounded(x, num, res);
    if num > res {
      res := res + 1;
    }
    r := res;
  }

  lemma BitDown(k: nat)
    ensures Sq(Pow2(k)) / 4 == if k == 0 then 0 else Sq(Pow2(k - 1))
    ensures Sq(Pow2(k)) >= 1 && Pow2(k + 1) == 2 * Pow2(k) && (if k == 0 then Pow2(k) == 1 else Sq(Pow2(k - 1)) >= 1)
  {
    if k > 0 {
      SqOfProduct(2, Pow2(k - 1));
    }
  }

  // ---- Cube root ----

  lemma CubeUp(a: int, b: int)
    requires 0 <= a <= b
    ensures 0 <= Cube(a) <= Cube(b)
  {
    SqUp(a, b);
    assert Sq(a) * a <= Sq(b) * a <= Sq(b) * b;
  }

  lemma CubeOfProduct(a: int, d: int)
    ensures Cube(a * d) == Cube(a) * Cube(d)
  {
    SqOfProduct(a, d);
    assert Sq(a) * Sq(d) * (a * d) == Sq(a) * a * (Sq(d) * d);
  }

  /** The root is found down to the digit worth c; `num`, scaled by s, is what is left of x. */
  ghost predicate CbrtSoFar(x: nat, s: nat, num: int, res: nat, c: nat) {
    num >= 0 && num * s == x - Cube(res * c) && x < Cube((res + 1) * c)
  }

  /** What the comparison asks for: the next digit's share of the cube. */
  function Share(res: nat): nat {
    3 * res * (res + 1) + 1
  }

  lemma CbrtStep(x: nat, s: nat, num: int, res: nat, d: nat, val: int)
    requires s >= 1 && CbrtSoFar(x, s, num, res, 2 * d) && val * s == Share(2 * res) * Cube(d)
    ensures if num >= val then CbrtSoFar(x, s, num - val, 2 * res + 1, d) else CbrtSoFar(x, s, num, 2 * res, d)
  {
    Digits(res, d);
    Difference(2 * res, d);
    hide Cube, Share;
    assert (num - val) * s == num * s - val * s;
    if num < val { LessTimes(num, val, s); } else { LessTimes(val - 1, num, s); }
  }

  lemma LessTimes(a: int, b: int, s: nat)
    requires a < b && s >= 1
    ensures a * s < b * s
  {
    assert (b - a) * s >= 1;
  }

  /** Consecutive cubes, a digit apart. */
  lemma Difference(r: nat, d: int)
    ensures Share(r) * Cube(d) == Cube((r + 1) * d) - Cube(r * d)
  {
    hide Cube, Share;
    CubeOfProduct(r + 1, d);
    CubeOfProduct(r, d);
    NextCube(r);
    Distribute(Cube(r + 1), Cube(r), Cube(d));
  }

  lemma NextCube(r: nat)
    ensures Cube(r + 1) - Cube(r) == Share(r)
  {
  }

  lemma Distribute(a: int, b: int, c: int)
    ensures (a - b) * c == a * c - b * c
  {
  }

  lemma TimesUp(a: int, b: int, c: nat)
    requires a <= b
    ensures a * c <= b * c
  {
  }

  lemma Regroup(a: int, b: int, c: int)
    ensures a * b * c == a * (b * c)
  {
  }

  /** A digit's share is below the whole cube. */
  lemma ShareBelowCube(r: nat, d: nat, bound: nat)
    requires (r + 1) * d <= bound
    ensures Share(r) * Cube(d) <= Cube(bound)
  {
    hide Cube, Share;
    Difference(r, d);
    CubeUp(0, r * d);
    CubeUp((r + 1) * d, bound);
  }

  /** And it is below the digit times three squares of the bound. */
  lemma ShareBelowSquares(r: nat, d: nat, bound: nat)
    requires (r + 1) * d <= bound
    ensures Share(r) * Cube(d) <= 3 * Sq(bound) * d
  {
    hide Cube, Share, Sq;
    SqUp((r + 1) * d, bound);
    SqOfProduct(r + 1, d);
    ShareSquares(r, d);
    TimesUp(3 * Sq((r + 1) * d), 3 * Sq(bound), d);
  }

  lemma ShareSquares(r: nat, d: nat)
    ensures Share(r) * Cube(d) <= 3 * (Sq(r + 1) * Sq(d)) * d
  {
    assert Share(r) <= 3 * Sq(r + 1);
    assert Cube(d) >= 0;
    assert Share(r) * Cube(d) <= 3 * Sq(r + 1) * Cube(d);
    assert 3 * Sq(r + 1) * (d * d * d) == 3 * (Sq(r + 1) * (d * d)) * d;
  }

  /** The compared value, scaled, is the share of the digit at that place. */
  lemma ValScaled(share: nat, ofs: nat, sh: nat, q: nat)
    requires ofs + sh == 3 * q
    ensures share * Pow2(ofs) * Pow2(sh) == share * Cube(Pow2(q))
  {
    hide Pow2, Cube;
    Pow2Add(ofs, sh);
    CubePow2(q);
    Regroup(share, Pow2(ofs), Pow2(sh));
  }

  lemma CubePow2(q: nat)
    ensures Pow2(3 * q) == Cube(Pow2(q))
  {
    hide Pow2;
    Pow2Add(q, q);
    Pow2Add(q + q, q);
    assert 3 * q == q + q + q;
  }

  lemma Divides(a: int, b: int, s: nat)
    requires s >= 1 && a * s <= s * b
    ensures a <= b
  {
    if b < a { LessTimes(b, a, s); }
  }

  /** The bound that a round's values stay below; either of two reasons will do. */
  ghost predicate Enough(bound: nat, sh: nat, q: nat, limit: nat) {
    Cube(bound) <= Pow2(sh) * limit || 3 * Sq(bound) * Pow2(q) <= Pow2(sh) * limit
  }

  lemma ValFits(res: nat, q: nat, bound: nat, sh: nat, limit: nat, val: int)
    requires (res + 1) * Pow2(q + 1) <= bound && val * Pow2(sh) == Share(2 * res) * Cube(Pow2(q))
             && Enough(bound, sh, q + 1, limit)
    ensures val <= limit && Enough(bound, sh, q, limit)
    ensures (2 * res + 2) * Pow2(q) <= bound && (2 * res + 1) * Pow2(q) <= bound && Pow2(q + 1) == 2 * Pow2(q)
  {
    assert Pow2(q + 1) == 2 * Pow2(q);
    hide Cube, Share, Sq, Pow2;
    Doubled(res, Pow2(q));
    ValFitsAt(res, Pow2(q), bound, Pow2(sh), limit, val);
  }

  lemma Doubled(res: nat, d: nat)
    ensures (res + 1) * (2 * d) == (2 * res + 2) * d && (2 * res + 1) * d <= (2 * res + 2) * d
  {
    TimesUp(2 * res + 1, 2 * res + 2, d);
  }

  lemma ValFitsAt(res: nat, d: nat, bound: nat, s: nat, limit: nat, val: int)
    requires s >= 1 && (2 * res + 1) * d <= bound && val * s == Share(2 * res) * Cube(d)
    requires Cube(bound) <= s * limit || 3 * Sq(bound) * (2 * d) <= s * limit
    ensures val <= limit && (Cube(bound) <= s * limit || 3 * Sq(bound) * d <= s * limit)
  {
    ShareBelowCube(2 * res, d, bound);
    ShareBelowSquares(2 * res, d, bound);
    ThreeSquares(bound, d);
    hide Cube, Share, Sq;
    Divides(val, limit, s);
  }

  lemma ThreeSquares(bound: nat, d: nat)
    ensures 3 * Sq(bound) * d <= 3 * Sq(bound) * (2 * d)
  {
    assert Sq(bound) >= 0;
  }

  /** What is at hand when a digit is decided: the rest, and what the digit would take off it. */
  datatype Digit = Digit(num: int, val: int)

  function Rest(d: Digit): int {
    if d.num >= d.val then d.num - d.val else d.num
  }

  /** The values that a round from num0 to num goes through, digit by digit. */
  ghost predicate Traced(trace: seq<Digit>, num0: int, num: int) {
    && (|trace| > 0 ==> trace[0].num == num0)
    && (forall k :: 0 < k < |trace| ==> trace[k].num == Rest(trace[k - 1]))
    && num == (if |trace| == 0 then num0 else Rest(trace[|trace| - 1]))
  }

  ghost predicate AtMost(trace: seq<Digit>, limit: int) {
    forall k :: 0 <= k < |trace| ==> 0 <= trace[k].num <= limit && 0 <= trace[k].val <= limit
  }

  lemma OneMoreDigit(trace: seq<Digit>, num0: int, num: int, val: int, limit: int)
    requires Traced(trace, num0, num) && AtMost(trace, limit) && 0 <= num <= limit && 0 <= val <= limit
    ensures Traced(trace + [Digit(num, val)], num0, if num >= val then num - val else num)
    ensures AtMost(trace + [Digit(num, val)], limit)
  {
    RestIs(num, val);
    hide Rest;
    var d := Digit(num, val);
    var more, n := trace + [d], |trace|;
    forall k | 0 < k <= n ensures more[k].num == Rest(more[k - 1]) {
      assert more[k - 1] == trace[k - 1];
      if k < n { assert more[k] == trace[k]; }
    }
    assert more[n] == d && (n > 0 ==> more[0] == trace[0]);
  }

  lemma RestIs(num: int, val: int)
    ensures Rest(Digit(num, val)) == if num >= val then num - val else num
  {
  }

  lemma ShareAtMost(res: nat, ofs: nat)
    ensures Share(res) * Pow2(ofs) >= 0
  {
  }

  /** One round: digits from position ofs down, until the positions run out. */
  method DoRound(num0: int, res0: nat, ofs0: int, ghost x: nat, ghost sh: nat, ghost q0: nat, ghost bound: nat,
                 ghost limit: nat)
    returns (num: int, res: nat, ofs: int, ghost q: nat, ghost trace: seq<Digit>)
    requires CbrtSoFar(x, Pow2(sh), num0, res0, Pow2(q0)) && ofs0 + sh == 3 * q0 - 3 && ofs0 >= -3
    requires (res0 + 1) * Pow2(q0) <= bound && num0 <= limit && Enough(bound, sh, q0, limit)
    ensures CbrtSoFar(x, Pow2(sh), num, res, Pow2(q)) && ofs + sh == 3 * q - 3 && -3 <= ofs < 0
    ensures (res + 1) * Pow2(q) <= bound
    ensures Traced(trace, num0, num) && AtMost(trace, limit) && |trace| + q == q0 && 0 <= num <= limit
  {
    hide CbrtSoFar, Cube, Share, Enough, Pow2, Traced, AtMost;
    num, res, ofs := num0, res0, ofs0;
    q, trace := q0, [];
    NoDigits(num0, limit);
    NumLeft(x, Pow2(sh), num, res, Pow2(q));
    while ofs >= 0
      invariant CbrtSoFar(x, Pow2(sh), num, res, Pow2(q)) && ofs + sh == 3 * q - 3 && ofs >= -3
      invariant (res + 1) * Pow2(q) <= bound && Enough(bound, sh, q, limit)
      invariant Traced(trace, num0, num) && AtMost(trace, limit) && |trace| + q == q0 && 0 <= num <= limit
    {
      ghost var r := res;
      res := res + res;
      var val := Share(res) * Pow2(ofs);
      ValScaled(Share(res), ofs, sh, q - 1);
      ValFits(r, q - 1, bound, sh, limit, val);
      CbrtStep(x, Pow2(sh), num, r, Pow2(q - 1), val);
      ShareAtMost(res, ofs);
      OneMoreDigit(trace, num0, num, val, limit);
      trace := trace + [Digit(num, val)];
      if num >= val {
        num := num - val;
        res := res + 1;
      }
      ofs := ofs - 3;
      q := q - 1;
    }
  }

  lemma NoDigits(num: int, limit: int)
    ensures Traced([], num, num) && AtMost([], limit)
  {
  }

  lemma NumLeft(x: nat, s: nat, num: int, res: nat, c: nat)
    requires CbrtSoFar(x, s, num, res, c)
    ensures num >= 0
  {
  }

  /** The floor of the cube root, for negative numbers of the magnitude. */
  ghost predicate IsCubeRoot(r: int, v: int, f: nat) {
    if v >= 0 then Cube(r) <= v * Pow2(2 * f) < Cube(r + 1) else Cube(-r) <= -v * Pow2(2 * f) < Cube(-r + 1)
  }

  /** The first digit of the root of v at 2f more bits. */
  function TopDigit(v: nat, f: nat): (d: nat)
    requires v > 0
    ensures 3 * d <= HighestBit(v) + 2 * f < 3 * (d + 1)
  {
    (HighestBit(v) + 2 * f) / 3
  }

  lemma CbrtStart(v: nat, f: nat)
    requires v > 0
    ensures var q, x := TopDigit(v, f) + 1, v * Pow2(2 * f);
            && CbrtSoFar(x, Pow2(f), v * Pow2(f), 0, Pow2(q)) && 3 * q >= f
            && v * Pow2(f) <= Pow2(3 * q - f) && Enough(Pow2(q), f, q, Pow2(3 * q - f))
  {
    var q, x, h := TopDigit(v, f) + 1, v * Pow2(2 * f), HighestBit(v);
    hide Pow2, Cube, TopDigit, HighestBit;
    TwoFs(v, f);
    BelowPow2(v, h + 1, 2 * f);
    Pow2Up(h + 1 + 2 * f, 3 * q);
    CubePow2(q);
    BelowPow2(v, h + 1, f);
    Pow2Up(h + 1 + f, 3 * q - f);
    Pow2Add(f, 3 * q - f);
    CubeZero(Pow2(q));
  }

  lemma TwoFs(v: nat, f: nat)
    ensures v * Pow2(2 * f) == v * Pow2(f) * Pow2(f)
  {
    hide Pow2;
    Pow2Add(f, f);
    assert 2 * f == f + f;
    Regroup(v, Pow2(f), Pow2(f));
  }

  lemma CubeZero(c: nat)
    ensures Cube(0 * c) == 0 && Cube((0 + 1) * c) == Cube(c)
  {
  }

  /** Between the rounds the rest is scaled up, which its small size leaves room for. */
  lemma CbrtBetween(x: nat, f: nat, num: int, res: nat, q: nat, q0: nat)
    requires CbrtSoFar(x, Pow2(f), num, res, Pow2(q)) && (res + 1) * Pow2(q) <= Pow2(q0)
    ensures CbrtSoFar(x, Pow2(0), num * Pow2(f), res, Pow2(q))
    ensures num * Pow2(f) <= 4 * Pow2(2 * q0 + q) && Enough(Pow2(q0), 0, q, 4 * Pow2(2 * q0 + q))
  {
    var c, bound := Pow2(q), Pow2(q0);
    assert Pow2(0) == 1;
    hide Pow2;
    Difference(res, c);
    ShareBelowSquares(res, c, bound);
    SquarePow2(q0);
    Pow2Add(2 * q0, q);
    hide Cube, Share, Sq;
    Regroup(3, Sq(bound), c);
    assert num * Pow2(f) >= 0;
  }

  lemma CbrtDone(x: nat, num: int, res: nat)
    requires CbrtSoFar(x, Pow2(0), num, res, Pow2(0))
    ensures Cube(res) <= x < Cube(res + 1)
  {
  }

  /** The largest value the two rounds may come to, for a root of q digits. */
  function PeakOf(q: nat, f: nat): nat
    requires 3 * q >= f
  {
    Pow2(3 * q - f) + 4 * Pow2(2 * q + (f + 2) / 3)
  }

  function Peak(v: int, f: nat): nat {
    if v == 0 then 0 else PeakOf(TopDigit(if v > 0 then v else -v, f) + 1, f)
  }

  /** With 16 fraction bits and 32-bit numbers everything stays below 2^51, far within 64 signed bits. */
  lemma Fits64(v: int)
    requires -0x8000_0000 < v < 0x8000_0000
    ensures Peak(v, 16) < 0x8_0000_0000_0000
  {
    hide Pow2, TopDigit, HighestBit, PeakOf;
    if v != 0 {
      var w: nat := if v > 0 then v else -v;
      FewDigits(w);
      SmallPeak(TopDigit(w, 16) + 1);
    }
  }

  lemma SmallPeak(q: nat)
    requires 16 <= 3 * q && q <= 21
    ensures PeakOf(q, 16) < 0x8_0000_0000_0000
  {
    hide Pow2;
    Powers();
    Pow2Up(3 * q - 16, 47);
    Pow2Up(2 * q + 6, 48);
  }

  lemma FewDigits(w: nat)
    requires 0 < w < 0x8000_0000
    ensures TopDigit(w, 16) <= 20
  {
    hide Pow2, HighestBit;
    var h := HighestBit(w);
    Powers();
    if h >= 31 {
      Pow2Up(31, h);
      assert false;
    }
  }

  lemma Powers()
    ensures Pow2(31) == 0x8000_0000 && Pow2(47) == 0x8000_0000_0000 && Pow2(48) == 0x1_0000_0000_0000
  {
    assert Pow2(12) == 0x1000;
    Pow2Add(12, 12);
    Pow2Add(24, 7);
    Pow2Add(24, 12);
    Pow2Add(36, 11);
    Pow2Add(36, 12);
  }

  /** Two rounds for v, one digit each time, with everything on the way at most the peak. */
  ghost predicate TwoRounds(v: nat, f: nat, first: seq<Digit>, second: seq<Digit>) {
    if v == 0 then first == [] == second
    else
      && |first| + |second| == TopDigit(v, f) + 1
      && AtMost(first, Peak(v, f)) && AtMost(second, Peak(v, f))
      && exists mid, num :: Traced(first, v * Pow2(f), mid) && Traced(second, mid * Pow2(f), num)
                            && 0 <= mid * Pow2(f) <= Peak(v, f)
  }

  /** The cube root of v with f fraction bits, in two rounds of f bits each. */
  method Cbrt(v: int, f: nat) returns (r: int, ghost first: seq<Digit>, ghost second: seq<Digit>)
    ensures IsCubeRoot(r, v, f) && TwoRounds(if v >= 0 then v else -v, f, first, second)
    decreases v < 0
  {
    if v == 0 {
      return 0, [], [];
    }
    if v < 0 {
      var root;
      root, first, second := Cbrt(-v, f);
      return -root, first, second;
    }
    r, first, second := CbrtPositive(v, f);
  }

  method CbrtPositive(v: nat, f: nat) returns (res: nat, ghost first: seq<Digit>, ghost second: seq<Digit>)
    requires v > 0
    ensures Cube(res) <= v * Pow2(2 * f) < Cube(res + 1) && TwoRounds(v, f, first, second)
  {
    hide CbrtSoFar, Cube, Pow2, Enough, TopDigit, HighestBit, Traced, AtMost, TwoRounds;
    ghost var x: nat := v * Pow2(2 * f);
    ghost var q0 := TopDigit(v, f) + 1;
    var ofs: int := TopDigit(v, f) * 3;
    CbrtStart(v, f);
    var num: int := v;
    res := 0;
    num := num * Pow2(f);
    ofs := ofs - f;
    ghost var q;
    num, res, ofs, q, first := DoRound(num, res, ofs, x, f, q0, Pow2(q0), Pow2(3 * q0 - f));
    CbrtBetween(x, f, num, res, q, q0);
    assert q == (f + 2) / 3;
    ghost var mid := num;
    num := num * Pow2(f);
    ofs := ofs + f;
    num, res, ofs, q, second := DoRound(num, res, ofs, x, 0, q, Pow2(q0), 4 * Pow2(2 * q0 + q));
    CbrtDone(x, num, res);
    BothRounds(v, f, q0, first, second, mid, num);
  }

  lemma BothRounds(v: nat, f: nat, q0: nat, first: seq<Digit>, second: seq<Digit>, mid: int, num: int)
    requires v > 0 && q0 == TopDigit(v, f) + 1 && 3 * q0 >= f && |first| + |second| == q0
    requires Traced(first, v * Pow2(f), mid) && Traced(second, mid * Pow2(f), num) && mid >= 0
    requires AtMost(first, Pow2(3 * q0 - f)) && AtMost(second, 4 * Pow2(2 * q0 + (f + 2) / 3))
    requires mid * Pow2(f) <= 4 * Pow2(2 * q0 + (f + 2) / 3)
    ensures TwoRounds(v, f, first, second)
  {
    hide Pow2, TopDigit, HighestBit, Traced;
    assert mid * Pow2(f) >= 0;
  }

  lemma CubeRootIsUnique(r: int, s: int, v: int, f: nat)
    requires IsCubeRoot(r, v, f) && IsCubeRoot(s, v, f)
    ensures r == s
  {
    var a, b := if v >= 0 then r else -r, if v >= 0 then s else -s;
    var x := (if v >= 0 then v else -v) * Pow2(2 * f);
    assert Cube(a) <= x < Cube(a + 1) && Cube(b) <= x < Cube(b + 1);
    assert x >= 0;
    RootNotNegative(a);
    RootNotNegative(b);
    if a < b { CubeUp(a + 1, b); }
    if b < a { CubeUp(b + 1, a); }
  }

  lemma RootNotNegative(a: int)
    requires Cube(a + 1) > 0
    ensures a >= 0
  {
    if a < 0 {
      CubeUp(0, -a - 1);
      assert false;
    }
  }
}
