/** The widths of a reference's fields and the salts of a slot, in numbers. */
module RefWidths {
  import opened PowersOfTwo
  import opened Words
  import opened PolyRefs

  /** 2^a is the least power of two not below n. */
  ghost predicate LeastPower(n: nat, a: nat) {
    n <= Pow2(a) && (a > 0 ==> Pow2(a - 1) < n)
  }

  lemma {:induction false} LeastPowerUnique(n: nat, a: nat, b: nat)
    requires LeastPower(n, a) && LeastPower(n, b)
    ensures a == b
  {
    hide Pow2;
    if a < b { Pow2Up(a, b - 1); }
    if b < a { Pow2Up(b, a - 1); }
  }

  /** Every number has one. */
  lemma {:induction false} LeastPowerExists(n: nat) returns (a: nat)
    ensures LeastPower(n, a)
  {
    if n <= 1 {
      a := 0;
    } else {
      a := LeastPowerExists(n - 1);
      if Pow2(a) < n { a := a + 1; }
    }
  }

  /** 1 shifted by k is 2^k. */
  lemma {:induction false} PowerWord(k: nat)
    requires k <= 31
    ensures FromNat(k) <= 31 && Shl(1, FromNat(k)) == FromNat(Pow2(k)) && Small(Pow2(k)) && Pow2(k) <= MAX_INT + 1
  {
    hide FromNat, Small, Shl, Even;
    UpTo31(k);
    Pow2To31(k);
    if k == 0 {
      PowerZero();
    } else {
      PowerWord(k - 1);
      WordNext(k - 1);
      Pow2To31(k - 1);
      UpTo31(k - 1);
      ShiftUp(FromNat(k - 1), FromNat(k));
      WordOfInt(Pow2(k - 1));
      EvenWord(Pow2(k - 1));
    }
  }

  lemma PowerZero()
    ensures Pow2(0) == 1 && FromNat(1) == 1 && FromNat(0) == 0 && Shl(1, 0) == 1 && Small(1)
  {
  }

  lemma EvenWord(n: nat)
    requires n >= 1
    ensures FromNat(2 * n) == Even(FromNat(n)) && (Small(n) && Short(FromNat(n)) ==> Small(2 * n))
  {
    hide Even, Odd, Short;
    assert 2 * n / 2 == n;
  }

  lemma ShiftUp(j: bv32, k: bv32)
    requires j <= 30 && k == j + 1
    ensures k <= 31 && Shl(1, k) == Even(Shl(1, j))
  {
    ShlOne(1, k);
  }

  lemma Pow2To31(k: nat)
    requires k <= 31
    ensures Pow2(k) <= MAX_INT + 1 && (k <= 30 ==> Pow2(k) <= MAX_INT)
  {
    assert Pow2(15) == 0x8000;
    Pow2Add(15, 15);
    assert Pow2(30) == 0x4000_0000 && Pow2(31) == 0x8000_0000;
    hide Pow2;
    Pow2Up(k, 31);
    if k <= 30 { Pow2Up(k, 30); }
  }

  lemma UpTo31(k: nat)
    requires k <= 31
    ensures FromNat(k) <= 31 && (k <= 30 ==> FromNat(k) <= 30) && (k > 0 ==> FromNat(k) != 0)
  {
    assert FromNat(31) == 31 && FromNat(30) == 30;
    hide FromNat;
    IntsAreSmall(31);
    IntsAreSmall(30);
    IntsAreSmall(k);
    if k < 31 { WordLess(k, 31); }
    if k < 30 { WordLess(k, 30); }
    if k > 0 { NotZero(k); }
  }

  lemma AtMost31(x: bv32)
    requires x <= 31
    ensures ToNat(x) <= 31 && FromNat(ToNat(x)) == x
  {
    FromTo(x);
    if ToNat(x) > 31 {
      assert FromNat(31) == 31;
      hide FromNat, ToNat;
      WordLess(31, ToNat(x));
    }
  }

  predicate SingleOne(p: bv32) {
    p != 0 && p & (p - 1) == 0
  }

  lemma LeastWord(v: bv32)
    requires Countable(v)
    ensures SingleOne(NextPow2(v)) && !Less(NextPow2(v), v) && (v == 1 || Less(High(NextPow2(v)), v))
  {
    hide NextPow2;
    NextPow2IsLeast(v);
  }

  /** The bits counted by rounding up to a power of two. */
  lemma BitsLeast(v: bv32)
    requires Countable(v)
    ensures var b := BitsFor(v);
            && b <= 31 && !Less(Shl(1, b), v)
            && (b > 0 ==> Less(Shl(1, b - 1), v))
  {
    hide NextPow2, Ilog2, Shl, Less, High, SingleOne;
    LeastWord(v);
    LogOf(NextPow2(v));
    if v == 1 { OneBit(); }
  }

  lemma LogOf(p: bv32)
    requires SingleOne(p)
    ensures Ilog2(p) <= 31 && p == Shl(1, Ilog2(p)) && (Ilog2(p) > 0 ==> High(p) == Shl(1, Ilog2(p) - 1))
  {
    hide Ilog2, Shr;
    Ilog2IsFloor(p);
    SingleBit(p, Ilog2(p));
    if Ilog2(p) > 0 { HalfOf(p, Ilog2(p)); }
  }

  lemma OneBit()
    ensures NextPow2(1) == 1 && Ilog2(1) == 0
  {
  }

  lemma HalfOf(p: bv32, k: bv32)
    requires 1 <= k <= 31 && p == 1 << k
    ensures High(p) == Shl(1, k - 1)
  {
  }

  /** The bits counted for n are the a with 2^a the least power of two not below n. */
  lemma BitsForMeans(n: nat, a: nat)
    requires 1 <= n <= MAX_INT && LeastPower(n, a)
    ensures a <= 31 && BitsFor(FromNat(n)) == FromNat(a)
  {
    hide FromNat, BitsFor, Countable, Less, Small, Shl, Pow2;
    IntsAreSmall(n);
    NotZero(n);
    WordOfInt(n);
    CountableWord(n);
    BitsLeast(FromNat(n));
    var x := BitsFor(FromNat(n));
    AtMost31(x);
    LeastByWords(n, ToNat(x), x);
    LeastPowerUnique(n, a, ToNat(x));
  }

  /** Rounding up to a power of two, in numbers. */
  lemma RoundedUp(n: nat, a: nat)
    requires 1 <= n <= 0x4000_0000 && LeastPower(n, a)
    ensures ToNat(NextPow2(FromNat(n))) == Pow2(a)
  {
    hide FromNat, ToNat, Countable, Less, Small, Shl, Pow2, NextPow2, Ilog2, SingleOne;
    BitsForMeans(n, a);
    IntsAreSmall(n);
    NotZero(n);
    WordOfInt(n);
    CountableWord(n);
    LeastWord(FromNat(n));
    LogOf(NextPow2(FromNat(n)));
    PowerWord(a);
    if a == 31 {
      Pow2To31(30);
      TwoTo30();
    }
    Pow2To31(a);
    ToFrom(Pow2(a));
  }

  lemma TwoTo30()
    ensures Pow2(30) == 0x4000_0000
  {
    assert Pow2(15) == 0x8000;
    Pow2Add(15, 15);
  }

  lemma LeastByWords(n: nat, b: nat, x: bv32)
    requires Small(n) && b <= 31 && x == FromNat(b) && x <= 31
    requires !Less(Shl(1, x), FromNat(n)) && (x > 0 ==> Less(Shl(1, x - 1), FromNat(n)))
    ensures LeastPower(n, b)
  {
    hide FromNat, Less, Small, Shl, Pow2;
    PowerWord(b);
    WordOrder(Pow2(b), n);
    if b > 0 {
      UpTo31(b);
      PowerWord(b - 1);
      WordNext(b - 1);
      OneLess(FromNat(b - 1), x);
      WordOrder(Pow2(b - 1), n);
    }
  }

  lemma OneLess(a: bv32, b: bv32)
    requires b == a + 1 && b != 0
    ensures b > 0 && a == b - 1
  {
  }

  lemma CountableWord(n: nat)
    requires Short(FromNat(n)) && FromNat(n) != 0
    ensures Countable(FromNat(n))
  {
    hide FromNat;
  }

  /** The widths when tiles need a bits and polygons b: these, and the rest for the salt, which gets 31 bits at most and
      must have ten. */
  ghost predicate WidthsFor(r: InitResult, a: nat, b: nat) {
    && (r == AssertionFailed <==> a + b > 31) && (r.Ready? <==> a + b <= 22)
    && (r.Ready? ==> r.widths == Widths(FromNat(if a + b == 0 then 31 else 32 - a - b), FromNat(a), FromNat(b)))
  }

  /** Tiles and polygons need as many bits as the least powers of two that are large enough. */
  lemma InitWidthsMeans(maxTiles: nat, maxPolys: nat, a: nat, b: nat)
    requires 1 <= maxTiles <= MAX_INT && 1 <= maxPolys <= MAX_INT && LeastPower(maxTiles, a) && LeastPower(maxPolys, b)
    ensures WidthsFor(InitWidths(FromNat(maxTiles), FromNat(maxPolys)), a, b)
  {
    hide FromNat, BitsFor, LeastPower, Small, Sum, SplitWord, Less;
    BitsForMeans(maxTiles, a);
    BitsForMeans(maxPolys, b);
    UpTo31(a);
    UpTo31(b);
    WordAdd(a, b);
    Limits(a + b);
    if a + b <= 31 { WordAdd(a + b, 32 - a - b); }
    Splits(FromNat(a), FromNat(b), FromNat(a + b), if a + b <= 31 then FromNat(32 - a - b) else 0);
  }

  lemma WidthsInNumbers(maxTiles: nat, maxPolys: nat)
    requires 1 <= maxTiles <= MAX_INT && 1 <= maxPolys <= MAX_INT
    ensures forall a: nat, b: nat :: LeastPower(maxTiles, a) && LeastPower(maxPolys, b) ==>
              WidthsFor(InitWidths(FromNat(maxTiles), FromNat(maxPolys)), a, b)
  {
    hide LeastPower, WidthsFor, InitWidths, FromNat;
    forall a: nat, b: nat | LeastPower(maxTiles, a) && LeastPower(maxPolys, b)
      ensures WidthsFor(InitWidths(FromNat(maxTiles), FromNat(maxPolys)), a, b)
    {
      InitWidthsMeans(maxTiles, maxPolys, a, b);
    }
  }

  lemma Splits(t: bv32, p: bv32, s: bv32, r: bv32)
    requires t <= 31 && p <= 31 && Sum(t, p, s) && (!Less(31, s) ==> Sum(s, r, 32))
    ensures SplitWord(t, p) == AssertionFailed <==> Less(31, s)
    ensures SplitWord(t, p).Ready? <==> !Less(22, s)
    ensures SplitWord(t, p).Ready? ==> SplitWord(t, p).widths == Widths(if s == 0 then 31 else r, t, p)
  {
    Rests(t, p, s, r);
  }

  lemma Limits(n: nat)
    requires n <= 62
    ensures (Less(31, FromNat(n)) <==> n > 31) && (Less(22, FromNat(n)) <==> n > 22) && (FromNat(n) == 0 <==> n == 0)
    ensures FromNat(31) == 31 && FromNat(32) == 32
  {
    FixedWords();
    hide FromNat, Less, Small;
    IntsAreSmall(n);
    IntsAreSmall(31);
    IntsAreSmall(22);
    WordOrder(31, n);
    WordOrder(22, n);
    if n > 0 { NotZero(n); }
  }

  lemma FixedWords()
    ensures FromNat(0) == 0 && FromNat(22) == 22 && FromNat(31) == 31 && FromNat(32) == 32
  {
  }

  lemma Rests(t: bv32, p: bv32, s: bv32, r: bv32)
    requires t <= 31 && p <= 31 && Sum(t, p, s) && (s <= 31 ==> Sum(s, r, 32))
    ensures s == t + p && (s <= 31 ==> 32 - t - p == r && (r < 10 <==> s > 22) && (31 < r <==> s == 0))
  {
  }
}
