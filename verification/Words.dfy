/** Numbers and their 32-bit words, bit by bit. */
module Words {

  const MAX_INT: nat := 0x7fff_ffff

  /** The word of a number: its binary digits. */
  function FromNat(n: nat): bv32 {
    if n == 0 then 0 else Digit(FromNat(n / 2), n % 2 == 1)
  }

  /** Appends a digit on the right. */
  function Digit(high: bv32, low: bool): bv32 {
    if low then Odd(high) else Even(high)
  }

  function Even(high: bv32): bv32 {
    high << 1
  }

  function Odd(high: bv32): bv32 {
    (high << 1) | 1
  }

  predicate Less(a: bv32, b: bv32) {
    a < b
  }

  /** The top bit is clear. */
  predicate Short(a: bv32) {
    a < 0x8000_0000
  }

  function High(b: bv32): bv32 {
    b >> 1
  }

  predicate Low(b: bv32) {
    b & 1 == 1
  }

  function ToNat(b: bv32): nat
    decreases b
  {
    if b == 0 then 0
    else
      HighShrinks(b);
      2 * ToNat(High(b)) + (if Low(b) then 1 else 0)
  }

  lemma HighShrinks(b: bv32)
    requires b != 0
    ensures High(b) < b
  {
  }

  lemma DigitBack(high: bv32, low: bool)
    requires Short(high)
    ensures High(Digit(high, low)) == high && Low(Digit(high, low)) == low
  {
    hide High, Low, Even, Odd, Short;
    OddBack(high);
    EvenBack(high);
  }

  lemma OddBack(h: bv32)
    requires Short(h)
    ensures High(Odd(h)) == h && Low(Odd(h))
  {
  }

  lemma EvenBack(h: bv32)
    requires Short(h)
    ensures High(Even(h)) == h && !Low(Even(h))
  {
  }

  lemma DigitZero(high: bv32, low: bool)
    requires Short(high)
    ensures Digit(high, low) == 0 ==> high == 0 && !low
  {
    hide Digit, Short;
    DigitBack(high, low);
    assert High(0) == 0 && !Low(0);
  }

  lemma DigitLess(a: bv32, i: bool, b: bv32, j: bool)
    requires Less(a, b) && Short(b)
    ensures Less(Digit(a, i), Digit(b, j))
  {
    hide Less, Even, Odd, Short;
    if i && j {
      OddOdd(a, b);
    } else if i {
      OddEven(a, b);
    } else if j {
      EvenOdd(a, b);
    } else {
      EvenEven(a, b);
    }
  }

  lemma ShortBelow(a: bv32, b: bv32)
    requires Less(a, b) && Short(b)
    ensures Short(a)
  {
  }

  lemma EvenBelowOdd(a: bv32)
    ensures Less(Even(a), Odd(a))
  {
  }

  lemma EvenEven(a: bv32, b: bv32)
    requires Less(a, b) && Short(b)
    ensures Less(Even(a), Even(b))
  {
  }

  lemma EvenOdd(a: bv32, b: bv32)
    requires Less(a, b) && Short(b)
    ensures Less(Even(a), Odd(b))
  {
  }

  lemma OddEven(a: bv32, b: bv32)
    requires Less(a, b) && Short(b)
    ensures Less(Odd(a), Even(b))
  {
  }

  lemma OddOdd(a: bv32, b: bv32)
    requires Less(a, b) && Short(b)
    ensures Less(Odd(a), Odd(b))
  {
  }

  /** No digit of m's word is lost on the left. */
  ghost predicate Small(m: nat) {
    m == 0 || (Short(FromNat(m / 2)) && Small(m / 2))
  }

  lemma MaxIntIsSmall()
    ensures Small(MAX_INT) && FromNat(MAX_INT) == 0x7fff_ffff
  {
    assert Small(0x7) && FromNat(0x7) == 0x7;
    assert Small(0x7f) && FromNat(0x7f) == 0x7f;
    assert Small(0x7ff) && FromNat(0x7ff) == 0x7ff;
    assert Small(0x7fff) && FromNat(0x7fff) == 0x7fff;
    assert Small(0x7_ffff) && FromNat(0x7_ffff) == 0x7_ffff;
    assert Small(0x7f_ffff) && FromNat(0x7f_ffff) == 0x7f_ffff;
    assert Small(0x7ff_ffff) && FromNat(0x7ff_ffff) == 0x7ff_ffff;
  }

  /** Words are ordered like the numbers. */
  lemma {:induction false} WordLess(n: nat, m: nat)
    requires n < m && Small(m)
    ensures Less(FromNat(n), FromNat(m))
  {
    hide Less, Even, Odd, Short;
    if n == 0 {
      NotZero(m);
      Positive(FromNat(m));
    } else if n / 2 < m / 2 {
      WordLess(n / 2, m / 2);
      DigitLess(FromNat(n / 2), n % 2 == 1, FromNat(m / 2), m % 2 == 1);
    } else {
      EvenBelowOdd(FromNat(n / 2));
    }
  }

  lemma WordOrder(n: nat, m: nat)
    requires Small(n) && Small(m)
    ensures Less(FromNat(n), FromNat(m)) <==> n < m
  {
    hide Less, FromNat, Small;
    LessIsStrict(FromNat(n), FromNat(m));
    if n < m {
      WordLess(n, m);
    } else if m < n {
      WordLess(m, n);
    }
  }

  lemma LessIsStrict(a: bv32, b: bv32)
    ensures !(Less(a, b) && Less(b, a)) && !Less(a, a)
  {
  }

  lemma Positive(b: bv32)
    requires b != 0
    ensures Less(0, b)
  {
  }

  lemma {:induction false} NotZero(m: nat)
    requires m > 0 && Small(m)
    ensures FromNat(m) != 0
  {
    hide Digit, Short;
    DigitZero(FromNat(m / 2), m % 2 == 1);
    if m / 2 > 0 { NotZero(m / 2); }
  }

  lemma WordOfInt(n: nat)
    requires n <= MAX_INT
    ensures Short(FromNat(n))
  {
    MaxIntIsSmall();
    if n < MAX_INT {
      WordLess(n, MAX_INT);
      ShortBelow(FromNat(n), FromNat(MAX_INT));
    }
  }

  lemma {:induction false} IntsAreSmall(n: nat)
    requires n <= MAX_INT
    ensures Small(n)
  {
    if n > 0 {
      WordOfInt(n / 2);
      IntsAreSmall(n / 2);
    }
  }

  /** Reading the word of an int back. */
  lemma {:induction false} ToFrom(n: nat)
    requires n <= MAX_INT
    ensures ToNat(FromNat(n)) == n
  {
    if n > 0 {
      hide Digit, High, Low, Short;
      WordOfInt(n / 2);
      DigitBack(FromNat(n / 2), n % 2 == 1);
      IntsAreSmall(n);
      NotZero(n);
      ToFrom(n / 2);
    }
  }

  /** The next number's word, wrapping around at the top. */
  lemma {:induction false} WordNext(n: nat)
    ensures FromNat(n + 1) == FromNat(n) + 1
  {
    hide Digit;
    if n % 2 == 0 {
      DigitUp(FromNat(n / 2));
      assert (n + 1) / 2 == n / 2 && FromNat(n) == Digit(FromNat(n / 2), false);
    } else {
      WordNext(n / 2);
      DigitCarry(FromNat(n / 2));
      assert (n + 1) / 2 == n / 2 + 1;
    }
  }

  lemma DigitUp(high: bv32)
    ensures Digit(high, true) == Digit(high, false) + 1 && (high == 0 ==> Digit(high, false) == 0)
  {
    hide Less;
    assert (high << 1) | 1 == (high << 1) + 1;
  }

  lemma DigitCarry(high: bv32)
    ensures Digit(high + 1, false) == Digit(high, true) + 1
  {
  }

  predicate Sum(a: bv32, b: bv32, c: bv32) {
    c == a + b
  }

  lemma OneMore(a: bv32, b: bv32, b': bv32, c: bv32, c': bv32)
    requires a < 64 && b < 64 && b' == b + 1 && Sum(a, b, c) && c' == c + 1
    ensures Sum(a, b', c')
  {
  }

  lemma SumWithZero(a: bv32)
    ensures Sum(a, 0, a)
  {
  }

  /** Small words are added like numbers. */
  lemma {:induction false} WordAdd(n: nat, m: nat)
    requires n < 64 && m < 64
    ensures Sum(FromNat(n), FromNat(m), FromNat(n + m))
  {
    hide Sum;
    if m == 0 {
      SumWithZero(FromNat(n));
    } else {
      hide FromNat;
      WordAdd(n, m - 1);
      WordNext(n + m - 1);
      WordNext(m - 1);
      SmallWord(n);
      SmallWord(m - 1);
      OneMore(FromNat(n), FromNat(m - 1), FromNat(m), FromNat(n + m - 1), FromNat(n + m));
    }
  }

  lemma SmallWord(n: nat)
    requires n < 64
    ensures FromNat(n) < 64
  {
    assert FromNat(64) == 64;
    IntsAreSmall(64);
    WordLess(n, 64);
  }

  /** Every word is the word of a number. */
  lemma {:induction false} FromTo(b: bv32)
    ensures FromNat(ToNat(b)) == b && Small(ToNat(b))
    decreases b
  {
    if b != 0 {
      HighShrinks(b);
      FromTo(High(b));
      DigitsMake(b);
      assert ToNat(b) / 2 == ToNat(High(b)) && (ToNat(b) % 2 == 1 <==> Low(b));
      hide High, Low, Digit, Short;
    }
  }

  lemma DigitsMake(b: bv32)
    ensures Digit(High(b), Low(b)) == b && Short(High(b)) && (High(b) == 0 && !Low(b) ==> b == 0)
  {
  }
}
