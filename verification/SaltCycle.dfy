/** How a slot's salt goes round: it returns only after every other non-zero salt has been used. */
module SaltCycle {
  import opened Division
  import opened PowersOfTwo
  import opened Words
  import opened PolyRefs
  import opened RefWidths
  import opened TileTable

  /** The salt after m removals. */
  function SaltAfter(w: Widths, salt: bv32, m: nat): bv32
    requires Packed(w)
  {
    if m == 0 then salt else NextSalt(w, SaltAfter(w, salt, m - 1))
  }

  /** In numbers: salts count up, and 1 follows the largest one of k bits. */
  lemma NextSaltWord(w: Widths, k: nat, v: nat)
    requires Packed(w) && 2 <= k <= 31 && w.salt == FromNat(k) && 1 <= v < Pow2(k)
    ensures NextSalt(w, FromNat(v)) == FromNat(if v + 1 == Pow2(k) then 1 else v + 1)
  {
    hide Pow2, FromNat, And, Mask, Shl, Small, NextSalt, Below, Less;
    PowerWord(k);
    WordNext(v);
    NextMasked(w, FromNat(v), FromNat(v + 1));
    if v + 1 == Pow2(k) {
      TopMasked(w.salt);
      OneWord();
    } else {
      IntsAreSmall(v + 1);
      WordOrder(v + 1, Pow2(k));
      NotZero(v + 1);
      ShiftedBelow(FromNat(v + 1), w.salt);
      MaskId(FromNat(v + 1), w.salt);
    }
  }

  lemma NextMasked(w: Widths, s: bv32, t: bv32)
    requires Packed(w) && t == s + 1
    ensures NextSalt(w, s) == if And(t, Mask(w.salt)) == 0 then 1 else And(t, Mask(w.salt))
  {
    hide And, Mask;
  }

  lemma OneWord()
    ensures FromNat(1) == 1 && FromNat(0) == 0
  {
  }

  lemma TopMasked(k: bv32)
    requires k <= 31
    ensures And(Shl(1, k), Mask(k)) == 0
  {
  }

  lemma ShiftedBelow(x: bv32, k: bv32)
    requires k <= 31
    ensures Less(x, Shl(1, k)) <==> Below(x, k)
  {
  }

  /** Counting m times on from v, round and round through 1 to n. */
  function Counted(v: nat, m: nat, n: nat): (u: nat)
    requires 1 <= v && n >= 1
    ensures 1 <= u <= n
  {
    Residue(v - 1 + m, n);
    (v - 1 + m) % n + 1
  }

  lemma CountedNext(v: nat, m: nat, n: nat)
    requires 1 <= v <= n && n >= 2
    ensures Counted(v, 0, n) == v
    ensures m > 0 ==> Counted(v, m, n) == if Counted(v, m - 1, n) == n then 1 else Counted(v, m - 1, n) + 1
  {
    Residue(v - 1, n);
    if m > 0 {
      assert v - 1 + (m - 1) + 1 == v - 1 + m;
      ModNext(v - 1 + (m - 1), n);
    }
  }

  lemma {:induction false} SaltAfterWord(w: Widths, k: nat, v: nat, m: nat)
    requires Packed(w) && 2 <= k <= 31 && w.salt == FromNat(k) && 1 <= v < Pow2(k)
    ensures Pow2(k) >= 4 && SaltAfter(w, FromNat(v), m) == FromNat(Counted(v, m, Pow2(k) - 1))
  {
    AtLeastFour(k);
    hide Pow2, FromNat, NextSalt, Counted;
    CountedNext(v, m, Pow2(k) - 1);
    if m > 0 {
      SaltAfterWord(w, k, v, m - 1);
      NextSaltWord(w, k, Counted(v, m - 1, Pow2(k) - 1));
    }
  }

  lemma Residue(x: nat, n: nat)
    requires n >= 1
    ensures 0 <= x % n < n && (x < n ==> x % n == x)
  {
  }

  lemma AtLeastFour(k: nat)
    requires k >= 2
    ensures Pow2(k) >= 4
  {
    assert Pow2(2) == 4;
    Pow2Up(2, k);
  }

  lemma ModNext(x: nat, n: nat)
    requires n >= 2
    ensures (x + 1) % n == if x % n == n - 1 then 0 else x % n + 1
  {
    ModShift(x, 1, n);
    DivisionBounds(x, n);
    if x % n == n - 1 { QuotientUnique(n, n, 1); } else { QuotientUnique(x % n + 1, n, 0); }
  }

  /** A slot has the same salt again exactly after a multiple of 2^k - 1 removals: only then can a reference to a
      removed tile name a tile again, unless it is restored. */
  lemma SaltReturnsExactlyWhen(w: Widths, k: nat, salt: bv32, m: nat)
    requires Packed(w) && 2 <= k <= 31 && w.salt == FromNat(k) && Below(salt, w.salt) && salt != 0
    ensures Pow2(k) >= 4 && (SaltAfter(w, salt, m) == salt <==> m % (Pow2(k) - 1) == 0)
  {
    AtLeastFour(k);
    hide Pow2, FromNat, NextSalt, SaltAfter, Below, Shl, Small, Less, Counted;
    var v := ToNat(salt);
    FromTo(salt);
    SaltNumber(w, k, salt);
    SaltAfterWord(w, k, v, m);
    Returns(v, m, Pow2(k) - 1);
    SameWord(Counted(v, m, Pow2(k) - 1), v);
  }

  lemma SaltNumber(w: Widths, k: nat, salt: bv32)
    requires Packed(w) && k <= 31 && w.salt == FromNat(k) && Below(salt, w.salt) && salt != 0
    ensures 1 <= ToNat(salt) < Pow2(k) <= MAX_INT + 1
  {
    hide Pow2, FromNat, ToNat, Below, Shl, Small, Less;
    FromTo(salt);
    OneWord();
    PowerWord(k);
    ShiftedBelow(salt, w.salt);
    WordOrder(ToNat(salt), Pow2(k));
  }

  /** Words of ints are the same only for the same int. */
  lemma SameWord(u: nat, v: nat)
    requires u <= MAX_INT && v <= MAX_INT
    ensures FromNat(u) == FromNat(v) <==> u == v
  {
    ToFrom(u);
    ToFrom(v);
  }

  lemma Returns(v: nat, m: nat, n: nat)
    requires n >= 2 && 1 <= v <= n
    ensures Counted(v, m, n) == v <==> m % n == 0
  {
    var x := v - 1;
    Residue(m, n);
    Residue(x, n);
    ModShift(m, x, n);
    if (x + m) % n == x { ModWindow(x, x + m % n, n); }
  }
}
