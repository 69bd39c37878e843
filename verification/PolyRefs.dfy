/** 32-bit polygon references: salt, tile and polygon packed at the widths that `init` computes. */
module PolyRefs {
  import opened Words

  // ---- Shifts and masks ----

  function Shl(x: bv32, k: bv32): bv32
    requires k <= 31
  {
    x << k
  }

  function Shr(x: bv32, k: bv32): bv32
    requires k <= 31
  {
    x >> k
  }

  function Or(x: bv32, y: bv32): bv32 {
    x | y
  }

  function And(x: bv32, y: bv32): bv32 {
    x & y
  }

  /** The k low bits. */
  function Mask(k: bv32): bv32
    requires k <= 31
  {
    (1 << k) - 1
  }

  /** x has at most k bits. */
  predicate Below(x: bv32, k: bv32)
    requires k <= 31
  {
    x < 1 << k
  }

  /** x can be shifted left by k without losing bits. */
  predicate Room(x: bv32, k: bv32)
    requires k <= 31
  {
    x <= 0xffff_ffff >> k
  }

  lemma ShlOne(x: bv32, k: bv32)
    requires 1 <= k <= 31
    ensures Shl(x, k) == Shl(Shl(x, k - 1), 1)
  {
  }

  lemma ShrOne(x: bv32, k: bv32)
    requires 1 <= k <= 31
    ensures Shr(x, k) == Shr(Shr(x, k - 1), 1)
  {
  }

  lemma {:induction false} ShlAdd(x: bv32, a: bv32, b: bv32)
    requires a <= 31 && b <= 31 && a + b <= 31
    ensures Shl(x, b + a) == Shl(Shl(x, a), b)
    decreases b
  {
    hide Shl;
    if b == 0 {
      ShlZero(Shl(x, a));
    } else {
      ShlAdd(x, a, b - 1);
      ShlOne(x, b + a);
      ShlOne(Shl(x, a), b);
      assert b + a - 1 == (b - 1) + a;
    }
  }

  lemma {:induction false} ShrAdd(x: bv32, a: bv32, b: bv32)
    requires a <= 31 && b <= 31 && a + b <= 31
    ensures Shr(x, a + b) == Shr(Shr(x, a), b)
    decreases b
  {
    if b == 0 {
      assert Shr(Shr(x, a), 0) == Shr(x, a);
    } else {
      hide Shr;
      ShrAdd(x, a, b - 1);
      ShrOne(x, a + b);
      ShrOne(Shr(x, a), b);
      assert a + b - 1 == a + (b - 1);
    }
  }

  /** A field of k low bits under another one comes apart again. */
  lemma OrBack(x: bv32, y: bv32, k: bv32)
    requires k <= 31 && Room(x, k) && Below(y, k)
    ensures Shr(Or(Shl(x, k), y), k) == x
  {
  }

  lemma OrLow(x: bv32, y: bv32, k: bv32)
    requires k <= 31 && Below(y, k)
    ensures And(Or(Shl(x, k), y), Mask(k)) == y
  {
  }

  lemma MaskId(x: bv32, k: bv32)
    requires k <= 31 && Below(x, k)
    ensures And(x, Mask(k)) == x
  {
  }

  lemma ShlZero(x: bv32)
    ensures Shl(x, 0) == x
  {
  }

  lemma OrShiftOne(x: bv32, y: bv32)
    ensures Shl(Or(x, y), 1) == Or(Shl(x, 1), Shl(y, 1))
  {
  }

  lemma {:induction false} OrShift(x: bv32, y: bv32, k: bv32)
    requires k <= 31
    ensures Shl(Or(x, y), k) == Or(Shl(x, k), Shl(y, k))
    decreases k
  {
    hide Shl, Or;
    if k == 0 {
      ShlZero(x);
      ShlZero(y);
      ShlZero(Or(x, y));
    } else {
      OrShift(x, y, k - 1);
      OrShiftOne(Shl(x, k - 1), Shl(y, k - 1));
      ShlOne(x, k);
      ShlOne(y, k);
      ShlOne(Or(x, y), k);
    }
  }

  lemma BelowHasRoom(x: bv32, s: bv32, t: bv32)
    requires s <= 31 && t <= 31 && s + t <= 32 && Below(x, s)
    ensures Room(x, t)
  {
  }

  lemma OrHasRoom(x: bv32, y: bv32, k: bv32)
    requires k <= 31 && Room(x, k) && Room(y, k)
    ensures Room(Or(x, y), k)
  {
  }

  lemma ShlOneHasRoom(x: bv32, k: bv32)
    requires k <= 30 && Room(x, k + 1)
    ensures Room(Shl(x, 1), k)
  {
  }

  lemma {:induction false} ShlHasRoom(x: bv32, t: bv32, p: bv32)
    requires t <= 31 && p <= 31 && t + p <= 31 && Room(x, t + p)
    ensures Room(Shl(x, t), p)
    decreases t
  {
    if t == 0 {
      assert Shl(x, 0) == x;
    } else {
      hide Shl, Room;
      assert t - 1 + (p + 1) == t + p;
      ShlHasRoom(x, t - 1, p + 1);
      ShlOneHasRoom(Shl(x, t - 1), p);
      ShlOne(x, t);
    }
  }

  // ---- Powers of two ----

  /** The word is smeared to the right, so that adding one gives a power of two. */
  function NextPow2(v: bv32): bv32 {
    var a := v - 1;
    var b := a | (a >> 1);
    var c := b | (b >> 2);
    var d := c | (c >> 4);
    var e := d | (d >> 8);
    var f := e | (e >> 16);
    f + 1
  }

  /** The least power of two not below v, as long as that fits 32 bits. */
  lemma NextPow2IsLeast(v: bv32)
    requires 1 <= v <= 0x8000_0000
    ensures NextPow2(v) & (NextPow2(v) - 1) == 0 && NextPow2(v) != 0 && v <= NextPow2(v)
    ensures v == 1 || NextPow2(v) >> 1 < v
  {
  }

  lemma NextPow2Wraps(v: bv32)
    ensures NextPow2(v) == 0 <==> v == 0 || v > 0x8000_0000
  {
  }

  /** The shift that brings v down to at most `limit`, or none. */
  function Half(v: bv32, limit: bv32, shift: bv32): (r: bv32)
    requires shift <= 16
    ensures r <= 16
  {
    if v > limit then shift else 0
  }

  /** The position of the highest set bit, found by halving the range four times. */
  function Ilog2(v: bv32): bv32 {
    var r := Half(v, 0xffff, 16);
    var v0 := Shr(v, r);
    var s1 := Half(v0, 0xff, 8);
    var v1 := Shr(v0, s1);
    var s2 := Half(v1, 0xf, 4);
    var v2 := Shr(v1, s2);
    var s3 := Half(v2, 0x3, 2);
    var v3 := Shr(v2, s3);
    Or(Or(Or(Or(r, s1), s2), s3), Shr(v3, 1))
  }

  lemma Ilog2IsFloor(v: bv32)
    requires v != 0
    ensures Ilog2(v) <= 31 && Shr(v, Ilog2(v)) == 1
  {
    hide Half, Shr, Or;
    var r := Half(v, 0xffff, 16);
    var v0 := Shr(v, r);
    var s1 := Half(v0, 0xff, 8);
    var v1 := Shr(v0, s1);
    var s2 := Half(v1, 0xf, 4);
    var v2 := Shr(v1, s2);
    var s3 := Half(v2, 0x3, 2);
    var v3 := Shr(v2, s3);
    FirstHalf(v);
    LastBit(v0);
    Halvings(v, r, s1, s2, s3, Shr(v3, 1));
  }

  lemma FirstHalf(v: bv32)
    requires v != 0
    ensures var r := Half(v, 0xffff, 16); (r == 0 || r == 16) && 1 <= Shr(v, r) <= 0xffff
  {
  }

  lemma LastBit(v0: bv32)
    requires 1 <= v0 <= 0xffff
    ensures var s1 := Half(v0, 0xff, 8);
            var v1 := Shr(v0, s1);
            var s2 := Half(v1, 0xf, 4);
            var v2 := Shr(v1, s2);
            var s3 := Half(v2, 0x3, 2);
            var v3 := Shr(v2, s3);
            (s1 == 0 || s1 == 8) && (s2 == 0 || s2 == 4) && (s3 == 0 || s3 == 2) && Shr(v3, 1) <= 1
                && Shr(v3, Shr(v3, 1)) == 1
  {
    var v1 := Shr(v0, Half(v0, 0xff, 8));
    assert 1 <= v1 <= 0xff;
    var v2 := Shr(v1, Half(v1, 0xf, 4));
    assert 1 <= v2 <= 0xf;
    assert 1 <= Shr(v2, Half(v2, 0x3, 2)) <= 3;
  }

  /** Shifting by the disjoint parts one after the other is shifting by their union. */
  lemma Halvings(v: bv32, r: bv32, s1: bv32, s2: bv32, s3: bv32, b: bv32)
    requires (r == 0 || r == 16) && (s1 == 0 || s1 == 8) && (s2 == 0 || s2 == 4) && (s3 == 0 || s3 == 2) && b <= 1
    ensures var sum := Or(Or(Or(Or(r, s1), s2), s3), b);
            sum <= 31 && Shr(v, sum) == Shr(Shr(Shr(Shr(Shr(v, r), s1), s2), s3), b)
  {
    hide Shr;
    Disjoint(r, s1, s2, s3, b);
    ShrAdd(v, r, s1);
    ShrAdd(v, r + s1, s2);
    ShrAdd(v, r + s1 + s2, s3);
    ShrAdd(v, r + s1 + s2 + s3, b);
  }

  /** The parts have no bit in common, so or is plus. */
  lemma Disjoint(r: bv32, s1: bv32, s2: bv32, s3: bv32, b: bv32)
    requires (r == 0 || r == 16) && (s1 == 0 || s1 == 8) && (s2 == 0 || s2 == 4) && (s3 == 0 || s3 == 2) && b <= 1
    ensures Or(Or(Or(Or(r, s1), s2), s3), b) == r + s1 + s2 + s3 + b <= 31
  {
    SmallBit(b);
    hide Or;
    Or8(r, s1);
    Or4(r + s1, s2);
    Or2(r + s1 + s2, s3);
    Or1(r + s1 + s2 + s3, b);
  }

  lemma SmallBit(b: bv32)
    requires b <= 1
    ensures b == 0 || b == 1
  {
  }

  lemma Or8(a: bv32, s: bv32)
    requires (a == 0 || a == 16) && (s == 0 || s == 8)
    ensures Or(a, s) == a + s && (a + s == 0 || a + s == 8 || a + s == 16 || a + s == 24)
  {
  }

  lemma Or4(a: bv32, s: bv32)
    requires (a == 0 || a == 8 || a == 16 || a == 24) && (s == 0 || s == 4)
    ensures Or(a, s) == a + s <= 28 && (a + s) & 3 == 0
  {
  }

  lemma Or2(a: bv32, s: bv32)
    requires a <= 28 && a & 3 == 0 && (s == 0 || s == 2)
    ensures Or(a, s) == a + s <= 30 && (a + s) & 1 == 0
  {
  }

  lemma Or1(a: bv32, s: bv32)
    requires a <= 30 && a & 1 == 0 && (s == 0 || s == 1)
    ensures Or(a, s) == a + s <= 31
  {
  }

  /** A power of two is 1 shifted by its logarithm. */
  lemma PowerOfLog(p: bv32, x: bv32)
    requires p != 0 && p & (p - 1) == 0
    ensures Ilog2(p) <= 31 && (x < p ==> Below(x, Ilog2(p)))
  {
    hide Ilog2;
    Ilog2IsFloor(p);
    SingleBit(p, Ilog2(p));
  }

  lemma SingleBit(p: bv32, k: bv32)
    requires p != 0 && p & (p - 1) == 0 && k <= 31 && Shr(p, k) == 1
    ensures p == 1 << k
  {
  }

  /** Bits enough for the numbers below v. */
  function BitsFor(v: bv32): bv32 {
    Ilog2(NextPow2(v))
  }

  lemma BitsSuffice(v: bv32, x: bv32)
    requires Countable(v)
    ensures BitsFor(v) <= 31 && (Less(x, v) ==> Below(x, BitsFor(v)))
  {
    hide NextPow2, Ilog2, Below;
    NextPow2IsLeast(v);
    PowerOfLog(NextPow2(v), x);
  }

  predicate Countable(v: bv32) {
    1 <= v <= 0x8000_0000
  }

  // ---- References ----

  datatype Widths = Widths(salt: bv32, tile: bv32, poly: bv32)

  /** The three fields fill at most one word. */
  predicate Packed(w: Widths) {
    w.salt <= 31 && w.tile <= 31 && w.poly <= 31 && w.tile + w.poly <= 31 && w.salt + w.tile + w.poly <= 32
  }

  /** With at least the ten salt bits that `init` insists on. */
  predicate Usable(w: Widths) {
    Packed(w) && w.salt >= 10
  }

  datatype InitResult = Ready(widths: Widths) | TooFewSaltBits | AssertionFailed

  /** The widths for a mesh of maxTiles tiles and maxPolys polygons per tile. */
  function InitWidths(maxTiles: bv32, maxPolys: bv32): InitResult {
    SplitWord(BitsFor(maxTiles), BitsFor(maxPolys))
  }

  /** What the tile and polygon fields leave for the salt. */
  function SplitWord(tile: bv32, poly: bv32): InitResult {
    if tile + poly > 31 then AssertionFailed
    else
      var rest := 32 - tile - poly;
      var salt := if 31 < rest then 31 else rest;
      if salt < 10 then TooFewSaltBits else Ready(Widths(salt, tile, poly))
  }

  /** Every tile index and every polygon index of the mesh fits its field. */
  lemma InitWidthsFit(maxTiles: bv32, maxPolys: bv32, it: bv32, ip: bv32)
    requires Countable(maxTiles) && Countable(maxPolys)
    ensures var r := InitWidths(maxTiles, maxPolys);
            r.Ready? ==>
                && Usable(r.widths) && (Less(it, maxTiles) ==> Below(it, r.widths.tile))
                && (Less(ip, maxPolys) ==> Below(ip, r.widths.poly))
  {
    hide BitsFor, Below, Countable, Less;
    BitsSuffice(maxTiles, it);
    BitsSuffice(maxPolys, ip);
  }

  function EncodePolyId(w: Widths, salt: bv32, it: bv32, ip: bv32): bv32
    requires Packed(w)
  {
    Or(Or(Shl(salt, w.poly + w.tile), Shl(it, w.poly)), ip)
  }

  function DecodeSalt(w: Widths, ref: bv32): bv32
    requires Packed(w)
  {
    And(Shr(ref, w.poly + w.tile), Mask(w.salt))
  }

  function DecodeTile(w: Widths, ref: bv32): bv32
    requires Packed(w)
  {
    And(Shr(ref, w.poly), Mask(w.tile))
  }

  function DecodePoly(w: Widths, ref: bv32): bv32
    requires Packed(w)
  {
    And(ref, Mask(w.poly))
  }

  /** Decoding recovers all three fields of a reference whose fields fit their widths. */
  lemma DecodeEncode(w: Widths, salt: bv32, it: bv32, ip: bv32)
    requires Packed(w) && Below(salt, w.salt) && Below(it, w.tile) && Below(ip, w.poly)
    ensures var ref := EncodePolyId(w, salt, it, ip);
            DecodeSalt(w, ref) == salt && DecodeTile(w, ref) == it && DecodePoly(w, ref) == ip
  {
    hide Shl, Shr, Or, And, Mask, Below, Room, EncodePolyId;
    EncodeAsPair(w, salt, it, ip);
    FieldsBack(salt, it, ip, w.salt, w.tile, w.poly);
  }

  /** Where the fields lie: the polygon lowest, the tile above it, the salt on top. */
  lemma FieldsInPlace(w: Widths, salt: bv32, it: bv32, ip: bv32)
    requires Packed(w) && Below(salt, w.salt) && Below(it, w.tile) && Below(ip, w.poly)
    ensures var ref := EncodePolyId(w, salt, it, ip);
            && And(ref, Mask(w.poly)) == ip
            && And(Shr(ref, w.poly), Mask(w.tile)) == it
            && And(Shr(ref, w.poly + w.tile), Mask(w.salt)) == salt
  {
    hide EncodePolyId, And, Shr, Mask, Below;
    DecodeEncode(w, salt, it, ip);
  }

  /** A tile's base reference, joined with a polygon's index, is that polygon's reference. */
  lemma JoinedRef(w: Widths, salt: bv32, it: bv32, ip: bv32)
    requires Packed(w) && Below(salt, w.salt) && Below(it, w.tile) && Below(ip, w.poly)
    ensures var ref := Or(EncodePolyId(w, salt, it, 0), ip);
            && ref == EncodePolyId(w, salt, it, ip)
            && DecodeSalt(w, ref) == salt && DecodeTile(w, ref) == it && DecodePoly(w, ref) == ip
  {
    hide Shl, Below, DecodeSalt, DecodeTile, DecodePoly;
    OrZero(Or(Shl(salt, w.poly + w.tile), Shl(it, w.poly)), ip);
    DecodeEncode(w, salt, it, ip);
  }

  lemma OrZero(x: bv32, y: bv32)
    ensures Or(Or(x, 0), y) == Or(x, y)
  {
  }

  lemma FieldsBack(salt: bv32, it: bv32, ip: bv32, s: bv32, t: bv32, p: bv32)
    requires s <= 31 && t <= 31 && p <= 31 && p + t <= 31 && t + p <= 31 && s + t <= 32 && s + t + p <= 32
    requires Below(salt, s) && Below(it, t) && Below(ip, p)
    ensures var ref := Or(Shl(Or(Shl(salt, t), it), p), ip);
            And(ref, Mask(p)) == ip && And(Shr(ref, p), Mask(t)) == it && And(Shr(ref, p + t), Mask(s)) == salt
  {
    hide Shl, Shr, Or, And, Mask, Below, Room;
    var hi := Or(Shl(salt, t), it);
    var ref := Or(Shl(hi, p), ip);
    HighHasRoom(salt, it, s, t, p);
    OrBack(hi, ip, p);
    OrLow(hi, ip, p);
    OrLow(salt, it, t);
    SaltComesBack(salt, it, s, t, p, ref);
  }

  lemma SaltComesBack(salt: bv32, it: bv32, s: bv32, t: bv32, p: bv32, ref: bv32)
    requires s <= 31 && t <= 31 && p <= 31 && p + t <= 31 && s + t <= 32 && Below(salt, s) && Below(it, t)
    requires Shr(ref, p) == Or(Shl(salt, t), it)
    ensures And(Shr(ref, p + t), Mask(s)) == salt
  {
    hide Shl, Shr, Or, And, Mask, Below, Room;
    ShrAdd(ref, p, t);
    BelowHasRoom(salt, s, t);
    OrBack(salt, it, t);
    MaskId(salt, s);
  }

  lemma EncodeAsPair(w: Widths, salt: bv32, it: bv32, ip: bv32)
    requires Packed(w)
    ensures EncodePolyId(w, salt, it, ip) == Or(Shl(Or(Shl(salt, w.tile), it), w.poly), ip)
  {
    hide Shl, Or;
    ShlAdd(salt, w.tile, w.poly);
    OrShift(Shl(salt, w.tile), it, w.poly);
  }

  lemma HighHasRoom(salt: bv32, it: bv32, s: bv32, t: bv32, p: bv32)
    requires s <= 31 && t <= 31 && p <= 31 && t + p <= 31 && s + t + p <= 32 && Below(salt, s) && Below(it, t)
    ensures Room(Or(Shl(salt, t), it), p)
  {
    hide Shl, Or, Below, Room;
    assert s + (t + p) <= 32;
    BelowHasRoom(salt, s, t + p);
    ShlHasRoom(salt, t, p);
    BelowHasRoom(it, t, p);
    OrHasRoom(Shl(salt, t), it, p);
  }
}
