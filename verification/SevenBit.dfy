/** Integers in groups of seven bits, low group first, with the high bit of a byte saying that more follow
    (unsigned LEB128). */
module SevenBit {
  import opened BitStreams

  const WORD: nat := 0x1_0000_0000

  function Pow128(k: nat): (p: nat)
    ensures p >= 1
  {
    if k == 0 then 1 else 128 * Pow128(k - 1)
  }

  function Encode7(value: nat): (s: seq<byte>)
    ensures |s| >= 1
  {
    if value > 0x7f then [value % 128 + 128] + Encode7(value / 128) else [value]
  }

  /** The number the groups stand for, unbounded. */
  function Value7(s: seq<byte>): nat {
    if s == [] then 0 else Value7(s[..|s| - 1]) + s[|s| - 1] % 128 * Pow128(|s| - 1)
  }

  /** The first n bytes are one encoded number: only the last has its high bit clear. */
  predicate Ends(s: seq<byte>, n: nat) {
    0 < n <= |s| && s[n - 1] < 128 && forall k :: 0 <= k < n - 1 ==> s[k] >= 128
  }

  /** A byte in front adds a group below. */
  lemma {:induction false} ValueOfMore(b: byte, s: seq<byte>)
    ensures Value7([b] + s) == b % 128 + 128 * Value7(s)
  {
    if s == [] {
      assert [b] + s == [b];
      assert Value7([b]) == Value7([]) + b % 128 * Pow128(0);
    } else {
      var front, last := s[..|s| - 1], s[|s| - 1];
      assert ([b] + s)[..|s|] == [b] + front;
      ValueOfMore(b, front);
      Shifted(last % 128, |s| - 1);
    }
  }

  lemma Shifted(x: nat, k: nat)
    ensures x * Pow128(k + 1) == 128 * (x * Pow128(k))
  {
  }

  /** Reading what was written gives the number, and the end is where the writing ended. */
  lemma {:induction false} RoundTrip(value: nat, rest: seq<byte>)
    ensures Value7(Encode7(value)) == value && Ends(Encode7(value) + rest, |Encode7(value)|)
  {
    if value > 0x7f {
      var b, s := value % 128 + 128, Encode7(value / 128);
      RoundTrip(value / 128, rest);
      assert Encode7(value) == [b] + s;
      hide Encode7, Value7, Ends;
      ValueOfMore(b, s);
      EndsMore(b, s + rest, |s|);
      assert [b] + s + rest == [b] + (s + rest);
      LowGroup(value);
    } else {
      ValueOfMore(value, []);
      assert [value] + [] == [value];
    }
  }

  lemma LowGroup(value: nat)
    ensures (value % 128 + 128) % 128 + 128 * (value / 128) == value
  {
  }

  lemma EndsMore(b: byte, s: seq<byte>, n: nat)
    requires b >= 128 && Ends(s, n)
    ensures Ends([b] + s, n + 1)
  {
  }

  lemma {:induction false} EncodedSize(value: nat, k: nat)
    requires k >= 1 && value < Pow128(k)
    ensures |Encode7(value)| <= k
  {
    if value > 0x7f {
      EncodedSize(value / 128, k - 1);
    }
  }

  /** No group is written in vain: n bytes mean that the number needs n groups. */
  lemma {:induction false} NoneInVain(value: nat)
    ensures var n := |Encode7(value)|; value < Pow128(n) && (n > 1 ==> Pow128(n - 1) <= value)
  {
    if value > 0x7f {
      NoneInVain(value / 128);
      var n := |Encode7(value / 128)|;
      assert Encode7(value)[1..] == Encode7(value / 128);
      assert Pow128(n + 1) == 128 * Pow128(n);
      assert n > 1 ==> Pow128(n) == 128 * Pow128(n - 1);
    } else {
      assert Pow128(1) == 128;
    }
  }

  lemma {:induction false} ValueBound(s: seq<byte>)
    ensures Value7(s) < Pow128(|s|)
  {
    if s != [] {
      ValueBound(s[..|s| - 1]);
      GroupBound(s[|s| - 1] % 128, Pow128(|s| - 1));
    }
  }

  lemma GroupBound(x: nat, p: nat)
    requires x < 128
    ensures x * p <= 127 * p
  {
  }

  /** The encoding is the shortest there is. */
  lemma ShortestEncoding(value: nat, s: seq<byte>)
    requires s != [] && Value7(s) == value
    ensures |Encode7(value)| <= |s|
  {
    ValueBound(s);
    EncodedSize(value, |s|);
  }

  lemma FiveBytes(value: nat)
    requires value < WORD
    ensures |Encode7(value)| <= 5
  {
    assert Pow128(5) == 0x8_0000_0000;
    EncodedSize(value, 5);
  }

  lemma EncodeStep(value: nat)
    ensures value > 0x7f ==> Encode7(value) == [value % 128 + 128] + Encode7(value / 128)
    ensures value <= 0x7f ==> Encode7(value) == [value]
  {
  }

  /** Writes a 32-bit number to the front of the five bytes. */
  method Write7BitEncodedInt(value0: nat, bytes: array<byte>) returns (i: nat)
    requires value0 < WORD && bytes.Length == 5
    modifies bytes
    ensures i <= 5 && bytes[..i] == Encode7(value0)
  {
    FiveBytes(value0);
    hide Encode7;
    var value := value0;
    i := 0;
    while value > 0x7f
      invariant i + |Encode7(value)| == |Encode7(value0)| <= 5
      invariant bytes[..i] + Encode7(value) == Encode7(value0)
    {
      EncodeStep(value);
      ghost var done, rest := bytes[..i], Encode7(value / 128);
      bytes[i] := value % 128 + 128;
      assert bytes[..i + 1] == done + [value % 128 + 128];
      assert done + ([value % 128 + 128] + rest) == bytes[..i + 1] + rest;
      i := i + 1;
      value := value / 128;
    }
    EncodeStep(value);
    ghost var done := bytes[..i];
    bytes[i] := value;
    assert bytes[..i + 1] == done + [value];
    i := i + 1;
  }

  /** Reads a number; its groups are added up in 32 bits. */
  method Read7BitEncodedInt(bytes: seq<byte>, ghost n: nat) returns (value: nat, i: nat)
    requires n <= 5 && Ends(bytes, n)
    ensures i == n && value == Value7(bytes[..n]) % WORD
  {
    value, i := 0, 0;
    var scale: nat := 1;
    while true
      invariant i < n && value == Value7(bytes[..i]) % WORD && scale == Pow128(i)
      decreases n - i
    {
      var c: nat := bytes[i];
      var x := c % 128 * scale;
      MoreValue(bytes, i);
      SumWraps(Value7(bytes[..i]), x);
      value := (value + x % WORD) % WORD;
      i := i + 1;
      scale := scale * 128;
      if c < 128 {
        break;
      }
    }
  }

  lemma MoreValue(s: seq<byte>, i: nat)
    requires i < |s|
    ensures Value7(s[..i + 1]) == Value7(s[..i]) + s[i] % 128 * Pow128(i)
  {
    assert s[..i + 1][..i] == s[..i];
  }

  lemma SumWraps(a: nat, b: nat)
    ensures (a % WORD + b % WORD) % WORD == (a + b) % WORD
  {
  }

  /** An encoded number ends in one place only. */
  lemma EndsOnce(s: seq<byte>, m: nat, n: nat)
    requires Ends(s, m) && Ends(s, n)
    ensures m == n
  {
    if m < n { assert false; }
    if n < m { assert false; }
  }
}
