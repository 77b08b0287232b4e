/**
  Byte-level vocabulary shared by the UUID model: fixed-width unsigned
  integers, their big- and little-endian byte splits (the effect of `htons`,
  `htonl` and `put_le16`), sequence reversal (the effect of `bswap_128`),
  the integer a byte string denotes in either byte order, and the
  lexicographic byte comparison that `memcmp` performs.
 */
module ByteOrder {

  type uint8 = x: int | 0 <= x < 0x100
  type uint16 = x: int | 0 <= x < 0x1_0000
  type uint32 = x: int | 0 <= x < 0x1_0000_0000

  /** 256 to the power n: the weight of a byte n places from the low end. */
  function Pow256(n: nat): nat
  {
    if n == 0 then 1 else 256 * Pow256(n - 1)
  }

  /** The unsigned integer denoted by `s` read most-significant byte first. */
  function BEValue(s: seq<uint8>): nat
  {
    if |s| == 0 then 0 else s[0] * Pow256(|s| - 1) + BEValue(s[1..])
  }

  /** The unsigned integer denoted by `s` read least-significant byte first. */
  function LEValue(s: seq<uint8>): nat
  {
    if |s| == 0 then 0 else s[0] + 256 * LEValue(s[1..])
  }

  /** Network (big-endian) byte order of a 16-bit value: `htons` stored to memory. */
  function BE16(v: uint16): (r: seq<uint8>)
    ensures |r| == 2
    ensures BEValue(r) == v
  {
    var r := [v / 0x100, v % 0x100];
    BEValue2(r);
    r
  }

  /** Network (big-endian) byte order of a 32-bit value: `htonl` stored to memory. */
  function BE32(v: uint32): (r: seq<uint8>)
    ensures |r| == 4
    ensures BEValue(r) == v
  {
    var q1 := v / 0x100;
    var q2 := q1 / 0x100;
    var q3 := q2 / 0x100;
    var r := [q3, q2 % 0x100, q1 % 0x100, v % 0x100];
    BEValue4(r);
    r
  }

  /** Little-endian byte order of a 16-bit value: the effect of `put_le16`. */
  function LE16(v: uint16): (r: seq<uint8>)
    ensures |r| == 2
    ensures LEValue(r) == v
  {
    var r := [v % 0x100, v / 0x100];
    LEValue2(r);
    r
  }

  /** The bytes of `s` in the opposite order: the effect of `bswap_128`. */
  function Reverse<T>(s: seq<T>): (r: seq<T>)
    ensures |r| == |s|
    ensures forall i :: 0 <= i < |s| ==> r[i] == s[|s| - 1 - i]
  {
    if |s| == 0 then [] else Reverse(s[1..]) + [s[0]]
  }

  /** `s` with the bytes at `offset .. offset + |chunk|` replaced by `chunk`:
      the effect of a `memcpy` into a 16-byte buffer. */
  function Overwrite(s: seq<uint8>, offset: nat, chunk: seq<uint8>): (r: seq<uint8>)
    requires offset + |chunk| <= |s|
    ensures |r| == |s|
    ensures r[offset..offset + |chunk|] == chunk
    ensures forall i :: 0 <= i < |s| && !(offset <= i < offset + |chunk|) ==> r[i] == s[i]
  {
    s[..offset] + chunk + s[offset + |chunk|..]
  }

  /** `memcmp` on two buffers of equal length, reduced to its sign:
      negative, zero or positive as the first differing byte of `a` is
      below, equal to or above that of `b`. */
  function LexCompare(a: seq<uint8>, b: seq<uint8>): (r: int)
    requires |a| == |b|
    ensures -1 <= r <= 1
    ensures r == 0 <==> a == b
  {
    if |a| == 0 then 0
    else if a[0] < b[0] then -1
    else if a[0] > b[0] then 1
    else
      var r := LexCompare(a[1..], b[1..]);
      assert a == [a[0]] + a[1..] && b == [b[0]] + b[1..];
      r
  }

  /** The sign of an integer, as -1, 0 or 1. */
  function Sign(x: int): int
  {
    if x < 0 then -1 else if x > 0 then 1 else 0
  }

  // ---------------------------------------------------------------------
  // Lemmas
  // ---------------------------------------------------------------------

  /** Two bytes read big-endian. */
  lemma BEValue2(s: seq<uint8>)
    requires |s| == 2
    ensures BEValue(s) == s[0] as int * 0x100 + s[1]
  {
    assert BEValue(s[1..]) == s[1] + BEValue(s[2..]);
    assert BEValue(s) == s[0] * Pow256(1) + BEValue(s[1..]);
  }

  /** Four bytes read big-endian. */
  lemma BEValue4(s: seq<uint8>)
    requires |s| == 4
    ensures BEValue(s) == s[0] as int * 0x100_0000 + s[1] as int * 0x1_0000 + s[2] as int * 0x100 + s[3]
  {
    assert Pow256(3) == 0x100_0000 by {
      assert Pow256(2) == 0x1_0000;
    }
    assert s[1..][1..] == s[2..];
    assert s[2..][1..] == s[3..];
    assert s[3..][1..] == s[4..];
    assert BEValue(s[3..]) == s[3] + BEValue(s[4..]);
    assert BEValue(s[2..]) == s[2] * Pow256(1) + BEValue(s[3..]);
    assert BEValue(s[1..]) == s[1] * Pow256(2) + BEValue(s[2..]);
    assert BEValue(s) == s[0] * Pow256(3) + BEValue(s[1..]);
  }

  /** Two bytes read little-endian. */
  lemma LEValue2(s: seq<uint8>)
    requires |s| == 2
    ensures LEValue(s) == s[0] + 0x100 * s[1] as int
  {
    assert s[1..][1..] == s[2..];
    assert LEValue(s[1..]) == s[1] + 0x100 * LEValue(s[2..]);
  }

  /** Multiplying by a natural number preserves order. */
  lemma MulLe(x: int, y: int, p: nat)
    requires x <= y
    ensures x * p <= y * p
  {
  }

  /** A strict inequality survives scaling with a gap of at least the scale. */
  lemma MulLt(x: int, y: int, p: nat)
    requires x < y
    ensures x * p + p <= y * p
  {
    MulLe(x + 1, y, p);
  }

  /** Regrouping a sum of products. */
  lemma Distrib(x: int, p: int, y: int, q: int)
    ensures x * (p * q) + y * q == (x * p + y) * q
  {
  }

  /** Reversal is its own inverse. */
  lemma ReverseInvolution<T>(s: seq<T>)
    ensures Reverse(Reverse(s)) == s
  {
  }

  /** The little-endian split of a 16-bit value is the reversal of its
      big-endian split. */
  lemma LE16IsReversedBE16(v: uint16)
    ensures LE16(v) == Reverse(BE16(v))
  {
  }

  /** A 16-bit value widened to 32 bits splits into two zero bytes followed by
      its 16-bit big-endian split, and conversely a 32-bit value whose first two
      bytes are zero is below 2^16. */
  lemma BE32OfShort(v: uint32)
    ensures BE32(v)[..2] == [0, 0] <==> v < 0x1_0000
    ensures v < 0x1_0000 ==> BE32(v) == [0, 0] + BE16(v)
  {
    var q1 := v / 0x100;
    var q2 := q1 / 0x100;
    assert BE32(v) == [q2 / 0x100, q2 % 0x100, q1 % 0x100, v % 0x100];
    if v < 0x1_0000 {
      assert q1 < 0x100 && q2 == 0;
      assert BE32(v) == [0, 0, v / 0x100, v % 0x100];
    } else {
      assert q1 >= 0x100 && q2 >= 1;
      assert q2 == (q2 / 0x100) * 0x100 + q2 % 0x100;
      assert BE32(v)[..2] == [q2 / 0x100, q2 % 0x100];
    }
  }

  /** The big-endian reading of `n` bytes is below 256^n. */
  lemma {:induction false} BEValueBound(s: seq<uint8>)
    ensures BEValue(s) < Pow256(|s|)
    decreases |s|
  {
    if |s| > 0 {
      BEValueBound(s[1..]);
      MulLe(s[0], 255, Pow256(|s| - 1));
    }
  }

  /** Reading a concatenation big-endian: the head shifted past the tail. */
  lemma {:induction false} BEValueAppend(a: seq<uint8>, b: seq<uint8>)
    ensures BEValue(a + b) == BEValue(a) * Pow256(|b|) + BEValue(b)
    decreases |a|
  {
    if |a| > 0 {
      assert (a + b)[1..] == a[1..] + b;
      BEValueAppend(a[1..], b);
      PowAdd(|a| - 1, |b|);
      Distrib(a[0], Pow256(|a| - 1), BEValue(a[1..]), Pow256(|b|));
    } else {
      assert a + b == b;
    }
  }

  /** Powers of 256 multiply by adding exponents. */
  lemma {:induction false} PowAdd(m: nat, n: nat)
    ensures Pow256(m + n) == Pow256(m) * Pow256(n)
    decreases m
  {
    if m > 0 {
      PowAdd(m - 1, n);
    }
  }

  /** Reading the reversal of `s` little-endian gives the same integer as
      reading `s` big-endian: byte-swapping changes the encoding, not the value. */
  lemma {:induction false} LEValueOfReverse(s: seq<uint8>)
    ensures LEValue(Reverse(s)) == BEValue(s)
    decreases |s|
  {
    if |s| > 0 {
      LEValueOfReverse(s[1..]);
      LEValueSnoc(Reverse(s[1..]), s[0]);
    }
  }

  /** Appending a byte to a little-endian string adds it at the top weight. */
  lemma {:induction false} LEValueSnoc(s: seq<uint8>, x: uint8)
    ensures LEValue(s + [x]) == LEValue(s) + x * Pow256(|s|)
    decreases |s|
  {
    if |s| > 0 {
      assert (s + [x])[1..] == s[1..] + [x];
      LEValueSnoc(s[1..], x);
    } else {
      assert [x][1..] == [];
    }
  }

  /** `LexCompare` is antisymmetric: swapping the operands negates the result. */
  lemma {:induction false} LexCompareAntisymmetric(a: seq<uint8>, b: seq<uint8>)
    requires |a| == |b|
    ensures LexCompare(b, a) == -LexCompare(a, b)
    decreases |a|
  {
    if |a| > 0 && a[0] == b[0] {
      LexCompareAntisymmetric(a[1..], b[1..]);
    }
  }

  /** `LexCompare` is negative exactly when the first byte where the operands
      differ is smaller in `a`. */
  lemma {:induction false} LexCompareFirstDifference(a: seq<uint8>, b: seq<uint8>)
    requires |a| == |b|
    ensures LexCompare(a, b) < 0 <==>
      exists i :: 0 <= i < |a| && a[..i] == b[..i] && a[i] < b[i]
    decreases |a|
  {
    if |a| > 0 {
      if a[0] < b[0] {
        assert a[..0] == b[..0];
      } else if a[0] > b[0] {
        forall i | 0 < i < |a|
          ensures a[..i] != b[..i]
        {
          assert a[..i][0] != b[..i][0];
        }
      } else {
        LexCompareFirstDifference(a[1..], b[1..]);
        if LexCompare(a, b) < 0 {
          var j :| 0 <= j < |a| - 1 && a[1..][..j] == b[1..][..j] && a[1..][j] < b[1..][j];
          assert a[..j + 1] == [a[0]] + a[1..][..j];
          assert b[..j + 1] == [b[0]] + b[1..][..j];
        } else {
          forall i | 0 <= i < |a| && a[..i] == b[..i]
            ensures a[i] >= b[i]
          {
            if i > 0 {
              assert a[1..][..i - 1] == a[..i][1..];
              assert b[1..][..i - 1] == b[..i][1..];
            }
          }
        }
      }
    }
  }

  /** `LexCompare` on equal-length strings orders them as the unsigned integers
      they denote big-endian. */
  lemma {:induction false} LexCompareIsNumericOrder(a: seq<uint8>, b: seq<uint8>)
    requires |a| == |b|
    ensures LexCompare(a, b) == Sign(BEValue(a) - BEValue(b))
    decreases |a|
  {
    if |a| > 0 {
      var p := Pow256(|a| - 1);
      BEValueBound(a[1..]);
      BEValueBound(b[1..]);
      if a[0] < b[0] {
        MulLt(a[0], b[0], p);
      } else if a[0] > b[0] {
        MulLt(b[0], a[0], p);
      } else {
        LexCompareIsNumericOrder(a[1..], b[1..]);
      }
    }
  }

  /** Equal-length byte strings that denote the same integer are equal. */
  lemma BEValueInjective(a: seq<uint8>, b: seq<uint8>)
    requires |a| == |b|
    requires BEValue(a) == BEValue(b)
    ensures a == b
  {
    LexCompareIsNumericOrder(a, b);
  }
}
