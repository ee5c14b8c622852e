/** Bit arithmetic on the non-negative integers stored in the quality bands
    (Landsat QA_PIXEL, MODIS DetailedQA, Sentinel-2 QA60).

    `BitAnd` is the operation the scripts call (`bitwiseAnd`), defined bit by bit
    from the least significant end; `Bit` and `FieldClear` are the reference
    vocabulary ("bit k is set", "bits lo .. lo+w-1 are all clear") in which the
    mask predicates of each sensor are characterised. */
module QaBits {

  /** 2^k, i.e. `1 << k`. */
  function Pow2(k: nat): (r: nat)
    ensures r >= 1
  {
    if k == 0 then 1 else 2 * Pow2(k - 1)
  }

  /** q >> k: q with its k least significant bits shifted out. */
  function Shift(q: nat, k: nat): nat
  {
    if k == 0 then q else Shift(q / 2, k - 1)
  }

  /** Bit k of q is set. */
  predicate Bit(q: nat, k: nat)
  {
    Shift(q, k) % 2 == 1
  }

  /** Bits lo, lo+1, ..., lo+width-1 of q are all clear. */
  ghost predicate FieldClear(q: nat, lo: nat, width: nat)
  {
    forall k :: lo <= k < lo + width ==> !Bit(q, k)
  }

  /** Bitwise AND of two non-negative integers. */
  function BitAnd(a: nat, b: nat): (r: nat)
    ensures r <= a && r <= b
    decreases a
  {
    if a == 0 || b == 0 then 0
    else 2 * BitAnd(a / 2, b / 2) + (if a % 2 == 1 && b % 2 == 1 then 1 else 0)
  }

  /** The mask with exactly the bits lo .. lo+width-1 set, i.e. ((1 << width) - 1) << lo. */
  function FieldMask(lo: nat, width: nat): nat
  {
    if lo > 0 then 2 * FieldMask(lo - 1, width)
    else if width > 0 then 2 * FieldMask(0, width - 1) + 1
    else 0
  }

  lemma {:induction false} ShiftZero(k: nat)
    ensures Shift(0, k) == 0
  {
    if k > 0 { ShiftZero(k - 1); }
  }

  /** A bit of an AND is set exactly when it is set in both operands. */
  lemma {:induction false} BitAndBit(a: nat, b: nat, k: nat)
    ensures Bit(BitAnd(a, b), k) <==> Bit(a, k) && Bit(b, k)
    decreases a
  {
    var r := BitAnd(a, b);
    if a == 0 || b == 0 {
      ShiftZero(k);
    } else if k == 0 {
      assert r % 2 == (if a % 2 == 1 && b % 2 == 1 then 1 else 0);
    } else {
      assert r / 2 == BitAnd(a / 2, b / 2);
      BitAndBit(a / 2, b / 2, k - 1);
    }
  }

  /** Every positive number has a set bit. */
  lemma {:induction false} NonzeroHasBit(x: nat)
    requires x > 0
    ensures exists k: nat :: Bit(x, k)
    decreases x
  {
    if x % 2 == 1 {
      assert Bit(x, 0);
    } else {
      NonzeroHasBit(x / 2);
      var j: nat :| Bit(x / 2, j);
      assert Bit(x, j + 1);
    }
  }

  lemma {:induction false} FieldMaskBit(lo: nat, width: nat, k: nat)
    ensures Bit(FieldMask(lo, width), k) <==> lo <= k < lo + width
    decreases lo, width
  {
    var m := FieldMask(lo, width);
    if lo > 0 {
      if k > 0 {
        assert m / 2 == FieldMask(lo - 1, width);
        FieldMaskBit(lo - 1, width, k - 1);
      }
    } else if width > 0 {
      if k > 0 {
        assert m / 2 == FieldMask(0, width - 1);
        FieldMaskBit(0, width - 1, k - 1);
      }
    } else {
      ShiftZero(k);
    }
  }

  /** `q & FieldMask(lo, width) == 0` tests exactly that the field is clear. */
  lemma FieldAndZero(q: nat, lo: nat, width: nat)
    ensures BitAnd(q, FieldMask(lo, width)) == 0 <==> FieldClear(q, lo, width)
  {
    var m := FieldMask(lo, width);
    var r := BitAnd(q, m);
    if r == 0 {
      forall k | lo <= k < lo + width
        ensures !Bit(q, k)
      {
        ShiftZero(k);
        BitAndBit(q, m, k);
        FieldMaskBit(lo, width, k);
      }
    } else {
      NonzeroHasBit(r);
      var k: nat :| Bit(r, k);
      BitAndBit(q, m, k);
      FieldMaskBit(lo, width, k);
    }
  }

  lemma {:induction false} FieldMaskSingle(k: nat)
    ensures FieldMask(k, 1) == Pow2(k)
  {
    if k > 0 { FieldMaskSingle(k - 1); }
  }

  /** `q & (1 << k) != 0` tests exactly bit k. */
  lemma SingleBitAnd(q: nat, k: nat)
    ensures BitAnd(q, Pow2(k)) != 0 <==> Bit(q, k)
  {
    FieldMaskSingle(k);
    FieldAndZero(q, k, 1);
  }

  /** The quotient and remainder of a division are unique. */
  lemma DivModUnique(x: int, d: int, quotient: int, remainder: int)
    requires d > 0 && x == d * quotient + remainder && 0 <= remainder < d
    ensures x % d == remainder && x / d == quotient
  {
    var q', r' := x / d, x % d;
    assert x == d * q' + r';
    if q' != quotient {
      var gap := q' - quotient;
      assert d * q' == d * quotient + d * gap;
      assert d * gap == remainder - r';
      MulMagnitude(d, gap);
    }
  }

  /** A non-zero multiple of d is at least d away from zero. */
  lemma {:induction false} MulMagnitude(d: int, k: int)
    requires d > 0 && k != 0
    ensures d * k >= d || d * k <= -d
    decreases if k > 0 then k else -k
  {
    if k > 1 {
      MulMagnitude(d, k - 1);
      assert d * k == d * (k - 1) + d;
    } else if k < -1 {
      MulMagnitude(d, k + 1);
      assert d * k == d * (k + 1) - d;
    }
  }

  /** q is a multiple of 2p exactly when it is even and q / 2 is a multiple of p. */
  lemma ModDouble(q: nat, p: nat)
    requires p >= 1
    ensures q % (2 * p) == 0 <==> q % 2 == 0 && (q / 2) % p == 0
  {
    var h := q / 2;
    var m, r := h / p, h % p;
    assert q == (2 * p) * m + (2 * r + q % 2);
    DivModUnique(q, 2 * p, m, 2 * r + q % 2);
  }

  /** The n lowest bits of q are clear exactly when q is a multiple of 2^n. */
  lemma {:induction false} LowFieldClearIffMod(q: nat, n: nat)
    ensures FieldClear(q, 0, n) <==> q % Pow2(n) == 0
  {
    if n > 0 {
      LowFieldClearIffMod(q / 2, n - 1);
      assert forall k :: 1 <= k ==> Bit(q, k) == Bit(q / 2, k - 1);
      assert FieldClear(q, 0, n) <==> !Bit(q, 0) && FieldClear(q / 2, 0, n - 1) by {
        if !Bit(q, 0) && FieldClear(q / 2, 0, n - 1) {
          forall k | 0 <= k < n ensures !Bit(q, k) {
            if k > 0 { assert !Bit(q / 2, k - 1); }
          }
        }
        if FieldClear(q, 0, n) {
          assert !Bit(q, 0);
          forall k | 0 <= k < n - 1 ensures !Bit(q / 2, k) {
            assert !Bit(q, k + 1);
          }
        }
      }
      ModDouble(q, Pow2(n - 1));
    }
  }
}
