/**
 * The limb representation of a scalar and the fixed-window digits the
 * accumulator reads out of it.
 *
 * A scalar's representation is an array of 64-bit limbs, least significant
 * limb first. The accumulator reads window `i` of width `w` as
 * `(limb[i*w / 64] >> ((i % (64/w)) * w)) & (2^w - 1)`; on unsigned values a
 * right shift by `s` is division by `2^s` and a mask of `2^w - 1` is the
 * remainder modulo `2^w`, which is how the model writes them.
 */
module ScalarRepr {
  import opened Pow2Arith

  /** `BITS_PER_LIMB`: the width of one limb. */
  const BitsPerLimb: nat := 64

  /** `2^BitsPerLimb`. */
  const LimbBase: nat := 0x1_0000_0000_0000_0000

  /** An unsigned 64-bit limb. */
  type Limb = x: nat | x < LimbBase

  /** A scalar's canonical representation: limbs, least significant first. */
  type Repr = seq<Limb>

  /** The number a representation stands for. */
  function Value(s: Repr): nat
  {
    if |s| == 0 then 0 else s[0] + LimbBase * Value(s[1..])
  }

  /** The window sizes the accumulator accepts for a given bit count. */
  predicate WindowOk(w: nat, nbits: nat)
  {
    DividesLimb(w) && nbits % w == 0
  }

  /** A window width the limb layout supports: it divides the limb width. */
  predicate DividesLimb(w: nat)
  {
    0 < w && BitsPerLimb % w == 0
  }

  /** The representation holds at least `nbits` bits, so every window the accumulator reads is in range. */
  predicate Covers(s: Repr, nbits: nat)
  {
    nbits <= BitsPerLimb * |s|
  }

  /** When the limbs hold `nw` windows, window `i < nw` lies in an existing limb. */
  lemma LimbIndexInRange(s: Repr, i: nat, w: nat, nw: nat)
    requires 0 < w && i < nw && Covers(s, w * nw)
    ensures (i * w) / BitsPerLimb < |s|
  {
    assert i * w + w <= nw * w by {
      MulAtLeast(nw - i, w);
      assert (nw - i) * w == nw * w - i * w;
    }
  }

  /** Limb `L`, with the limbs past the end of the representation read as zero. */
  function LimbAt(s: Repr, L: nat): Limb
  {
    if L < |s| then s[L] else 0
  }

  /**
   * Window `i` of `s`, read from a single limb as the accumulator does it:
   * limb `i*w / 64`, shifted right by `(i % (64/w)) * w`, masked to `w` bits.
   */
  function Digit(s: Repr, i: nat, w: nat): (d: nat)
    requires DividesLimb(w)
    ensures d < Pow2(w)
  {
    var limb := (i * w) / BitsPerLimb;
    var windowInLimb := i % (BitsPerLimb / w);
    (LimbAt(s, limb) / Pow2(windowInLimb * w)) % Pow2(w)
  }

  /** `2^(64 L)`, the weight of limb `L`, built from the limb base. */
  function LimbWeight(L: nat): (r: nat)
    ensures r >= 1
  {
    if L == 0 then 1 else LimbBase * LimbWeight(L - 1)
  }

  /**
   * The limb base is `2^b` for `b = BitsPerLimb`; the width is a parameter
   * so that no call of `Pow2` on a literal enters the callers' proofs.
   */
  lemma LimbBaseIsPow2(b: nat)
    requires b == BitsPerLimb
    ensures Pow2(b) == LimbBase
  {
    var e1 := b / BitsPerLimb;
    assert Pow2(e1) == 2;
    var e2 := e1 + e1;
    Pow2Add(e1, e1);
    var e4 := e2 + e2;
    Pow2Add(e2, e2);
    var e8 := e4 + e4;
    Pow2Add(e4, e4);
    var e16 := e8 + e8;
    Pow2Add(e8, e8);
    var e32 := e16 + e16;
    Pow2Add(e16, e16);
    Pow2Add(e32, e32);
  }

  lemma LimbWeightStep(b: nat, e: nat)
    requires b == BitsPerLimb
    ensures Pow2(b + e) == LimbBase * Pow2(e)
  {
    Pow2Add(b, e);
    LimbBaseIsPow2(b);
  }

  /** The weight of limb `L` is `2^(64 L)`. */
  lemma {:induction false} LimbWeightIsPow2(L: nat)
    ensures LimbWeight(L) == Pow2(BitsPerLimb * L)
  {
    if L > 0 {
      LimbWeightIsPow2(L - 1);
      LimbWeightStep(BitsPerLimb, BitsPerLimb * (L - 1));
      assert BitsPerLimb + BitsPerLimb * (L - 1) == BitsPerLimb * L;
    }
  }

  /** The limbs below `L` and the limbs from `L` up. */
  lemma {:induction false} ValueSplit(s: Repr, L: nat)
    requires L <= |s|
    ensures Value(s[..L]) < LimbWeight(L)
    ensures Value(s) == Value(s[..L]) + LimbWeight(L) * Value(s[L..])
  {
    if L == 0 {
      assert s[..0] == [];
      assert s[0..] == s;
    } else {
      var t := s[1..];
      ValueSplit(t, L - 1);
      assert t[..L - 1] == s[..L][1..];
      assert t[L - 1..] == s[L..];
      CombineLimb(s[0], LimbBase, Value(t[..L - 1]), LimbWeight(L - 1), Value(s[L..]), Value(t), Value(s), Value(s[..L]));
    }
  }

  /** Putting the lowest limb `s0` back in front of the split of the remaining limbs. */
  lemma CombineLimb(s0: int, B: int, lo: int, P: int, mid: int, vt: int, vs: int, vsL: int)
    requires 0 <= s0 < B && 0 <= lo < P
    requires vt == lo + P * mid && vs == s0 + B * vt && vsL == s0 + B * lo
    ensures vsL < B * P && vs == vsL + (B * P) * mid
  {
    MulMonotone(B, lo, P - 1);
    assert B * (P - 1) == B * P - B;
    DistributeAssoc(B, lo, P, mid);
  }

  /** The limbs from `L` up, once the lower limbs `lo < 2^(64 L)` are shifted out. */
  lemma ShiftOutLow(V: int, lo: int, PL: int, top: int)
    requires 0 <= lo < PL && V == lo + PL * top
    ensures V / PL == top
  {
    DivModUnique(V, PL, top, lo);
  }

  /** Inside one limb: the limbs above it are multiples of `2^(o + w)` and drop out of the window. */
  lemma WithinLimb(limb: int, hi: int, B: int, Po: int, Pw: int, Pr: int)
    requires limb >= 0 && hi >= 0 && Po > 0 && Pw > 0 && Pr > 0 && B == Po * (Pw * Pr)
    ensures ((limb + B * hi) / Po) % Pw == (limb / Po) % Pw
  {
    var c := Pr * hi;
    assert B * hi == (c * Pw) * Po;
    DivAddMultiple(limb, c * Pw, Po);
    DivAddMultiple(limb / Po, c, Pw);
  }

  /** Window `i` starts at bit `o = (i % (64/w))*w` of limb `(i*w)/64`, and fits in it. */
  lemma WindowPosition(i: nat, w: nat)
    requires 0 < w && BitsPerLimb % w == 0
    ensures i * w == BitsPerLimb * ((i * w) / BitsPerLimb) + (i % (BitsPerLimb / w)) * w
    ensures (i % (BitsPerLimb / w)) * w + w <= BitsPerLimb
  {
    var q := BitsPerLimb / w;
    var j := i % q;
    var o := j * w;
    assert q * w == BitsPerLimb;
    assert o + w <= BitsPerLimb by {
      MulMonotone(w, j, q - 1);
      assert w * (q - 1) == q * w - w;
    }
    assert i * w == (i / q) * BitsPerLimb + o by {
      assert i == (i / q) * q + j;
      Distribute(i / q, q, j, w);
    }
    DivModUnique(i * w, BitsPerLimb, i / q, o);
  }

  /** A representation of `n` limbs stands for a number below `2^(64 n)`. */
  lemma {:induction false} ValueBound(s: Repr)
    ensures Value(s) < LimbWeight(|s|)
  {
    if |s| > 0 {
      ValueBound(s[1..]);
      MulMonotone(LimbBase, Value(s[1..]), LimbWeight(|s| - 1) - 1);
    }
  }

  /** Bits `[64 L + o, 64 L + o + w)` of the scalar are bits `[o, o + w)` of limb `L`. */
  lemma BitsOfLimb(s: Repr, L: nat, o: nat, w: nat)
    requires o + w <= BitsPerLimb
    ensures (LimbAt(s, L) / Pow2(o)) % Pow2(w) == (Value(s) / Pow2(BitsPerLimb * L + o)) % Pow2(w)
  {
    if L < |s| {
      BitsOfPresentLimb(s, L, o, w);
    } else {
      BitsPastEnd(s, L, o, w);
    }
  }

  lemma BitsOfPresentLimb(s: Repr, L: nat, o: nat, w: nat)
    requires L < |s| && o + w <= BitsPerLimb
    ensures (LimbAt(s, L) / Pow2(o)) % Pow2(w) == (Value(s) / Pow2(BitsPerLimb * L + o)) % Pow2(w)
  {
    HighLimbs(s, L);
    LimbWeightIsPow2(L);
    ShiftInTwo(Value(s), BitsPerLimb * L, o);
    LimbSplit(o, w);
    WithinLimb(s[L], Value(s[L + 1..]), LimbBase, Pow2(o), Pow2(w), Pow2(BitsPerLimb - o - w));
  }

  /** Shifting out the `L` lowest limbs leaves limb `L` and the limbs above it. */
  lemma HighLimbs(s: Repr, L: nat)
    requires L < |s|
    ensures Value(s) / LimbWeight(L) == s[L] + LimbBase * Value(s[L + 1..])
  {
    ValueSplit(s, L);
    ShiftOutLow(Value(s), Value(s[..L]), LimbWeight(L), Value(s[L..]));
    assert s[L..][1..] == s[L + 1..];
  }

  /** A shift by `a + b` is a shift by `a` followed by a shift by `b`. */
  lemma ShiftInTwo(V: nat, a: nat, b: nat)
    ensures V / Pow2(a + b) == V / Pow2(a) / Pow2(b)
  {
    Pow2Add(a, b);
    DivModMul(V, Pow2(a), Pow2(b));
  }

  /** A limb is `o` low bits, a `w`-bit window and the bits above it. */
  lemma LimbSplit(o: nat, w: nat)
    requires o + w <= BitsPerLimb
    ensures LimbBase == Pow2(o) * (Pow2(w) * Pow2(BitsPerLimb - o - w))
  {
    LimbBaseIsPow2(o + (w + (BitsPerLimb - o - w)));
    Pow2Add(o, w + (BitsPerLimb - o - w));
    Pow2Add(w, BitsPerLimb - o - w);
  }

  /** Past the last limb the scalar has no bits left. */
  lemma BitsPastEnd(s: Repr, L: nat, o: nat, w: nat)
    requires |s| <= L
    ensures (Value(s) / Pow2(BitsPerLimb * L + o)) % Pow2(w) == 0
    ensures (LimbAt(s, L) / Pow2(o)) % Pow2(w) == 0
  {
    DivModUnique(0, Pow2(o), 0, 0);
    var P := Pow2(BitsPerLimb * L + o);
    ValueBound(s);
    LimbWeightIsPow2(|s|);
    Pow2Monotone(BitsPerLimb * |s|, BitsPerLimb * L + o);
    DivModUnique(Value(s), P, 0, Value(s));
    DivModUnique(0, Pow2(w), 0, 0);
  }

  /** The limb-local read of `Digit` is bits `[i*w, i*w + w)` of the whole scalar. */
  lemma DigitIsBits(s: Repr, i: nat, w: nat)
    requires DividesLimb(w)
    ensures Digit(s, i, w) == (Value(s) / Pow2(i * w)) % Pow2(w)
  {
    WindowPosition(i, w);
    BitsOfLimb(s, (i * w) / BitsPerLimb, (i % (BitsPerLimb / w)) * w, w);
  }

  /** A zero scalar has only zero windows, so it contributes no table entry. */
  lemma ZeroScalarDigits(s: Repr, i: nat, w: nat)
    requires DividesLimb(w) && Value(s) == 0
    ensures Digit(s, i, w) == 0
  {
    DigitIsBits(s, i, w);
    DivModUnique(0, Pow2(i * w), 0, 0);
    DivModUnique(0, Pow2(w), 0, 0);
  }

  /** The first `nw` windows of `s`, least significant first. */
  function Digits(s: Repr, nw: nat, w: nat): (ds: seq<nat>)
    requires DividesLimb(w)
  {
    seq(nw, i requires 0 <= i < nw => Digit(s, i, w))
  }

  /** `Σ_{i < n} ds[i] · 2^(w·i)`. */
  function DigitSum(ds: seq<nat>, n: nat, w: nat): nat
    requires n <= |ds|
  {
    if n == 0 then 0 else DigitSum(ds, n - 1, w) + ds[n - 1] * Pow2((n - 1) * w)
  }

  /** The windows of `s` reconstruct the scalar modulo `2^(w·n)`. */
  lemma {:induction false} DigitSumIsLowBits(s: Repr, nw: nat, n: nat, w: nat)
    requires DividesLimb(w) && n <= nw
    ensures DigitSum(Digits(s, nw, w), n, w) == Value(s) % Pow2(w * n)
  {
    if n > 0 {
      var k := n - 1;
      var ds := Digits(s, nw, w);
      MulSucc(k, w);
      DigitSumIsLowBits(s, nw, k, w);
      DigitIsBits(s, k, w);
      Pow2Add(k * w, w);
      NextDigit(DigitSum(ds, n, w), DigitSum(ds, k, w), ds[k], Value(s), Pow2(k * w), Pow2(w));
    }
  }

  /** Appending digit `d = (V / Pk) % Pw` extends `V % Pk` to `V % (Pk * Pw)`. */
  lemma NextDigit(sumN: int, sumK: int, d: int, V: int, Pk: int, Pw: int)
    requires Pk > 0 && Pw > 0
    requires sumN == sumK + d * Pk && sumK == V % Pk && d == (V / Pk) % Pw
    ensures sumN == V % (Pk * Pw)
  {
    DivModMul(V, Pk, Pw);
  }

  /**
   * Over `ceil(nbits / w)` windows the digits reconstruct `k mod 2^nbits`,
   * whenever `w` divides the limb width and `nbits`.
   */
  lemma DigitsReconstruct(s: Repr, nbits: nat, w: nat)
    requires WindowOk(w, nbits)
    ensures DigitSum(Digits(s, CeilDiv(nbits, w), w), CeilDiv(nbits, w), w) == Value(s) % Pow2(nbits)
  {
    var nw := CeilDiv(nbits, w);
    assert w * nw == nbits;
    DigitSumIsLowBits(s, nw, nw, w);
  }

  /** Digits read most significant first: `(…(ds[nw-1]·2^w + ds[nw-2])·2^w + …)·2^w + ds[i]`. */
  function Horner(ds: seq<nat>, i: nat, w: nat): nat
    decreases |ds| - i
  {
    if i >= |ds| then 0 else Horner(ds, i + 1, w) * Pow2(w) + ds[i]
  }

  lemma {:induction false} HornerSplit(ds: seq<nat>, i: nat, w: nat)
    requires i <= |ds|
    ensures DigitSum(ds, |ds|, w) == DigitSum(ds, i, w) + Pow2(i * w) * Horner(ds, i, w)
    decreases |ds| - i
  {
    if i < |ds| {
      HornerSplit(ds, i + 1, w);
      MulSucc(i, w);
      Pow2Add(i * w, w);
      Regroup(DigitSum(ds, i, w), ds[i], Pow2(i * w), Pow2(w), Horner(ds, i + 1, w));
    }
  }

  lemma Regroup(a: int, d: int, P: int, Pw: int, H: int)
    ensures a + d * P + (P * Pw) * H == a + P * (H * Pw + d)
  {
  }

  lemma MulSucc(k: int, w: int)
    ensures w * (k + 1) == k * w + w && w * k == k * w && (k + 1) * w == k * w + w
  {
  }

  /** Horner's most-significant-first reading and the digit sum agree. */
  lemma HornerIsDigitSum(ds: seq<nat>, w: nat)
    ensures Horner(ds, 0, w) == DigitSum(ds, |ds|, w)
  {
    HornerSplit(ds, 0, w);
  }
}
