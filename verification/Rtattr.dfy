/** The attribute cursor of yalin/yalin/rtattr.h: `align`, the header accessors and `rtattr_next`. */
module Rtattr {
  import opened Bytes
  import opened Words

  /** sizeof(struct rtattr): a 16-bit length and a 16-bit type. */
  const HDR: nat := 4

  /** `align` as the program computes it, on 64-bit words. */
  function Align(blocklen: nat, alignlen: nat): nat {
    And(Wrap64(blocklen + alignlen - 1), Not64(Wrap64(alignlen - 1)))
  }

  /** What `align` is for: the least multiple of the block size not below the length. */
  predicate IsLeastMultiple(r: nat, b: nat, a: nat)
    requires a > 0
  {
    r % a == 0 && b <= r < b + a
  }

  lemma LeastMultipleIsLeast(r: nat, b: nat, a: nat, other: nat)
    requires a > 0 && IsLeastMultiple(r, b, a)
    requires other % a == 0 && other >= b
    ensures r <= other
  {
    var q, q' := r / a, other / a;
    assert r == a * q && other == a * q';
    if q > q' {
      MulMore(a, q, q');
      assert false;
    }
    MulMore(a, q' + 1, q);
  }

  lemma {:induction false} MulMore(a: nat, q: nat, q': nat)
    requires q >= q' + 1
    ensures a * q >= a * q' + a
    decreases q
  {
    if q == q' + 1 {
      assert a * (q' + 1) == a * q' + a;
    } else {
      MulMore(a, q - 1, q');
      assert a * q == a * (q - 1) + a;
    }
  }

  /** A multiple rounded down: what masking leaves. */
  lemma RoundDown(x: nat, b: nat, a: nat)
    requires a > 0 && x == b + a - 1
    ensures IsLeastMultiple(x - x % a, b, a)
  {
    MultipleMod(x / a, a);
    assert x - x % a == a * (x / a);
  }

  /** The mask form rounds the wrapped sum down. */
  lemma AlignMasks(b: nat, k: nat, n: nat)
    requires k < n && Pow2(n) == TWO64
    ensures var x := Wrap64(b + Pow2(k) - 1); Align(b, Pow2(k)) == x - x % Pow2(k)
    ensures 2 * Pow2(k) <= TWO64
  {
    hide And, Pow2;
    Pow2Monotone(k + 1, n);
    Pow2Double(k + 1);
    ModUnique(Pow2(k) - 1, TWO64, 0, Pow2(k) - 1);
    AndHighMask(Wrap64(b + Pow2(k) - 1), k, n);
  }

  /** For every power of two and every word, the mask form is the least multiple not below the
      word exactly when the sum does not wrap; for a word that does wrap it is 0. */
  lemma AlignIsLeastMultiple(b: nat, k: nat)
    requires k < 64 && b < TWO64
    ensures b + Pow2(k) - 1 < TWO64 <==> IsLeastMultiple(Align(b, Pow2(k)), b, Pow2(k))
    ensures b + Pow2(k) - 1 >= TWO64 ==> Align(b, Pow2(k)) == 0
  {
    Pow2Is64();
    var n := 64;
    AlignBelow(b, k, n);
  }

  lemma AlignBelow(b: nat, k: nat, n: nat)
    requires k < n && Pow2(n) == TWO64 && b < TWO64
    ensures b + Pow2(k) - 1 < TWO64 <==> IsLeastMultiple(Align(b, Pow2(k)), b, Pow2(k))
    ensures b + Pow2(k) - 1 >= TWO64 ==> Align(b, Pow2(k)) == 0
  {
    if b + Pow2(k) - 1 < TWO64 {
      AlignFits(b, k, n);
    } else {
      AlignWraps(b, k, n);
    }
  }

  lemma AlignFits(b: nat, k: nat, n: nat)
    requires k < n && Pow2(n) == TWO64 && b + Pow2(k) - 1 < TWO64
    ensures IsLeastMultiple(Align(b, Pow2(k)), b, Pow2(k))
  {
    hide And, Pow2, Align;
    AlignMasks(b, k, n);
    RoundDown(b + Pow2(k) - 1, b, Pow2(k));
    ModUnique(b + Pow2(k) - 1, TWO64, 0, b + Pow2(k) - 1);
  }

  lemma AlignWraps(b: nat, k: nat, n: nat)
    requires k < n && Pow2(n) == TWO64 && b < TWO64 <= b + Pow2(k) - 1
    ensures Align(b, Pow2(k)) == 0 < b
  {
    hide And, Pow2, Align;
    AlignMasks(b, k, n);
    WrappedSum(b, Pow2(k));
  }

  lemma WrappedSum(b: nat, a: nat)
    requires 0 < a <= TWO64 && b < TWO64 <= b + a - 1
    ensures var x := Wrap64(b + a - 1); x - x % a == 0
  {
    ModUnique(b + a - 1, TWO64, 1, b + a - 1 - TWO64);
    ModUnique(b + a - 1 - TWO64, a, 0, b + a - 1 - TWO64);
  }

  /** The top multiple of the block size leaves room for the mask arithmetic. */
  lemma TopMultiple(r: nat, k: nat, n: nat)
    requires k < n && Pow2(n) == TWO64 && r < TWO64 && r % Pow2(k) == 0
    ensures r + Pow2(k) - 1 < TWO64
  {
    var a := Pow2(k);
    Pow2Monotone(k, n);
    ModUnique(r + a, a, r / a + 1, 0);
    LeastMultipleIsLeast(r + a, r + 1, a, TWO64);
  }

  /** Aligning twice is aligning once, and longer blocks align to longer blocks. */
  lemma AlignIdempotentMonotone(b: nat, b': nat, k: nat)
    requires k < 64 && b <= b' && b' + Pow2(k) - 1 < TWO64
    ensures Align(Align(b, Pow2(k)), Pow2(k)) == Align(b, Pow2(k)) <= Align(b', Pow2(k))
  {
    Pow2Is64();
    var n := 64;
    var a := Pow2(k);
    AlignBelow(b, k, n);
    AlignBelow(b', k, n);
    var r := Align(b, a);
    LeastMultipleIsLeast(r, b, a, Align(b', a));
    TopMultiple(r, k, n);
    AlignBelow(r, k, n);
    LeastMultipleIsLeast(Align(r, a), r, a, r);
  }

  /** A length with its padding, as attributes are laid out. */
  function Padded(len: nat): (r: nat)
    ensures r % 4 == 0 && len <= r < len + 4
  {
    (len + 3) / 4 * 4
  }

  lemma AlignIsPadded(len: nat)
    requires len + 3 < TWO64
    ensures Align(len, 4) == Padded(len)
  {
    assert Pow2(2) == 4;
    AlignIsLeastMultiple(len, 2);
    LeastMultipleIsLeast(Align(len, 4), len, 4, Padded(len));
    LeastMultipleIsLeast(Padded(len), len, 4, Align(len, 4));
  }

  function RtaLen(mem: seq<Byte>, rta: nat): (r: nat)
    requires rta + HDR <= |mem|
    ensures r < 65536
  {
    Half(mem, rta)
  }

  function RtaType(mem: seq<Byte>, rta: nat): nat
    requires rta + HDR <= |mem|
  {
    Half(mem, rta + 2)
  }

  /** `rtattr_payload_len`: an unsigned subtraction, huge for a length below the header's. */
  function RtaPayloadLen(mem: seq<Byte>, rta: nat): nat
    requires rta + HDR <= |mem|
  {
    Wrap64(RtaLen(mem, rta) - HDR)
  }

  lemma PaddedTight(len: nat)
    ensures Padded(len) == len <==> len % 4 == 0
  {
  }

  /** The payload length read back as a signed number. */
  lemma PayloadSigned(mem: seq<Byte>, rta: nat)
    requires rta + HDR <= |mem|
    ensures Signed64(RtaPayloadLen(mem, rta)) == RtaLen(mem, rta) - HDR
  {
    WrappedDifference(RtaLen(mem, rta), HDR);
  }

  /** An unsigned difference of small numbers, compared and read back. */
  lemma WrappedDifference(a: int, b: int)
    requires 0 <= a < TWO64 / 2 && 0 <= b < 0x20000
    ensures Signed64(Wrap64(a - b)) == a - b
    ensures Wrap64(a - b) > HDR <==> b > a || a - b > HDR
  {
    if a >= b {
      ModUnique(a - b, TWO64, 0, a - b);
    } else {
      ModUnique(a - b, TWO64, -1, a - b + TWO64);
    }
  }

  /**
   `rtattr_next`, in the program's own arithmetic: the remaining length is converted to an
   unsigned word before the subtraction, so a step past the end wraps. The contract says what
   that comparison amounts to.
  */
  method RtattrNext(mem: seq<Byte>, rta: nat, buflen: int) returns (next: Option<nat>, rest: int)
    requires rta + HDR <= |mem|
    requires -(TWO64 / 2) <= buflen < TWO64 / 2
    ensures var len := RtaLen(mem, rta);
      && (next.Some? <==> buflen > 0 && len != 0 && (Padded(len) > buflen || buflen - Padded(len) > 4))
      && (next.Some? ==> next.value == rta + Padded(len) && rest == buflen - Padded(len))
      && (next.None? ==> rest == buflen)
      // With the caller's second test, the step is taken only when another header fits.
      && (next.Some? && rest > 0 <==> len != 0 && buflen - Padded(len) > 4)
      // The step off an attribute from its own length always wraps, unless it fails.
      && (buflen == len ==> (next.Some? <==> len % 4 != 0) && (next.Some? ==> rest < 0))
  {
    var seekLen := Align(RtaLen(mem, rta), 4);
    AlignIsPadded(RtaLen(mem, rta));
    next, rest := None, buflen;
    if buflen <= 0 { return; }
    if seekLen <= 0 { return; }
    WrappedDifference(buflen, seekLen);
    if Wrap64(buflen - seekLen) > HDR {
      next := Some(rta + seekLen);
      rest := Signed64(Wrap64(buflen - seekLen));
    }
  }
}
