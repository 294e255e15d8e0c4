/**
 * The two proof-of-work tests: crates/ephemera-crypto/src/pow.rs compares whole bytes and a mask,
 * crates/ephemera-abuse/src/pow.rs counts.
 */
module LeadingZeros {
  import opened BitGroups
  import opened Numbers

  // Specification ----------------------------------------------------------------

  function BigEndian(h: seq<byte>): (v: nat)
    ensures v < Pow2(8 * |h|)
  {
    if h == [] then 0
    else
      BigEndianBound(h[0], BigEndian(h[1..]), |h| - 1);
      h[0] * Pow2(8 * (|h| - 1)) + BigEndian(h[1..])
  }

  /** Leading zero bits of one byte. */
  function ByteZeros(b: byte): (z: nat)
    ensures z <= 8 && (z == 8 <==> b == 0)
  {
    if b >= 128 then 0 else if b >= 64 then 1 else if b >= 32 then 2 else if b >= 16 then 3
    else if b >= 8 then 4 else if b >= 4 then 5 else if b >= 2 then 6 else if b >= 1 then 7 else 8
  }

  function Zeros(h: seq<byte>): (z: nat)
    ensures z <= 8 * |h|
  {
    if h == [] then 0 else if h[0] == 0 then 8 + Zeros(h[1..]) else ByteZeros(h[0])
  }

  // Arithmetic -------------------------------------------------------------------

  lemma BigEndianBound(b: byte, rest: nat, n: nat)
    requires rest < Pow2(8 * n)
    ensures b * Pow2(8 * n) + rest < Pow2(8 * (n + 1))
  {
    Pow2Sum(8, 8 * n);
    PowersOfTwo();
    assert (b + 1) * Pow2(8 * n) <= 256 * Pow2(8 * n);
  }

  lemma {:induction false} Pow2Sum(a: nat, b: nat)
    ensures Pow2(a + b) == Pow2(a) * Pow2(b)
    decreases a
  {
    if a > 0 {
      Pow2Sum(a - 1, b);
      DoubleProduct(Pow2(a - 1), Pow2(b));
    }
  }

  lemma DoubleProduct(p: nat, q: nat)
    ensures 2 * (p * q) == (2 * p) * q
  {}

  lemma PowersOfTwo()
    ensures Pow2(0) == 1 && Pow2(1) == 2 && Pow2(2) == 4 && Pow2(3) == 8 && Pow2(4) == 16
    ensures Pow2(5) == 32 && Pow2(6) == 64 && Pow2(7) == 128 && Pow2(8) == 256
  {}

  lemma ByteZerosIsValue(b: byte, d: nat)
    requires d <= 8
    ensures ByteZeros(b) >= d <==> b < Pow2(8 - d)
  {
    PowersOfTwo();
  }

  /** A high part below 2^k is what keeps the whole below 2^(k+m). */
  lemma HighPart(b: nat, rest: nat, k: nat, m: nat)
    requires rest < Pow2(m)
    ensures b < Pow2(k) <==> b * Pow2(m) + rest < Pow2(k + m)
  {
    Pow2Sum(k, m);
    Digits(b, rest, Pow2(k), Pow2(m));
  }

  lemma Digits(b: nat, rest: nat, high: nat, low: nat)
    requires rest < low
    ensures b < high <==> b * low + rest < high * low
  {
    assert b < high ==> (b + 1) * low <= high * low;
    assert b >= high ==> b * low >= high * low;
  }

  // Theorems ---------------------------------------------------------------------

  /** At least `d` leading zeros is the same as a value below 2^(8n - d). */
  lemma {:induction false} ZerosBoundValue(h: seq<byte>, d: nat)
    requires d <= 8 * |h|
    ensures Zeros(h) >= d <==> BigEndian(h) < Pow2(8 * |h| - d)
    decreases |h|
  {
    hide Pow2, ByteZeros;
    if h != [] {
      var n := |h| - 1;
      var rest := BigEndian(h[1..]);
      if d < 8 {
        ByteZerosIsValue(h[0], d);
        HighPart(h[0], rest, 8 - d, 8 * n);
      } else {
        ZerosBoundValue(h[1..], d - 8);
        if h[0] != 0 {
          HighPart(h[0], rest, 0, 8 * n);
          PowersOfTwo();
          Pow2Grows(8 * |h| - d, 8 * n);
        }
      }
    }
  }

  /** What the byte-and-mask test checks. */
  predicate PassesMask(h: seq<byte>, d: nat) {
    && (forall i | 0 <= i < Min(d / 8, |h|) :: h[i] == 0)
    && (d % 8 > 0 && d / 8 < |h| ==> h[d / 8] < Pow2(8 - d % 8))
  }

  lemma {:induction false} MaskCountsZeros(h: seq<byte>, d: nat)
    ensures PassesMask(h, d) <==> Zeros(h) >= Min(d, 8 * |h|)
    decreases |h|
  {
    hide Pow2, ByteZeros;
    if h != [] {
      if d < 8 {
        ByteZerosIsValue(h[0], d);
      } else if h[0] == 0 {
        MaskCountsZeros(h[1..], d - 8);
        ShiftMask(h, d);
      }
    }
  }

  lemma ShiftMask(h: seq<byte>, d: nat)
    requires h != [] && d >= 8 && h[0] == 0
    ensures PassesMask(h, d) <==> PassesMask(h[1..], d - 8)
  {}

  /** The two tests differ only on an all-zero hash asked for more zeros than it has bits. */
  lemma TestsAgreeExactly(h: seq<byte>, d: nat)
    ensures (PassesMask(h, d) <==> Zeros(h) >= d) <==> d <= 8 * |h| || exists i | 0 <= i < |h| :: h[i] != 0
  {
    hide Zeros, Pow2;
    MaskCountsZeros(h, d);
    MaskCountsZeros(h, 8 * |h|);
    assert 8 * |h| / 8 == |h|;
  }

  /** They do differ there: 32 zero bytes pass the mask test for 257 bits. */
  lemma TestsCanDisagree()
    ensures var h: seq<byte> := seq(32, _ => 0); PassesMask(h, 257) && Zeros(h) < 257
  {}

  // Loops ------------------------------------------------------------------------

  /** Masking with 0xFF << k finds a bit exactly in the bytes from 2^k on. */
  predicate MaskHit(b: byte, k: nat)
    requires 1 <= k <= 7
    ensures MaskHit(b, k) <==> b >= Pow2(k)
  {
    PowersOfTwo();
    (b as bv8) & ((0xFF as bv8) << k) != 0
  }

  /** True exactly when the hash has `difficulty` leading zeros, or is all zero and shorter than that. */
  method HasLeadingZeros(hash: seq<byte>, difficulty: nat) returns (ok: bool)
    ensures ok <==> Zeros(hash) >= Min(difficulty, 8 * |hash|)
    ensures difficulty <= 8 * |hash| ==> (ok <==> BigEndian(hash) < Pow2(8 * |hash| - difficulty))
  {
    hide Pow2, Zeros, BigEndian, MaskHit;
    MaskCountsZeros(hash, difficulty);
    if difficulty <= 8 * |hash| { ZerosBoundValue(hash, difficulty); }
    var full, remaining := difficulty / 8, difficulty % 8;
    for i := 0 to Min(full, |hash|)
      invariant forall j | 0 <= j < i :: hash[j] == 0
    {
      if hash[i] != 0 { return false; }
    }
    if remaining > 0 && full < |hash| {
      if MaskHit(hash[full], 8 - remaining) { return false; }
    }
    return true;
  }

  method CountLeadingZeros(hash: seq<byte>) returns (zeros: nat)
    ensures zeros == Zeros(hash)
  {
    zeros := 0;
    for i := 0 to |hash|
      invariant Zeros(hash) == zeros + Zeros(hash[i..])
    {
      if hash[i] == 0 {
        zeros := zeros + 8;
      } else {
        zeros := zeros + ByteZeros(hash[i]);
        return;
      }
      assert hash[i..][1..] == hash[i + 1..];
    }
  }
}
