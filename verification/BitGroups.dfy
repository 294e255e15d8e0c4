/** Numbers as fixed-width bit strings, most significant bit first, and regrouping of bit strings. */
module BitGroups {
  type bit = b: nat | b < 2
  type byte = b: nat | b < 256

  function Pow2(n: nat): (p: nat)
    ensures p > 0
  {
    if n == 0 then 1 else 2 * Pow2(n - 1)
  }

  lemma {:induction false} Pow2Grows(i: nat, j: nat)
    requires i <= j
    ensures Pow2(i) <= Pow2(j)
    decreases j
  {
    if i < j { Pow2Grows(i, j - 1); }
  }

  function BitsOf(n: nat, width: nat): (r: seq<bit>)
    ensures |r| == width
  {
    if width == 0 then [] else BitsOf(n / 2, width - 1) + [n % 2]
  }

  function ValueOf(bits: seq<bit>): (v: nat)
    ensures v < Pow2(|bits|)
  {
    if bits == [] then 0 else 2 * ValueOf(bits[..|bits| - 1]) + bits[|bits| - 1]
  }

  lemma BitsOfStep(n: nat, width: nat)
    ensures BitsOf(n, width + 1) == BitsOf(n / 2, width) + [n % 2]
  {}

  lemma {:induction false} ValueOfBits(n: nat, width: nat)
    requires n < Pow2(width)
    ensures ValueOf(BitsOf(n, width)) == n
    decreases width
  {
    if width > 0 {
      ValueOfBits(n / 2, width - 1);
      assert BitsOf(n, width)[..width - 1] == BitsOf(n / 2, width - 1);
    }
  }

  lemma {:induction false} BitsOfValue(bits: seq<bit>)
    ensures BitsOf(ValueOf(bits), |bits|) == bits
    decreases |bits|
  {
    hide BitsOf, Pow2;
    if bits != [] {
      var rest, last := bits[..|bits| - 1], bits[|bits| - 1];
      BitsOfValue(rest);
      BitsOfStep(ValueOf(bits), |rest|);
      assert ValueOf(bits) == 2 * ValueOf(rest) + last;
      assert bits == rest + [last];
    }
  }

  /** `count` groups of `width` bits. */
  function Total(count: nat, width: nat): nat {
    if count == 0 then 0 else Total(count - 1, width) + width
  }

  lemma {:induction false} TotalIsProduct(count: nat, width: nat)
    ensures Total(count, width) == count * width
    decreases count
  {
    if count > 0 {
      TotalIsProduct(count - 1, width);
      assert count * width == (count - 1) * width + width;
    }
  }

  /** The bits of all numbers, in order. */
  function Spread(numbers: seq<nat>, width: nat): (r: seq<bit>)
    ensures |r| == Total(|numbers|, width)
  {
    if numbers == [] then []
    else Spread(numbers[..|numbers| - 1], width) + BitsOf(numbers[|numbers| - 1], width)
  }

  /** The numbers whose bits are the successive groups of `width`. */
  function Gather(bits: seq<bit>, width: nat, count: nat): (r: seq<nat>)
    requires |bits| == Total(count, width)
    ensures |r| == count && forall i | 0 <= i < count :: r[i] < Pow2(width)
    decreases count
  {
    if count == 0 then []
    else
      var n := Total(count - 1, width);
      Gather(bits[..n], width, count - 1) + [ValueOf(bits[n..])]
  }

  lemma {:induction false} GatherSpread(numbers: seq<nat>, width: nat)
    requires forall i | 0 <= i < |numbers| :: numbers[i] < Pow2(width)
    ensures Gather(Spread(numbers, width), width, |numbers|) == numbers
    decreases |numbers|
  {
    hide Pow2, BitsOf, ValueOf;
    if numbers != [] {
      var k := |numbers| - 1;
      var n := Total(k, width);
      var bits := Spread(numbers, width);
      GatherSpread(numbers[..k], width);
      ValueOfBits(numbers[k], width);
      assert bits[..n] == Spread(numbers[..k], width) && bits[n..] == BitsOf(numbers[k], width);
    }
  }

  lemma {:induction false} SpreadGather(bits: seq<bit>, width: nat, count: nat)
    requires |bits| == Total(count, width)
    ensures Spread(Gather(bits, width, count), width) == bits
    decreases count
  {
    hide Pow2, BitsOf, ValueOf;
    if count > 0 {
      var n := Total(count - 1, width);
      var numbers := Gather(bits, width, count);
      SpreadGather(bits[..n], width, count - 1);
      BitsOfValue(bits[n..]);
      assert numbers[..count - 1] == Gather(bits[..n], width, count - 1);
    }
  }

  lemma HalfOfShift(n: nat, i: nat)
    ensures n / Pow2(i) / 2 == n / Pow2(i + 1)
  {
    DivideTwice(n, Pow2(i));
  }

  lemma DivideTwice(n: nat, p: nat)
    requires p > 0
    ensures n / p / 2 == n / (2 * p)
  {
    var q, r := n / p, n % p;
    assert n == q * p + r;
    var s := (q % 2) * p + r;
    assert n == (q / 2) * (2 * p) + s;
    assert 0 <= s < 2 * p;
    DivideBy(n, 2 * p, q / 2, s);
  }

  lemma DivideBy(n: nat, d: nat, q: nat, r: nat)
    requires d > 0 && n == q * d + r && r < d
    ensures n / d == q
  {
    var p := n / d;
    assert p * d <= n < (p + 1) * d;
    assert p < q ==> (p + 1) * d <= q * d;
    assert p > q ==> (q + 1) * d <= p * d;
  }
}
