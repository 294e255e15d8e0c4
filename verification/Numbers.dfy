/** Smaller and larger of two numbers, and integers in big-endian bytes. */
module Numbers {
  import opened BitGroups

  const TWO_TO_32: nat := 0x1_0000_0000

  function Min(a: nat, b: nat): nat { if a <= b then a else b }

  function Max(a: nat, b: nat): nat { if a <= b then b else a }

  function ReadU32(d: seq<byte>, pos: nat): (n: nat)
    requires pos + 4 <= |d|
    ensures n < TWO_TO_32
  {
    (d[pos] as nat) * 0x100_0000 + (d[pos + 1] as nat) * 0x1_0000 + (d[pos + 2] as nat) * 0x100 + d[pos + 3] as nat
  }

  function ReadU64(d: seq<byte>, pos: nat): nat
    requires pos + 8 <= |d|
  {
    ReadU32(d, pos) * TWO_TO_32 + ReadU32(d, pos + 4)
  }

  function WriteU32(n: nat): (r: seq<byte>)
    requires n < TWO_TO_32
    ensures |r| == 4
  {
    [n / 256 / 256 / 256, n / 256 / 256 % 256, n / 256 % 256, n % 256]
  }

  lemma U32RoundTrip(n: nat)
    requires n < TWO_TO_32
    ensures ReadU32(WriteU32(n), 0) == n
  {
    var a, b := n / 256, n / 256 / 256;
    assert n == a * 256 + n % 256 && a == b * 256 + a % 256 && b == b / 256 * 256 + b % 256;
  }
}
