/** Master secrets as 24 words (crates/ephemera-crypto/src/export.rs). */
module Mnemonic {
  import opened Wrappers
  import opened BitGroups

  /** The word list, the first byte of SHA-256, and lower-casing. */
  datatype Book = Book(words: seq<string>, checksum: seq<byte> -> byte, lower: string -> string)

  /** 2048 different words, all in lower case. */
  ghost predicate ValidBook(b: Book) {
    && |b.words| == 2048
    && (forall i, j | 0 <= i < j < 2048 :: b.words[i] != b.words[j])
    && (forall i | 0 <= i < 2048 :: b.lower(b.words[i]) == b.words[i])
  }

  datatype Error = WrongCount(got: nat) | UnknownWord(word: string) | ChecksumMismatch

  lemma Sizes()
    ensures Total(24, 11) == 264 && Total(33, 8) == 264 && Total(32, 8) == 256 && Total(1, 8) == 8
    ensures Pow2(11) == 2048 && Pow2(8) == 256
  {
    TotalIsProduct(24, 11);
    TotalIsProduct(33, 8);
    TotalIsProduct(32, 8);
    assert Total(1, 8) == Total(0, 8) + 8;
    assert Pow2(4) == 16;
    assert Pow2(8) == 256;
  }

  // Specification ----------------------------------------------------------------

  function Indices(b: Book, secret: seq<byte>): (r: seq<nat>)
    requires |secret| == 32
    ensures |r| == 24 && forall i | 0 <= i < 24 :: r[i] < 2048
  {
    Sizes();
    Gather(Spread(secret + [b.checksum(secret)], 8), 11, 24)
  }

  function Named(b: Book, indices: seq<nat>): (r: seq<string>)
    requires |b.words| == 2048 && forall i | 0 <= i < |indices| :: indices[i] < 2048
    ensures |r| == |indices| && forall i | 0 <= i < |r| :: r[i] == b.words[indices[i]]
  {
    seq(|indices|, i requires 0 <= i < |indices| => b.words[indices[i]])
  }

  function ToMnemonic(b: Book, secret: seq<byte>): (r: seq<string>)
    requires |b.words| == 2048 && |secret| == 32
    ensures |r| == 24
  {
    Named(b, Indices(b, secret))
  }

  function Lowered(b: Book, words: seq<string>): (r: seq<string>)
    ensures |r| == |words| && forall i | 0 <= i < |r| :: r[i] == b.lower(words[i])
  {
    seq(|words|, i requires 0 <= i < |words| => b.lower(words[i]))
  }

  /** The position of `w` in the list. */
  function WordPosition(words: seq<string>, w: string): (r: Option<nat>)
    ensures r.Some? ==> r.value < |words| && words[r.value] == w && w !in words[..r.value]
    ensures r.None? ==> w !in words
  {
    if words == [] then None
    else if words[0] == w then Some(0)
    else match WordPosition(words[1..], w)
      case None => None
      case Some(i) => assert words[..i + 1] == [words[0]] + words[1..][..i]; Some(i + 1)
  }

  /** `words[i]` is the first word not in the list. */
  ghost predicate FirstUnknown(b: Book, words: seq<string>, i: nat)
    requires i < |words|
  {
    b.lower(words[i]) !in b.words && forall j | 0 <= j < i :: b.lower(words[j]) in b.words
  }

  /** The indices of the words, or the first word not in the list. */
  function LookUp(b: Book, words: seq<string>): (r: Result<seq<nat>, Error>)
    ensures r.Ok? ==> |r.value| == |words|
  {
    if words == [] then Ok([])
    else
      var k := |words| - 1;
      LookUpNext(b, LookUp(b, words[..k]), words[k])
  }

  function LookUpNext(b: Book, before: Result<seq<nat>, Error>, word: string): Result<seq<nat>, Error> {
    if before.Err? then before
    else
      match WordPosition(b.words, b.lower(word))
      case None => Err(UnknownWord(word))
      case Some(i) => Ok(before.value + [i])
  }

  function FromMnemonic(b: Book, words: seq<string>): (r: Result<seq<byte>, Error>)
    requires |b.words| == 2048
    ensures r.Ok? ==> |words| == 24 && |r.value| == 32
  {
    if |words| != 24 then Err(WrongCount(|words|))
    else
      match LookUp(b, words)
      case Err(e) => Err(e)
      case Ok(indices) =>
        Sizes();
        var bytes: seq<byte> := Gather(Spread(indices, 11), 8, 33);
        if bytes[32] == b.checksum(bytes[..32]) then Ok(bytes[..32]) else Err(ChecksumMismatch)
  }

  // Theorems ---------------------------------------------------------------------

  /** All words were found where the indices say, or the first unknown one is reported. */
  lemma {:induction false} LookUpFinds(b: Book, words: seq<string>)
    ensures match LookUp(b, words)
      case Ok(indices) => forall i | 0 <= i < |words| :: indices[i] < |b.words| && b.words[indices[i]] == b.lower(words[i])
      case Err(e) => exists i | 0 <= i < |words| :: e == UnknownWord(words[i]) && FirstUnknown(b, words, i)
    decreases |words|
  {
    if words != [] {
      var k := |words| - 1;
      LookUpFinds(b, words[..k]);
      match LookUp(b, words[..k])
      case Ok(indices) =>
        assert forall j | 0 <= j < k :: b.lower(words[j]) == b.words[indices[j]];
        assert LookUp(b, words).Err? ==> FirstUnknown(b, words, k);
      case Err(e) =>
        var i :| 0 <= i < k && e == UnknownWord(words[i]) && FirstUnknown(b, words[..k], i);
        assert FirstUnknown(b, words, i);
    }
  }

  lemma LookUpNamed(b: Book, words: seq<string>, indices: seq<nat>)
    requires ValidBook(b)
    requires forall i | 0 <= i < |indices| :: indices[i] < 2048
    requires Lowered(b, words) == Named(b, indices)
    ensures LookUp(b, words) == Ok(indices)
  {
    var found := LookUp(b, words);
    LookUpFinds(b, words);
    assert |words| == |Lowered(b, words)| == |indices|;
    forall i | 0 <= i < |words| ensures b.lower(words[i]) == b.words[indices[i]] {
      assert Lowered(b, words)[i] == Named(b, indices)[i];
    }
    if found.Ok? {
      assert found.value == indices;
    }
  }

  /** Any spelling of a generated list gives the secret back. */
  lemma MnemonicRoundTrip(b: Book, words: seq<string>, secret: seq<byte>)
    requires ValidBook(b) && |secret| == 32
    requires Lowered(b, words) == ToMnemonic(b, secret)
    ensures FromMnemonic(b, words) == Ok(secret)
  {
    hide Spread, Gather, Total;
    Sizes();
    var bytes := secret + [b.checksum(secret)];
    LookUpNamed(b, words, Indices(b, secret));
    SpreadGather(Spread(bytes, 8), 11, 24);
    GatherSpread(bytes, 8);
    assert bytes[..32] == secret;
  }

  /** The list `ToMnemonic` returns is itself such a spelling. */
  lemma GeneratedIsLowered(b: Book, secret: seq<byte>)
    requires ValidBook(b) && |secret| == 32
    ensures Lowered(b, ToMnemonic(b, secret)) == ToMnemonic(b, secret)
    ensures FromMnemonic(b, ToMnemonic(b, secret)) == Ok(secret)
  {
    hide Indices, FromMnemonic;
    assert Lowered(b, ToMnemonic(b, secret)) == ToMnemonic(b, secret);
    MnemonicRoundTrip(b, ToMnemonic(b, secret), secret);
  }

  /** What is accepted is a spelling of the list generated for the result. */
  lemma AcceptedIsGenerated(b: Book, words: seq<string>)
    requires ValidBook(b) && FromMnemonic(b, words).Ok?
    ensures Lowered(b, words) == ToMnemonic(b, FromMnemonic(b, words).value)
  {
    hide Spread, Gather, Total;
    Sizes();
    LookUpFinds(b, words);
    var indices := LookUp(b, words).value;
    var bits := Spread(indices, 11);
    var bytes := Gather(bits, 8, 33);
    var secret: seq<byte> := bytes[..32];
    assert secret + [b.checksum(secret)] == bytes;
    SpreadGather(bits, 8, 33);
    GatherSpread(indices, 11);
    assert Indices(b, secret) == indices;
  }

  /** Accepted lists are exactly the spellings of generated ones, and secrets never share one. */
  lemma AcceptsExactlyGenerated(b: Book, words: seq<string>)
    requires ValidBook(b)
    ensures FromMnemonic(b, words).Ok? <==> exists s: seq<byte> | |s| == 32 :: Lowered(b, words) == ToMnemonic(b, s)
  {
    hide FromMnemonic, ToMnemonic, Lowered;
    if FromMnemonic(b, words).Ok? {
      AcceptedIsGenerated(b, words);
    } else if s: seq<byte> :| |s| == 32 && Lowered(b, words) == ToMnemonic(b, s) {
      MnemonicRoundTrip(b, words, s);
    }
  }

  // Digits -------------------------------------------------------------------------

  /** The number with these digits, the highest first. */
  function Number(digits: seq<nat>, base: nat): nat {
    if digits == [] then 0 else Number(digits[..|digits| - 1], base) * base + digits[|digits| - 1]
  }

  lemma {:induction false} ValueOfConcat(a: seq<bit>, b: seq<bit>)
    ensures ValueOf(a + b) == ValueOf(a) * Pow2(|b|) + ValueOf(b)
    decreases |b|
  {
    hide ValueOf, Pow2;
    if b == [] {
      assert a + b == a;
      NoBits();
    } else {
      var rest, last := b[..|b| - 1], b[|b| - 1];
      assert (a + b)[..|a + b| - 1] == a + rest;
      ValueOfConcat(a, rest);
      LastBit(a + b);
      LastBit(b);
      Doubled(ValueOf(a), Pow2(|rest|), ValueOf(rest), last);
    }
  }

  lemma LastBit(bits: seq<bit>)
    requires bits != []
    ensures ValueOf(bits) == 2 * ValueOf(bits[..|bits| - 1]) + bits[|bits| - 1] && Pow2(|bits|) == 2 * Pow2(|bits| - 1)
  {}

  lemma Doubled(v: nat, p: nat, w: nat, last: nat)
    ensures 2 * (v * p + w) + last == v * (2 * p) + (2 * w + last)
  {}

  lemma {:induction false} SpreadIsNumber(numbers: seq<nat>, width: nat)
    requires forall i | 0 <= i < |numbers| :: numbers[i] < Pow2(width)
    ensures ValueOf(Spread(numbers, width)) == Number(numbers, Pow2(width))
    decreases |numbers|
  {
    hide Pow2, BitsOf, ValueOf;
    if numbers == [] {
      NoBits();
    } else {
      var k := |numbers| - 1;
      SpreadIsNumber(numbers[..k], width);
      ValueOfBits(numbers[k], width);
      ValueOfConcat(Spread(numbers[..k], width), BitsOf(numbers[k], width));
    }
  }

  lemma NoBits()
    ensures ValueOf([]) == 0 && Pow2(0) == 1
  {}

  /** The words' indices are the digits in base 2048 of the number whose bytes are the secret and then the checksum. */
  lemma IndicesAreDigits(b: Book, secret: seq<byte>)
    requires |secret| == 32
    ensures Number(Indices(b, secret), 2048) == Number(secret + [b.checksum(secret)], 256)
    ensures |Indices(b, secret)| == 24 && forall i | 0 <= i < 24 :: Indices(b, secret)[i] < 2048
  {
    hide Spread, Gather, Total, ValueOf, Number;
    Sizes();
    var bytes := secret + [b.checksum(secret)];
    SpreadGather(Spread(bytes, 8), 11, 24);
    SpreadIsNumber(bytes, 8);
    SpreadIsNumber(Indices(b, secret), 11);
  }

  /** Which error a list gives. */
  lemma ReadErrors(b: Book, words: seq<string>)
    requires |b.words| == 2048
    ensures var r := FromMnemonic(b, words);
            && (forall n :: r == Err(WrongCount(n)) <==> |words| != 24 && n == |words|)
            && (|words| == 24 ==> (r.Err? && r.error.UnknownWord? <==> exists i | 0 <= i < 24 :: b.lower(words[i]) !in b.words))
            && (r.Err? && r.error.UnknownWord? ==> exists i | 0 <= i < |words| :: r.error.word == words[i] && FirstUnknown(b, words, i))
  {
    hide Gather, Spread, Total;
    Sizes();
    LookUpFinds(b, words);
  }

  // Loops ------------------------------------------------------------------------

  lemma {:induction false} LookUpStops(b: Book, words: seq<string>, n: nat)
    requires n <= |words| && LookUp(b, words[..n]).Err?
    ensures LookUp(b, words) == LookUp(b, words[..n])
    decreases |words|
  {
    hide WordPosition;
    if n < |words| {
      var k := |words| - 1;
      assert words[..k][..n] == words[..n];
      LookUpStops(b, words[..k], n);
      assert LookUp(b, words) == LookUpNext(b, LookUp(b, words[..k]), words[k]);
    } else {
      assert words[..n] == words;
    }
  }

  /** The first `k` groups. */
  ghost function GatherFirst(bits: seq<bit>, width: nat, k: nat): (r: seq<nat>)
    requires Total(k, width) <= |bits|
    ensures |r| == k && forall i | 0 <= i < k :: r[i] < Pow2(width)
  {
    Gather(bits[..Total(k, width)], width, k)
  }

  lemma GatherNext(bits: seq<bit>, width: nat, k: nat)
    requires Total(k + 1, width) <= |bits|
    ensures GatherFirst(bits, width, k + 1) == GatherFirst(bits, width, k) + [ValueOf(bits[Total(k, width)..Total(k, width) + width])]
  {
    var n := Total(k, width);
    assert bits[..n + width][..n] == bits[..n] && bits[..n + width][n..] == bits[n..n + width];
  }

  lemma RoomForOneMore(v: nat, i: nat, room: nat)
    requires v < Pow2(i) && i < room
    ensures v * 2 % Pow2(room) == v * 2
  {
    Pow2Grows(i + 1, room);
    DivideBy(v * 2, Pow2(room), 0, v * 2);
  }

  lemma NoShift(n: nat)
    ensures n / Pow2(0) == n
  {}

  /** Appends the low `width` bits of `n`, highest first. */
  method PushBits(bits: seq<bit>, n: nat, width: nat) returns (r: seq<bit>)
    ensures r == bits + BitsOf(n, width)
  {
    hide Pow2, BitsOf;
    NoShift(n);
    r := bits;
    for i := width downto 0
      invariant r == bits + BitsOf(n / Pow2(i), width - i)
    {
      HalfOfShift(n, i);
      BitsOfStep(n / Pow2(i), width - i - 1);
      r := r + [n / Pow2(i) % 2];
    }
  }

  /** Shifts a group of bits into a register of `room` bits, whose overflow would be lost. */
  method ShiftIn(bits: seq<bit>, room: nat) returns (v: nat)
    requires |bits| <= room
    ensures v == ValueOf(bits)
  {
    hide Pow2;
    v := 0;
    for i := 0 to |bits|
      invariant v == ValueOf(bits[..i])
    {
      RoomForOneMore(v, i, room);
      assert bits[..i + 1][..i] == bits[..i];
      v := v * 2 % Pow2(room) + bits[i];
    }
    assert bits[..|bits|] == bits;
  }

  method WriteMnemonic(b: Book, secret: seq<byte>) returns (words: seq<string>)
    requires |b.words| == 2048 && |secret| == 32
    ensures words == ToMnemonic(b, secret)
  {
    hide Gather, ValueOf, BitsOf, Pow2;
    Sizes();
    var sum := b.checksum(secret);
    var bits := [];
    for i := 0 to 32
      invariant bits == Spread(secret[..i], 8)
    {
      assert secret[..i + 1][..i] == secret[..i];
      bits := PushBits(bits, secret[i], 8);
    }
    bits := PushBits(bits, sum, 8);
    ghost var all := secret + [sum];
    assert all[..32] == secret[..32];
    assert bits == Spread(all, 8);
    words := [];
    for k := 0 to 24
      invariant |bits| == 264 && Total(k, 11) == 11 * k
      invariant words == Named(b, GatherFirst(bits, 11, k))
    {
      GatherNext(bits, 11, k);
      var index := ShiftIn(bits[11 * k..11 * k + 11], 16);
      words := words + [b.words[index]];
    }
    assert bits[..264] == bits;
  }

  /** First loop of `ReadMnemonic`: the bits of all words, or the first word not in the list. */
  method ReadWords(b: Book, words: seq<string>) returns (r: Result<seq<bit>, Error>)
    ensures r == match LookUp(b, words) case Err(e) => Err(e) case Ok(indices) => Ok(Spread(indices, 11))
  {
    hide BitsOf, WordPosition;
    var bits := [];
    ghost var indices := [];
    for i := 0 to |words|
      invariant LookUp(b, words[..i]) == Ok(indices)
      invariant bits == Spread(indices, 11)
    {
      assert words[..i + 1][..i] == words[..i];
      var index := WordPosition(b.words, b.lower(words[i]));
      if index.None? {
        LookUpStops(b, words, i + 1);
        return Err(UnknownWord(words[i]));
      }
      bits := PushBits(bits, index.value, 11);
      indices := indices + [index.value];
    }
    assert words[..|words|] == words;
    return Ok(bits);
  }

  method ReadMnemonic(b: Book, words: seq<string>) returns (r: Result<seq<byte>, Error>)
    requires |b.words| == 2048
    ensures r == FromMnemonic(b, words)
  {
    hide Gather, ValueOf, BitsOf, Pow2, LookUp, Spread;
    if |words| != 24 { return Err(WrongCount(|words|)); }
    Sizes();
    var read := ReadWords(b, words);
    if read.Err? { return Err(read.error); }
    var bits := read.value;
    var secret: seq<byte> := [];
    for k := 0 to 32
      invariant Total(k, 8) == 8 * k
      invariant secret == GatherFirst(bits, 8, k)
    {
      GatherNext(bits, 8, k);
      var octet := ShiftIn(bits[8 * k..8 * k + 8], 8);
      secret := secret + [octet];
    }
    GatherNext(bits, 8, 32);
    var sum := ShiftIn(bits[256..264], 8);
    assert bits[..264] == bits;
    if sum != b.checksum(secret) { return Err(ChecksumMismatch); }
    return Ok(secret);
  }
}
