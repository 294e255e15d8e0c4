/** Lexicographic order on byte strings, as Rust compares arrays and slices of `u8`. */
module ByteOrder {
  type Bytes = seq<bv8>

  predicate LexLess(a: Bytes, b: Bytes) {
    if b == [] then false
    else if a == [] then true
    else a[0] < b[0] || (a[0] == b[0] && LexLess(a[1..], b[1..]))
  }

  lemma {:induction false} LexTotal(a: Bytes, b: Bytes)
    ensures LexLess(a, b) || a == b || LexLess(b, a)
    decreases |a|
  {
    if a != [] && b != [] && a[0] == b[0] {
      LexTotal(a[1..], b[1..]);
      assert a == [a[0]] + a[1..] && b == [b[0]] + b[1..];
    }
  }

  lemma {:induction false} LexAsymmetric(a: Bytes, b: Bytes)
    requires LexLess(a, b)
    ensures !LexLess(b, a) && a != b
    decreases |a|
  {
    if a != [] && b != [] && a[0] == b[0] {
      LexAsymmetric(a[1..], b[1..]);
    }
  }

  lemma {:induction false} LexTransitive(a: Bytes, b: Bytes, c: Bytes)
    requires LexLess(a, b) && LexLess(b, c)
    ensures LexLess(a, c)
    decreases |a|
  {
    if a != [] && b != [] && c != [] && a[0] == b[0] == c[0] {
      LexTransitive(a[1..], b[1..], c[1..]);
    }
  }

  /** The first difference decides; a proper prefix comes first. */
  lemma {:induction false} LexLessExact(a: Bytes, b: Bytes)
    ensures LexLess(a, b) <==> LessAtDifference(a, b)
    decreases |a|
  {
    if a != [] && b != [] && a[0] == b[0] {
      LexLessExact(a[1..], b[1..]);
      Shift(a, b);
    } else {
      assert a[..0] == b[..0];
      assert LexLess(a, b) ==> LessAt(a, b, 0);
      if n: nat :| LessAt(a, b, n) {
        FirstBytesAgree(a, b, n);
      }
    }
  }

  /** They agree before position `n`, and there `a` has ended or is smaller. */
  predicate LessAt(a: Bytes, b: Bytes, n: nat) {
    n < |b| && n <= |a| && a[..n] == b[..n] && (n == |a| || a[n] < b[n])
  }

  lemma FirstBytesAgree(a: Bytes, b: Bytes, n: nat)
    requires LessAt(a, b, n)
    ensures n > 0 ==> a != [] && a[0] == b[0]
  {
    assert n > 0 ==> a[..n][0] == b[..n][0];
  }

  ghost predicate LessAtDifference(a: Bytes, b: Bytes) {
    exists n :: LessAt(a, b, n)
  }

  lemma Shift(a: Bytes, b: Bytes)
    requires a != [] && b != [] && a[0] == b[0]
    ensures LessAtDifference(a, b) <==> LessAtDifference(a[1..], b[1..])
  {
    hide LessAt;
    if n: nat :| LessAt(a, b, n) {
      ShiftAt(a, b, n);
    }
    if n: nat :| LessAt(a[1..], b[1..], n) {
      ShiftAt(a, b, n + 1);
    }
  }

  lemma ShiftAt(a: Bytes, b: Bytes, n: nat)
    requires a != [] && b != [] && a[0] == b[0]
    ensures n > 0 ==> (LessAt(a, b, n) <==> LessAt(a[1..], b[1..], n - 1))
    ensures LessAt(a, b, n) ==> n > 0
  {
    if 0 < n <= |a| && n < |b| {
      assert a[1..][..n - 1] == a[1..n] && b[1..][..n - 1] == b[1..n];
      assert a[..n] == [a[0]] + a[1..n] && b[..n] == [b[0]] + b[1..n];
    }
  }
}
