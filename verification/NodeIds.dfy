/** Node identifiers and the XOR metric (crates/ephemera-types/src/identity.rs). */
module NodeIds {
  import opened Wrappers
  import opened ByteOrder
  import opened Numbers
  import LeadingZeros

  type NodeId = k: Bytes | |k| == 32 witness seq(32, _ => 0)

  function Xor(x: bv8, y: bv8): bv8 { x ^ y }

  function XorDistance(a: NodeId, b: NodeId): NodeId {
    seq(32, i requires 0 <= i < 32 => Xor(a[i], b[i]))
  }

  /** The index of the first nonzero byte at or after `i`. */
  function FirstNonZero(d: NodeId, i: nat): (r: Option<nat>)
    requires i <= 32
    ensures r.Some? ==> i <= r.value < 32 && d[r.value] != 0
    ensures r.None? ==> forall j | i <= j < 32 :: d[j] == 0
    decreases 32 - i
  {
    if i == 32 then None else if d[i] != 0 then Some(i) else FirstNonZero(d, i + 1)
  }

  function LeadingZerosDistance(a: NodeId, b: NodeId): (r: Option<nat>)
    ensures r.Some? ==> r.value < 256
  {
    match FirstNonZero(XorDistance(a, b), 0)
    case None => None
    case Some(i) => Some(i * 8 + LeadingZeros.ByteZeros(XorDistance(a, b)[i] as nat))
  }

  predicate Closer(a: NodeId, b: NodeId, target: NodeId) {
    LexLess(XorDistance(a, target), XorDistance(b, target))
  }

  lemma XorCancels(x: bv8, y: bv8, t: bv8)
    requires Xor(x, t) == Xor(y, t)
    ensures x == y
  {}

  lemma XorInjectiveAt(a: NodeId, b: NodeId, target: NodeId, i: nat)
    requires XorDistance(a, target) == XorDistance(b, target) && i < 32
    ensures a[i] == b[i]
  {
    hide Xor;
    assert XorDistance(a, target)[i] == Xor(a[i], target[i]);
    assert XorDistance(b, target)[i] == Xor(b[i], target[i]);
    XorCancels(a[i], b[i], target[i]);
  }

  /** Distance to a fixed target identifies the node. */
  lemma XorInjective(a: NodeId, b: NodeId, target: NodeId)
    requires XorDistance(a, target) == XorDistance(b, target)
    ensures a == b
  {
    hide XorDistance;
    forall i | 0 <= i < 32
      ensures a[i] == b[i]
    {
      XorInjectiveAt(a, b, target, i);
    }
  }

  lemma CloserTotal(a: NodeId, b: NodeId, target: NodeId)
    ensures Closer(a, b, target) || a == b || Closer(b, a, target)
  {
    LexTotal(XorDistance(a, target), XorDistance(b, target));
    if XorDistance(a, target) == XorDistance(b, target) {
      XorInjective(a, b, target);
    }
  }

  lemma CloserAsymmetric(a: NodeId, b: NodeId, target: NodeId)
    requires Closer(a, b, target)
    ensures !Closer(b, a, target) && a != b
  {
    LexAsymmetric(XorDistance(a, target), XorDistance(b, target));
  }

  lemma CloserTransitive(a: NodeId, b: NodeId, c: NodeId, target: NodeId)
    requires Closer(a, b, target) && Closer(b, c, target)
    ensures Closer(a, c, target)
  {
    LexTransitive(XorDistance(a, target), XorDistance(b, target), XorDistance(c, target));
  }

  // The k nearest of a set -----------------------------------------------------------

  ghost predicate Ascending(r: seq<NodeId>, target: NodeId) {
    forall i, j | 0 <= i < j < |r| :: Closer(r[i], r[j], target)
  }

  /** `r` lists the `k` members of `s` nearest to the target, nearest first. */
  ghost predicate IsNearest(r: seq<NodeId>, s: set<NodeId>, k: nat, target: NodeId) {
    && |r| == Min(k, |s|)
    && Ascending(r, target)
    && (forall i | 0 <= i < |r| :: r[i] in s)
    && (forall x, i | x in s && x !in r && 0 <= i < |r| :: Closer(r[i], x, target))
  }

  lemma {:induction false} NearestPrefixes(r: seq<NodeId>, r': seq<NodeId>, s: set<NodeId>, k: nat, target: NodeId, n: nat)
    requires IsNearest(r, s, k, target) && IsNearest(r', s, k, target) && n <= |r|
    ensures forall i | 0 <= i < n :: r[i] == r'[i]
    decreases n
  {
    hide Closer;
    if n > 0 {
      NearestPrefixes(r, r', s, k, target, n - 1);
      CloserTotal(r[n - 1], r'[n - 1], target);
      if Closer(r[n - 1], r'[n - 1], target) {
        EarlierIsPresent(r, r', s, k, target, n - 1);
      } else if Closer(r'[n - 1], r[n - 1], target) {
        EarlierIsPresent(r', r, s, k, target, n - 1);
      }
    }
  }

  /** The description determines the list. */
  lemma NearestIsUnique(r: seq<NodeId>, r': seq<NodeId>, s: set<NodeId>, k: nat, target: NodeId)
    requires IsNearest(r, s, k, target) && IsNearest(r', s, k, target)
    ensures r == r'
  {
    NearestPrefixes(r, r', s, k, target, |r|);
  }

  /** A member nearer than `r'[i]` must already be listed before position `i`. */
  lemma EarlierIsPresent(r: seq<NodeId>, r': seq<NodeId>, s: set<NodeId>, k: nat, target: NodeId, i: nat)
    requires IsNearest(r, s, k, target) && IsNearest(r', s, k, target) && i < |r|
    requires Closer(r[i], r'[i], target)
    ensures exists j | 0 <= j < i :: r[j] != r'[j]
  {
    CloserAsymmetric(r[i], r'[i], target);
    assert r[i] in s;
    assert r[i] in r';
    var j :| 0 <= j < |r'| && r'[j] == r[i];
    if j < i {
      CloserAsymmetric(r[j], r[i], target);
      assert r[j] != r'[j];
    }
  }

  /** The nearest of the remaining members comes next, as an ordered map iterates. */
  method TakeNearest(s: set<NodeId>, k: nat, target: NodeId) returns (r: seq<NodeId>)
    ensures IsNearest(r, s, k, target)
  {
    r := [];
    var rest := s;
    while rest != {} && |r| < k
      invariant |r| + |rest| == |s| && |r| <= k
      invariant forall x :: x in s <==> x in r || x in rest
      invariant Ascending(r, target)
      invariant forall i, x | 0 <= i < |r| && x in rest :: Closer(r[i], x, target)
      decreases rest
    {
      var m := NearestOne(rest, target);
      r := r + [m];
      rest := rest - {m};
    }
    if rest != {} {
      assert |rest| > 0;
    }
  }

  method NearestOne(s: set<NodeId>, target: NodeId) returns (m: NodeId)
    requires s != {}
    ensures m in s && forall x | x in s && x != m :: Closer(m, x, target)
  {
    m :| m in s;
    var rest := s - {m};
    while rest != {}
      invariant rest <= s && m in s && m !in rest
      invariant forall x | x in s && x !in rest && x != m :: Closer(m, x, target)
      decreases rest
    {
      var x :| x in rest;
      CloserTotal(x, m, target);
      if LexLess(XorDistance(x, target), XorDistance(m, target)) {
        forall y | y in s && y !in rest && y != m
          ensures Closer(x, y, target)
        {
          CloserTransitive(x, m, y, target);
        }
        m := x;
      }
      rest := rest - {x};
    }
  }
}
