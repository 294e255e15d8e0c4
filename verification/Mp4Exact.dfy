/** Exactly when the checker accepts a stripped file and when stripping it again changes nothing, decided on the input. */
module Mp4Exact {
  import opened BitGroups
  import opened Numbers
  import opened Mp4Metadata
  import opened Mp4Theorems

  /**
    What the size of a box reads after it was handled: a 64-bit size is cleared
    with the content of a metadata box, and loses its low half to the timestamps.
   */
  function SizeLeft(d: seq<byte>, pos: nat, size: nat, header: nat, kind: Kind): (left: nat)
    requires 8 <= size && pos + size <= |d|
    ensures left <= size
  {
    if header == 8 then size
    else if kind == Metadata && size >= 16 then 0
    else if kind == Timed && TimesEnd(d, pos, size) > pos + 12 then size - size % FOUR_GIB
    else size
  }

  /** The bytes with everything wiped that stripping wipes. */
  function Cleaned(d: seq<byte>, pos: nat, end: nat): (r: seq<byte>)
    requires end <= |d|
    ensures |r| == |d|
  {
    seq(|d|, i requires 0 <= i < |d| => if Wiped(d, pos, end, i) then 0 else d[i])
  }

  /**
    The second walk meets the same boxes, except that a cleared size ends a level
    and a halved one leads into the payload of its box; only there can it find
    what looks like metadata.
   */
  predicate Leaks(d: seq<byte>, pos: nat, end: nat)
    requires end <= |d|
    decreases Distance(pos, end)
  {
    pos + 8 <= end
    && match HeadAt(d, pos, end)
       case Truncated => false
       case Stop => false
       case Box(size, header, kind) =>
         var left := SizeLeft(d, pos, size, header, kind);
         if left < 8 then false
         else if left < size then Scan(Cleaned(d, pos, end), pos + left, end)
         else (kind == Container && Leaks(d, pos + header, pos + size)) || Leaks(d, pos + size, end)
  }

  // What handling a box leaves of its header -------------------------------------------------

  lemma HalvedU64(d: seq<byte>, d': seq<byte>, pos: nat)
    requires pos + 8 <= |d| == |d'| && Agree(d, d', pos, pos + 4) && AllZero(d', pos + 4, pos + 8)
    ensures ReadU64(d', pos) == ReadU64(d, pos) - ReadU64(d, pos) % FOUR_GIB
  {
    assert ReadU32(d', pos + 4) == 0;
    assert ReadU32(d, pos + 4) < FOUR_GIB;
  }

  lemma SizeFieldExact(d: seq<byte>, pos: nat, size: nat, kind: Kind)
    requires 8 <= size && pos + size <= |d| && pos + 16 <= |d| && ReadU64(d, pos + 8) == size
    ensures ReadU64(StripBox(d, pos, size, 16, kind).data, pos + 8) == SizeLeft(d, pos, size, 16, kind)
  {
    hide Strip, ReadU64;
    var d1 := StripBox(d, pos, size, 16, kind).data;
    SmallU64(d, pos + 8, size);
    match kind {
      case Metadata =>
        if size >= 16 {
          ZeroU64(d1, pos + 8);
        } else {
          SameU64(d, d1, pos + 8);
        }
      case Container =>
        StripFrame(d, pos + 16, pos + size);
        SameU64(d, d1, pos + 8);
      case Timed =>
        if TimesEnd(d, pos, size) > pos + 12 {
          HalvedU64(d, d1, pos + 8);
        } else {
          SameU64(d, d1, pos + 8);
        }
      case Other =>
    }
  }

  lemma HeadExact(d: seq<byte>, d': seq<byte>, pos: nat, end: nat)
    requires pos + 8 <= end <= |d| && HeadAt(d, pos, end).Box?
    requires var Box(size, header, kind) := HeadAt(d, pos, end);
             Agree(StripBox(d, pos, size, header, kind).data, d', 0, pos + size + 8)
    ensures var Box(size, header, kind) := HeadAt(d, pos, end);
            var left := SizeLeft(d, pos, size, header, kind);
            HeadAt(d', pos, end) == if left < 8 then Stop else Box(left, header, kind)
  {
    hide StripBox, ReadU64, KindOf;
    var Box(size, header, kind) := HeadAt(d, pos, end);
    StripBoxFrame(d, pos, size, header, kind);
    assert d'[pos + 4..pos + 8] == d[pos + 4..pos + 8];
    assert ReadU32(d', pos) == ReadU32(d, pos);
    if header == 16 {
      SizeFieldExact(d, pos, size, kind);
      SameU64(StripBox(d, pos, size, header, kind).data, d', pos + 8);
    }
  }

  // Both walks depend only on the bytes of their range ---------------------------------------

  lemma {:induction false} ScanLocal(d: seq<byte>, d': seq<byte>, pos: nat, end: nat)
    requires end <= |d| && Agree(d, d', pos, end)
    ensures Scan(d, pos, end) == Scan(d', pos, end)
    decreases Distance(pos, end)
  {
    hide HeadAt;
    if pos + 8 <= end {
      HeadLocal(d, d', pos, end);
      if HeadAt(d, pos, end).Box? {
        var Box(size, header, kind) := HeadAt(d, pos, end);
        ScanLocal(d, d', pos + size, end);
        if kind == Container {
          ScanLocal(d, d', pos + header, pos + size);
        }
      }
    }
  }

  lemma SizeLeftLocal(d: seq<byte>, d': seq<byte>, pos: nat, size: nat, header: nat, kind: Kind)
    requires 8 <= size && pos + size <= |d| && Agree(d, d', pos, pos + size)
    ensures SizeLeft(d, pos, size, header, kind) == SizeLeft(d', pos, size, header, kind)
  {}

  lemma CleanedLocal(d: seq<byte>, d': seq<byte>, pos: nat, end: nat)
    requires end <= |d| && Agree(d, d', pos, end)
    ensures Agree(Cleaned(d, pos, end), Cleaned(d', pos, end), pos, end)
  {
    hide Wiped;
    forall i | pos <= i < end ensures Cleaned(d, pos, end)[i] == Cleaned(d', pos, end)[i] {
      WipedLocal(d, d', pos, end, i);
    }
  }

  lemma {:induction false} LeaksLocal(d: seq<byte>, d': seq<byte>, pos: nat, end: nat)
    requires end <= |d| && Agree(d, d', pos, end)
    ensures Leaks(d, pos, end) == Leaks(d', pos, end)
    decreases Distance(pos, end)
  {
    hide HeadAt, Cleaned, Scan, SizeLeft;
    if pos + 8 <= end {
      HeadLocal(d, d', pos, end);
      if HeadAt(d, pos, end).Box? {
        var Box(size, header, kind) := HeadAt(d, pos, end);
        var left := SizeLeft(d, pos, size, header, kind);
        SizeLeftLocal(d, d', pos, size, header, kind);
        CleanedLocal(d, d', pos, end);
        if 8 <= left < size {
          ScanLocal(Cleaned(d, pos, end), Cleaned(d', pos, end), pos + left, end);
        }
        LeaksLocal(d, d', pos + size, end);
        if kind == Container {
          LeaksLocal(d, d', pos + header, pos + size);
        }
      }
    }
  }

  // The exact condition ------------------------------------------------------------------------

  lemma CleanedIsStripped(d: seq<byte>, pos: nat, end: nat)
    requires end <= |d| && Strip(d, pos, end).ok
    ensures Strip(d, pos, end).data == Cleaned(d, pos, end)
  {
    hide Wiped, Strip;
    forall i | 0 <= i < |d| ensures Strip(d, pos, end).data[i] == Cleaned(d, pos, end)[i] {
      StripWipesExactly(d, pos, end, i);
    }
  }

  lemma {:induction false} LeaksExactly(d: seq<byte>, d': seq<byte>, pos: nat, end: nat)
    requires end <= |d| && Strip(d, pos, end).ok && Agree(Strip(d, pos, end).data, d', pos, end)
    ensures Scan(d', pos, end) <==> Leaks(d, pos, end)
    decreases Distance(pos, end)
  {
    hide HeadAt, Cleaned, SizeLeft, StripBox;
    var all := Strip(d, pos, end).data;
    if pos + 8 <= end {
      HeadLocal(all, d', pos, end);
      if HeadAt(d, pos, end).Box? {
        var Box(size, header, kind) := HeadAt(d, pos, end);
        var d1 := StripBox(d, pos, size, header, kind).data;
        StripFrame(d1, pos + size, end);
        HeadExact(d, all, pos, end);
        var left := SizeLeft(d, pos, size, header, kind);
        OnlyTimedIsHalved(d, pos, size, header, kind);
        if 8 <= left < size {
          CleanedIsStripped(d, pos, end);
          ScanLocal(all, d', pos + left, end);
        } else if left == size {
          StripBoxFrame(d, pos, size, header, kind);
          LeaksExactly(d1, d', pos + size, end);
          LeaksLocal(d, d1, pos + size, end);
          if kind == Metadata {
            MetadataIsZeroed(d, pos, size, header);
          } else if kind == Container {
            ContainerIsStrip(d, pos, size, header);
            LeaksExactly(d, d', pos + header, pos + size);
          }
        }
      }
    }
  }

  lemma MetadataIsZeroed(d: seq<byte>, pos: nat, size: nat, header: nat)
    requires 8 <= size && 8 <= header && pos + size <= |d|
    ensures AllZero(StripBox(d, pos, size, header, Metadata).data, pos + 8, pos + size)
  {}

  lemma ContainerIsStrip(d: seq<byte>, pos: nat, size: nat, header: nat)
    requires 8 <= size && 8 <= header && pos + size <= |d|
    ensures StripBox(d, pos, size, header, Container) == Strip(d, pos + header, pos + size)
  {}

  lemma OnlyTimedIsHalved(d: seq<byte>, pos: nat, size: nat, header: nat, kind: Kind)
    requires 8 <= size && pos + size <= |d|
    ensures var left := SizeLeft(d, pos, size, header, kind);
            left == size || left == 0 || kind == Timed
  {}

  /** For every file on which stripping succeeds, of any length, the checker accepts exactly when nothing leaks. */
  lemma CheckerAcceptsExactly(d: seq<byte>)
    requires Strip(d, 0, |d|).ok
    ensures !Scan(Strip(d, 0, |d|).data, 0, |d|) <==> !Leaks(d, 0, |d|)
  {
    LeaksExactly(d, Strip(d, 0, |d|).data, 0, |d|);
  }

  /** Nothing leaks unless a visited timestamp box has a 64-bit size of 4 GiB or more. */
  lemma {:induction false} TameNeverLeaks(d: seq<byte>, pos: nat, end: nat)
    requires end <= |d| && Tame(d, pos, end)
    ensures !Leaks(d, pos, end)
    decreases Distance(pos, end)
  {
    hide HeadAt, Cleaned, Scan;
    if pos + 8 <= end && HeadAt(d, pos, end).Box? {
      var Box(size, header, kind) := HeadAt(d, pos, end);
      TameNeverLeaks(d, pos + size, end);
      if kind == Container {
        TameNeverLeaks(d, pos + header, pos + size);
      }
    }
  }

  // Stripping again -------------------------------------------------------------------------

  /** Walking the range succeeds and changes nothing. */
  predicate IsFixed(d: seq<byte>, pos: nat, end: nat)
    requires end <= |d|
  {
    Strip(d, pos, end) == Stripped(true, d)
  }

  /** Beside the boxes of the first walk, a second one visits only what a halved size leads to; that must be fixed. */
  predicate Settles(d: seq<byte>, pos: nat, end: nat)
    requires end <= |d|
    decreases Distance(pos, end)
  {
    pos + 8 <= end ==>
      match HeadAt(d, pos, end)
      case Truncated => true
      case Stop => true
      case Box(size, header, kind) =>
        var left := SizeLeft(d, pos, size, header, kind);
        if left < 8 then true
        else if left < size then IsFixed(Cleaned(d, pos, end), pos + left, end)
        else (kind == Container ==> Settles(d, pos + header, pos + size)) && Settles(d, pos + size, end)
  }

  lemma FixedLocal(d: seq<byte>, d': seq<byte>, pos: nat, end: nat)
    requires end <= |d| && Agree(d, d', pos, end)
    ensures IsFixed(d, pos, end) <==> IsFixed(d', pos, end)
  {
    hide Strip;
    StripLocal(d, d', pos, end);
    StripFrame(d, pos, end);
    StripFrame(d', pos, end);
    var r, r' := Strip(d, pos, end).data, Strip(d', pos, end).data;
    if IsFixed(d, pos, end) {
      assert r' == d';
    }
    if IsFixed(d', pos, end) {
      assert r == d;
    }
  }

  lemma {:induction false} SettlesLocal(d: seq<byte>, d': seq<byte>, pos: nat, end: nat)
    requires end <= |d| && Agree(d, d', pos, end)
    ensures Settles(d, pos, end) == Settles(d', pos, end)
    decreases Distance(pos, end)
  {
    hide HeadAt, Cleaned, IsFixed, SizeLeft;
    if pos + 8 <= end {
      HeadLocal(d, d', pos, end);
      if HeadAt(d, pos, end).Box? {
        var Box(size, header, kind) := HeadAt(d, pos, end);
        var left := SizeLeft(d, pos, size, header, kind);
        SizeLeftLocal(d, d', pos, size, header, kind);
        CleanedLocal(d, d', pos, end);
        if 8 <= left < size {
          FixedLocal(Cleaned(d, pos, end), Cleaned(d', pos, end), pos + left, end);
        }
        SettlesLocal(d, d', pos + size, end);
        if kind == Container {
          SettlesLocal(d, d', pos + header, pos + size);
        }
      }
    }
  }

  /** A fixed range is a fixed first box before a fixed rest. */
  lemma FixedSplits(d: seq<byte>, pos: nat, end: nat)
    requires pos + 8 <= end <= |d| && HeadAt(d, pos, end).Box?
    ensures var Box(size, header, kind) := HeadAt(d, pos, end);
            IsFixed(d, pos, end) <==> StripBox(d, pos, size, header, kind) == Stripped(true, d) && IsFixed(d, pos + size, end)
  {
    hide HeadAt, StripBox;
    var Box(size, header, kind) := HeadAt(d, pos, end);
    var box := StripBox(d, pos, size, header, kind);
    StripBoxFrame(d, pos, size, header, kind);
    StripFrame(box.data, pos + size, end);
    if IsFixed(d, pos, end) {
      assert box.data == d;
    }
  }

  /** A box other than a container, once handled, stays as it is under the size it now has. */
  lemma HandledIsFixed(d: seq<byte>, d': seq<byte>, pos: nat, size: nat, header: nat, kind: Kind)
    requires 8 <= size && 8 <= header && pos + size <= |d| && kind != Container
    requires Agree(StripBox(d, pos, size, header, kind).data, d', 0, pos + size)
    ensures var left := SizeLeft(d, pos, size, header, kind);
            left >= 8 ==> StripBox(d', pos, left, header, kind) == Stripped(true, d')
  {
    var left := SizeLeft(d, pos, size, header, kind);
    if left >= 8 {
      assert StripBox(d', pos, left, header, kind).data == d';
    }
  }

  lemma {:induction false} SettlesExactly(d: seq<byte>, d': seq<byte>, pos: nat, end: nat)
    requires end <= |d| && Strip(d, pos, end).ok && Agree(Strip(d, pos, end).data, d', 0, end)
    ensures IsFixed(d', pos, end) <==> Settles(d, pos, end)
    decreases Distance(pos, end)
  {
    hide HeadAt, Cleaned, SizeLeft, StripBox;
    var all := Strip(d, pos, end).data;
    if pos + 8 <= end {
      HeadLocal(all, d', pos, end);
      if HeadAt(d, pos, end).Box? {
        var Box(size, header, kind) := HeadAt(d, pos, end);
        var d1 := StripBox(d, pos, size, header, kind).data;
        StripFrame(d1, pos + size, end);
        HeadExact(d, all, pos, end);
        var left := SizeLeft(d, pos, size, header, kind);
        OnlyTimedIsHalved(d, pos, size, header, kind);
        if left >= 8 {
          FixedSplits(d', pos, end);
          if kind != Container {
            HandledIsFixed(d, d', pos, size, header, kind);
          }
          if left < size {
            CleanedIsStripped(d, pos, end);
            FixedLocal(all, d', pos + left, end);
          } else {
            StripBoxFrame(d, pos, size, header, kind);
            SettlesExactly(d1, d', pos + size, end);
            SettlesLocal(d, d1, pos + size, end);
            if kind == Container {
              ContainerIsStrip(d, pos, size, header);
              ContainerIsStrip(d', pos, size, header);
              SettlesExactly(d, d', pos + header, pos + size);
            }
          }
        }
      }
    }
  }

  /** For every file on which stripping succeeds, of any length, stripping again succeeds without a change exactly then. */
  lemma StripTwiceExactly(d: seq<byte>)
    requires Strip(d, 0, |d|).ok
    ensures IsFixed(Strip(d, 0, |d|).data, 0, |d|) <==> Settles(d, 0, |d|)
  {
    SettlesExactly(d, Strip(d, 0, |d|).data, 0, |d|);
  }

  // Without a large 64-bit timestamp box ------------------------------------------------------

  /** Then a handled box reads as before or ends its level. */
  lemma HeadAfter(d: seq<byte>, d': seq<byte>, pos: nat, end: nat)
    requires pos + 8 <= end <= |d| && HeadAt(d, pos, end).Box? && Tame(d, pos, end)
    requires var Box(size, header, kind) := HeadAt(d, pos, end);
             Agree(StripBox(d, pos, size, header, kind).data, d', 0, pos + size + 8)
    ensures HeadAt(d', pos, end) == HeadAt(d, pos, end) || HeadAt(d', pos, end) == Stop
  {
    hide HeadAt, StripBox;
    HeadExact(d, d', pos, end);
  }

  lemma {:induction false} TameSettles(d: seq<byte>, pos: nat, end: nat)
    requires end <= |d| && Tame(d, pos, end)
    ensures Settles(d, pos, end)
    decreases Distance(pos, end)
  {
    hide HeadAt, Cleaned, IsFixed;
    if pos + 8 <= end && HeadAt(d, pos, end).Box? {
      var Box(size, header, kind) := HeadAt(d, pos, end);
      TameSettles(d, pos + size, end);
      if kind == Container {
        TameSettles(d, pos + header, pos + size);
      }
    }
  }

  /** Stripping a stripped range succeeds and changes nothing. */
  lemma StripTwice(d: seq<byte>, pos: nat, end: nat)
    requires end <= |d| && Tame(d, pos, end) && Strip(d, pos, end).ok
    ensures IsFixed(Strip(d, pos, end).data, pos, end)
  {
    hide Strip;
    TameSettles(d, pos, end);
    SettlesExactly(d, Strip(d, pos, end).data, pos, end);
  }

  /** The checker accepts the result. */
  lemma CheckerAcceptsTame(d: seq<byte>)
    requires Tame(d, 0, |d|) && Strip(d, 0, |d|).ok
    ensures !Scan(Strip(d, 0, |d|).data, 0, |d|)
  {
    hide Strip, Scan;
    TameNeverLeaks(d, 0, |d|);
    CheckerAcceptsExactly(d);
  }

  /** In particular for every file shorter than 4 GiB; stripping it again changes nothing. */
  lemma CheckerAcceptsStripped(d: seq<byte>)
    requires |d| < FOUR_GIB && Strip(d, 0, |d|).ok
    ensures !Scan(Strip(d, 0, |d|).data, 0, |d|)
    ensures IsFixed(Strip(d, 0, |d|).data, 0, |d|)
  {
    hide Strip, Scan, IsFixed;
    ShortFilesAreTame(d, 0, |d|);
    CheckerAcceptsTame(d);
    StripTwice(d, 0, |d|);
  }
}
