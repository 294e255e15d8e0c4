/** What stripping an MP4 file does to its bytes, what the checker makes of bytes it leaves alone, and a large file that fails. */
module Mp4Theorems {
  import opened BitGroups
  import opened Numbers
  import opened Mp4Metadata

  ghost predicate Agree(d: seq<byte>, d': seq<byte>, from: nat, to: nat) {
    |d| == |d'| && forall i | from <= i < to && i < |d| :: d[i] == d'[i]
  }

  // Nothing outside the walked range, and no 8-byte header, is written ------------------

  lemma {:induction false} StripFrame(d: seq<byte>, pos: nat, end: nat)
    requires end <= |d|
    ensures Agree(d, Strip(d, pos, end).data, 0, pos + 8)
    ensures Agree(d, Strip(d, pos, end).data, end, |d|)
    decreases Distance(pos, end), 1
  {
    hide HeadAt;
    if pos + 8 <= end && HeadAt(d, pos, end).Box? {
      var Box(size, header, kind) := HeadAt(d, pos, end);
      StripBoxFrame(d, pos, size, header, kind);
      var box := StripBox(d, pos, size, header, kind);
      if box.ok {
        StripFrame(box.data, pos + size, end);
      }
    }
  }

  lemma {:induction false} StripBoxFrame(d: seq<byte>, pos: nat, size: nat, header: nat, kind: Kind)
    requires 8 <= size && 8 <= header && pos + size <= |d|
    ensures Agree(d, StripBox(d, pos, size, header, kind).data, 0, pos + 8)
    ensures Agree(d, StripBox(d, pos, size, header, kind).data, pos + size, |d|)
    decreases Distance(pos, pos + size), 0
  {
    if kind == Container {
      StripFrame(d, pos + header, pos + size);
    }
  }

  // The walk depends only on the bytes of its range ---------------------------------------

  lemma HeadLocal(d: seq<byte>, d': seq<byte>, pos: nat, end: nat)
    requires pos + 8 <= end <= |d| && Agree(d, d', pos, end)
    ensures HeadAt(d, pos, end) == HeadAt(d', pos, end)
  {
    assert d[pos + 4..pos + 8] == d'[pos + 4..pos + 8];
  }

  lemma {:induction false} StripLocal(d: seq<byte>, d': seq<byte>, pos: nat, end: nat)
    requires end <= |d| && Agree(d, d', pos, end)
    ensures Strip(d, pos, end).ok == Strip(d', pos, end).ok
    ensures Agree(Strip(d, pos, end).data, Strip(d', pos, end).data, pos, end)
    decreases Distance(pos, end), 1
  {
    hide HeadAt;
    if pos + 8 <= end {
      HeadLocal(d, d', pos, end);
      if HeadAt(d, pos, end).Box? {
        var Box(size, header, kind) := HeadAt(d, pos, end);
        StripBoxLocal(d, d', pos, end, size, header, kind);
        var box, box' := StripBox(d, pos, size, header, kind), StripBox(d', pos, size, header, kind);
        if box.ok {
          StripLocal(box.data, box'.data, pos + size, end);
          StripFrame(box.data, pos + size, end);
          StripFrame(box'.data, pos + size, end);
        }
      }
    }
  }

  lemma {:induction false} StripBoxLocal(d: seq<byte>, d': seq<byte>, pos: nat, end: nat, size: nat, header: nat, kind: Kind)
    requires 8 <= size && 8 <= header && pos + size <= end <= |d| && Agree(d, d', pos, end)
    ensures StripBox(d, pos, size, header, kind).ok == StripBox(d', pos, size, header, kind).ok
    ensures Agree(StripBox(d, pos, size, header, kind).data, StripBox(d', pos, size, header, kind).data, pos, end)
    decreases Distance(pos, pos + size), 0
  {
    hide Strip;
    if kind == Container {
      StripLocal(d, d', pos + header, pos + size);
      StripFrame(d, pos + header, pos + size);
      StripFrame(d', pos + header, pos + size);
    }
  }

  // Boxes whose timestamps overlap a large 64-bit size -----------------------------------------

  const FOUR_GIB: nat := TWO_TO_32

  /** No visited mvhd or tkhd box has a 64-bit size of 4 GiB or more. */
  predicate Tame(d: seq<byte>, pos: nat, end: nat)
    requires end <= |d|
    decreases Distance(pos, end)
  {
    pos + 8 <= end ==>
      match HeadAt(d, pos, end)
      case Truncated => true
      case Stop => true
      case Box(size, header, kind) =>
        && TameBox(size, header, kind)
        && (kind == Container ==> Tame(d, pos + header, pos + size))
        && Tame(d, pos + size, end)
  }

  predicate TameBox(size: nat, header: nat, kind: Kind) {
    kind == Timed && header == 16 ==> size < FOUR_GIB
  }

  lemma {:induction false} ShortFilesAreTame(d: seq<byte>, pos: nat, end: nat)
    requires end <= |d| < FOUR_GIB
    ensures Tame(d, pos, end)
    decreases Distance(pos, end)
  {
    hide HeadAt;
    if pos + 8 <= end && HeadAt(d, pos, end).Box? {
      var Box(size, header, kind) := HeadAt(d, pos, end);
      ShortFilesAreTame(d, pos + size, end);
      ShortFilesAreTame(d, pos + header, pos + size);
    }
  }

  // Size fields ------------------------------------------------------------------------------

  lemma SmallU64(d: seq<byte>, pos: nat, n: nat)
    requires pos + 8 <= |d| && ReadU64(d, pos) == n
    ensures n < TWO_TO_32 ==> forall i | pos <= i < pos + 4 :: d[i] == 0
    ensures n < 0x100 ==> forall i | pos <= i < pos + 7 :: d[i] == 0
  {}

  lemma SameU64(d: seq<byte>, d': seq<byte>, pos: nat)
    requires pos + 8 <= |d| && Agree(d, d', pos, pos + 8)
    ensures ReadU64(d', pos) == ReadU64(d, pos)
  {}

  lemma ZeroU64(d: seq<byte>, pos: nat)
    requires pos + 8 <= |d| && AllZero(d, pos, pos + 8)
    ensures ReadU64(d, pos) == 0
  {}

  // Nothing to strip means nothing to find ---------------------------------------------------------------------------

  /** A range that stripping leaves alone holds no metadata content. */
  lemma {:induction false} FixedPointIsClean(d: seq<byte>, pos: nat, end: nat)
    requires end <= |d| && Strip(d, pos, end) == Stripped(true, d)
    ensures !Scan(d, pos, end)
    decreases Distance(pos, end)
  {
    hide HeadAt;
    if pos + 8 <= end && HeadAt(d, pos, end).Box? {
      var Box(size, header, kind) := HeadAt(d, pos, end);
      var d1 := StripBox(d, pos, size, header, kind).data;
      StripBoxFrame(d, pos, size, header, kind);
      StripFrame(d1, pos + size, end);
      assert d1 == d;
      FixedPointIsClean(d, pos + size, end);
      if kind == Container {
        FixedPointIsClean(d, pos + header, pos + size);
      }
    }
  }

  // Exactly which bytes change -------------------------------------------------------------------

  /**
    Decided on the input alone: byte `i` lies after the 8-byte header of a visited
    metadata box, or among the timestamps of a visited mvhd or tkhd box.
   */
  predicate Wiped(d: seq<byte>, pos: nat, end: nat, i: nat)
    requires end <= |d|
    decreases Distance(pos, end)
  {
    pos + 8 <= end
    && match HeadAt(d, pos, end)
       case Truncated => false
       case Stop => false
       case Box(size, header, kind) =>
         if i >= pos + size then Wiped(d, pos + size, end, i)
         else match kind
              case Metadata => pos + 8 <= i
              case Container => Wiped(d, pos + header, pos + size, i)
              case Timed => pos + 12 <= i < TimesEnd(d, pos, size)
              case Other => false
  }

  lemma {:induction false} WipedLocal(d: seq<byte>, d': seq<byte>, pos: nat, end: nat, i: nat)
    requires end <= |d| && Agree(d, d', pos, end)
    ensures Wiped(d, pos, end, i) == Wiped(d', pos, end, i)
    decreases Distance(pos, end)
  {
    hide HeadAt;
    if pos + 8 <= end {
      HeadLocal(d, d', pos, end);
      if HeadAt(d, pos, end).Box? {
        var Box(size, header, kind) := HeadAt(d, pos, end);
        WipedLocal(d, d', pos + size, end, i);
        if kind == Container {
          WipedLocal(d, d', pos + header, pos + size, i);
        }
      }
    }
  }

  lemma {:induction false} WipedInRange(d: seq<byte>, pos: nat, end: nat, i: nat)
    requires end <= |d| && Wiped(d, pos, end, i)
    ensures pos + 8 <= i < end
    decreases Distance(pos, end)
  {
    hide HeadAt;
    var Box(size, header, kind) := HeadAt(d, pos, end);
    if i >= pos + size {
      WipedInRange(d, pos + size, end, i);
    } else if kind == Container {
      WipedInRange(d, pos + header, pos + size, i);
    }
  }

  /** Stripping in place, box by box, zeroes exactly the wiped bytes of the input. */
  lemma {:induction false} StripWipesExactly(d: seq<byte>, pos: nat, end: nat, i: nat)
    requires end <= |d| && Strip(d, pos, end).ok && i < |d|
    ensures Strip(d, pos, end).data[i] == if Wiped(d, pos, end, i) then 0 else d[i]
    decreases Distance(pos, end)
  {
    hide HeadAt;
    if pos + 8 <= end && HeadAt(d, pos, end).Box? {
      var Box(size, header, kind) := HeadAt(d, pos, end);
      var d1 := StripBox(d, pos, size, header, kind).data;
      StripBoxFrame(d, pos, size, header, kind);
      StripFrame(d1, pos + size, end);
      if i >= pos + size {
        StripWipesExactly(d1, pos + size, end, i);
        WipedLocal(d, d1, pos + size, end, i);
      } else if kind == Container {
        StripWipesExactly(d, pos + header, pos + size, i);
      }
    }
  }

  // Files of 4 GiB and more ------------------------------------------------------------------------

  /** One mvhd box with a 64-bit size of 4 GiB + 24, whose payload ends in what looks like a udta box. */
  function LargeFileByte(i: nat): byte {
    if i == 3 then 1
    else if i == 4 then 0x6D else if i == 5 then 0x76 else if i == 6 then 0x68 else if i == 7 then 0x64
    else if i == 11 then 1 else if i == 15 then 24
    else if i == FOUR_GIB + 3 then 24
    else if i == FOUR_GIB + 4 then 0x75 else if i == FOUR_GIB + 5 then 0x64
    else if i == FOUR_GIB + 6 then 0x74 else if i == FOUR_GIB + 7 then 0x61
    else if i == FOUR_GIB + 8 then 1
    else 0
  }

  /**
    The length bound cannot be dropped: the half-cleared size sends the second walk
    into the payload, so the checker refuses and stripping again changes bytes.
   */
  lemma LargeFilesCanFail()
    ensures exists d: seq<byte> :: FailsWhenLarge(d)
  {
    var n := FOUR_GIB + 24;
    var d: seq<byte> := seq(n, i requires 0 <= i < n => LargeFileByte(i));
    assert d[4..8] == [0x6D, 0x76, 0x68, 0x64];
    assert ReadU32(d, 0) == 1 && ReadU64(d, 8) == n;
    assert HeadAt(d, 0, n) == Box(n, 16, Timed);
    var d' := Clear(d, 12, 20);
    assert StripBox(d, 0, n, 16, Timed) == Stripped(true, d');
    assert Strip(d', n, n) == Stripped(true, d');
    assert Strip(d, 0, n) == Stripped(true, d');
    assert d'[4..8] == d[4..8];
    assert ReadU32(d', 0) == 1 && ReadU64(d', 8) == FOUR_GIB;
    assert HeadAt(d', 0, n) == Box(FOUR_GIB, 16, Timed);
    assert d'[FOUR_GIB + 4..FOUR_GIB + 8] == [0x75, 0x64, 0x74, 0x61];
    assert ReadU32(d', FOUR_GIB) == 24;
    assert HeadAt(d', FOUR_GIB, n) == Box(24, 8, Metadata);
    assert d'[FOUR_GIB + 8] != 0;
    assert Scan(d', FOUR_GIB, n);
    assert Scan(d', 0, n);
    if Strip(d', 0, n) == Stripped(true, d') {
      FixedPointIsClean(d', 0, n);
    }
    assert FailsWhenLarge(d);
  }

  predicate FailsWhenLarge(d: seq<byte>) {
    && Strip(d, 0, |d|).ok
    && var once := Strip(d, 0, |d|).data;
       Scan(once, 0, |d|) && Strip(once, 0, |d|) != Stripped(true, once)
  }
}
