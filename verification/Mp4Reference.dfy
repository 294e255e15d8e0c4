/**
  The box format on its bytes, as section 4.2 of ISO/IEC 14496-12 lays it out, and
  both walks described on it: which bytes are erased and what the checker finds.
 */
module Mp4Reference {
  import opened BitGroups
  import opened Numbers
  import opened Mp4Metadata
  import opened Mp4Theorems

  function U32At(d: seq<byte>, pos: nat): nat
    requires pos + 4 <= |d|
  {
    d[pos] as nat * 16_777_216 + d[pos + 1] as nat * 65_536 + d[pos + 2] as nat * 256 + d[pos + 3] as nat
  }

  /** The four characters after the size. */
  predicate TagIs(d: seq<byte>, pos: nat, tag: string)
    requires pos + 8 <= |d| && |tag| == 4
  {
    forall k | 0 <= k < 4 :: d[pos + 4 + k] as int == tag[k] as int
  }

  predicate IsMetadata(d: seq<byte>, pos: nat)
    requires pos + 8 <= |d|
  {
    TagIs(d, pos, "udta") || TagIs(d, pos, "meta") || TagIs(d, pos, "uuid")
  }

  predicate IsContainer(d: seq<byte>, pos: nat)
    requires pos + 8 <= |d|
  {
    TagIs(d, pos, "moov") || TagIs(d, pos, "trak") || TagIs(d, pos, "mdia")
  }

  predicate IsTimed(d: seq<byte>, pos: nat)
    requires pos + 8 <= |d|
  {
    TagIs(d, pos, "mvhd") || TagIs(d, pos, "tkhd")
  }

  /** A box of that size starts at `pos` and fits: with its size in 32 bits, with size 0 up to the end, or with a 64-bit size. */
  predicate IsBox(d: seq<byte>, pos: nat, end: nat, size: nat, header: nat)
    requires pos + 8 <= end <= |d|
  {
    && 8 <= size && pos + size <= end
    && (if U32At(d, pos) == 0 then size == end - pos && header == 8
        else if U32At(d, pos) == 1 then
          pos + 16 <= end && header == 16 && size == U32At(d, pos + 8) * 4_294_967_296 + U32At(d, pos + 12)
        else size == U32At(d, pos) && header == 8)
  }

  lemma TagsDiffer(d: seq<byte>, pos: nat)
    requires pos + 8 <= |d|
    ensures KindOf(d[pos + 4..pos + 8]) ==
            if IsMetadata(d, pos) then Metadata else if IsContainer(d, pos) then Container else if IsTimed(d, pos) then Timed else Other
  {
    TagsAreBytes(d, pos);
    hide TagIs;
  }

  lemma TagsAreBytes(d: seq<byte>, pos: nat)
    requires pos + 8 <= |d|
    ensures var t := d[pos + 4..pos + 8];
            && (TagIs(d, pos, "udta") <==> t == [0x75, 0x64, 0x74, 0x61])
            && (TagIs(d, pos, "meta") <==> t == [0x6D, 0x65, 0x74, 0x61])
            && (TagIs(d, pos, "uuid") <==> t == [0x75, 0x75, 0x69, 0x64])
            && (TagIs(d, pos, "moov") <==> t == [0x6D, 0x6F, 0x6F, 0x76])
            && (TagIs(d, pos, "trak") <==> t == [0x74, 0x72, 0x61, 0x6B])
            && (TagIs(d, pos, "mdia") <==> t == [0x6D, 0x64, 0x69, 0x61])
            && (TagIs(d, pos, "mvhd") <==> t == [0x6D, 0x76, 0x68, 0x64])
            && (TagIs(d, pos, "tkhd") <==> t == [0x74, 0x6B, 0x68, 0x64])
  {
    TagBytes(d, pos, "udta", [0x75, 0x64, 0x74, 0x61]);
    TagBytes(d, pos, "meta", [0x6D, 0x65, 0x74, 0x61]);
    TagBytes(d, pos, "uuid", [0x75, 0x75, 0x69, 0x64]);
    TagBytes(d, pos, "moov", [0x6D, 0x6F, 0x6F, 0x76]);
    TagBytes(d, pos, "trak", [0x74, 0x72, 0x61, 0x6B]);
    TagBytes(d, pos, "mdia", [0x6D, 0x64, 0x69, 0x61]);
    TagBytes(d, pos, "mvhd", [0x6D, 0x76, 0x68, 0x64]);
    TagBytes(d, pos, "tkhd", [0x74, 0x6B, 0x68, 0x64]);
  }

  lemma TagBytes(d: seq<byte>, pos: nat, tag: string, bytes: seq<byte>)
    requires pos + 8 <= |d| && |tag| == 4 == |bytes| && forall k | 0 <= k < 4 :: bytes[k] as int == tag[k] as int
    ensures TagIs(d, pos, tag) <==> d[pos + 4..pos + 8] == bytes
  {
    var t := d[pos + 4..pos + 8];
    assert forall k | 0 <= k < 4 :: t[k] == d[pos + 4 + k];
    if TagIs(d, pos, tag) {
      assert forall k | 0 <= k < 4 :: t[k] == bytes[k];
    }
  }

  /** The header reader sees exactly these boxes. */
  lemma HeadIsBox(d: seq<byte>, pos: nat, end: nat, size: nat, header: nat)
    requires pos + 8 <= end <= |d|
    ensures IsBox(d, pos, end, size, header) <==> exists kind :: HeadAt(d, pos, end) == Box(size, header, kind)
    ensures HeadAt(d, pos, end).Box? ==> HeadAt(d, pos, end).kind == KindOf(d[pos + 4..pos + 8])
    ensures HeadAt(d, pos, end) == Truncated <==> U32At(d, pos) == 1 && end < pos + 16
  {
    hide KindOf;
    assert ReadU32(d, pos) == U32At(d, pos);
    if pos + 16 <= end {
      assert ReadU64(d, pos + 8) == U32At(d, pos + 8) * 4_294_967_296 + U32At(d, pos + 12);
    }
    if IsBox(d, pos, end, size, header) {
      assert HeadAt(d, pos, end) == Box(size, header, KindOf(d[pos + 4..pos + 8]));
    }
  }

  // Which bytes are erased ---------------------------------------------------------------

  /** The creation and modification times of a timestamp box: two of 4 bytes in version 0, two of 8 in version 1. */
  predicate IsTime(d: seq<byte>, pos: nat, size: nat, i: nat)
    requires 8 <= size && pos + size <= |d|
  {
    || (size >= 20 && d[pos + 8] == 0 && pos + 12 <= i < pos + 20)
    || (size >= 28 && d[pos + 8] == 1 && pos + 12 <= i < pos + 28)
  }

  /** Byte `i` is content of a metadata box, or a time, in a box reached through containers. */
  predicate Erased(d: seq<byte>, pos: nat, end: nat, i: nat)
    requires end <= |d|
    decreases Distance(pos, end)
  {
    pos + 8 <= end
    && exists size, header | 8 <= size <= end - pos && 8 <= header <= 16 ::
         IsBox(d, pos, end, size, header) && ErasedFrom(d, pos, end, size, header, i)
  }

  predicate ErasedFrom(d: seq<byte>, pos: nat, end: nat, size: nat, header: nat, i: nat)
    requires pos + 8 <= end <= |d| && 8 <= size && 8 <= header && pos + size <= end
    decreases Distance(pos, end), 0
  {
    || (IsMetadata(d, pos) && pos + 8 <= i < pos + size)
    || (IsContainer(d, pos) && Erased(d, pos + header, pos + size, i))
    || (IsTimed(d, pos) && IsTime(d, pos, size, i))
    || Erased(d, pos + size, end, i)
  }

  lemma {:induction false} ErasedInRange(d: seq<byte>, pos: nat, end: nat, i: nat)
    requires end <= |d| && Erased(d, pos, end, i)
    ensures pos + 8 <= i < end
    decreases Distance(pos, end)
  {
    hide IsBox, IsMetadata, IsContainer, IsTimed;
    var size, header :| 8 <= size <= end - pos && 8 <= header <= 16
                        && IsBox(d, pos, end, size, header) && ErasedFrom(d, pos, end, size, header, i);
    if Erased(d, pos + size, end, i) {
      ErasedInRange(d, pos + size, end, i);
    } else if IsContainer(d, pos) && Erased(d, pos + header, pos + size, i) {
      ErasedInRange(d, pos + header, pos + size, i);
    }
  }

  lemma {:induction false} ErasedIsWiped(d: seq<byte>, pos: nat, end: nat, i: nat)
    requires end <= |d|
    ensures Erased(d, pos, end, i) <==> Wiped(d, pos, end, i)
    decreases Distance(pos, end)
  {
    hide HeadAt, KindOf, IsBox, IsMetadata, IsContainer, IsTimed;
    if pos + 8 <= end {
      var head := HeadAt(d, pos, end);
      if head.Box? {
        var Box(size, header, kind) := head;
        HeadIsBox(d, pos, end, size, header);
        TagsDiffer(d, pos);
        ErasedIsWiped(d, pos + size, end, i);
        ErasedIsWiped(d, pos + header, pos + size, i);
        OneBox(d, pos, end, size, header, i);
        StayInRange(d, pos, end, size, header, i);
        TagsExclude(d, pos);
      } else if Erased(d, pos, end, i) {
        var size, header :| 8 <= size <= end - pos && 8 <= header <= 16 && IsBox(d, pos, end, size, header);
        HeadIsBox(d, pos, end, size, header);
      }
    }
  }

  lemma OneBox(d: seq<byte>, pos: nat, end: nat, size: nat, header: nat, i: nat)
    requires pos + 8 <= end <= |d| && 8 <= header <= 16 && IsBox(d, pos, end, size, header)
    ensures 8 <= size <= end - pos
    ensures Erased(d, pos, end, i) <==> ErasedFrom(d, pos, end, size, header, i)
  {
    hide ErasedFrom;
    if Erased(d, pos, end, i) {
      var s, h :| 8 <= s <= end - pos && 8 <= h <= 16 && IsBox(d, pos, end, s, h) && ErasedFrom(d, pos, end, s, h, i);
      assert s == size && h == header;
    }
  }

  /** What lies in the box and what follows it do not overlap. */
  lemma StayInRange(d: seq<byte>, pos: nat, end: nat, size: nat, header: nat, i: nat)
    requires pos + 8 <= end <= |d| && 8 <= size && 8 <= header && pos + size <= end
    ensures Erased(d, pos + size, end, i) ==> pos + size <= i
    ensures Erased(d, pos + header, pos + size, i) ==> i < pos + size
  {
    hide Erased;
    if Erased(d, pos + size, end, i) { ErasedInRange(d, pos + size, end, i); }
    if Erased(d, pos + header, pos + size, i) { ErasedInRange(d, pos + header, pos + size, i); }
  }

  /** A box has one kind. */
  lemma TagsExclude(d: seq<byte>, pos: nat)
    requires pos + 8 <= |d|
    ensures !(IsMetadata(d, pos) && IsContainer(d, pos)) && !(IsMetadata(d, pos) && IsTimed(d, pos))
    ensures !(IsContainer(d, pos) && IsTimed(d, pos))
  {
    TagsAreBytes(d, pos);
    hide TagIs;
    var t := d[pos + 4..pos + 8];
    assert IsMetadata(d, pos) ==> (t[0], t[1]) in {(0x75, 0x64), (0x6D, 0x65), (0x75, 0x75)};
    assert IsContainer(d, pos) ==> (t[0], t[1]) in {(0x6D, 0x6F), (0x74, 0x72), (0x6D, 0x64)};
    assert IsTimed(d, pos) ==> (t[0], t[1]) in {(0x6D, 0x76), (0x74, 0x6B)};
  }

  /** On success stripping zeroes exactly the erased bytes and keeps all others. */
  lemma StripErasesExactly(d: seq<byte>, i: nat)
    requires Strip(d, 0, |d|).ok && i < |d|
    ensures Strip(d, 0, |d|).data[i] == if Erased(d, 0, |d|, i) then 0 else d[i]
  {
    hide Strip, Erased, Wiped;
    StripWipesExactly(d, 0, |d|, i);
    ErasedIsWiped(d, 0, |d|, i);
  }

  // What the checker finds -------------------------------------------------------------------

  /** A metadata box with a byte of content that is not zero is reached through containers. */
  predicate Exposed(d: seq<byte>, pos: nat, end: nat)
    requires end <= |d|
    decreases Distance(pos, end)
  {
    pos + 8 <= end
    && exists size, header | 8 <= size <= end - pos && 8 <= header <= 16 ::
         IsBox(d, pos, end, size, header) && ExposedFrom(d, pos, end, size, header)
  }

  predicate ExposedFrom(d: seq<byte>, pos: nat, end: nat, size: nat, header: nat)
    requires pos + 8 <= end <= |d| && 8 <= size && 8 <= header && pos + size <= end
    decreases Distance(pos, end), 0
  {
    || (IsMetadata(d, pos) && exists i | pos + 8 <= i < pos + size :: d[i] != 0)
    || (IsContainer(d, pos) && Exposed(d, pos + header, pos + size))
    || Exposed(d, pos + size, end)
  }

  /** The checker finds exactly what is exposed. */
  lemma {:induction false} ScanFindsExposed(d: seq<byte>, pos: nat, end: nat)
    requires end <= |d|
    ensures Scan(d, pos, end) <==> Exposed(d, pos, end)
    decreases Distance(pos, end)
  {
    hide HeadAt, KindOf, IsBox, IsMetadata, IsContainer, IsTimed;
    if pos + 8 <= end {
      var head := HeadAt(d, pos, end);
      if head.Box? {
        var Box(size, header, kind) := head;
        HeadIsBox(d, pos, end, size, header);
        TagsDiffer(d, pos);
        TagsExclude(d, pos);
        ScanFindsExposed(d, pos + size, end);
        ScanFindsExposed(d, pos + header, pos + size);
        OneExposed(d, pos, end, size, header);
      } else if Exposed(d, pos, end) {
        var size, header :| 8 <= size <= end - pos && 8 <= header <= 16 && IsBox(d, pos, end, size, header);
        HeadIsBox(d, pos, end, size, header);
      }
    }
  }

  lemma OneExposed(d: seq<byte>, pos: nat, end: nat, size: nat, header: nat)
    requires pos + 8 <= end <= |d| && 8 <= header <= 16 && IsBox(d, pos, end, size, header)
    ensures 8 <= size <= end - pos
    ensures Exposed(d, pos, end) <==> ExposedFrom(d, pos, end, size, header)
  {
    hide ExposedFrom;
    if Exposed(d, pos, end) {
      var s, h :| 8 <= s <= end - pos && 8 <= h <= 16 && IsBox(d, pos, end, s, h) && ExposedFrom(d, pos, end, s, h);
      assert s == size && h == header;
    }
  }

  // When stripping fails ------------------------------------------------------------------------

  /** Some level reached ends in the middle of a 64-bit size. */
  predicate CutShort(d: seq<byte>, pos: nat, end: nat)
    requires end <= |d|
    decreases Distance(pos, end)
  {
    pos + 8 <= end
    && ((U32At(d, pos) == 1 && end < pos + 16)
        || exists size, header | 8 <= size <= end - pos && 8 <= header <= 16 ::
             IsBox(d, pos, end, size, header) && CutShortFrom(d, pos, end, size, header))
  }

  predicate CutShortFrom(d: seq<byte>, pos: nat, end: nat, size: nat, header: nat)
    requires pos + 8 <= end <= |d| && 8 <= size && 8 <= header && pos + size <= end
    decreases Distance(pos, end), 0
  {
    (IsContainer(d, pos) && CutShort(d, pos + header, pos + size)) || CutShort(d, pos + size, end)
  }

  lemma OneCut(d: seq<byte>, pos: nat, end: nat, size: nat, header: nat)
    requires pos + 8 <= end <= |d| && 8 <= header <= 16 && IsBox(d, pos, end, size, header)
    ensures 8 <= size <= end - pos
    ensures CutShort(d, pos, end) <==> CutShortFrom(d, pos, end, size, header)
  {
    hide CutShortFrom;
    if CutShort(d, pos, end) {
      var s, h :| 8 <= s <= end - pos && 8 <= h <= 16 && IsBox(d, pos, end, s, h) && CutShortFrom(d, pos, end, s, h);
      assert s == size && h == header;
    }
  }

  lemma {:induction false} CutShortLocal(d: seq<byte>, d': seq<byte>, pos: nat, end: nat)
    requires end <= |d| && Agree(d, d', pos, end)
    ensures CutShort(d, pos, end) == CutShort(d', pos, end)
    decreases Distance(pos, end)
  {
    hide HeadAt, KindOf, IsBox, IsContainer;
    if pos + 8 <= end {
      HeadLocal(d, d', pos, end);
      HeadIsBox(d, pos, end, 8, 8);
      HeadIsBox(d', pos, end, 8, 8);
      assert U32At(d, pos) == U32At(d', pos);
      var head := HeadAt(d, pos, end);
      if head.Box? {
        var Box(size, header, kind) := head;
        HeadIsBox(d, pos, end, size, header);
        HeadIsBox(d', pos, end, size, header);
        assert IsContainer(d, pos) == IsContainer(d', pos) by { SameTags(d, d', pos); }
        OneCut(d, pos, end, size, header);
        OneCut(d', pos, end, size, header);
        CutShortLocal(d, d', pos + size, end);
        CutShortLocal(d, d', pos + header, pos + size);
      } else {
        NoBoxNoCut(d, pos, end);
        NoBoxNoCut(d', pos, end);
      }
    }
  }

  lemma SameTags(d: seq<byte>, d': seq<byte>, pos: nat)
    requires pos + 8 <= |d| == |d'| && forall i | pos <= i < pos + 8 :: d[i] == d'[i]
    ensures IsContainer(d, pos) == IsContainer(d', pos)
  {
    assert d[pos + 4] == d'[pos + 4] && d[pos + 5] == d'[pos + 5] && d[pos + 6] == d'[pos + 6] && d[pos + 7] == d'[pos + 7];
  }

  lemma NoBoxNoCut(d: seq<byte>, pos: nat, end: nat)
    requires pos + 8 <= end <= |d| && !HeadAt(d, pos, end).Box?
    ensures CutShort(d, pos, end) <==> U32At(d, pos) == 1 && end < pos + 16
  {
    hide HeadAt, KindOf, IsBox, CutShortFrom;
    if CutShort(d, pos, end) && !(U32At(d, pos) == 1 && end < pos + 16) {
      var size, header :| 8 <= size <= end - pos && 8 <= header <= 16 && IsBox(d, pos, end, size, header);
      HeadIsBox(d, pos, end, size, header);
    }
  }

  /** Stripping fails exactly on those inputs. */
  lemma {:induction false} FailsExactlyCutShort(d: seq<byte>, pos: nat, end: nat)
    requires end <= |d|
    ensures Strip(d, pos, end).ok <==> !CutShort(d, pos, end)
    decreases Distance(pos, end)
  {
    hide HeadAt, KindOf, IsBox, IsMetadata, IsContainer, IsTimed, CutShort;
    if pos + 8 <= end {
      var head := HeadAt(d, pos, end);
      if head.Box? {
        var Box(size, header, kind) := head;
        var d1 := StripBox(d, pos, size, header, kind).data;
        HeadIsBox(d, pos, end, size, header);
        TagsDiffer(d, pos);
        TagsExclude(d, pos);
        OneCut(d, pos, end, size, header);
        StripBoxFrame(d, pos, size, header, kind);
        FailsExactlyCutShort(d1, pos + size, end);
        CutShortLocal(d, d1, pos + size, end);
        FailsExactlyCutShort(d, pos + header, pos + size);
      } else {
        HeadIsBox(d, pos, end, 8, 8);
        NoBoxNoCut(d, pos, end);
      }
    } else {
      TooShortForCut(d, pos, end);
    }
  }

  lemma TooShortForCut(d: seq<byte>, pos: nat, end: nat)
    requires end <= |d| && pos + 8 > end
    ensures !CutShort(d, pos, end)
  {}
}
