/** MP4 metadata stripping and its checker (crates/ephemera-media/src/video_metadata.rs). */
module Mp4Metadata {
  import opened BitGroups
  import opened Numbers

  /** What the walk does with a box: wipe it, enter it, clear its timestamps, or step over it. */
  datatype Kind = Metadata | Container | Timed | Other

  function KindOf(tag: seq<byte>): Kind {
    if tag in [[0x75, 0x64, 0x74, 0x61], [0x6D, 0x65, 0x74, 0x61], [0x75, 0x75, 0x69, 0x64]] then Metadata       // udta meta uuid
    else if tag in [[0x6D, 0x6F, 0x6F, 0x76], [0x74, 0x72, 0x61, 0x6B], [0x6D, 0x64, 0x69, 0x61]] then Container // moov trak mdia
    else if tag in [[0x6D, 0x76, 0x68, 0x64], [0x74, 0x6B, 0x68, 0x64]] then Timed                              // mvhd tkhd
    else Other
  }

  // Reading ----------------------------------------------------------------------

  /** A box header: an error, the end of this level, or a box with its size and header length. */
  datatype Head = Truncated | Stop | Box(size: nat, header: nat, kind: Kind)

  function HeadAt(d: seq<byte>, pos: nat, end: nat): (h: Head)
    requires pos + 8 <= end <= |d|
    ensures h.Box? ==> 8 <= h.size && pos + h.size <= end && (h.header == 8 || h.header == 16)
  {
    var size32 := ReadU32(d, pos);
    if size32 == 1 && pos + 16 > end then Truncated
    else
      var actual := if size32 == 0 then end - pos else if size32 == 1 then ReadU64(d, pos + 8) else size32;
      if actual < 8 || pos + actual > end then Stop
      else Box(actual, if size32 == 1 then 16 else 8, KindOf(d[pos + 4..pos + 8]))
  }

  // Writing ----------------------------------------------------------------------

  function Clear(d: seq<byte>, from: nat, to: nat): (r: seq<byte>)
    requires from <= to <= |d|
    ensures |r| == |d|
    ensures forall i | 0 <= i < |d| :: r[i] == if from <= i < to then 0 else d[i]
  {
    seq(|d|, i requires 0 <= i < |d| => if from <= i < to then 0 else d[i])
  }

  /** How far into a timestamp box bytes are cleared, counting from byte 12. */
  function TimesEnd(d: seq<byte>, pos: nat, size: nat): (e: nat)
    requires 8 <= size && pos + size <= |d|
    ensures pos + 12 <= e <= pos + 28 && (e == pos + 12 || e <= pos + size)
  {
    if size < 20 then pos + 12
    else if d[pos + 8] == 0 then pos + 20
    else if d[pos + 8] == 1 && size >= 28 then pos + 28
    else pos + 12
  }

  function ClearTimes(d: seq<byte>, pos: nat, size: nat): (r: seq<byte>)
    requires 8 <= size && pos + size <= |d|
    ensures |r| == |d|
  {
    var e := TimesEnd(d, pos, size);
    if e == pos + 12 then d else Clear(d, pos + 12, e)
  }

  // The two walks ------------------------------------------------------------------

  datatype Stripped = Stripped(ok: bool, data: seq<byte>)

  function Distance(pos: nat, end: nat): nat { if pos <= end then end - pos else 0 }

  /** The bytes after walking the boxes of [pos, end), and whether the walk got through. */
  function Strip(d: seq<byte>, pos: nat, end: nat): (r: Stripped)
    requires end <= |d|
    ensures |r.data| == |d|
    decreases Distance(pos, end), 1
  {
    if pos + 8 > end then Stripped(true, d)
    else
      match HeadAt(d, pos, end)
      case Truncated => Stripped(false, d)
      case Stop => Stripped(true, d)
      case Box(size, header, kind) =>
        var box := StripBox(d, pos, size, header, kind);
        if !box.ok then box else Strip(box.data, pos + size, end)
  }

  function StripBox(d: seq<byte>, pos: nat, size: nat, header: nat, kind: Kind): (r: Stripped)
    requires 8 <= size && 8 <= header && pos + size <= |d|
    ensures |r.data| == |d|
    decreases Distance(pos, pos + size), 0
  {
    match kind
    case Metadata => Stripped(true, Clear(d, pos + 8, pos + size))
    case Container => Strip(d, pos + header, pos + size)
    case Timed => Stripped(true, ClearTimes(d, pos, size))
    case Other => Stripped(true, d)
  }

  predicate AllZero(d: seq<byte>, from: nat, to: nat)
    requires to <= |d|
  {
    forall i | from <= i < to :: d[i] == 0
  }

  /** Whether the checker finds a metadata box with content. */
  predicate Scan(d: seq<byte>, pos: nat, end: nat)
    requires end <= |d|
    decreases Distance(pos, end)
  {
    pos + 8 <= end
    && match HeadAt(d, pos, end)
       case Truncated => false
       case Stop => false
       case Box(size, header, kind) =>
         || (kind == Metadata && !AllZero(d, pos + 8, pos + size))
         || (kind == Container && Scan(d, pos + header, pos + size))
         || Scan(d, pos + size, end)
  }

  // The in-place code ----------------------------------------------------------------

  method Fill(data: array<byte>, from: nat, to: nat)
    requires from <= to <= data.Length
    modifies data
    ensures data[..] == Clear(old(data[..]), from, to)
  {
    for i := from to to
      invariant forall k | 0 <= k < data.Length :: data[k] == if from <= k < i then 0 else old(data[k])
    {
      data[i] := 0;
    }
  }

  method StripTimestamps(data: array<byte>, pos: nat, size: nat)
    requires 8 <= size && pos + size <= data.Length
    modifies data
    ensures data[..] == ClearTimes(old(data[..]), pos, size)
  {
    if size < 20 {
      return;
    }
    var version := data[pos + 8];
    if version == 0 && size >= 8 + 4 + 8 {
      Fill(data, pos + 12, pos + 20);
    } else if version == 1 && size >= 8 + 4 + 16 {
      Fill(data, pos + 12, pos + 28);
    }
  }

  method ReadHead(data: array<byte>, pos: nat, end: nat) returns (h: Head)
    requires pos + 8 <= end <= data.Length
    ensures h == HeadAt(data[..], pos, end)
  {
    var boxSize := ReadU32(data[..], pos);
    var actual: nat := boxSize;
    if boxSize == 0 {
      actual := end - pos;
    } else if boxSize == 1 {
      if pos + 16 > end {
        return Truncated;
      }
      actual := ReadU64(data[..], pos + 8);
    }
    if actual < 8 || pos + actual > end {
      return Stop;
    }
    h := Box(actual, if boxSize == 1 then 16 else 8, KindOf(data[pos + 4..pos + 8]));
    assert data[..][pos + 4..pos + 8] == data[pos + 4..pos + 8];
  }

  method StripBoxesRecursive(data: array<byte>, start: nat, end: nat) returns (ok: bool)
    requires end <= data.Length
    modifies data
    ensures Stripped(ok, data[..]) == Strip(old(data[..]), start, end)
    decreases Distance(start, end)
  {
    hide HeadAt, Clear, ClearTimes;
    var pos := start;
    while pos + 8 <= end
      invariant start <= pos
      invariant Strip(data[..], pos, end) == Strip(old(data[..]), start, end)
      decreases Distance(pos, end)
    {
      var head := ReadHead(data, pos, end);
      match head {
        case Truncated => return false;
        case Stop => break;
        case Box(size, header, kind) =>
          match kind {
            case Metadata => Fill(data, pos + 8, pos + size);
            case Container =>
              var inner := StripBoxesRecursive(data, pos + header, pos + size);
              if !inner {
                return false;
              }
            case Timed => StripTimestamps(data, pos, size);
            case Other =>
          }
          pos := pos + size;
      }
    }
    ok := true;
  }

  method StripVideoMetadata(input: seq<byte>) returns (ok: bool, output: seq<byte>)
    ensures Stripped(ok, output) == Strip(input, 0, |input|)
  {
    var data := new byte[|input|](i requires 0 <= i < |input| => input[i]);
    assert data[..] == input;
    ok := StripBoxesRecursive(data, 0, data.Length);
    output := data[..];
  }

  method ScanForMetadataBoxes(data: array<byte>, start: nat, end: nat) returns (found: bool)
    requires end <= data.Length
    ensures found == Scan(data[..], start, end)
    decreases Distance(start, end)
  {
    hide HeadAt, AllZero;
    var pos := start;
    while pos + 8 <= end
      invariant start <= pos
      invariant Scan(data[..], pos, end) == Scan(data[..], start, end)
      decreases Distance(pos, end)
    {
      var head := ReadHead(data, pos, end);
      match head {
        case Truncated => return false;
        case Stop => return false;
        case Box(size, header, kind) =>
          if kind == Metadata {
            var hasContent := HasContent(data, pos + 8, pos + size);
            if hasContent {
              return true;
            }
          } else if kind == Container {
            var inner := ScanForMetadataBoxes(data, pos + header, pos + size);
            if inner {
              return true;
            }
          }
          pos := pos + size;
      }
    }
    found := false;
  }

  method HasContent(data: array<byte>, from: nat, to: nat) returns (found: bool)
    requires to <= data.Length
    ensures found <==> !AllZero(data[..], from, to)
  {
    var i := from;
    while i < to
      invariant from <= i && (i <= to || i == from)
      invariant forall k | from <= k < i :: data[k] == 0
    {
      if data[i] != 0 {
        assert data[..][i] != 0;
        return true;
      }
      i := i + 1;
    }
    found := false;
  }

  method VerifyMetadataStripped(input: seq<byte>) returns (clean: bool)
    ensures clean == !Scan(input, 0, |input|)
  {
    var data := new byte[|input|](i requires 0 <= i < |input| => input[i]);
    assert data[..] == input;
    var found := ScanForMetadataBoxes(data, 0, data.Length);
    clean := !found;
  }
}
