/** The check of a ZIP file's end record and central directory, made before anything is allocated for its entries. */
module ZipDirectory {
  import opened Basics

  const END_SIGNATURE: int := 0x0605_4b50
  const LOCATOR_SIGNATURE: int := 0x0706_4b50
  const HEADER_SIGNATURE: int := 0x0201_4b50

  /** Accepted, malformed, or beyond what bounded extraction supports. */
  datatype Verdict = Accepted | BadFormat | LimitExceeded

  /** A little-endian 16-bit field. */
  function U16(a: seq<byte>, i: nat): nat
    requires i + 2 <= |a|
  {
    (a[i] as int) + 0x100 * (a[i + 1] as int)
  }

  /** A little-endian 32-bit field. */
  function U32(a: seq<byte>, i: nat): nat
    requires i + 4 <= |a|
  {
    U16(a, i) + 0x1_0000 * U16(a, i + 2)
  }

  /** A number as its bytes, lowest first. */
  function Bytes16(v: nat): seq<byte>
    requires v < 0x1_0000
  {
    [v % 0x100, v / 0x100]
  }

  function Bytes32(v: nat): seq<byte>
    requires v < 0x1_0000_0000
  {
    var a := v / 0x100;
    var b := a / 0x100;
    [v % 0x100, a % 0x100, b % 0x100, b / 0x100]
  }

  /** Fields are read lowest byte first, wherever they stand. */
  lemma FieldsReadBack(before: seq<byte>, v: nat, w: nat, after: seq<byte>)
    requires v < 0x1_0000 && w < 0x1_0000_0000
    ensures U16(before + Bytes16(v) + after, |before|) == v
    ensures U32(before + Bytes32(w) + after, |before|) == w
  {
    var a, b, k := before + Bytes16(v) + after, before + Bytes32(w) + after, |before|;
    assert a[k] == Bytes16(v)[0] && a[k + 1] == Bytes16(v)[1];
    assert b[k] == Bytes32(w)[0] && b[k + 1] == Bytes32(w)[1] && b[k + 2] == Bytes32(w)[2] && b[k + 3] == Bytes32(w)[3];
  }

  /** The three signatures as they stand in a file: `PK` and two more bytes. */
  lemma SignatureBytes()
    ensures Bytes32(END_SIGNATURE) == [0x50, 0x4B, 5, 6]
    ensures Bytes32(LOCATOR_SIGNATURE) == [0x50, 0x4B, 6, 7]
    ensures Bytes32(HEADER_SIGNATURE) == [0x50, 0x4B, 1, 2]
  {
  }

  /** The archive that is nothing but an end record: four signature bytes and eighteen zeros. */
  function EmptyArchive(): seq<byte> {
    [0x50, 0x4B, 5, 6] + seq(18, i => 0 as byte)
  }

  /** How many bytes at the end of the file may hold the end record: its 22 bytes and the longest comment. */
  function Window(a: seq<byte>): nat {
    Min(|a|, 22 + 65535)
  }

  // ----- What a well-formed directory is -----

  /** An end record at `e`, in the window, whose comment fits the file. */
  predicate IsEndRecord(a: seq<byte>, e: nat) {
    && |a| - Window(a) <= e && e + 22 <= |a|
    && U32(a, e) == END_SIGNATURE
    && e + 22 + U16(a, e + 20) <= |a|
  }

  ghost predicate IsLastEndRecord(a: seq<byte>, e: nat) {
    IsEndRecord(a, e) && forall later :: later > e ==> !IsEndRecord(a, later)
  }

  /** Where the header at `i` ends: 46 bytes, then name, extra field and comment. */
  function HeaderEnd(a: seq<byte>, i: nat): nat
    requires i + 46 <= |a|
  {
    i + 46 + U16(a, i + 28) + U16(a, i + 30) + U16(a, i + 32)
  }

  predicate IsHeader(a: seq<byte>, i: nat, to: nat)
    requires to <= |a|
  {
    i + 46 <= to && U32(a, i) == HEADER_SIGNATURE && HeaderEnd(a, i) <= to
  }

  /** The headers starting at `starts` cover `from` up to `to` without gap or overlap. */
  ghost predicate Tiles(a: seq<byte>, from: nat, to: nat, starts: seq<nat>)
    requires to <= |a|
    decreases |starts|
  {
    if starts == [] then from == to
    else starts[0] == from && IsHeader(a, from, to) && Tiles(a, HeaderEnd(a, from), to, starts[1..])
  }

  /** A single-disk end record without ZIP64 whose directory is tiled by exactly the headers it counts. */
  ghost predicate DescribesDirectory(a: seq<byte>, e: nat, maxEntries: int)
    requires IsEndRecord(a, e)
  {
    var count, centralSize, centralOffset := U16(a, e + 10), U32(a, e + 12), U32(a, e + 16);
    && e + 22 + U16(a, e + 20) == |a|
    && count != 65535 && count <= maxEntries && centralSize != 0xffff_ffff && centralOffset != 0xffff_ffff
    && (e >= 20 ==> U32(a, e - 20) != LOCATOR_SIGNATURE)
    && U32(a, e + 4) == 0 && U16(a, e + 8) == count
    && centralOffset + centralSize == e
    && exists starts: seq<nat> :: |starts| == count && Tiles(a, centralOffset, e, starts)
  }

  /** A signed header starts where `maxEntries` headers from `from` end. */
  ghost predicate Overfull(a: seq<byte>, from: nat, to: nat, maxEntries: int)
    requires to <= |a|
  {
    exists mid: nat, starts: seq<nat> ::
      |starts| == maxEntries && mid + 46 <= to && Tiles(a, from, mid, starts) && U32(a, mid) == HEADER_SIGNATURE
  }

  /** An end record that ends the file but asks for more than bounded extraction gives. */
  ghost predicate ExceedsLimits(a: seq<byte>, e: nat, maxEntries: int)
    requires IsEndRecord(a, e)
  {
    var count, centralSize, centralOffset := U16(a, e + 10), U32(a, e + 12), U32(a, e + 16);
    && e + 22 + U16(a, e + 20) == |a|
    && (|| count == 65535 || count > maxEntries || centralSize == 0xffff_ffff || centralOffset == 0xffff_ffff
        || (e >= 20 && U32(a, e - 20) == LOCATOR_SIGNATURE)
        || (U32(a, e + 4) == 0 && U16(a, e + 8) == count && centralOffset + centralSize == e
            && Overfull(a, centralOffset, e, maxEntries)))
  }

  /** The empty archive is a well-formed file of no entries. */
  lemma EmptyArchiveIsWellFormed(maxEntries: int)
    requires maxEntries >= 0
    ensures IsLastEndRecord(EmptyArchive(), 0) && DescribesDirectory(EmptyArchive(), 0, maxEntries)
  {
    var a := EmptyArchive();
    assert |a| == 22 && forall i :: 4 <= i < 22 ==> a[i] == 0;
    assert a[0] == 0x50 && a[1] == 0x4B && a[2] == 5 && a[3] == 6;
    assert Tiles(a, 0, 0, []);
  }

  // ----- Tilings are unique -----

  lemma {:induction false} TilesExtend(a: seq<byte>, from: nat, to: nat, starts: seq<nat>, end: nat)
    requires to <= end <= |a| && Tiles(a, from, to, starts) && IsHeader(a, to, end)
    ensures HeaderEnd(a, to) <= |a| && Tiles(a, from, HeaderEnd(a, to), starts + [to])
    decreases |starts|
  {
    var all := starts + [to];
    if starts == [] {
      assert all[1..] == [];
    } else {
      TilesExtend(a, HeaderEnd(a, from), to, starts[1..], end);
      assert all[1..] == starts[1..] + [to];
    }
  }

  /** Any tiling of a longer stretch begins with the tiling of a shorter one and goes on with a header there. */
  lemma {:induction false} TilesArePrefixes(
    a: seq<byte>, from: nat, mid: nat, seen: seq<nat>, to: nat, starts: seq<nat>)
    requires mid <= to <= |a| && Tiles(a, from, mid, seen) && Tiles(a, from, to, starts)
    ensures |seen| <= |starts| && starts[..|seen|] == seen && Tiles(a, mid, to, starts[|seen|..])
    ensures mid < to ==> |seen| < |starts| && IsHeader(a, mid, to)
    decreases |seen|
  {
    if seen == [] {
      assert starts[0..] == starts;
    } else {
      TilesOrdered(a, HeaderEnd(a, from), mid, seen[1..]);
      assert from < mid && starts != [];
      TilesArePrefixes(a, HeaderEnd(a, from), mid, seen[1..], to, starts[1..]);
      assert starts == [starts[0]] + starts[1..] && seen == [seen[0]] + seen[1..];
      assert starts[|seen|..] == starts[1..][|seen[1..]|..];
    }
  }

  lemma {:induction false} TilesOrdered(a: seq<byte>, from: nat, to: nat, starts: seq<nat>)
    requires to <= |a| && Tiles(a, from, to, starts)
    ensures from <= to
    decreases |starts|
  {
    if starts != [] {
      TilesOrdered(a, HeaderEnd(a, from), to, starts[1..]);
    }
  }

  /** One directory has one tiling, hence one entry count. */
  lemma TilingIsUnique(a: seq<byte>, from: nat, to: nat, x: seq<nat>, y: seq<nat>)
    requires to <= |a| && Tiles(a, from, to, x) && Tiles(a, from, to, y)
    ensures x == y
  {
    TilesArePrefixes(a, from, to, x, to, y);
    assert y == y[..|x|] + y[|x|..];
  }

  // ----- The walk -----

  /** Walks the headers from `centralOffset` to `endOffset`, counting at most `maxEntries` of them. */
  method WalkDirectory(file: seq<byte>, centralOffset: nat, endOffset: nat, count: nat, maxEntries: int)
    returns (r: Verdict)
    requires centralOffset <= endOffset <= |file| && count <= maxEntries
    ensures r == Accepted <==> exists starts: seq<nat> :: |starts| == count && Tiles(file, centralOffset, endOffset, starts)
    ensures r == LimitExceeded <==> Overfull(file, centralOffset, endOffset, maxEntries)
  {
    var actual := 0;
    var offset := centralOffset;
    ghost var seen: seq<nat> := [];
    while offset < endOffset
      invariant centralOffset <= offset <= endOffset
      invariant |seen| == actual <= maxEntries && Tiles(file, centralOffset, offset, seen)
      decreases endOffset - offset
    {
      if endOffset - offset < 46 || U32(file, offset) != HEADER_SIGNATURE {
        NoTilingPast(file, centralOffset, offset, seen, endOffset);
        NotOverfull(file, centralOffset, offset, seen, endOffset, maxEntries);
        return BadFormat;
      }
      actual := actual + 1;
      if actual > maxEntries {
        TooFewFor(file, centralOffset, offset, seen, endOffset, count);
        return LimitExceeded;
      }
      var step := 46 + U16(file, offset + 28) + U16(file, offset + 30) + U16(file, offset + 32);
      if step > endOffset - offset {
        NoTilingPast(file, centralOffset, offset, seen, endOffset);
        NotOverfull(file, centralOffset, offset, seen, endOffset, maxEntries);
        return BadFormat;
      }
      TilesExtend(file, centralOffset, offset, seen, endOffset);
      seen := seen + [offset];
      offset := offset + step;
    }
    NotOverfull(file, centralOffset, offset, seen, endOffset, maxEntries);
    if actual != count {
      forall starts: seq<nat> | Tiles(file, centralOffset, endOffset, starts)
        ensures |starts| != count
      {
        TilingIsUnique(file, centralOffset, endOffset, seen, starts);
      }
      return BadFormat;
    }
    return Accepted;
  }

  lemma NoTilingPast(a: seq<byte>, from: nat, mid: nat, seen: seq<nat>, to: nat)
    requires mid < to <= |a| && Tiles(a, from, mid, seen) && !IsHeader(a, mid, to)
    ensures forall starts: seq<nat> :: !Tiles(a, from, to, starts)
  {
    forall starts: seq<nat>
      ensures !Tiles(a, from, to, starts)
    {
      if Tiles(a, from, to, starts) {
        TilesArePrefixes(a, from, mid, seen, to, starts);
      }
    }
  }

  /** A walk that stops without a header has not met one entry too many. */
  lemma NotOverfull(a: seq<byte>, from: nat, mid: nat, seen: seq<nat>, to: nat, maxEntries: int)
    requires mid <= to <= |a| && Tiles(a, from, mid, seen) && |seen| <= maxEntries && !IsHeader(a, mid, to)
    requires |seen| == maxEntries ==> mid + 46 > to || U32(a, mid) != HEADER_SIGNATURE
    ensures !Overfull(a, from, to, maxEntries)
  {
    forall other: nat, starts: seq<nat> | other + 46 <= to && Tiles(a, from, other, starts) && |starts| == maxEntries
      ensures U32(a, other) != HEADER_SIGNATURE
    {
      if mid <= other {
        TilesArePrefixes(a, from, mid, seen, other, starts);
      } else {
        TilesArePrefixes(a, from, other, starts, mid, seen);
      }
    }
  }

  lemma TooFewFor(a: seq<byte>, from: nat, mid: nat, seen: seq<nat>, to: nat, count: nat)
    requires mid < to <= |a| && Tiles(a, from, mid, seen) && count <= |seen|
    ensures forall starts: seq<nat> :: Tiles(a, from, to, starts) ==> |starts| != count
  {
    forall starts: seq<nat> | Tiles(a, from, to, starts)
      ensures |starts| != count
    {
      TilesArePrefixes(a, from, mid, seen, to, starts);
    }
  }

  // ----- The whole check -----

  /** What the source reads from the tail of the file it could read from the file. */
  lemma TailReads(file: seq<byte>, base: nat, i: nat)
    requires base + i + 22 <= |file|
    ensures U32(file[base..], i) == U32(file, base + i)
    ensures U32(file[base..], i + 4) == U32(file, base + i + 4)
    ensures U16(file[base..], i + 8) == U16(file, base + i + 8)
    ensures U16(file[base..], i + 10) == U16(file, base + i + 10)
    ensures U32(file[base..], i + 12) == U32(file, base + i + 12)
    ensures U32(file[base..], i + 16) == U32(file, base + i + 16)
    ensures U16(file[base..], i + 20) == U16(file, base + i + 20)
  {
  }

  /** Accepts a file exactly when its last end record describes a directory of at most `maxEntries` entries. */
  method CheckZipEntryCount(file: seq<byte>, maxEntries: int) returns (r: Verdict)
    ensures r == Accepted <==>
      exists e: nat :: IsLastEndRecord(file, e) && DescribesDirectory(file, e, maxEntries)
    ensures r == LimitExceeded <==>
      exists e: nat :: IsLastEndRecord(file, e) && ExceedsLimits(file, e, maxEntries)
  {
    hide DescribesDirectory, ExceedsLimits, U32, U16;
    if |file| < 22 {
      return BadFormat;
    }
    var length := Min(|file|, 22 + 65535);
    var base := |file| - length;
    var tail := file[base..];
    var i := |tail| - 22;
    while i >= 0
      invariant -1 <= i <= |tail| - 22
      invariant forall e: nat :: e > base + i ==> !IsEndRecord(file, e)
    {
      TailReads(file, base, i);
      if U32(tail, i) == END_SIGNATURE {
        var commentLength := U16(tail, i + 20);
        if i + 22 + commentLength <= |tail| {
          assert IsLastEndRecord(file, base + i);
          r := JudgeEndRecord(file, tail, base, i, maxEntries);
          LastIsOnly(file, base + i);
          return;
        }
      }
      i := i - 1;
    }
    forall e: nat
      ensures !IsEndRecord(file, e)
    {
      assert e < base ==> !IsEndRecord(file, e);
    }
    return BadFormat;
  }

  lemma LastIsOnly(a: seq<byte>, e: nat)
    requires IsLastEndRecord(a, e)
    ensures forall other: nat :: IsLastEndRecord(a, other) ==> other == e
  {
  }

  /** The judgement on the last end record, found at `i` in the tail. */
  method JudgeEndRecord(file: seq<byte>, tail: seq<byte>, base: nat, i: nat, maxEntries: int) returns (r: Verdict)
    requires base <= |file| && tail == file[base..] && i + 22 <= |tail| && IsEndRecord(file, base + i)
    ensures r == Accepted <==> DescribesDirectory(file, base + i, maxEntries)
    ensures r == LimitExceeded <==> ExceedsLimits(file, base + i, maxEntries)
  {
    hide Tiles, Overfull;
    TailReads(file, base, i);
    var commentLength := U16(tail, i + 20);
    if i + 22 + commentLength != |tail| {
      return BadFormat;
    }
    var count, centralSize, centralOffset := U16(tail, i + 10), U32(tail, i + 12), U32(tail, i + 16);
    if count == 65535 || count > maxEntries || centralSize == 0xffff_ffff || centralOffset == 0xffff_ffff {
      return LimitExceeded;
    }
    var endOffset := base + i;
    if endOffset >= 20 && U32(file, endOffset - 20) == LOCATOR_SIGNATURE {
      return LimitExceeded;
    }
    if U32(tail, i + 4) != 0 || U16(tail, i + 8) != count || centralOffset + centralSize != endOffset {
      return BadFormat;
    }
    r := WalkDirectory(file, centralOffset, endOffset, count, maxEntries);
  }
}
