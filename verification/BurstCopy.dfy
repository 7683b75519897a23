/** The Burst copy loop: one pass over UTF-16 units, in place if the caller wishes. */
module BurstCopy {

  import opened Basics

  const SLASH: CodeUnit := '/' as int
  const BACKSLASH: CodeUnit := '\\' as int
  const COLON: CodeUnit := ':' as int
  const DOT: CodeUnit := '.' as int

  datatype Status = Success | EmptyPath | NulByte | AbsolutePath | DriveRelativePath | InvalidPath

  predicate IsAsciiLetter(value: CodeUnit) {
    ('a' as int <= value <= 'z' as int) || ('A' as int <= value <= 'Z' as int)
  }

  predicate IsSeparator(value: CodeUnit) {
    value == SLASH || value == BACKSLASH
  }

  predicate IsWindowsDriveRoot(first: CodeUnit, second: CodeUnit, third: CodeUnit) {
    IsAsciiLetter(first) && second == COLON && IsSeparator(third)
  }

  predicate IsWindowsDriveRelative(first: CodeUnit, second: CodeUnit, hasThird: bool, third: CodeUnit) {
    IsAsciiLetter(first) && second == COLON && (!hasThird || !IsSeparator(third))
  }

  function ValidateRelativePrefix(length: int, first: CodeUnit, second: CodeUnit, hasThird: bool, third: CodeUnit): Status {
    if length <= 0 then EmptyPath
    else if first == 0 || (length > 1 && second == 0) || (hasThird && third == 0) then NulByte
    else if IsSeparator(first) then AbsolutePath
    else if length >= 3 && IsWindowsDriveRoot(first, second, third) then AbsolutePath
    else if IsWindowsDriveRelative(first, second, hasThird, third) then DriveRelativePath
    else Success
  }

  // ----- What the output means -----

  /** The pieces of a text between separators of either kind. */
  function Pieces(t: Units): (r: seq<Units>)
    ensures |r| >= 1
  {
    if t == [] then [[]]
    else
      var earlier, c := Pieces(t[..|t| - 1]), t[|t| - 1];
      if IsSeparator(c) then earlier + [[]]
      else earlier[..|earlier| - 1] + [earlier[|earlier| - 1] + [c]]
  }

  function NonEmpty(pieces: seq<Units>): seq<Units> {
    if pieces == [] then []
    else
      var earlier := NonEmpty(pieces[..|pieces| - 1]);
      if pieces[|pieces| - 1] == [] then earlier else earlier + [pieces[|pieces| - 1]]
  }

  function JoinSlash(pieces: seq<Units>): Units {
    if |pieces| == 0 then []
    else if |pieces| == 1 then pieces[0]
    else JoinSlash(pieces[..|pieces| - 1]) + [SLASH] + pieces[|pieces| - 1]
  }

  /** The nonempty components of a text, joined by single slashes. */
  function Canonical(t: Units): Units {
    JoinSlash(NonEmpty(Pieces(t)))
  }

  function LastPiece(t: Units): Units {
    Pieces(t)[|Pieces(t)| - 1]
  }

  function Finished(t: Units): seq<Units> {
    Pieces(t)[..|Pieces(t)| - 1]
  }

  /** What the loop has written after `t`: the components so far, and a slash if one is due. */
  function Written(t: Units): Units {
    Canonical(t) + (if LastPiece(t) == [] && Canonical(t) != [] then [SLASH] else [])
  }

  /** The loop's dot counter at the end of a piece. */
  function Dots(piece: Units): int {
    if piece == [] then 0
    else if piece[|piece| - 1] == DOT then Dots(piece[..|piece| - 1]) + 1
    else -1
  }

  /** The counter reads two exactly on `..` and on names that end in exactly three dots. */
  lemma {:induction false} DotsIsTwo(piece: Units)
    ensures Dots(piece) == 2 <==> piece == [DOT, DOT] || EndsInThreeDots(piece)
  {
    var n := |piece|;
    DotsRun(piece, 0);
    if n >= 1 && piece[n - 1] == DOT {
      DotsRun(piece, 1);
      if n >= 2 && piece[n - 2] == DOT {
        DotsRun(piece, 2);
        if n >= 3 && piece[n - 3] == DOT {
          DotsRun(piece, 3);
          if n >= 4 && piece[n - 4] == DOT {
            DotsRun(piece, 4);
            DotsBound(piece[..n - 4]);
          }
        }
      }
    }
  }

  predicate EndsInThreeDots(piece: Units) {
    |piece| >= 4 && piece[|piece| - 3..] == [DOT, DOT, DOT] && piece[|piece| - 4] != DOT
  }

  /** The traversal test refuses more than `..`: a name that ends in exactly three dots is refused too. */
  lemma TraversalTestExactly(pieces: seq<Units>)
    ensures NoTraversal(pieces) <==>
      [DOT, DOT] !in pieces && forall i :: 0 <= i < |pieces| ==> !EndsInThreeDots(pieces[i])
    ensures !NoTraversal([['a' as int, DOT, DOT, DOT]]) && NoTraversal([[DOT, DOT, DOT]])
  {
    hide Dots;
    forall i | 0 <= i < |pieces|
      ensures Dots(pieces[i]) == 2 <==> pieces[i] == [DOT, DOT] || EndsInThreeDots(pieces[i])
    {
      DotsIsTwo(pieces[i]);
    }
    var name, dots := ['a' as int, DOT, DOT, DOT], [DOT, DOT, DOT];
    DotsIsTwo(name);
    DotsIsTwo(dots);
    assert name[1..] == dots && [name][0] == name;
  }

  lemma {:induction false} DotsRun(piece: Units, k: nat)
    requires k <= |piece| && forall i :: |piece| - k <= i < |piece| ==> piece[i] == DOT
    ensures Dots(piece) == Dots(piece[..|piece| - k]) + k
    decreases k
  {
    if k == 0 {
      assert piece[..|piece|] == piece;
    } else {
      var init := piece[..|piece| - 1];
      DotsRun(init, k - 1);
      assert init[..|init| - (k - 1)] == piece[..|piece| - k];
    }
  }

  lemma {:induction false} DotsBound(piece: Units)
    ensures -1 <= Dots(piece) <= |piece|
  {
    if piece != [] {
      DotsBound(piece[..|piece| - 1]);
    }
  }

  // ----- One more unit -----

  lemma PiecesStep(t: Units, c: CodeUnit)
    ensures Pieces(t + [c]) ==
      if IsSeparator(c) then Pieces(t) + [[]] else Pieces(t)[..|Pieces(t)| - 1] + [LastPiece(t) + [c]]
  {
    assert (t + [c])[..|t|] == t;
  }

  lemma NonEmptyStep(pieces: seq<Units>, piece: Units)
    ensures NonEmpty(pieces + [piece]) == if piece == [] then NonEmpty(pieces) else NonEmpty(pieces) + [piece]
  {
    assert (pieces + [piece])[..|pieces|] == pieces;
  }

  lemma JoinStep(pieces: seq<Units>, piece: Units)
    ensures JoinSlash(pieces + [piece]) == if pieces == [] then piece else JoinSlash(pieces) + [SLASH] + piece
  {
    assert (pieces + [piece])[..|pieces|] == pieces;
  }

  lemma {:induction false} NonEmptyPieces(pieces: seq<Units>)
    ensures forall i :: 0 <= i < |NonEmpty(pieces)| ==> NonEmpty(pieces)[i] != []
    ensures JoinSlash(NonEmpty(pieces)) == [] <==> NonEmpty(pieces) == []
  {
    if pieces != [] {
      var init, last := pieces[..|pieces| - 1], pieces[|pieces| - 1];
      NonEmptyPieces(init);
      assert pieces == init + [last];
      NonEmptyStep(init, last);
      JoinStep(NonEmpty(init), last);
    }
  }

  /** The output so far, from the finished components and the one under way. */
  lemma WrittenForm(t: Units)
    ensures var earlier, last := NonEmpty(Finished(t)), LastPiece(t);
      Written(t) ==
        if earlier == [] then last
        else JoinSlash(earlier) + [SLASH] + last
  {
    hide Pieces, NonEmpty, JoinSlash;
    var earlier, last := Finished(t), LastPiece(t);
    assert Pieces(t) == earlier + [last];
    NonEmptyPieces(earlier);
    NonEmptyPieces(Pieces(t));
    NonEmptyStep(earlier, last);
    JoinStep(NonEmpty(earlier), last);
  }

  /** The state of the output after one more unit. */
  lemma WrittenStep(t: Units, c: CodeUnit)
    ensures Written(t + [c]) ==
      if !IsSeparator(c) then Written(t) + [c]
      else if Written(t) == [] || LastPiece(t) == [] then Written(t)
      else Written(t) + [SLASH]
  {
    hide Pieces, NonEmpty, JoinSlash, Written;
    var earlier, last := Finished(t), LastPiece(t);
    PiecesStep(t, c);
    WrittenForm(t);
    WrittenForm(t + [c]);
    if IsSeparator(c) {
      assert Finished(t + [c]) == earlier + [last] && LastPiece(t + [c]) == [];
      NonEmptyStep(earlier, last);
      JoinStep(NonEmpty(earlier), last);
    } else {
      assert Finished(t + [c]) == earlier && LastPiece(t + [c]) == last + [c];
      assert JoinSlash(NonEmpty(earlier)) + [SLASH] + (last + [c]) == JoinSlash(NonEmpty(earlier)) + [SLASH] + last + [c];
    }
  }

  lemma {:induction false} WrittenGrows(t: Units, k: nat)
    requires k <= |t|
    ensures |Written(t[..k])| <= |Written(t)| <= |t|
  {
    hide Written;
    if t == [] {
      WrittenNothing();
      assert t[..k] == t;
    } else {
      var init, c := t[..|t| - 1], t[|t| - 1];
      assert t == init + [c];
      WrittenStep(init, c);
      if k == |t| {
        WrittenGrows(init, 0);
        assert t[..k] == t;
      } else {
        WrittenGrows(init, k);
        assert init[..k] == t[..k];
      }
    }
  }

  lemma WrittenNothing()
    ensures Written([]) == [] && Pieces([]) == [[]]
  {
    assert NonEmpty([[]]) == [] by {
      NonEmptyStep([], []);
      var none: seq<Units> := [];
      assert none + [[]] == [[]];
    }
  }

  lemma {:induction false} FirstUnitIsWritten(t: Units)
    requires t != [] && !IsSeparator(t[0])
    ensures Canonical(t) != [] && Written(t) != []
  {
    hide Written, Canonical;
    var init, c := t[..|t| - 1], t[|t| - 1];
    assert t == init + [c];
    WrittenStep(init, c);
    if init != [] {
      FirstUnitIsWritten(init);
    }
    WrittenHasCanonical(t);
  }

  lemma WrittenHasCanonical(t: Units)
    ensures Written(t) != [] ==> Canonical(t) != []
  {
  }

  lemma {:induction false} FinishedGrows(t: Units, k: nat)
    requires k <= |t|
    ensures Finished(t[..k]) <= Finished(t)
  {
    hide Pieces;
    if k == |t| {
      assert t[..k] == t;
    } else {
      var init, c := t[..|t| - 1], t[|t| - 1];
      assert t == init + [c] && init[..k] == t[..k];
      FinishedGrows(init, k);
      PiecesStep(init, c);
    }
  }

  /** No component of the output holds a separator, so only a due slash can end it. */
  lemma {:induction false} WrittenEnd(t: Units)
    ensures Written(t) != [] ==> (Written(t)[|Written(t)| - 1] == SLASH <==> LastPiece(t) == [])
    ensures SLASH !in LastPiece(t)
  {
    hide Pieces, Written;
    if t == [] {
      WrittenNothing();
    } else {
      var init, c := t[..|t| - 1], t[|t| - 1];
      assert t == init + [c];
      WrittenEnd(init);
      WrittenStep(init, c);
      PiecesStep(init, c);
    }
  }

  // ----- The loop -----

  /** All finished components pass the traversal test. */
  ghost predicate NoTraversal(pieces: seq<Units>) {
    forall i :: 0 <= i < |pieces| ==> Dots(pieces[i]) != 2
  }

  /** What the copy accepts. */
  ghost predicate Accepts(t: Units, capacity: int) {
    && t != [] && 0 !in t && !IsSeparator(t[0])
    && !(|t| >= 2 && IsAsciiLetter(t[0]) && t[1] == COLON)
    && NoTraversal(Pieces(t))
    && |Written(t)| <= capacity
  }

  /** What each status says about the input. */
  ghost predicate Explains(status: Status, t: Units, capacity: int) {
    match status
    case Success => Accepts(t, capacity)
    case EmptyPath => t == []
    case NulByte => 0 in t
    case AbsolutePath =>
      && t != [] && (IsSeparator(t[0]) || (|t| >= 3 && IsWindowsDriveRoot(t[0], t[1], t[2])))
      && forall i :: 0 <= i < 3 && i < |t| ==> t[i] != 0
    case DriveRelativePath => |t| >= 2 && IsAsciiLetter(t[0]) && t[1] == COLON && (|t| == 2 || !IsSeparator(t[2]))
    case InvalidPath => !NoTraversal(Pieces(t)) || capacity < |Written(t)|
  }

  /**
   * What is accepted, by units: a nonempty relative text without NUL, that starts with neither a separator nor a letter and
   * a colon, has no component `..` or ending in exactly three dots, and fits with its last separator.
   */
  lemma AcceptsExactly(t: Units, capacity: int)
    ensures Accepts(t, capacity) <==>
      && t != [] && (forall i :: 0 <= i < |t| ==> t[i] != 0)
      && t[0] != 0x2F && t[0] != 0x5C
      && !(|t| >= 2 && t[1] == 0x3A && (0x41 <= t[0] <= 0x5A || 0x61 <= t[0] <= 0x7A))
      && (forall i :: 0 <= i < |Pieces(t)| ==> Pieces(t)[i] != [0x2E, 0x2E] && !EndsInThreeDots(Pieces(t)[i]))
      && |Canonical(t)| + (if t[|t| - 1] == 0x2F || t[|t| - 1] == 0x5C then 1 else 0) <= capacity
  {
    hide Pieces, Written, Canonical, Dots;
    TraversalTestExactly(Pieces(t));
    assert [DOT, DOT] in Pieces(t) <==> exists i :: 0 <= i < |Pieces(t)| && Pieces(t)[i] == [0x2E, 0x2E];
    if t != [] && !IsSeparator(t[0]) {
      EndFacts(t);
      LastPieceEnds(t);
    }
  }

  lemma LastPieceEnds(t: Units)
    requires t != []
    ensures LastPiece(t) == [] <==> t[|t| - 1] == 0x2F || t[|t| - 1] == 0x5C
  {
    hide Pieces;
    var init := t[..|t| - 1];
    assert t == init + [t[|t| - 1]];
    PiecesStep(init, t[|t| - 1]);
  }

  /** Components are cut at both separators and nowhere else. */
  lemma PiecesExactly(a: Units, b: Units, separator: CodeUnit)
    requires separator == 0x2F || separator == 0x5C
    ensures Pieces(a + [separator] + b) == Pieces(a) + Pieces(b)
    ensures (forall i :: 0 <= i < |a| ==> a[i] != 0x2F && a[i] != 0x5C) ==> Pieces(a) == [a]
  {
    hide Pieces;
    PiecesCut(a, b, separator);
    if forall i :: 0 <= i < |a| ==> a[i] != 0x2F && a[i] != 0x5C {
      WrittenNothing();
      PiecesAppend([], a);
      assert [] + a == a;
    }
  }

  lemma {:induction false} PiecesCut(a: Units, b: Units, separator: CodeUnit)
    requires IsSeparator(separator)
    ensures Pieces(a + [separator] + b) == Pieces(a) + Pieces(b)
    decreases |b|
  {
    hide Pieces;
    if b == [] {
      WrittenNothing();
      PiecesStep(a, separator);
      assert a + [separator] + b == a + [separator];
    } else {
      var init, c := b[..|b| - 1], b[|b| - 1];
      PiecesCut(a, init, separator);
      CutStep(a + [separator] + init, Pieces(a), init, c);
      assert b == init + [c] && a + [separator] + b == a + [separator] + init + [c];
    }
  }

  lemma CutStep(t: Units, left: seq<Units>, init: Units, c: CodeUnit)
    requires Pieces(t) == left + Pieces(init)
    ensures Pieces(t + [c]) == left + Pieces(init + [c])
  {
    hide Pieces;
    PiecesStep(t, c);
    PiecesStep(init, c);
    LastOfBoth(left, Pieces(init), c);
  }

  /** Going on with the last piece of two lists is going on with the last one of the second. */
  lemma LastOfBoth(left: seq<Units>, right: seq<Units>, c: CodeUnit)
    requires right != []
    ensures var both := left + right;
      both[..|both| - 1] + [both[|both| - 1] + [c]] == left + (right[..|right| - 1] + [right[|right| - 1] + [c]])
    ensures left + right + [[]] == left + (right + [[]])
  {
  }

  lemma PrefixTest(t: Units)
    requires t != []
    ensures var second, third := if |t| > 1 then t[1] else 0, if |t| > 2 then t[2] else 0;
      (ValidateRelativePrefix(|t|, t[0], second, |t| > 2, third) == Success <==>
        && t[0] != 0 && (|t| > 1 ==> t[1] != 0) && (|t| > 2 ==> t[2] != 0) && !IsSeparator(t[0])
        && !(|t| >= 2 && IsAsciiLetter(t[0]) && t[1] == COLON))
      && (var status := ValidateRelativePrefix(|t|, t[0], second, |t| > 2, third);
          status != Success ==> status != InvalidPath && Explains(status, t, 0))
  {
    hide Pieces, Written, Dots;
  }

  /**
   * Copies a relative path. It succeeds exactly on what `Accepts` describes, and then the output is the input's nonempty
   * components joined by single slashes. The two buffers may be one.
   */
  method CopyRelativeCanonical(input: array?<CodeUnit>, length: int, output: array?<CodeUnit>, capacity: int)
    returns (status: Status, written: int)
    requires input != null ==> length <= input.Length
    requires output != null ==> capacity <= output.Length
    modifies if output == null then {} else {output}
    ensures status == Success <==>
      input != null && output != null && capacity >= 0 && length > 0 && Accepts(old(input[..length]), capacity)
    ensures status == Success ==>
      0 < written <= capacity && output[..written] == Canonical(old(input[..length]))
    ensures input != null && output != null && capacity >= 0 ==>
      Explains(status, old(if length <= 0 then [] else input[..length]), capacity)
    ensures output != null && capacity >= 0 ==> forall i :: capacity <= i < output.Length ==> output[i] == old(output[i])
  {
    hide Pieces, Written, Canonical, ValidateRelativePrefix, NoTraversal, IsSeparator, IsAsciiLetter;
    written := 0;
    if input == null || output == null || capacity < 0 {
      return InvalidPath, written;
    }
    if length <= 0 {
      return EmptyPath, written;
    }
    ghost var t := input[..length];
    var first := input[0];
    var second: CodeUnit := if length > 1 then input[1] else 0;
    var third: CodeUnit := if length > 2 then input[2] else 0;
    PrefixTest(t);
    var prefix := ValidateRelativePrefix(length, first, second, length > 2, third);
    if prefix != Success {
      return prefix, written;
    }
    status, written := CopyPieces(input, length, output, capacity, t);
  }

  method CopyPieces(input: array<CodeUnit>, length: int, output: array<CodeUnit>, capacity: int, ghost t: Units)
    returns (status: Status, written: int)
    requires 0 < length <= input.Length && 0 <= capacity <= output.Length
    requires t == input[..length] && !IsSeparator(t[0])
    modifies output
    ensures status == Success <==> 0 !in t && NoTraversal(Pieces(t)) && |Written(t)| <= capacity
    ensures status == Success ==> 0 < written <= capacity && output[..written] == Canonical(t)
    ensures status == Success || (status == NulByte && 0 in t)
      || (status == InvalidPath && (!NoTraversal(Pieces(t)) || capacity < |Written(t)|))
    ensures forall i :: capacity <= i < output.Length ==> output[i] == old(output[i])
  {
    hide Pieces, Finished, LastPiece, Written, Canonical, Dots;
    StartFacts();
    written := 0;
    var previousSeparator := false;
    var componentDots := 0;
    for i := 0 to length
      invariant 0 <= written <= i && written <= capacity
      invariant forall j :: i <= j < length ==> input[j] == t[j]
      invariant 0 !in t[..i]
      invariant output[..written] == Written(t[..i])
      invariant previousSeparator <==> i > 0 && LastPiece(t[..i]) == []
      invariant componentDots == Dots(LastPiece(t[..i]))
      invariant NoTraversal(Finished(t[..i]))
      invariant forall k :: capacity <= k < output.Length ==> output[k] == old(output[k])
    {
      var value := input[i];
      StepFacts(t, i);
      if value == 0 {
        assert t[i] in t;
        return NulByte, written;
      }
      if IsSeparator(value) {
        if componentDots == 2 {
          return InvalidPath, written;
        }
        componentDots := 0;
        if previousSeparator || written == 0 {
          continue;
        }
        if written >= capacity {
          return InvalidPath, written;
        }
        output[written] := SLASH;
        written := written + 1;
        previousSeparator := true;
        continue;
      }
      if value == DOT {
        componentDots := componentDots + 1;
      } else {
        componentDots := -1;
      }
      if written >= capacity {
        return InvalidPath, written;
      }
      output[written] := value;
      written := written + 1;
      previousSeparator := false;
    }
    assert t[..length] == t;
    EndFacts(t);
    if componentDots == 2 {
      return InvalidPath, written;
    }
    if written > 0 && output[written - 1] == SLASH {
      written := written - 1;
    }
    if written == 0 {
      return EmptyPath, written;
    }
    return Success, written;
  }

  lemma StartFacts()
    ensures Written([]) == [] && Finished([]) == [] && LastPiece([]) == [] && Dots([]) == 0
  {
    WrittenNothing();
  }

  lemma StepFacts(t: Units, i: nat)
    requires i < |t| && !IsSeparator(t[0])
    ensures t[..i + 1] == t[..i] + [t[i]]
    ensures |Written(t[..i + 1])| <= |Written(t)|
    ensures IsSeparator(t[i]) ==>
      && i > 0 && Written(t[..i]) != []
      && Finished(t[..i + 1]) == Finished(t[..i]) + [LastPiece(t[..i])]
      && LastPiece(t[..i + 1]) == []
      && Written(t[..i + 1]) == Written(t[..i]) + (if LastPiece(t[..i]) == [] then [] else [SLASH])
      && (NoTraversal(Pieces(t)) ==> Dots(LastPiece(t[..i])) != 2)
      && Dots([]) == 0
    ensures !IsSeparator(t[i]) ==>
      && Finished(t[..i + 1]) == Finished(t[..i])
      && LastPiece(t[..i + 1]) == LastPiece(t[..i]) + [t[i]]
      && Written(t[..i + 1]) == Written(t[..i]) + [t[i]]
      && Dots(LastPiece(t[..i + 1])) == if t[i] == DOT then Dots(LastPiece(t[..i])) + 1 else -1
  {
    hide Pieces, Written, Canonical;
    var s := t[..i];
    assert t[..i + 1] == s + [t[i]];
    PiecesStep(s, t[i]);
    WrittenStep(s, t[i]);
    WrittenGrows(t, i + 1);
    if IsSeparator(t[i]) {
      FirstUnitIsWritten(s);
      FinishedGrows(t, i + 1);
      var f := Finished(s + [t[i]]);
      assert f == Finished(s) + [LastPiece(s)];
      assert f[|f| - 1] == LastPiece(s) && Finished(t)[|f| - 1] == LastPiece(s) && Pieces(t)[|f| - 1] == LastPiece(s);
    } else {
      var piece := LastPiece(s) + [t[i]];
      assert piece[..|piece| - 1] == LastPiece(s);
    }
  }

  lemma EndFacts(t: Units)
    requires t != [] && !IsSeparator(t[0])
    ensures NoTraversal(Pieces(t)) <==> NoTraversal(Finished(t)) && Dots(LastPiece(t)) != 2
    ensures Canonical(t) != [] && Written(t) != []
    ensures Written(t)[|Written(t)| - 1] == SLASH <==> LastPiece(t) == []
    ensures Written(t) == Canonical(t) + if LastPiece(t) == [] then [SLASH] else []
  {
    hide Pieces, Canonical, Dots;
    FirstUnitIsWritten(t);
    WrittenEnd(t);
    assert Pieces(t) == Finished(t) + [LastPiece(t)];
    assert NoTraversal(Finished(t)) && Dots(LastPiece(t)) != 2 ==> NoTraversal(Pieces(t));
    assert NoTraversal(Pieces(t)) ==> NoTraversal(Finished(t)) by {
      assert forall i :: 0 <= i < |Finished(t)| ==> Finished(t)[i] == Pieces(t)[i];
    }
  }

  // ----- The output is a fixed point -----

  ghost predicate IsComponent(piece: Units) {
    piece != [] && forall i :: 0 <= i < |piece| ==> !IsSeparator(piece[i])
  }

  ghost predicate AreComponents(pieces: seq<Units>) {
    forall i :: 0 <= i < |pieces| ==> IsComponent(pieces[i])
  }

  lemma {:induction false} NonEmptyAreComponents(pieces: seq<Units>)
    requires forall i, j :: 0 <= i < |pieces| && 0 <= j < |pieces[i]| ==> !IsSeparator(pieces[i][j])
    ensures AreComponents(NonEmpty(pieces))
    ensures NoTraversal(pieces) ==> NoTraversal(NonEmpty(pieces))
  {
    if pieces != [] {
      var init, last := pieces[..|pieces| - 1], pieces[|pieces| - 1];
      NonEmptyAreComponents(init);
    }
  }

  lemma {:induction false} PiecesHoldNoSeparator(t: Units)
    ensures forall i, j :: 0 <= i < |Pieces(t)| && 0 <= j < |Pieces(t)[i]| ==> !IsSeparator(Pieces(t)[i][j])
  {
    if t != [] {
      PiecesHoldNoSeparator(t[..|t| - 1]);
    }
  }

  lemma {:induction false} PiecesAppend(t: Units, piece: Units)
    requires forall i :: 0 <= i < |piece| ==> !IsSeparator(piece[i])
    ensures Pieces(t + piece) == Finished(t) + [LastPiece(t) + piece]
  {
    hide Pieces;
    if piece == [] {
      assert t + piece == t && LastPiece(t) + piece == LastPiece(t);
    } else {
      var init, c := piece[..|piece| - 1], piece[|piece| - 1];
      PiecesAppend(t, init);
      PiecesStep(t + init, c);
      assert t + piece == t + init + [c] && LastPiece(t) + piece == LastPiece(t) + init + [c];
    }
  }

  lemma {:induction false} PiecesOfJoin(pieces: seq<Units>)
    requires pieces != [] && AreComponents(pieces)
    ensures Pieces(JoinSlash(pieces)) == pieces
  {
    hide Pieces;
    var init, last := pieces[..|pieces| - 1], pieces[|pieces| - 1];
    assert pieces == init + [last];
    JoinStep(init, last);
    assert IsComponent(last);
    if init == [] {
      WrittenNothing();
      PiecesAppend([], last);
      assert [] + last == last;
    } else {
      PiecesOfJoin(init);
      var t := JoinSlash(init);
      PiecesStep(t, SLASH);
      PiecesAppend(t + [SLASH], last);
      assert [] + last == last;
    }
  }

  lemma {:induction false} NonEmptyOfComponents(pieces: seq<Units>)
    requires AreComponents(pieces)
    ensures NonEmpty(pieces) == pieces
  {
    if pieces != [] {
      var init, last := pieces[..|pieces| - 1], pieces[|pieces| - 1];
      assert pieces == init + [last];
      assert IsComponent(last);
      NonEmptyOfComponents(init);
    }
  }

  lemma {:induction false} WrittenKeeps(t: Units, k: nat)
    requires k <= |t|
    ensures Written(t[..k]) <= Written(t)
    ensures forall i :: 0 <= i < |Written(t)| ==> Written(t)[i] in t || Written(t)[i] == SLASH
  {
    hide Written;
    if t == [] {
      WrittenNothing();
      assert t[..k] == t;
    } else {
      var init, c := t[..|t| - 1], t[|t| - 1];
      assert t == init + [c];
      WrittenStep(init, c);
      WrittenKeeps(init, if k == |t| then 0 else k);
      assert k < |t| ==> init[..k] == t[..k];
      assert k == |t| ==> t[..k] == t;
    }
  }

  /** The output starts as the input does. */
  lemma CanonicalStart(t: Units)
    requires t != [] && !IsSeparator(t[0])
    ensures Canonical(t) != [] && Canonical(t)[0] == t[0]
    ensures |Canonical(t)| >= 2 ==> |t| >= 2 && Canonical(t)[1] == if IsSeparator(t[1]) then SLASH else t[1]
  {
    hide Pieces, Written, Canonical;
    EndFacts(t);
    StartFacts();
    StepFacts(t, 0);
    assert t[..0] == [] && t[..1] == [t[0]];
    WrittenKeeps(t, 1);
    assert Written(t)[0] == t[0];
    if |t| >= 2 {
      StepFacts(t, 1);
      WrittenKeeps(t, 2);
      assert Written(t[..2])[1] == Written(t)[1];
    } else {
      assert t[..1] == t;
    }
  }

  /** Copying a result again accepts it within the same capacity and changes nothing. */
  lemma CopyIsStable(t: Units, capacity: int)
    requires Accepts(t, capacity)
    ensures Pieces(Canonical(t)) == NonEmpty(Pieces(t))
    ensures Canonical(Canonical(t)) == Canonical(t)
    ensures Accepts(Canonical(t), capacity)
    ensures SLASH != Canonical(t)[|Canonical(t)| - 1] && BACKSLASH !in Canonical(t)
    ensures [DOT, DOT] !in Pieces(Canonical(t))
  {
    hide Pieces, NonEmpty, JoinSlash, Dots;
    var names := NonEmpty(Pieces(t));
    var r := Canonical(t);
    CanonicalStart(t);
    PiecesHoldNoSeparator(t);
    NonEmptyAreComponents(Pieces(t));
    NonEmptyPieces(Pieces(t));
    PiecesOfJoin(names);
    NonEmptyOfComponents(names);
    assert IsComponent(names[|names| - 1]);
    WrittenEnd(r);
    WrittenKeeps(t, |t|);
    WrittenKeeps(r, |r|);
    assert |r| <= |Written(t)|;
    WrittenUnits(t);
    assert forall x :: x in r ==> x in Written(t);
    forall i | 0 <= i < |names| ensures names[i] != [DOT, DOT] {
      DotsIsTwo(names[i]);
    }
  }

  lemma {:induction false} WrittenUnits(t: Units)
    ensures BACKSLASH !in Written(t)
  {
    hide Written;
    if t == [] {
      WrittenNothing();
    } else {
      var init, c := t[..|t| - 1], t[|t| - 1];
      assert t == init + [c];
      WrittenUnits(init);
      WrittenStep(init, c);
    }
  }

  /** The text `a...` is refused whatever the capacity, though none of its components is `..`. */
  lemma ThreeDotNameIsRefused(capacity: int)
    ensures var t: Units := ['a' as int, DOT, DOT, DOT];
      !Accepts(t, capacity) && Pieces(t) == [t] && [DOT, DOT] !in Pieces(t)
  {
    hide Pieces, Written, Dots;
    var t: Units := ['a' as int, DOT, DOT, DOT];
    StartFacts();
    WrittenNothing();
    PiecesAppend([], t);
    assert [] + t == t && Finished([]) + [t] == [t];
    DotsIsTwo(t);
    assert EndsInThreeDots(t) by {
      assert t[1..] == [DOT, DOT, DOT];
    }
    assert Dots(Pieces(t)[0]) == 2;
  }
}
