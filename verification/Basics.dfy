/** Small facts that several components share. */
module Basics {

  type byte = b: int | 0 <= b < 256

  /** A UTF-16 code unit, and text as C# and JavaScript see it. */
  type CodeUnit = c: int | 0 <= c < 0x1_0000
  type Units = seq<CodeUnit>

  function Min(a: nat, b: nat): nat {
    if a < b then a else b
  }

  lemma {:induction false} SubsetSize<T>(a: set<T>, b: set<T>)
    requires a <= b
    ensures |a| <= |b|
  {
    if a != {} {
      var x :| x in a;
      SubsetSize(a - {x}, b - {x});
    }
  }

  /** What comes before the first mark is determined, and so is the rest. */
  lemma FirstMark<T>(mark: T, a: seq<T>, x: seq<T>, b: seq<T>, y: seq<T>)
    requires mark !in a && mark !in b && a + [mark] + x == b + [mark] + y
    ensures a == b && x == y
  {
    var s, t := a + [mark] + x, b + [mark] + y;
    assert s[|a|] == mark && t[|b|] == mark;
    assert forall k :: 0 <= k < |a| ==> s[k] == a[k] && s[k] != mark;
    assert forall k :: 0 <= k < |b| ==> t[k] == b[k] && t[k] != mark;
    assert |a| == |b|;
    assert a == s[..|a|] && b == t[..|b|] && x == s[|a| + 1..] && y == t[|b| + 1..];
  }
}
