/** Dot cleanup keeps the place a path leads to, in every tree without links. */
module Meaning {
  import opened Text
  import opened Grammar
  import opened Identity

  /** The node reached from `n` by following raw parts one at a time. */
  function Walk<N>(n: N, parts: seq<string>, up: N -> N, down: (N, string) -> N): N
    decreases |parts|
  {
    if parts == [] then n
    else if parts[0] == "" || parts[0] == "." then Walk(n, parts[1..], up, down)
    else if parts[0] == ".." then Walk(up(n), parts[1..], up, down)
    else Walk(down(n, parts[0]), parts[1..], up, down)
  }

  /** Going down and up again returns to where one was: no entry is a link. */
  ghost predicate LinkFree<N(!new)>(up: N -> N, down: (N, string) -> N) {
    forall n, name :: up(down(n, name)) == n
  }

  lemma {:induction false} WalkAppend<N>(n: N, a: seq<string>, b: seq<string>, up: N -> N, down: (N, string) -> N)
    ensures Walk(n, a + b, up, down) == Walk(Walk(n, a, up, down), b, up, down)
    decreases |a|
  {
    if a == [] {
      assert a + b == b;
    } else {
      assert (a + b)[1..] == a[1..] + b;
      if a[0] == "" || a[0] == "." {
        WalkAppend(n, a[1..], b, up, down);
      } else if a[0] == ".." {
        WalkAppend(up(n), a[1..], b, up, down);
      } else {
        WalkAppend(down(n, a[0]), a[1..], b, up, down);
      }
    }
  }

  lemma {:induction false} ResolveKeepsPlace<N(!new)>(
    n: N, stack: seq<string>, parts: seq<string>, clamp: bool, up: N -> N, down: (N, string) -> N)
    requires LinkFree(up, down) && (clamp ==> up(n) == n)
    requires forall i :: 0 <= i < |stack| ==> stack[i] != "" && !IsDots(stack[i])
    requires Resolve(stack, parts, clamp).Some?
    ensures Walk(Walk(n, stack, up, down), parts, up, down)
         == Walk(n, Resolve(stack, parts, clamp).value, up, down)
    decreases |parts|
  {
    if parts == [] {
    } else if parts[0] == "" || parts[0] == "." {
      ResolveKeepsPlace(n, stack, parts[1..], clamp, up, down);
    } else if parts[0] == ".." {
      if |stack| > 0 {
        var init, last := stack[..|stack| - 1], stack[|stack| - 1];
        assert stack == init + [last];
        WalkAppend(n, init, [last], up, down);
        assert up(down(Walk(n, init, up, down), last)) == Walk(n, init, up, down);
        ResolveKeepsPlace(n, init, parts[1..], clamp, up, down);
      } else {
        ResolveKeepsPlace(n, stack, parts[1..], clamp, up, down);
      }
    } else {
      WalkAppend(n, stack, [parts[0]], up, down);
      ResolveKeepsPlace(n, stack + [parts[0]], parts[1..], clamp, up, down);
    }
  }

  /** The raw components after a text's root. */
  function RawParts(value: string): seq<string>
    requires SplitRoot(value).Ok?
  {
    Split(SplitRoot(value).value.1)
  }

  /** A cleaned path leads where the raw one did: from every start if relative, from the fixed root otherwise. */
  lemma CleaningPreservesMeaning<N(!new)>(value: string, n: N, up: N -> N, down: (N, string) -> N)
    requires Cleaned(value).Ok? && LinkFree(up, down)
    requires !RootOf(value).Relative? ==> up(n) == n
    ensures SplitRoot(Cleaned(value).value).Ok?
    ensures Walk(n, RawParts(value), up, down) == Walk(n, RawParts(Cleaned(value).value), up, down)
  {
    CleanedPrintsDenoted(value);
    var p := Denote(value).value;
    ResolveKeepsPlace(n, [], RawParts(value), !RootOf(value).Relative?, up, down);
    PrintSplits(p);
    DenotedOfPrint(p);
    ResolveKeepsPlace(n, [], RawParts(p.Print()), !p.root.Relative?, up, down);
  }

  // The tree of all names: a node is the list of names that lead to it.

  function ParentList(n: seq<string>): seq<string> {
    if n == [] then [] else n[..|n| - 1]
  }

  function ChildList(n: seq<string>, name: string): seq<string> {
    n + [name]
  }

  lemma {:induction false} WalkOfNames(n: seq<string>, names: seq<string>)
    requires forall i :: 0 <= i < |names| ==> names[i] != "" && !IsDots(names[i])
    ensures Walk(n, names, ParentList, ChildList) == n + names
    decreases |names|
  {
    if names == [] {
      assert n + names == n;
    } else {
      WalkOfNames(ChildList(n, names[0]), names[1..]);
      assert n + [names[0]] + names[1..] == n + names;
    }
  }

  /** Meaning decides identity: two accepted inputs with one root clean alike exactly when they lead to one node of the name tree. */
  lemma IdentityIsMeaning(a: string, b: string)
    requires Cleaned(a).Ok? && Cleaned(b).Ok? && RootOf(a).Lower() == RootOf(b).Lower()
    ensures Cleaned(a) == Cleaned(b) <==>
      Walk([], RawParts(a), ParentList, ChildList) == Walk([], RawParts(b), ParentList, ChildList)
  {
    SameIdentity(a, b);
    LeadsToNames(a);
    LeadsToNames(b);
  }

  lemma LeadsToNames(value: string)
    requires Cleaned(value).Ok?
    ensures Resolve([], RawParts(value), !RootOf(value).Relative?)
         == Some(Walk([], RawParts(value), ParentList, ChildList))
  {
    CleanedPrintsDenoted(value);
    var names := Denote(value).value.names;
    assert forall n, name :: ParentList(ChildList(n, name)) == n;
    ResolveKeepsPlace([], [], RawParts(value), !RootOf(value).Relative?, ParentList, ChildList);
    WalkOfNames([], names);
    assert [] + names == names;
  }

  // ----- Escaping relative paths -----

  /** How far below (or, if negative, above) its start a walk ends. */
  function Depth(parts: seq<string>): int {
    if parts == [] then 0
    else
      (if parts[0] == "" || parts[0] == "." then 0 else if parts[0] == ".." then -1 else 1) + Depth(parts[1..])
  }

  lemma {:induction false} ResolveFailsIffDips(stack: seq<string>, parts: seq<string>)
    ensures Resolve(stack, parts, false).None? <==>
      exists k :: 0 <= k <= |parts| && |stack| + Depth(parts[..k]) < 0
    decreases |parts|
  {
    if parts == [] {
    } else {
      var delta := if parts[0] == "" || parts[0] == "." then 0 else if parts[0] == ".." then -1 else 1;
      forall k | 0 < k <= |parts|
        ensures Depth(parts[..k]) == delta + Depth(parts[1..][..k - 1])
      {
        assert parts[..k][1..] == parts[1..][..k - 1];
      }
      if |stack| + delta < 0 {
        assert parts[1..][..0] == [];
        assert |stack| + Depth(parts[..1]) < 0;
      } else {
        var next := if delta == 0 then stack else if delta == 1 then stack + [parts[0]] else stack[..|stack| - 1];
        ResolveFailsIffDips(next, parts[1..]);
        if k :| 0 <= k <= |parts[1..]| && |next| + Depth(parts[1..][..k]) < 0 {
          assert |stack| + Depth(parts[..k + 1]) < 0;
        }
        if k :| 0 <= k <= |parts| && |stack| + Depth(parts[..k]) < 0 {
          assert |next| + Depth(parts[1..][..k - 1]) < 0;
        }
      }
    }
  }

  /** A relative input is refused exactly when some prefix of it dips below its start. */
  lemma RelativeEscapeIsDip(value: string)
    requires value != "" && '\0' !in value && SplitRoot(value).Ok? && RootOf(value).Relative?
    ensures Cleaned(value).Err? <==> exists k :: 0 <= k <= |RawParts(value)| && Depth(RawParts(value)[..k]) < 0
  {
    SplitRootShape(value);
    ResolveFailsIffDips([], RawParts(value));
  }

  /** A rooted input never escapes. */
  lemma {:induction false} RootedNeverEscapes(stack: seq<string>, parts: seq<string>)
    ensures Resolve(stack, parts, true).Some?
    decreases |parts|
  {
    if parts == [] {
    } else if parts[0] == "" || parts[0] == "." || (parts[0] == ".." && stack == []) {
      RootedNeverEscapes(stack, parts[1..]);
    } else if parts[0] == ".." {
      RootedNeverEscapes(stack[..|stack| - 1], parts[1..]);
    } else {
      RootedNeverEscapes(stack + [parts[0]], parts[1..]);
    }
  }
}
