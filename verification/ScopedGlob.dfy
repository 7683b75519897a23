/** The scoped glob matcher: a two-row automaton over reused buffers, against a declarative language. */
module ScopedGlob {
  import opened Text
  import opened Basics

  const NUL: CodeUnit := 0
  const SLASH: CodeUnit := '/' as int
  const STAR: CodeUnit := '*' as int
  const QUESTION: CodeUnit := '?' as int

  newtype uint8 = x: int | 0 <= x < 256

  predicate IsLineTerminator(c: CodeUnit) {
    c == 0x0A || c == 0x0D || c == 0x2028 || c == 0x2029
  }

  datatype Token = Literal(unit: CodeUnit) | AnyUnit | Star | GlobStar {
    predicate Repeats() {
      Star? || GlobStar?
    }

    predicate Consumes(c: CodeUnit) {
      match this
      case Literal(unit) => unit == c
      case AnyUnit => c != SLASH
      case Star => c != SLASH
      case GlobStar => !IsLineTerminator(c)
    }

    /** The texts one token stands for: one unit, or any run of units it consumes. */
    ghost predicate Spans(s: Units) {
      if Repeats() then forall i :: 0 <= i < |s| ==> Consumes(s[i])
      else |s| == 1 && Consumes(s[0])
    }
  }

  function UnitToken(c: CodeUnit): Token {
    if c == STAR then Star else if c == QUESTION then AnyUnit else Literal(c)
  }

  /** The tokens as written: two stars are one globstar, nothing is collapsed. */
  function Tokenize(glob: Units): seq<Token> {
    if glob == [] then []
    else if |glob| >= 2 && glob[0] == STAR && glob[1] == STAR then [GlobStar] + Tokenize(glob[2..])
    else [UnitToken(glob[0])] + Tokenize(glob[1..])
  }

  /** The language of a token list: the text splits into one span for each token, in order. */
  ghost predicate Matches(tokens: seq<Token>, s: Units) {
    if tokens == [] then s == []
    else exists k :: 0 <= k <= |s| && tokens[0].Spans(s[..k]) && Matches(tokens[1..], s[k..])
  }

  // ----- What the written characters mean -----

  ghost predicate NoSlash(s: Units) {
    forall i :: 0 <= i < |s| ==> s[i] != 0x2F
  }

  ghost predicate OneLine(s: Units) {
    forall i :: 0 <= i < |s| ==> s[i] != 0x0A && s[i] != 0x0D && s[i] != 0x2028 && s[i] != 0x2029
  }

  /**
   * The language of a pattern by its characters: two stars stand for any text on one line, one star for any text without
   * a slash, a question mark for one unit that is no slash, and anything else for itself.
   */
  ghost predicate Language(glob: Units, s: Units)
    decreases |glob|
  {
    if glob == [] then s == []
    else if |glob| >= 2 && glob[0] == 0x2A && glob[1] == 0x2A then
      exists k :: 0 <= k <= |s| && OneLine(s[..k]) && Language(glob[2..], s[k..])
    else if glob[0] == 0x2A then
      exists k :: 0 <= k <= |s| && NoSlash(s[..k]) && Language(glob[1..], s[k..])
    else
      && s != []
      && (if glob[0] == 0x3F then s[0] != 0x2F else s[0] == glob[0])
      && Language(glob[1..], s[1..])
  }

  lemma GlobStarSpans(s: Units)
    ensures GlobStar.Spans(s) <==> OneLine(s)
    ensures Star.Spans(s) <==> NoSlash(s)
  {
  }

  lemma UnitTokenSpans(c: CodeUnit, s: Units)
    requires c != 0x2A
    ensures !UnitToken(c).Repeats()
    ensures UnitToken(c).Spans(s) <==> |s| == 1 && if c == 0x3F then s[0] != 0x2F else s[0] == c
  {
  }

  lemma SingleFirst(t: Token, more: seq<Token>, s: Units)
    requires !t.Repeats()
    ensures Matches([t] + more, s) <==> s != [] && t.Spans([s[0]]) && Matches(more, s[1..])
  {
    assert ([t] + more)[1..] == more;
    if s != [] {
      assert s[..1] == [s[0]];
    }
  }

  lemma RepeatFirst(t: Token, more: seq<Token>, s: Units)
    ensures Matches([t] + more, s) <==> exists k :: 0 <= k <= |s| && t.Spans(s[..k]) && Matches(more, s[k..])
  {
    assert ([t] + more)[1..] == more;
  }

  /** The tokens of a pattern have the language of its characters. */
  lemma {:induction false} TokensMeanCharacters(glob: Units, s: Units)
    ensures Matches(Tokenize(glob), s) <==> Language(glob, s)
    decreases |glob|
  {
    hide Matches, Token.Spans, UnitToken;
    if glob == [] {
      NoTokens(s);
    } else if |glob| >= 2 && glob[0] == 0x2A && glob[1] == 0x2A {
      RepeatFirst(GlobStar, Tokenize(glob[2..]), s);
      forall k | 0 <= k <= |s|
        ensures GlobStar.Spans(s[..k]) <==> OneLine(s[..k])
        ensures Matches(Tokenize(glob[2..]), s[k..]) <==> Language(glob[2..], s[k..])
      {
        GlobStarSpans(s[..k]);
        TokensMeanCharacters(glob[2..], s[k..]);
      }
    } else if glob[0] == 0x2A {
      StarIsStar();
      RepeatFirst(Star, Tokenize(glob[1..]), s);
      forall k | 0 <= k <= |s|
        ensures Star.Spans(s[..k]) <==> NoSlash(s[..k])
        ensures Matches(Tokenize(glob[1..]), s[k..]) <==> Language(glob[1..], s[k..])
      {
        GlobStarSpans(s[..k]);
        TokensMeanCharacters(glob[1..], s[k..]);
      }
    } else {
      UnitTokenSpans(glob[0], []);
      SingleFirst(UnitToken(glob[0]), Tokenize(glob[1..]), s);
      if s != [] {
        UnitTokenSpans(glob[0], [s[0]]);
        TokensMeanCharacters(glob[1..], s[1..]);
      }
    }
  }

  lemma StarIsStar()
    ensures UnitToken(0x2A) == Star
  {
  }

  /** What the four kinds of written character stand for, each by itself. */
  lemma WrittenCharacters(c: CodeUnit, s: Units)
    ensures Matches(Tokenize([0x2A]), s) <==> NoSlash(s)
    ensures Matches(Tokenize([0x2A, 0x2A]), s) <==> OneLine(s)
    ensures Matches(Tokenize([0x3F]), s) <==> |s| == 1 && s[0] != 0x2F
    ensures c != 0x2A && c != 0x3F ==> (Matches(Tokenize([c]), s) <==> s == [c])
  {
    hide Matches, Tokenize, Language, NoSlash, OneLine;
    TokensMeanCharacters([0x2A], s);
    TokensMeanCharacters([0x2A, 0x2A], s);
    TokensMeanCharacters([0x3F], s);
    TokensMeanCharacters([c], s);
    StarsAlone(s);
    UnitAlone(0x3F, s);
    if c != 0x2A {
      UnitAlone(c, s);
    }
  }

  lemma StarsAlone(s: Units)
    ensures Language([0x2A], s) <==> NoSlash(s)
    ensures Language([0x2A, 0x2A], s) <==> OneLine(s)
  {
    hide NoSlash, OneLine;
    var none: Units := [];
    assert [0x2A][1..] == none && [0x2A, 0x2A][2..] == none;
    assert s[..|s|] == s && s[|s|..] == none;
    assert Language(none, s[|s|..]);
    forall k | 0 <= k <= |s| && Language(none, s[k..]) ensures k == |s| {
    }
  }

  lemma UnitAlone(c: CodeUnit, s: Units)
    requires c != 0x2A
    ensures Language([c], s) <==> |s| == 1 && if c == 0x3F then s[0] != 0x2F else s[0] == c
  {
    var none: Units := [];
    assert [c][1..] == none;
    if s != [] {
      assert s[1..] == none <==> |s| == 1;
    }
  }

  /** How many stars end a pattern. */
  function TrailingStars(glob: Units): nat {
    if glob == [] || glob[|glob| - 1] != 0x2A then 0 else 1 + TrailingStars(glob[..|glob| - 1])
  }

  lemma {:induction false} DroppedStars(glob: Units, k: nat)
    requires k <= |glob|
    ensures TrailingStars(glob[k..]) == if TrailingStars(glob) <= |glob| - k then TrailingStars(glob) else |glob| - k
    ensures TrailingStars(glob) <= |glob|
    ensures forall i :: |glob| - TrailingStars(glob) <= i < |glob| ==> glob[i] == 0x2A
    ensures TrailingStars(glob) < |glob| ==> glob[|glob| - TrailingStars(glob) - 1] != 0x2A
    decreases |glob|
  {
    if glob != [] {
      var init := glob[..|glob| - 1];
      if k == |glob| {
        DroppedStars(init, 0);
      } else {
        DroppedStars(init, k);
        assert glob[k..][..|glob| - k - 1] == init[k..];
      }
    }
  }

  /** Patterns are read piece by piece wherever no pair of stars crosses the cut. */
  lemma {:induction false} TokenizeAppend(a: Units, b: Units)
    requires TrailingStars(a) % 2 == 0 || b == [] || b[0] != 0x2A
    ensures Tokenize(a + b) == Tokenize(a) + Tokenize(b)
    decreases |a|
  {
    hide Tokenize, TrailingStars;
    TokenizeNothing();
    if a == [] {
      assert a + b == b;
    } else {
      TokenizeHead(a);
      TokenizeHead(a + b);
      DroppedStars(a, 0);
      DroppedStars(a, 1);
      if |a| >= 2 && a[0] == STAR && a[1] == STAR {
        assert (a + b)[2..] == a[2..] + b;
        DroppedStars(a, 2);
        TokenizeAppend(a[2..], b);
      } else {
        assert (a + b)[1..] == a[1..] + b;
        TokenizeAppend(a[1..], b);
      }
    }
  }

  lemma TokenizeHead(glob: Units)
    requires glob != []
    ensures Tokenize(glob) ==
      if |glob| >= 2 && glob[0] == STAR && glob[1] == STAR then [GlobStar] + Tokenize(glob[2..])
      else [UnitToken(glob[0])] + Tokenize(glob[1..])
  {
  }

  // ----- The language by its last token -----

  lemma MatchesAppend(a: seq<Token>, b: seq<Token>, s: Units)
    ensures Matches(a + b, s) <==> exists k :: 0 <= k <= |s| && Matches(a, s[..k]) && Matches(b, s[k..])
  {
    if Matches(a + b, s) {
      var k := CutMatch(a, b, s);
    }
    if k :| 0 <= k <= |s| && Matches(a, s[..k]) && Matches(b, s[k..]) {
      GlueMatches(a, b, s, k);
    }
  }

  lemma MatchesCons(t: Token, more: seq<Token>, s: Units, k: nat)
    requires k <= |s| && t.Spans(s[..k]) && Matches(more, s[k..])
    ensures Matches([t] + more, s)
  {
    assert ([t] + more)[0] == t && ([t] + more)[1..] == more;
  }

  lemma FirstSpan(tokens: seq<Token>, s: Units) returns (j: nat)
    requires tokens != [] && Matches(tokens, s)
    ensures j <= |s| && tokens[0].Spans(s[..j]) && Matches(tokens[1..], s[j..])
  {
    j :| 0 <= j <= |s| && tokens[0].Spans(s[..j]) && Matches(tokens[1..], s[j..]);
  }

  lemma NoTokens(s: Units)
    ensures Matches([], s) <==> s == []
  {
  }

  lemma Slices(s: Units, j: nat, k: nat)
    requires j <= k <= |s|
    ensures s[..k][..j] == s[..j] && s[..k][j..] == s[j..][..k - j] && s[k..] == s[j..][k - j..]
  {
  }

  lemma {:induction false} CutMatch(a: seq<Token>, b: seq<Token>, s: Units) returns (k: nat)
    requires Matches(a + b, s)
    ensures k <= |s| && Matches(a, s[..k]) && Matches(b, s[k..])
    decreases |a|
  {
    hide Matches, Token.Spans;
    if a == [] {
      k := 0;
      NoTokens([]);
      assert a + b == b && s[0..] == s;
    } else {
      assert (a + b)[1..] == a[1..] + b && [a[0]] + a[1..] == a;
      var j := FirstSpan(a + b, s);
      var m := CutMatch(a[1..], b, s[j..]);
      k := j + m;
      Slices(s, j, k);
      MatchesCons(a[0], a[1..], s[..k], j);
    }
  }

  lemma {:induction false} GlueMatches(a: seq<Token>, b: seq<Token>, s: Units, k: nat)
    requires k <= |s| && Matches(a, s[..k]) && Matches(b, s[k..])
    ensures Matches(a + b, s)
    decreases |a|
  {
    hide Matches, Token.Spans;
    if a == [] {
      NoTokens(s[..k]);
      assert a + b == b && s[k..] == s;
    } else {
      var j := FirstSpan(a, s[..k]);
      Slices(s, j, k);
      GlueMatches(a[1..], b, s[j..], k - j);
      MatchesCons(a[0], a[1..] + b, s, j);
      assert [a[0]] + (a[1..] + b) == a + b;
    }
  }

  lemma MatchesOne(t: Token, s: Units)
    ensures Matches([t], s) <==> t.Spans(s)
  {
    assert [t][1..] == [];
    if t.Spans(s) {
      assert s[..|s|] == s && s[|s|..] == [];
      assert Matches([], s[|s|..]);
    }
    if k :| 0 <= k <= |s| && t.Spans(s[..k]) && Matches([], s[k..]) {
      assert k == |s| && s[..k] == s;
    }
  }

  lemma MatchesLast(tokens: seq<Token>, t: Token, s: Units)
    ensures Matches(tokens + [t], s) <==> exists k :: 0 <= k <= |s| && Matches(tokens, s[..k]) && t.Spans(s[k..])
  {
    MatchesAppend(tokens, [t], s);
    forall k | 0 <= k <= |s|
      ensures Matches([t], s[k..]) <==> t.Spans(s[k..])
    {
      MatchesOne(t, s[k..]);
    }
  }

  // ----- The automaton's recurrences -----

  lemma RowStart(tokens: seq<Token>, t: Token)
    ensures Matches(tokens + [t], []) <==> t.Repeats() && Matches(tokens, [])
  {
    MatchesLast(tokens, t, []);
    var empty: Units := [];
    assert empty[..0] == [] && empty[0..] == [];
  }

  lemma RowSingle(tokens: seq<Token>, t: Token, s: Units, c: CodeUnit)
    requires !t.Repeats()
    ensures Matches(tokens + [t], s + [c]) <==> Matches(tokens, s) && t.Consumes(c)
  {
    var text := s + [c];
    MatchesLast(tokens, t, text);
    assert text[..|s|] == s && text[|s|..] == [c];
    forall k | 0 <= k <= |text| && t.Spans(text[k..])
      ensures k == |s|
    {
    }
  }

  lemma RowRepeat(tokens: seq<Token>, t: Token, s: Units, c: CodeUnit)
    requires t.Repeats()
    ensures Matches(tokens + [t], s + [c]) <==>
      Matches(tokens, s + [c]) || (t.Consumes(c) && Matches(tokens + [t], s))
  {
    hide Matches;
    var text := s + [c];
    MatchesLast(tokens, t, text);
    MatchesLast(tokens, t, s);
    assert text[..|text|] == text && text[|text|..] == [];
    forall k | 0 <= k <= |s|
      ensures text[..k] == s[..k] && text[k..] == s[k..] + [c]
      ensures t.Spans(text[k..]) <==> t.Spans(s[k..]) && t.Consumes(c)
    {
      assert text[k..][|s| - k] == c;
      assert forall i :: 0 <= i < |s| - k ==> text[k..][i] == s[k..][i];
    }
  }

  // ----- Collapsing runs of globstars -----

  /** What compiling keeps: a globstar right after a globstar is dropped. */
  function Collapse(tokens: seq<Token>): (r: seq<Token>)
    ensures |r| <= |tokens|
  {
    if tokens == [] then []
    else
      var init := Collapse(tokens[..|tokens| - 1]);
      if tokens[|tokens| - 1].GlobStar? && init != [] && init[|init| - 1].GlobStar? then init
      else init + [tokens[|tokens| - 1]]
  }

  lemma RepeatTwice(tokens: seq<Token>, t: Token, s: Units)
    requires t.Repeats()
    ensures Matches(tokens + [t] + [t], s) <==> Matches(tokens + [t], s)
  {
    hide Matches;
    MatchesLast(tokens + [t], t, s);
    if k :| 0 <= k <= |s| && Matches(tokens + [t], s[..k]) && t.Spans(s[k..]) {
      RepeatExtends(tokens, t, s, k);
    }
    if Matches(tokens + [t], s) {
      assert s[..|s|] == s && s[|s|..] == [];
    }
  }

  lemma RepeatExtends(tokens: seq<Token>, t: Token, s: Units, k: nat)
    requires t.Repeats() && k <= |s| && Matches(tokens + [t], s[..k]) && t.Spans(s[k..])
    ensures Matches(tokens + [t], s)
  {
    hide Matches;
    MatchesLast(tokens, t, s[..k]);
    var j :| 0 <= j <= |s[..k]| && Matches(tokens, s[..k][..j]) && t.Spans(s[..k][j..]);
    assert s[..k][..j] == s[..j] && s[j..] == s[..k][j..] + s[k..];
    MatchesLast(tokens, t, s);
  }

  /** Dropping repeated globstars keeps the language. */
  lemma {:induction false} CollapseKeepsLanguage(tokens: seq<Token>, s: Units)
    ensures Matches(Collapse(tokens), s) <==> Matches(tokens, s)
    decreases |tokens|
  {
    hide Matches, Token.Spans;
    if tokens != [] {
      var init, t := tokens[..|tokens| - 1], tokens[|tokens| - 1];
      assert tokens == init + [t];
      var kept := Collapse(init);
      MatchesLast(init, t, s);
      MatchesLast(kept, t, s);
      forall k | 0 <= k <= |s|
        ensures Matches(kept, s[..k]) <==> Matches(init, s[..k])
      {
        CollapseKeepsLanguage(init, s[..k]);
      }
      if t.GlobStar? && kept != [] && kept[|kept| - 1].GlobStar? {
        assert kept == kept[..|kept| - 1] + [t];
        RepeatTwice(kept[..|kept| - 1], t, s);
      }
    }
  }

  lemma CollapseLast(tokens: seq<Token>, t: Token)
    ensures Collapse(tokens + [t]) ==
      (var init := Collapse(tokens);
       if t.GlobStar? && init != [] && init[|init| - 1].GlobStar? then init else init + [t])
  {
    assert (tokens + [t])[..|tokens|] == tokens;
  }

  // ----- The work budget -----

  const MAX_SCOPED_QUERY_WORK: nat := 4_000_000

  /** The work left to one query. `cells` counts the automaton cells written under it. */
  class ScopedQueryBudget {
    var remaining: nat
    ghost var cells: nat

    ghost predicate Valid()
      reads this
    {
      remaining + cells <= MAX_SCOPED_QUERY_WORK
    }

    constructor ()
      ensures Valid() && remaining == MAX_SCOPED_QUERY_WORK && cells == 0
    {
      remaining := MAX_SCOPED_QUERY_WORK;
      cells := 0;
    }

    /** Charges work in advance; a charge that does not fit is refused and changes nothing. */
    method Consume(units: nat) returns (ok: bool)
      requires Valid()
      modifies this`remaining
      ensures Valid()
      ensures ok <==> units <= old(remaining)
      ensures remaining == if ok then old(remaining) - units else old(remaining)
    {
      if units > remaining {
        return false;
      }
      remaining := remaining - units;
      return true;
    }
  }

  // ----- The compiled matcher -----

  lemma TokenizeStep(glob: Units, i: nat)
    requires i < |glob|
    ensures Tokenize(glob[i..]) ==
      if glob[i] == STAR && i + 1 < |glob| && glob[i + 1] == STAR then [GlobStar] + Tokenize(glob[i + 2..])
      else [UnitToken(glob[i])] + Tokenize(glob[i + 1..])
  {
    var rest := glob[i..];
    assert rest[1..] == glob[i + 1..];
    if |rest| >= 2 {
      assert rest[2..] == glob[i + 2..];
    }
  }

  lemma StepKeepsTokens(seen: seq<Token>, t: Token, later: seq<Token>, all: seq<Token>)
    requires seen + ([t] + later) == all
    ensures seen + [t] + later == all
  {
    assert seen + [t] + later == seen + ([t] + later);
  }

  /** The compiling loop: pairs of stars become globstars, and a globstar after a globstar is not pushed. */
  method CompileTokens(glob: Units) returns (compiled: seq<Token>)
    ensures compiled == Collapse(Tokenize(glob))
  {
    hide Tokenize, Collapse, UnitToken;
    compiled := [];
    CollapseNothing();
    ghost var seen: seq<Token> := [];
    assert glob[0..] == glob;
    var i := 0;
    while i < |glob|
      invariant 0 <= i <= |glob|
      invariant seen + Tokenize(glob[i..]) == Tokenize(glob)
      invariant compiled == Collapse(seen)
    {
      var ch := glob[i];
      TokenizeStep(glob, i);
      if ch == STAR && i + 1 < |glob| && glob[i + 1] == STAR {
        CollapseLast(seen, GlobStar);
        StepKeepsTokens(seen, GlobStar, Tokenize(glob[i + 2..]), Tokenize(glob));
        if |compiled| == 0 || compiled[|compiled| - 1] != GlobStar {
          compiled := compiled + [GlobStar];
        }
        seen := seen + [GlobStar];
        i := i + 1;
      } else {
        CollapseLast(seen, UnitToken(ch));
        StepKeepsTokens(seen, UnitToken(ch), Tokenize(glob[i + 1..]), Tokenize(glob));
        UnitTokenIsNotGlobStar(ch);
        compiled := compiled + [UnitToken(ch)];
        seen := seen + [UnitToken(ch)];
      }
      i := i + 1;
    }
    assert glob[|glob|..] == [];
    TokenizeNothing();
    assert seen + [] == seen;
  }

  lemma CollapseNothing()
    ensures Collapse([]) == []
  {
  }

  lemma TokenizeNothing()
    ensures Tokenize([]) == []
  {
  }

  lemma UnitTokenIsNotGlobStar(c: CodeUnit)
    ensures UnitToken(c) != GlobStar
  {
  }

  class CompiledGlob {
    ghost const source: Units
    const tokens: seq<Token>
    var previous: array<uint8>
    var current: array<uint8>

    ghost predicate Valid()
      reads this
    {
      && previous != current && previous.Length == current.Length == |tokens| + 1
      && tokens == Collapse(Tokenize(source))
    }

    constructor (glob: Units)
      ensures Valid() && fresh(previous) && fresh(current)
      ensures source == glob
    {
      var compiled := CompileTokens(glob);
      source := glob;
      tokens := compiled;
      previous := new uint8[|compiled| + 1];
      current := new uint8[|compiled| + 1];
    }

    /** Row entry `i` says whether the first `i` tokens match the text read so far. */
    ghost predicate RowFor(row: seq<uint8>, upto: nat, read: Units)
      requires upto <= |row| && upto <= |tokens| + 1
    {
      forall i :: 0 <= i < upto ==> (row[i] != 0 <==> Matches(tokens[..i], read))
    }

    /**
     * Matches a path, whatever earlier calls left in the two rows. The whole table is paid for first:
     * a path too long for the budget is refused before any cell is written.
     */
    method Accepts(path: Units, budget: ScopedQueryBudget) returns (r: Option<bool>)
      requires Valid() && budget.Valid()
      modifies this`previous, this`current, previous, current, budget
      ensures Valid() && budget.Valid()
      ensures {previous, current} == {old(previous), old(current)}
      ensures r.Some? <==> (|tokens| + 1) * (|path| + 1) <= old(budget.remaining)
      ensures r.Some? ==>
        && (r.value <==> Language(source, path))
        && budget.remaining == old(budget.remaining) - (|tokens| + 1) * (|path| + 1)
        && budget.cells == old(budget.cells) + (|tokens| + 1) * (|path| + 1)
      ensures r.None? ==> budget.remaining == old(budget.remaining) && budget.cells == old(budget.cells)
    {
      hide Tokenize, Collapse, Matches, Language;
      var width := |tokens| + 1;
      var paid := budget.Consume(width * (|path| + 1));
      if !paid {
        return None;
      }
      StartRow(budget);
      for offset := 0 to |path|
        invariant Valid() && {previous, current} == {old(previous), old(current)}
        invariant RowFor(previous[..], width, path[..offset])
        invariant budget.remaining == old(budget.remaining) - width * (|path| + 1)
        invariant budget.cells == old(budget.cells) + width * (offset + 1)
      {
        NextRow(path[..offset], path[offset], budget);
        assert path[..offset] + [path[offset]] == path[..offset + 1];
        var swap := previous;
        previous := current;
        current := swap;
      }
      assert path[..|path|] == path && tokens[..width - 1] == tokens;
      CollapseKeepsLanguage(Tokenize(source), path);
      TokensMeanCharacters(source, path);
      return Some(previous[width - 1] != 0);
    }

    method StartRow(budget: ScopedQueryBudget)
      requires Valid()
      modifies previous, budget`cells
      ensures RowFor(previous[..], |tokens| + 1, [])
      ensures budget.cells == old(budget.cells) + |tokens| + 1
    {
      previous[0] := 1;
      budget.cells := budget.cells + 1;
      for i := 1 to |tokens| + 1
        invariant RowFor(previous[..], i, [])
        invariant budget.cells == old(budget.cells) + i
      {
        var token := tokens[i - 1];
        RowStart(tokens[..i - 1], token);
        assert tokens[..i] == tokens[..i - 1] + [token];
        previous[i] := if token.Star? || token.GlobStar? then previous[i - 1] else 0;
        budget.cells := budget.cells + 1;
      }
    }

    /** Fills `current` from `previous` for one more unit of the path. */
    method NextRow(ghost read: Units, ch: CodeUnit, budget: ScopedQueryBudget)
      requires Valid() && RowFor(previous[..], |tokens| + 1, read)
      modifies current, budget`cells
      ensures RowFor(current[..], |tokens| + 1, read + [ch])
      ensures budget.cells == old(budget.cells) + |tokens| + 1
    {
      current[0] := 0;
      budget.cells := budget.cells + 1;
      for i := 1 to |tokens| + 1
        invariant RowFor(previous[..], |tokens| + 1, read)
        invariant RowFor(current[..], i, read + [ch])
        invariant budget.cells == old(budget.cells) + i
      {
        var token := tokens[i - 1];
        assert tokens[..i] == tokens[..i - 1] + [token];
        if token.Star? || token.GlobStar? {
          var consumes := if token.Star? then ch != SLASH else !IsLineTerminator(ch);
          RowRepeat(tokens[..i - 1], token, read, ch);
          current[i] := if current[i - 1] != 0 then current[i - 1] else if consumes then previous[i] else 0;
        } else {
          RowSingle(tokens[..i - 1], token, read, ch);
          current[i] := if previous[i - 1] != 0 && (if token.AnyUnit? then ch != SLASH else token.unit == ch) then 1 else 0;
        }
        budget.cells := budget.cells + 1;
      }
    }
  }
}
