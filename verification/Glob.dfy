/** The glob compiler of the policy evaluator (pkg/core/policy/evaluate.go): a glob is
    split on '*', its parts are quoted, and the result is joined into the text of an
    anchored regular expression, which Go's regexp package then compiles and runs.

    The fragment of regular-expression syntax that can occur is parsed and run here, so
    that what is proved covers the quoting as well as the matching. */
module Glob {
  import opened Prelude

  // --- strings.Split, strings.Join, regexp.QuoteMeta ------------------------------

  function Split(pattern: string): (parts: seq<string>)
    ensures |parts| >= 1
  {
    if pattern == "" then [""]
    else
      var rest := Split(pattern[1..]);
      if pattern[0] == '*' then [""] + rest
      else [[pattern[0]] + rest[0]] + rest[1..]
  }

  function Join(parts: seq<string>, sep: string): string {
    if parts == [] then ""
    else if |parts| == 1 then parts[0]
    else parts[0] + sep + Join(parts[1..], sep)
  }

  // What regexp.QuoteMeta escapes.
  predicate IsMeta(c: char) {
    c in "\\.+*?()|[]{}^$"
  }

  function QuoteChar(c: char): string {
    if IsMeta(c) then ['\\', c] else [c]
  }

  function Quote(part: string): string {
    if part == "" then "" else QuoteChar(part[0]) + Quote(part[1..])
  }

  // --- The regular expressions that can occur -------------------------------------

  datatype Node = Begin | End | Literal(c: char) | AnyButNewline | Star(node: Node)

  // ASCII punctuation: what a backslash turns into a literal in Go's syntax.
  predicate IsEscapable(c: char) {
    c < 128 as char && !('0' <= c <= '9') && !('A' <= c <= 'Z') && !('a' <= c <= 'z')
  }

  // One atom and the text after it. None: not in this fragment of the syntax.
  function ParseAtom(text: string): (r: Option<(Node, string)>)
    requires text != ""
    ensures r.Some? ==> |r.value.1| < |text|
  {
    var c := text[0];
    if c == '\\' then
      if |text| >= 2 && IsEscapable(text[1]) then Some((Literal(text[1]), text[2..])) else None
    else if c == '^' then Some((Begin, text[1..]))
    else if c == '$' then Some((End, text[1..]))
    else if c == '.' then Some((AnyButNewline, text[1..]))
    else if c in "+*?()|[]{}" then None
    else Some((Literal(c), text[1..]))
  }

  function ParseRegex(text: string): Option<seq<Node>>
    decreases |text|
  {
    if text == "" then Some([])
    else
      match ParseAtom(text)
      case None => None
      case Some((node, rest)) =>
        if rest != "" && rest[0] == '*' then
          if !(node.Literal? || node.AnyButNewline?) then None
          else
            match ParseRegex(rest[1..])
            case None => None
            case Some(nodes) => Some([Star(node)] + nodes)
        else
          match ParseRegex(rest)
          case None => None
          case Some(nodes) => Some([node] + nodes)
  }

  // s[i..j] is a match for the node, inside the whole subject s.
  predicate NodeMatches(node: Node, s: string, i: nat, j: nat)
    requires i <= j <= |s|
    decreases node, j - i
  {
    match node
    case Begin => i == j == 0
    case End => i == j == |s|
    case Literal(c) => j == i + 1 && s[i] == c
    case AnyButNewline => j == i + 1 && s[i] != '\n'
    case Star(inner) =>
      i == j || exists k | i < k <= j :: NodeMatches(inner, s, i, k) && NodeMatches(node, s, k, j)
  }

  predicate NodesMatch(nodes: seq<Node>, s: string, i: nat, j: nat)
    requires i <= j <= |s|
  {
    if nodes == [] then i == j
    else exists k | i <= k <= j :: NodeMatches(nodes[0], s, i, k) && NodesMatch(nodes[1..], s, k, j)
  }

  // regexp.MatchString searches for a match anywhere in s.
  predicate MatchString(nodes: seq<Node>, s: string) {
    exists i, j | 0 <= i <= j <= |s| :: NodesMatch(nodes, s, i, j)
  }

  // --- What a glob means ----------------------------------------------------------

  ghost predicate NewlineFree(s: string) {
    '\n' !in s
  }

  // parts[0] gaps[0] parts[1] gaps[1] ... parts[n]
  ghost function Weave(parts: seq<string>, gaps: seq<string>): string
    requires |parts| == |gaps| + 1
  {
    if gaps == [] then parts[0] else parts[0] + gaps[0] + Weave(parts[1..], gaps[1..])
  }

  ghost predicate Fills(parts: seq<string>, gaps: seq<string>, s: string) {
    |parts| == |gaps| + 1 && (forall g | g in gaps :: NewlineFree(g)) && s == Weave(parts, gaps)
  }

  /** s is the pattern with every '*' replaced by some newline-free text. */
  ghost predicate GlobAccepts(pattern: string, s: string) {
    pattern == "" || exists gaps :: Fills(Split(pattern), gaps, s)
  }

  lemma FillsOne(parts: seq<string>, s: string)
    requires |parts| == 1
    ensures Fills(parts, [], s) <==> s == parts[0]
    ensures (exists gaps :: Fills(parts, gaps, s)) <==> s == parts[0]
  {
    if s == parts[0] {
      assert Fills(parts, [], s);
    }
  }

  lemma FillsCons(parts: seq<string>, gap: string, gaps: seq<string>, rest: string)
    requires |parts| > 1 && NewlineFree(gap) && Fills(parts[1..], gaps, rest)
    ensures Fills(parts, [gap] + gaps, parts[0] + gap + rest)
  {
    var all := [gap] + gaps;
    assert all[1..] == gaps;
  }

  lemma FillsUncons(parts: seq<string>, gaps: seq<string>, s: string) returns (rest: string)
    requires |parts| > 1 && Fills(parts, gaps, s)
    ensures gaps != [] && NewlineFree(gaps[0]) && Fills(parts[1..], gaps[1..], rest)
    ensures s == parts[0] + gaps[0] + rest
  {
    rest := Weave(parts[1..], gaps[1..]);
    assert gaps[0] in gaps;
    assert forall g | g in gaps[1..] :: g in gaps;
  }

  // Split is the inverse of joining with '*', and its parts are star-free.
  lemma {:induction false} SplitInvertsJoin(pattern: string)
    ensures Join(Split(pattern), "*") == pattern
    ensures forall p | p in Split(pattern) :: '*' !in p
  {
    if pattern != "" {
      SplitInvertsJoin(pattern[1..]);
      var rest := Split(pattern[1..]);
      assert pattern == [pattern[0]] + pattern[1..];
      if pattern[0] == '*' {
        assert ([""] + rest)[1..] == rest;
      } else {
        var parts := [[pattern[0]] + rest[0]] + rest[1..];
        assert parts[1..] == rest[1..];
        if |rest| > 1 {
          assert parts[0] + "*" + Join(rest[1..], "*") == [pattern[0]] + (rest[0] + "*" + Join(rest[1..], "*"));
        }
      }
    }
  }

  // --- The compiled text parses to the expected nodes -----------------------------

  ghost function Literals(part: string): seq<Node> {
    if part == "" then [] else [Literal(part[0])] + Literals(part[1..])
  }

  ghost function Compiled(parts: seq<string>): seq<Node>
    requires |parts| >= 1
  {
    if |parts| == 1 then Literals(parts[0]) + [End]
    else Literals(parts[0]) + [Star(AnyButNewline)] + Compiled(parts[1..])
  }

  function QuoteAll(parts: seq<string>): (qs: seq<string>)
    ensures |qs| == |parts|
    ensures forall i | 0 <= i < |parts| :: qs[i] == Quote(parts[i])
  {
    seq(|parts|, i requires 0 <= i < |parts| => Quote(parts[i]))
  }

  lemma MetaIsEscapable(c: char)
    requires IsMeta(c)
    ensures IsEscapable(c)
  {
  }

  lemma QuotedCharIsAnAtom(c: char, after: string)
    ensures ParseAtom(QuoteChar(c) + after) == Some((Literal(c), after))
  {
    if IsMeta(c) {
      MetaIsEscapable(c);
      assert (['\\', c] + after)[2..] == after;
    } else {
      assert ([c] + after)[1..] == after;
    }
  }

  lemma AtomThenRest(text: string, c: char, after: string)
    requires text != "" && ParseAtom(text) == Some((Literal(c), after)) && (after == "" || after[0] != '*')
    requires ParseRegex(after).Some?
    ensures ParseRegex(text) == Some([Literal(c)] + ParseRegex(after).value)
  {
    hide ParseAtom;
  }

  lemma {:induction false} QuotedParsesAsLiterals(part: string, rest: string)
    requires rest != "" && rest[0] != '*'
    requires ParseRegex(rest).Some?
    ensures ParseRegex(Quote(part) + rest) == Some(Literals(part) + ParseRegex(rest).value)
  {
    hide ParseAtom, ParseRegex, QuoteChar, Quote, Literals;
    if part == "" {
      NothingQuoted(rest, ParseRegex(rest).value);
    } else {
      var after := Quote(part[1..]) + rest;
      QuotedParsesAsLiterals(part[1..], rest);
      QuotedCharIsAnAtom(part[0], after);
      QuoteStartsWithoutStar(part[1..]);
      OneQuoted(part, rest, ParseRegex(rest).value);
      assert QuoteChar(part[0]) + after != "" by { QuoteCharIsSome(part[0]); }
      AtomThenRest(QuoteChar(part[0]) + after, part[0], after);
    }
  }

  lemma QuoteCharIsSome(c: char)
    ensures QuoteChar(c) != ""
  {
  }

  lemma NothingQuoted(rest: string, nodes: seq<Node>)
    ensures Quote("") + rest == rest && Literals("") + nodes == nodes
  {
  }

  lemma OneQuoted(part: string, rest: string, nodes: seq<Node>)
    requires part != ""
    ensures Quote(part) + rest == QuoteChar(part[0]) + (Quote(part[1..]) + rest)
    ensures Literals(part) + nodes == [Literal(part[0])] + (Literals(part[1..]) + nodes)
  {
    hide QuoteChar;
    Associates(QuoteChar(part[0]), Quote(part[1..]), rest);
    Associates([Literal(part[0])], Literals(part[1..]), nodes);
    assert Literals(part) == [Literal(part[0])] + Literals(part[1..]);
  }

  lemma Associates<T>(x: seq<T>, y: seq<T>, z: seq<T>)
    ensures (x + y) + z == x + (y + z)
  {
  }

  lemma QuoteStartsWithoutStar(part: string)
    ensures Quote(part) == "" || Quote(part)[0] != '*'
  {
  }

  lemma EndParses()
    ensures ParseRegex("$") == Some([End])
  {
    assert ParseAtom("$") == Some((End, ""));
    assert [End] + [] == [End];
  }

  lemma GapParses(tail: string)
    requires ParseRegex(tail).Some?
    ensures ParseRegex(".*" + tail) == Some([Star(AnyButNewline)] + ParseRegex(tail).value)
  {
    var text := ".*" + tail;
    assert text[1..] == "*" + tail && text[1..][1..] == tail;
    assert ParseAtom(text) == Some((AnyButNewline, "*" + tail));
  }

  lemma {:induction false} JoinedParses(parts: seq<string>)
    requires |parts| >= 1
    ensures ParseRegex(Join(QuoteAll(parts), ".*") + "$") == Some(Compiled(parts))
  {
    hide ParseRegex, Quote;
    var qs := QuoteAll(parts);
    EndParses();
    if |parts| == 1 {
      QuotedParsesAsLiterals(parts[0], "$");
    } else {
      JoinedParses(parts[1..]);
      assert qs[1..] == QuoteAll(parts[1..]);
      var tail := Join(qs[1..], ".*") + "$";
      GapParses(tail);
      QuotedParsesAsLiterals(parts[0], ".*" + tail);
      assert Join(qs, ".*") + "$" == qs[0] + (".*" + tail);
      assert Literals(parts[0]) + ([Star(AnyButNewline)] + Compiled(parts[1..])) == Compiled(parts);
    }
  }

  lemma CompiledTextParses(pattern: string)
    ensures ParseRegex("^" + Join(QuoteAll(Split(pattern)), ".*") + "$")
         == Some([Begin] + Compiled(Split(pattern)))
  {
    var tail := Join(QuoteAll(Split(pattern)), ".*") + "$";
    JoinedParses(Split(pattern));
    var text := "^" + tail;
    assert "^" + Join(QuoteAll(Split(pattern)), ".*") + "$" == text;
    assert text[1..] == tail;
    assert ParseAtom(text) == Some((Begin, tail));
    assert tail[0] != '*' by { FirstOfJoined(Split(pattern)); }
  }

  lemma FirstOfJoined(parts: seq<string>)
    requires |parts| >= 1
    ensures (Join(QuoteAll(parts), ".*") + "$")[0] != '*'
  {
    QuoteStartsWithoutStar(parts[0]);
  }

  // --- The nodes accept exactly the weaves ----------------------------------------

  lemma {:induction false} LiteralsMatch(part: string, nodes: seq<Node>, s: string, i: nat, j: nat)
    requires i <= j <= |s|
    ensures NodesMatch(Literals(part) + nodes, s, i, j)
       <==> i + |part| <= j && s[i..i + |part|] == part && NodesMatch(nodes, s, i + |part|, j)
  {
    var all := Literals(part) + nodes;
    if part == "" {
      assert all == nodes;
      assert s[i..i] == "";
    } else {
      assert all[0] == Literal(part[0]) && all[1..] == Literals(part[1..]) + nodes;
      if i < j {
        LiteralsMatch(part[1..], nodes, s, i + 1, j);
        assert NodesMatch(all, s, i, j) <==> s[i] == part[0] && NodesMatch(all[1..], s, i + 1, j) by {
          assert NodeMatches(all[0], s, i, i + 1) <==> s[i] == part[0];
        }
        if i + |part| <= j {
          assert s[i..i + |part|] == [s[i]] + s[i + 1..i + |part|];
          assert part == [part[0]] + part[1..];
          assert s[i..i + |part|][1..] == s[i + 1..i + |part|];
        }
      }
    }
  }

  lemma {:induction false} StarMatches(s: string, i: nat, j: nat)
    requires i <= j <= |s|
    ensures NodeMatches(Star(AnyButNewline), s, i, j) <==> NewlineFree(s[i..j])
    decreases j - i
  {
    var star := Star(AnyButNewline);
    if i < j {
      StarMatches(s, i + 1, j);
      assert s[i..j] == [s[i]] + s[i + 1..j];
      assert NodeMatches(star, s, i, j) <==> NodeMatches(AnyButNewline, s, i, i + 1) && NodeMatches(star, s, i + 1, j);
    } else {
      assert s[i..j] == "";
    }
  }

  lemma EndMatches(s: string, k: nat)
    requires k <= |s|
    ensures NodesMatch([End], s, k, |s|) <==> k == |s|
  {
    assert [End][1..] == [];
    if k == |s| {
      assert NodeMatches([End][0], s, k, k) && NodesMatch([End][1..], s, k, k);
    }
  }

  // A gap over s[a..k], then the remaining parts from k on.
  ghost predicate GapAt(parts: seq<string>, s: string, a: nat, k: nat)
    requires |parts| > 1
  {
    a <= k <= |s| && NewlineFree(s[a..k]) && exists gaps :: Fills(parts[1..], gaps, s[k..])
  }

  lemma WeaveFromGap(parts: seq<string>, s: string, i: nat, k: nat)
    requires |parts| > 1 && i + |parts[0]| <= |s| && s[i..i + |parts[0]|] == parts[0]
    requires GapAt(parts, s, i + |parts[0]|, k)
    ensures exists gaps :: Fills(parts, gaps, s[i..])
  {
    hide Fills;
    var a := i + |parts[0]|;
    var gaps :| Fills(parts[1..], gaps, s[k..]);
    FillsCons(parts, s[a..k], gaps, s[k..]);
    CutInThree(s, i, a, k);
  }

  lemma CutInThree(s: string, i: nat, j: nat, k: nat)
    requires i <= j <= k <= |s|
    ensures s[i..] == s[i..j] + s[j..k] + s[k..]
  {
  }

  lemma GapFromWeave(parts: seq<string>, s: string, i: nat, gaps: seq<string>) returns (k: nat)
    requires |parts| > 1 && i <= |s| && Fills(parts, gaps, s[i..])
    ensures i + |parts[0]| <= |s| && s[i..i + |parts[0]|] == parts[0] && GapAt(parts, s, i + |parts[0]|, k)
  {
    hide Fills;
    var a := i + |parts[0]|;
    var w := FillsUncons(parts, gaps, s[i..]);
    k := a + |gaps[0]|;
    assert s[i..a] == s[i..][..|parts[0]|] == parts[0];
    assert s[a..k] == s[i..][|parts[0]|..|parts[0]| + |gaps[0]|] == gaps[0];
    assert s[k..] == s[i..][|parts[0]| + |gaps[0]|..] == w;
  }

  lemma OnePartAccepts(parts: seq<string>, s: string, i: nat)
    requires |parts| == 1 && i <= |s|
    ensures NodesMatch(Compiled(parts), s, i, |s|) <==> exists gaps :: Fills(parts, gaps, s[i..])
  {
    hide Fills, NodesMatch, NodeMatches;
    var p, a := parts[0], i + |parts[0]|;
    LiteralsMatch(p, [End], s, i, |s|);
    if a <= |s| { EndMatches(s, a); }
    FillsOne(parts, s[i..]);
    assert s[i..|s|] == s[i..];
  }

  lemma {:induction false} CompiledAccepts(parts: seq<string>, s: string, i: nat)
    requires |parts| >= 1 && i <= |s|
    ensures NodesMatch(Compiled(parts), s, i, |s|) <==> exists gaps :: Fills(parts, gaps, s[i..])
    decreases |parts|
  {
    hide Fills, NodesMatch, NodeMatches, GapAt, Literals;
    var p, a := parts[0], i + |parts[0]|;
    if |parts| == 1 {
      OnePartAccepts(parts, s, i);
    } else {
      var rest := [Star(AnyButNewline)] + Compiled(parts[1..]);
      Associates(Literals(p), [Star(AnyButNewline)], Compiled(parts[1..]));
      LiteralsMatch(p, rest, s, i, |s|);
      if a <= |s| { GapThenCompiled(parts, s, a); }
      FillsIffGap(parts, s, i, a);
    }
  }

  lemma FillsIffGap(parts: seq<string>, s: string, i: nat, a: nat)
    requires |parts| > 1 && i <= |s| && a == i + |parts[0]|
    ensures (exists gaps :: Fills(parts, gaps, s[i..]))
       <==> a <= |s| && s[i..a] == parts[0] && exists k: nat :: GapAt(parts, s, a, k)
  {
    hide Fills, GapAt;
    if gaps :| Fills(parts, gaps, s[i..]) {
      var k := GapFromWeave(parts, s, i, gaps);
    } else if a <= |s| && s[i..a] == parts[0] {
      forall k: nat | GapAt(parts, s, a, k) ensures exists gaps :: Fills(parts, gaps, s[i..]) {
        WeaveFromGap(parts, s, i, k);
      }
    }
  }

  lemma {:induction false} GapThenCompiled(parts: seq<string>, s: string, a: nat)
    requires |parts| > 1 && a <= |s|
    ensures NodesMatch([Star(AnyButNewline)] + Compiled(parts[1..]), s, a, |s|)
        <==> exists k: nat :: GapAt(parts, s, a, k)
    decreases |parts|, 0
  {
    hide Fills, NodeMatches, Compiled;
    var rest := [Star(AnyButNewline)] + Compiled(parts[1..]);
    assert rest[1..] == Compiled(parts[1..]);
    forall k: nat | a <= k <= |s|
      ensures NodeMatches(rest[0], s, a, k) && NodesMatch(rest[1..], s, k, |s|) <==> GapAt(parts, s, a, k)
    {
      StarMatches(s, a, k);
      CompiledAccepts(parts[1..], s, k);
    }
  }

  lemma {:induction false} EndsAtEnd(parts: seq<string>, s: string, i: nat, j: nat)
    requires |parts| >= 1 && i <= j <= |s|
    requires NodesMatch(Compiled(parts), s, i, j)
    ensures j == |s|
    decreases |parts|
  {
    if |parts| == 1 {
      LiteralsMatch(parts[0], [End], s, i, j);
      assert [End][0] == End;
    } else {
      var rest := [Star(AnyButNewline)] + Compiled(parts[1..]);
      assert Compiled(parts) == Literals(parts[0]) + rest;
      LiteralsMatch(parts[0], rest, s, i, j);
      assert rest[1..] == Compiled(parts[1..]);
      var k :| i + |parts[0]| <= k <= j && NodesMatch(rest[1..], s, k, j);
      EndsAtEnd(parts[1..], s, k, j);
    }
  }

  /** Compilation preserves meaning: the anchored expression built from a non-empty
      pattern compiles, and matches s exactly when s is the pattern with its stars filled in. */
  lemma CompilationPreservesMeaning(pattern: string, s: string)
    requires pattern != ""
    ensures var text := "^" + Join(QuoteAll(Split(pattern)), ".*") + "$";
            ParseRegex(text).Some? && (MatchString(ParseRegex(text).value, s) <==> GlobAccepts(pattern, s))
  {
    CompiledTextParses(pattern);
    var parts := Split(pattern);
    var nodes := [Begin] + Compiled(parts);
    assert nodes[1..] == Compiled(parts);
    CompiledAccepts(parts, s, 0);
    assert s[0..] == s;
    if MatchString(nodes, s) {
      var i, j :| 0 <= i <= j <= |s| && NodesMatch(nodes, s, i, j);
      var k :| i <= k <= j && NodeMatches(nodes[0], s, i, k) && NodesMatch(nodes[1..], s, k, j);
      EndsAtEnd(parts, s, 0, j);
    }
    if GlobAccepts(pattern, s) {
      assert NodeMatches(nodes[0], s, 0, 0);
      assert NodesMatch(nodes, s, 0, |s|);
    }
  }

  method GlobMatch(pattern: string, s: string) returns (matched: bool)
    ensures matched <==> GlobAccepts(pattern, s)
  {
    if pattern == "" {
      return true;
    }
    var parts := Split(pattern);
    var regexParts := new string[|parts|](_ => "");
    for i := 0 to |parts|
      invariant forall k | 0 <= k < i :: regexParts[k] == Quote(parts[k])
    {
      regexParts[i] := Quote(parts[i]);
    }
    assert regexParts[..] == QuoteAll(parts);
    CompilationPreservesMeaning(pattern, s);
    var re := ParseRegex("^" + Join(regexParts[..], ".*") + "$");
    matched := re.Some? && MatchString(re.value, s);
  }

  method AnyGlobMatch(patterns: seq<string>, s: string) returns (matched: bool)
    ensures matched <==> exists p | p in patterns :: GlobAccepts(p, s)
  {
    for i := 0 to |patterns|
      invariant forall k | 0 <= k < i :: !GlobAccepts(patterns[k], s)
    {
      var m := GlobMatch(patterns[i], s);
      if m {
        return true;
      }
    }
    return false;
  }

  // --- A linear matcher -----------------------------------------------------------

  // Where part first occurs in s at or after from.
  function FirstIndex(s: string, part: string, from: nat := 0): (r: Option<nat>)
    requires from <= |s|
    ensures r.Some? ==> from <= r.value && OccursAt(s, part, r.value)
    ensures forall i: nat | from <= i && OccursAt(s, part, i) :: r.Some? && r.value <= i
    decreases |s| - from
  {
    if OccursAt(s, part, from) then Some(from)
    else if from == |s| then None
    else FirstIndex(s, part, from + 1)
  }

  // parts preceded by a gap: take each part where it first occurs, the last one at the end.
  predicate LeftmostFrom(parts: seq<string>, s: string)
    requires |parts| >= 1
  {
    if |parts| == 1 then |parts[0]| <= |s| && s[|s| - |parts[0]|..] == parts[0]
    else
      match FirstIndex(s, parts[0])
      case None => false
      case Some(i) => LeftmostFrom(parts[1..], s[i + |parts[0]|..])
  }

  /** One pass, no backtracking. */
  predicate LeftmostMatch(pattern: string, s: string) {
    var parts := Split(pattern);
    if |parts| == 1 then s == pattern
    else parts[0] <= s && LeftmostFrom(parts[1..], s[|parts[0]|..])
  }

  lemma {:induction false} LeftmostIsComplete(parts: seq<string>, s: string, k: nat, gaps: seq<string>)
    requires |parts| >= 1 && k <= |s| && Fills(parts, gaps, s[k..])
    ensures LeftmostFrom(parts, s)
    decreases |parts|
  {
    hide Fills;
    var p := parts[0];
    if |parts| == 1 {
      FillsOne(parts, s[k..]);
    } else {
      var w := FillsUncons(parts, gaps, s[k..]);
      assert s[k..k + |p|] == s[k..][..|p|] == p;
      assert OccursAt(s, p, k);
      var rest := s[FirstIndex(s, p).value + |p|..];
      var k' := |rest| - |w|;
      assert rest[k'..] == s[|s| - |w|..] == s[k..][|s| - |w| - k..] == w;
      LeftmostIsComplete(parts[1..], rest, k', gaps[1..]);
    }
  }

  lemma {:induction false} LeftmostIsSound(parts: seq<string>, s: string) returns (k: nat, gaps: seq<string>)
    requires |parts| >= 1 && NewlineFree(s) && LeftmostFrom(parts, s)
    ensures k <= |s| && Fills(parts, gaps, s[k..])
    decreases |parts|
  {
    hide Fills, NewlineFree, OccursAt;
    var p := parts[0];
    if |parts| == 1 {
      k, gaps := |s| - |p|, [];
      FillsOne(parts, s[k..]);
    } else {
      OccurrenceFits(s, p, FirstIndex(s, p).value);
      k := FirstIndex(s, p).value;
      var rest := s[k + |p|..];
      NewlineFreeSuffix(s, k + |p|);
      var k', gaps' := LeftmostIsSound(parts[1..], rest);
      PrependPart(parts, s, k, k', gaps');
      gaps := [rest[..k']] + gaps';
    }
  }

  lemma OccurrenceFits(s: string, part: string, i: nat)
    requires OccursAt(s, part, i)
    ensures i + |part| <= |s|
  {
  }

  lemma NewlineFreeSuffix(s: string, i: nat)
    requires NewlineFree(s) && i <= |s|
    ensures NewlineFree(s[i..])
  {
    assert forall c | c in s[i..] :: c in s;
  }

  lemma PrependPart(parts: seq<string>, s: string, k: nat, k': nat, gaps: seq<string>)
    requires |parts| > 1 && NewlineFree(s) && OccursAt(s, parts[0], k)
    requires k' <= |s[k + |parts[0]|..]| && Fills(parts[1..], gaps, s[k + |parts[0]|..][k'..])
    ensures Fills(parts, [s[k + |parts[0]|..][..k']] + gaps, s[k..])
  {
    hide Fills;
    var p := parts[0];
    var rest := s[k + |p|..];
    FillsCons(parts, rest[..k'], gaps, rest[k'..]);
    assert s[k..] == p + rest[..k'] + rest[k'..] by {
      assert s[k..] == s[k..k + |p|] + rest;
      assert rest == rest[..k'] + rest[k'..];
    }
  }

  /** On newline-free subjects the backtracking search can be replaced by the linear pass. */
  lemma LeftmostMatchIsExact(pattern: string, s: string)
    requires pattern != "" && NewlineFree(s)
    ensures LeftmostMatch(pattern, s) <==> GlobAccepts(pattern, s)
  {
    hide Fills, LeftmostFrom, Split;
    var parts := Split(pattern);
    var p := parts[0];
    if |parts| == 1 {
      SplitInvertsJoin(pattern);
      FillsOne(parts, s);
    } else {
      if LeftmostMatch(pattern, s) {
        var k, gaps := LeftmostIsSound(parts[1..], s[|p|..]);
        assert OccursAt(s, p, 0) && s[0..] == s;
        PrependPart(parts, s, 0, k, gaps);
      }
      if gaps :| Fills(parts, gaps, s) {
        var w := FillsUncons(parts, gaps, s);
        var rest := s[|p|..];
        assert rest == gaps[0] + w;
        LeftmostIsComplete(parts[1..], rest, |gaps[0]|, gaps[1..]);
      }
    }
  }

  /** The hypothesis is needed: a gap stops at a newline, the linear pass does not look. */
  lemma NewlineSeparatesThem()
    ensures LeftmostMatch("*", "\n") && !GlobAccepts("*", "\n")
  {
    assert Split("")  == [""];
    assert Split("*") == ["", ""];
    assert ["", ""][1..] == [""];
    forall gaps ensures !Fills(["", ""], gaps, "\n") {
      if |gaps| == 1 {
        assert gaps[1..] == [];
        assert Weave(["", ""], gaps) == gaps[0];
        assert gaps[0] in gaps;
        assert "\n"[0] == '\n';
      }
    }
  }
}
