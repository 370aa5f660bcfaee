/** `QueryCache::matches_pattern` of `cache.rs`: a leftmost-greedy matcher for `*` wildcards,
    against what a glob means and against an exact characterisation of what it accepts. */
module GlobMatch {
  import opened Wrappers
  import opened Strings

  const STAR: char := '*'

  /** What a pattern means: `*` stands for any text, everything else for itself. */
  ghost predicate Glob(text: string, pattern: string)
    decreases |pattern|
  {
    if pattern == "" then text == ""
    else if pattern[0] == STAR then exists i :: 0 <= i <= |text| && Glob(text[i..], pattern[1..])
    else text != "" && text[0] == pattern[0] && Glob(text[1..], pattern[1..])
  }

  /** The parts occur at the given places, in order and without overlap. */
  ghost predicate Placed(text: string, parts: seq<string>, at: seq<nat>) {
    && |at| == |parts|
    && (forall i :: 0 <= i < |parts| ==> OccursAt(text, parts[i], at[i]))
    && (forall i :: 0 < i < |parts| ==> at[i - 1] + |parts[i - 1]| <= at[i])
  }

  /** All parts but the last are placed, the first of them at the start of the text. */
  ghost predicate Laid(text: string, parts: seq<string>, at: seq<nat>)
    requires |parts| > 1
  {
    Placed(text, parts[..|parts| - 1], at) && at[0] == 0
  }

  /** Where the last placed part ends. */
  function EndOf(parts: seq<string>, at: seq<nat>): nat
    requires |at| == |parts| > 0
  {
    at[|at| - 1] + |parts[|at| - 1]|
  }

  /** The cursor after the leftmost-greedy placement of the middle parts from `pos`. */
  function Greedy(text: string, middle: seq<string>, pos: nat): (end: Option<nat>)
    requires pos <= |text|
    ensures end.Some? ==> pos <= end.value <= |text|
    decreases |middle|
  {
    if middle == [] then Some(pos)
    else
      match Find(text, middle[0], pos)
      case None => None
      case Some(i) => Greedy(text, middle[1..], i + |middle[0]|)
  }

  function Matches(text: string, pattern: string): bool {
    var parts := Split(pattern, STAR);
    if |parts| == 1 then text == pattern else MatchesParts(text, parts)
  }

  predicate MatchesParts(text: string, parts: seq<string>)
    requires |parts| > 1
  {
    GreedyEnd(text, parts).Some? && EndsWith(text, parts[|parts| - 1])
  }

  /** Where the greedy placement of everything but the last part ends. */
  function GreedyEnd(text: string, parts: seq<string>): Option<nat>
    requires |parts| > 1
  {
    if OccursAt(text, parts[0], 0) then Greedy(text, parts[1..|parts| - 1], |parts[0]|) else None
  }

  /** What is left of the greedy placement at part i, with the cursor at `pos`. */
  function GreedyFrom(text: string, parts: seq<string>, i: nat, pos: nat): Option<nat>
    requires i < |parts| && pos <= |text|
  {
    Greedy(text, parts[i..|parts| - 1], pos)
  }

  lemma GreedyNext(text: string, parts: seq<string>, i: nat, pos: nat)
    requires i < |parts| && pos <= |text|
    ensures GreedyFrom(text, parts, i, pos) ==
            if i == |parts| - 1 then Some(pos)
            else
              match Find(text, parts[i], pos)
              case None => None
              case Some(at) => GreedyFrom(text, parts, i + 1, at + |parts[i]|)
    ensures parts[i] == "" ==> Find(text, parts[i], pos) == Some(pos)
  {
    if i < |parts| - 1 {
      assert parts[i..|parts| - 1][1..] == parts[i + 1..|parts| - 1];
    }
  }

  /** `matches_pattern`. */
  method MatchesPattern(query: string, pattern: string) returns (matched: bool)
    ensures matched == Matches(query, pattern)
  {
    var parts := Split(pattern, STAR);
    if |parts| == 1 {
      return query == pattern;
    }
    matched := PlaceParts(query, parts);
  }

  /** Its loop, with the position cursor. The slice `query[pos..]` stays in range because
      `pos <= |query|` is kept. */
  method PlaceParts(query: string, parts: seq<string>) returns (matched: bool)
    requires |parts| > 1
    ensures matched == MatchesParts(query, parts)
  {
    var pos: nat := 0;
    for i := 0 to |parts|
      invariant pos <= |query|
      invariant i == 0 ==> pos == 0
      invariant 0 < i ==> OccursAt(query, parts[0], 0)
      invariant 0 < i < |parts| ==> GreedyFrom(query, parts, 1, |parts[0]|) == GreedyFrom(query, parts, i, pos)
      invariant i == |parts| ==> GreedyFrom(query, parts, 1, |parts[0]|).Some? && EndsWith(query, parts[i - 1])
    {
      var part := parts[i];
      GreedyNext(query, parts, i, pos);
      if part != "" {
        if i == 0 {
          if !OccursAt(query, part, 0) {
            return false;
          }
          pos := |part|;
        } else if i == |parts| - 1 {
          if !EndsWith(query, part) {
            return false;
          }
        } else {
          match Find(query, part, pos)
          case Some(idx) => pos := idx + |part|;
          case None => return false;
        }
      }
    }
    return true;
  }

  // ----- What the greedy cursor achieves -----

  lemma PlacedCons(text: string, part: string, from: nat, parts: seq<string>, at: seq<nat>)
    requires OccursAt(text, part, from) && Placed(text, parts, at)
    requires parts != [] ==> from + |part| <= at[0]
    ensures Placed(text, [part] + parts, [from] + at)
  {
  }

  lemma EndOfCons(part: string, from: nat, parts: seq<string>, at: seq<nat>)
    requires |parts| == |at|
    ensures EndOf([part] + parts, [from] + at) == if parts == [] then from + |part| else EndOf(parts, at)
  {
  }

  lemma PlacedTail(text: string, parts: seq<string>, at: seq<nat>)
    requires Placed(text, parts, at) && parts != []
    ensures Placed(text, parts[1..], at[1..])
  {
  }

  /** Exchange argument: no placement after `pos` can end before the greedy one. */
  lemma {:induction false} GreedyIsLeast(text: string, middle: seq<string>, at: seq<nat>, pos: nat)
    requires pos <= |text| && middle != [] && Placed(text, middle, at) && pos <= at[0]
    ensures Greedy(text, middle, pos).Some?
    ensures Greedy(text, middle, pos).value <= EndOf(middle, at)
    decreases |middle|
  {
    var i := Find(text, middle[0], pos).value;
    if |middle| > 1 {
      PlacedTail(text, middle, at);
      GreedyIsLeast(text, middle[1..], at[1..], i + |middle[0]|);
    }
  }

  /** The greedy cursor is the end of an actual placement. */
  lemma {:induction false} GreedyPlaces(text: string, middle: seq<string>, pos: nat) returns (at: seq<nat>)
    requires pos <= |text| && Greedy(text, middle, pos).Some?
    ensures Placed(text, middle, at)
    ensures middle == [] ==> Greedy(text, middle, pos) == Some(pos)
    ensures middle != [] ==> pos <= at[0] && EndOf(middle, at) == Greedy(text, middle, pos).value
    decreases |middle|
  {
    if middle == [] {
      at := [];
    } else {
      var part, behind := middle[0], middle[1..];
      var i := Find(text, part, pos).value;
      var rest := GreedyPlaces(text, behind, i + |part|);
      at := [i] + rest;
      PlacedCons(text, part, i, behind, rest);
      assert middle == [part] + behind;
      EndOfCons(part, i, behind, rest);
    }
  }

  lemma GreedyEndIsLeast(text: string, parts: seq<string>, at: seq<nat>)
    requires |parts| > 1 && Laid(text, parts, at)
    ensures GreedyEnd(text, parts).Some? && GreedyEnd(text, parts).value <= EndOf(parts[..|parts| - 1], at)
  {
    var init := parts[..|parts| - 1];
    if |init| > 1 {
      assert init[1..] == parts[1..|parts| - 1];
      PlacedTail(text, init, at);
      GreedyIsLeast(text, init[1..], at[1..], |parts[0]|);
    }
  }

  lemma GreedyEndIsLaid(text: string, parts: seq<string>) returns (at: seq<nat>)
    requires |parts| > 1 && GreedyEnd(text, parts).Some?
    ensures Laid(text, parts, at) && EndOf(parts[..|parts| - 1], at) == GreedyEnd(text, parts).value
  {
    var init := parts[..|parts| - 1];
    assert init[1..] == parts[1..|parts| - 1];
    var rest := GreedyPlaces(text, init[1..], |parts[0]|);
    at := [0] + rest;
    PlacedCons(text, init[0], 0, init[1..], rest);
    assert init == [init[0]] + init[1..];
  }

  /** What the code accepts: some placement of all parts but the last, the first at the start,
      in order and without overlap, in a text that ends with the last part. */
  lemma MatchesExactly(text: string, pattern: string)
    requires STAR in pattern
    ensures var parts := Split(pattern, STAR);
            && |parts| > 1
            && (Matches(text, pattern) <==>
                  (exists at :: Laid(text, parts, at)) && EndsWith(text, parts[|parts| - 1]))
  {
    SplitJoins(pattern, STAR);
    assert |Split(pattern, STAR)| > 1;
    GreedyEndExactly(text, Split(pattern, STAR));
  }

  lemma GreedyEndExactly(text: string, parts: seq<string>)
    requires |parts| > 1
    ensures GreedyEnd(text, parts).Some? <==> exists at :: Laid(text, parts, at)
  {
    if GreedyEnd(text, parts).Some? {
      var at := GreedyEndIsLaid(text, parts);
    }
    if at :| Laid(text, parts, at) {
      GreedyEndIsLeast(text, parts, at);
    }
  }

  /** The text fits the pattern as the code reads it: literally where there is no star. */
  ghost predicate Accepted(text: string, pattern: string) {
    var parts := Split(pattern, STAR);
    if STAR in pattern then
      |parts| > 1 && (exists at :: Laid(text, parts, at)) && EndsWith(text, parts[|parts| - 1])
    else
      text == pattern
  }

  lemma MatchesIsAccepted(text: string, pattern: string)
    ensures Matches(text, pattern) <==> Accepted(text, pattern)
  {
    if STAR in pattern {
      MatchesExactly(text, pattern);
    } else {
      assert Join([pattern], STAR) == pattern;
      JoinSplits([pattern], STAR);
    }
  }

  // ----- What a glob accepts -----

  /** The parts cover the text from `from` on: the first starts there, the last ends with the
      text, in order and without overlap. */
  ghost predicate Covers(text: string, from: nat, parts: seq<string>, at: seq<nat>)
    requires |parts| > 0
  {
    Placed(text, parts, at) && at[0] == from && EndOf(parts, at) == |text|
  }

  lemma {:induction false} GlobLiteral(text: string, literal: string, rest: string)
    requires STAR !in literal
    ensures Glob(text, literal + rest) <==> OccursAt(text, literal, 0) && Glob(text[|literal|..], rest)
    decreases |literal|
  {
    if literal == "" {
      assert literal + rest == rest;
      assert text[0..] == text;
    } else {
      assert (literal + rest)[0] == literal[0] && (literal + rest)[1..] == literal[1..] + rest;
      assert literal == [literal[0]] + literal[1..];
      assert OccursAt(text, literal, 0) ==> text != "" && text[0] == text[..|literal|][0];
      if text != "" && text[0] == literal[0] {
        GlobLiteral(text[1..], literal[1..], rest);
        assert OccursAt(text, literal, 0) ==> text[1..][..|literal| - 1] == text[..|literal|][1..];
        assert OccursAt(text[1..], literal[1..], 0) ==> text == [text[0]] + text[1..];
        if |literal| <= |text| {
          assert text[1..][|literal| - 1..] == text[|literal|..];
        }
      }
    }
  }

  /** The literal at `from`, then a star, then the rest somewhere behind it. */
  lemma GlobOfJoin(text: string, from: nat, parts: seq<string>)
    requires from <= |text| && |parts| > 1 && STAR !in parts[0]
    ensures Glob(text[from..], Join(parts, STAR)) <==>
            (OccursAt(text, parts[0], from) &&
             exists i :: from + |parts[0]| <= i <= |text| && Glob(text[i..], Join(parts[1..], STAR)))
  {
    GlobOfStar(text, from, parts[0], Join(parts[1..], STAR));
  }

  lemma GlobOfStar(text: string, from: nat, literal: string, rest: string)
    requires from <= |text| && STAR !in literal
    ensures Glob(text[from..], literal + [STAR] + rest) <==>
            (OccursAt(text, literal, from) &&
             exists i :: from + |literal| <= i <= |text| && Glob(text[i..], rest))
  {
    assert literal + [STAR] + rest == literal + ([STAR] + rest);
    GlobLiteral(text[from..], literal, [STAR] + rest);
    assert ([STAR] + rest)[1..] == rest;
    if from + |literal| <= |text| {
      assert text[from..][|literal|..] == text[from + |literal|..];
      GlobBehind(text, from + |literal|, rest);
    }
  }

  lemma GlobBehind(text: string, behind: nat, rest: string)
    requires behind <= |text|
    ensures (exists i :: 0 <= i <= |text[behind..]| && Glob(text[behind..][i..], rest)) <==>
            exists i :: behind <= i <= |text| && Glob(text[i..], rest)
  {
    var tail := text[behind..];
    if i :| 0 <= i <= |tail| && Glob(tail[i..], rest) {
      assert tail[i..] == text[behind + i..];
    }
    if i :| behind <= i <= |text| && Glob(text[i..], rest) {
      assert tail[i - behind..] == text[i..];
    }
  }

  lemma {:induction false} GlobCovers(text: string, from: nat, parts: seq<string>) returns (at: seq<nat>)
    requires from <= |text| && |parts| > 0 && forall part :: part in parts ==> STAR !in part
    requires Glob(text[from..], Join(parts, STAR))
    ensures Covers(text, from, parts, at)
    decreases |parts|
  {
    if |parts| == 1 {
      GlobLiteral(text[from..], parts[0], "");
      assert parts[0] + "" == parts[0];
      at := [from];
    } else {
      GlobOfJoin(text, from, parts);
      var i :| from + |parts[0]| <= i <= |text| && Glob(text[i..], Join(parts[1..], STAR));
      var rest := GlobCovers(text, i, parts[1..]);
      at := [from] + rest;
      PlacedCons(text, parts[0], from, parts[1..], rest);
      assert [parts[0]] + parts[1..] == parts;
    }
  }

  lemma {:induction false} CoverGlobs(text: string, from: nat, parts: seq<string>, at: seq<nat>)
    requires from <= |text| && |parts| > 0 && forall part :: part in parts ==> STAR !in part
    requires Covers(text, from, parts, at)
    ensures Glob(text[from..], Join(parts, STAR))
    decreases |parts|
  {
    if |parts| == 1 {
      GlobLiteral(text[from..], parts[0], "");
      assert parts[0] + "" == parts[0];
    } else {
      PlacedTail(text, parts, at);
      CoverGlobs(text, at[1], parts[1..], at[1..]);
      GlobOfJoin(text, from, parts);
    }
  }

  /** A glob accepts exactly the texts that its literal parts cover. */
  lemma GlobExactly(text: string, pattern: string)
    ensures Glob(text, pattern) <==> exists at :: Covers(text, 0, Split(pattern, STAR), at)
  {
    var parts := Split(pattern, STAR);
    SplitJoins(pattern, STAR);
    assert text[0..] == text;
    if Glob(text, pattern) {
      var at := GlobCovers(text, 0, parts);
    }
    if at :| Covers(text, 0, parts, at) {
      CoverGlobs(text, 0, parts, at);
    }
  }

  // ----- The code against the glob -----

  /** The last part fits behind the greedy placement of the others. */
  predicate LastPartFits(text: string, pattern: string) {
    |Split(pattern, STAR)| > 1 ==> LastFits(text, Split(pattern, STAR))
  }

  predicate LastFits(text: string, parts: seq<string>)
    requires |parts| > 1
  {
    GreedyEnd(text, parts).Some? && GreedyEnd(text, parts).value + |parts[|parts| - 1]| <= |text|
  }

  lemma CoverIsLaid(text: string, parts: seq<string>, at: seq<nat>)
    requires |parts| > 1 && Covers(text, 0, parts, at)
    ensures Laid(text, parts, at[..|parts| - 1]) && EndsWith(text, parts[|parts| - 1])
    ensures EndOf(parts[..|parts| - 1], at[..|parts| - 1]) + |parts[|parts| - 1]| <= |text|
  {
    var n := |parts| - 1;
    assert at[n] == |text| - |parts[n]|;
    assert OccursAt(text, parts[n], at[n]);
  }

  lemma LaidIsCover(text: string, parts: seq<string>, at: seq<nat>) returns (all: seq<nat>)
    requires |parts| > 1 && Laid(text, parts, at) && EndsWith(text, parts[|parts| - 1])
    requires EndOf(parts[..|parts| - 1], at) + |parts[|parts| - 1]| <= |text|
    ensures Covers(text, 0, parts, all)
  {
    all := at + [|text| - |parts[|parts| - 1]|];
    forall i | 0 <= i < |parts|
      ensures OccursAt(text, parts[i], all[i])
    {
      if i < |parts| - 1 {
        assert parts[..|parts| - 1][i] == parts[i];
      }
    }
    assert forall i :: 0 <= i < |parts| - 1 ==> parts[..|parts| - 1][i] == parts[i];
  }

  lemma CoversOne(text: string, parts: seq<string>)
    requires |parts| == 1
    ensures (exists at :: Covers(text, 0, parts, at)) <==> text == parts[0]
  {
    if at :| Covers(text, 0, parts, at) {
      assert text == parts[0];
    }
    if text == parts[0] {
      assert Covers(text, 0, parts, [0]);
    }
  }

  lemma CoversExactly(text: string, parts: seq<string>)
    requires |parts| > 1
    ensures (exists at :: Covers(text, 0, parts, at)) <==> MatchesParts(text, parts) && LastFits(text, parts)
  {
    if at :| Covers(text, 0, parts, at) {
      CoverIsLaid(text, parts, at);
      GreedyEndIsLeast(text, parts, at[..|parts| - 1]);
    }
    if MatchesParts(text, parts) && LastFits(text, parts) {
      var at := GreedyEndIsLaid(text, parts);
      var all := LaidIsCover(text, parts, at);
    }
  }

  /** The code accepts every text the glob accepts; it accepts exactly those when the last part
      fits behind the greedy placement of the others. */
  lemma GlobIsMatchThatFits(text: string, pattern: string)
    ensures Glob(text, pattern) <==> Matches(text, pattern) && LastPartFits(text, pattern)
  {
    SplitJoins(pattern, STAR);
    GlobExactly(text, pattern);
    var parts := Split(pattern, STAR);
    if |parts| == 1 {
      CoversOne(text, parts);
    } else {
      CoversExactly(text, parts);
    }
  }

  /** The overlap is real: `ab*bc` accepts `abc`, which no reading of the star explains. */
  lemma OverlapIsAccepted()
    ensures Matches("abc", "ab*bc") && !Glob("abc", "ab*bc")
  {
    assert Join(["ab", "bc"], STAR) == "ab*bc";
    JoinSplits(["ab", "bc"], STAR);
    assert ["ab", "bc"][1..1] == [];
    GlobIsMatchThatFits("abc", "ab*bc");
  }
}
