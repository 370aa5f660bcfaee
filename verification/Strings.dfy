/** The string operations that the modelled code takes from its standard library. */
module Strings {
  import opened Wrappers

  predicate OccursAt(text: string, part: string, at: nat) {
    at + |part| <= |text| && text[at..at + |part|] == part
  }

  predicate EndsWith(text: string, part: string) {
    |part| <= |text| && text[|text| - |part|..] == part
  }

  /** Leftmost occurrence at or after `from`. */
  function Find(text: string, part: string, from: nat): (r: Option<nat>)
    requires from <= |text|
    ensures r.Some? ==> from <= r.value && OccursAt(text, part, r.value)
    ensures r.Some? ==> forall at: nat :: from <= at < r.value ==> !OccursAt(text, part, at)
    ensures r.None? ==> forall at: nat :: from <= at ==> !OccursAt(text, part, at)
    decreases |text| - from
  {
    if OccursAt(text, part, from) then Some(from)
    else if from == |text| then None
    else Find(text, part, from + 1)
  }

  predicate Contains(text: string, part: string): (found: bool)
    ensures found <==> exists at: nat :: OccursAt(text, part, at)
  {
    Find(text, part, 0).Some?
  }

  /** The pieces between separators: never empty, one more piece than there are separators. */
  function Split(text: string, sep: char): (parts: seq<string>)
    ensures |parts| > 0
  {
    if text == "" then [""]
    else
      var rest := Split(text[1..], sep);
      if text[0] == sep then [""] + rest else [[text[0]] + rest[0]] + rest[1..]
  }

  function Join(parts: seq<string>, sep: char): string
    requires |parts| > 0
  {
    if |parts| == 1 then parts[0] else parts[0] + [sep] + Join(parts[1..], sep)
  }

  lemma {:induction false} SplitJoins(text: string, sep: char)
    ensures Join(Split(text, sep), sep) == text
    ensures forall part :: part in Split(text, sep) ==> sep !in part
  {
    if text != "" {
      SplitJoins(text[1..], sep);
      var rest := Split(text[1..], sep);
      if text[0] == sep {
        assert (Split(text, sep))[1..] == rest;
      } else if |rest| > 1 {
        assert Split(text, sep)[1..] == rest[1..];
      }
    }
  }

  lemma {:induction false} JoinSplits(parts: seq<string>, sep: char)
    requires |parts| > 0 && forall part :: part in parts ==> sep !in part
    ensures Split(Join(parts, sep), sep) == parts
    decreases |parts|, |parts[0]|
  {
    var text := Join(parts, sep);
    assert parts == [parts[0]] + parts[1..];
    if parts[0] != "" {
      var shorter := [parts[0][1..]] + parts[1..];
      assert shorter[1..] == parts[1..];
      assert text[1..] == Join(shorter, sep);
      assert forall c :: c in shorter[0] ==> c in parts[0];
      assert forall part :: part in parts[1..] ==> part in parts;
      JoinSplits(shorter, sep);
      assert parts[0] in parts && text[0] == parts[0][0];
      assert [text[0]] + shorter[0] == parts[0];
      assert [[text[0]] + shorter[0]] + shorter[1..] == parts;
    } else if |parts| > 1 {
      assert text == [sep] + Join(parts[1..], sep);
      assert text[1..] == Join(parts[1..], sep);
      JoinSplits(parts[1..], sep);
    }
  }
}
