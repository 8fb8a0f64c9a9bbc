/** Searching and joining strings, shared by the models. */
module Text {
  import opened Wrappers

  predicate IsSpace(c: char) {
    c == ' ' || c == '\n' || c == '\r' || c == '\t'
  }

  predicate OccursAt(s: string, pattern: string, i: nat) {
    i + |pattern| <= |s| && s[i..i + |pattern|] == pattern
  }

  ghost predicate Contains(s: string, pattern: string) {
    exists i: nat :: OccursAt(s, pattern, i)
  }

  /** The first place `pattern` occurs. */
  function Find(s: string, pattern: string): (r: Option<nat>)
    ensures r.Some? ==> r.value + |pattern| <= |s| && s[r.value..r.value + |pattern|] == pattern
  {
    if |s| < |pattern| then None
    else if s[..|pattern|] == pattern then Some(0)
    else if s == [] then None
    else
      match Find(s[1..], pattern)
      case None => None
      case Some(i) => assert s[1..][i..i + |pattern|] == s[i + 1..i + 1 + |pattern|]; Some(i + 1)
  }

  /** The place found is the first one. */
  lemma {:induction false} FirstOccurs(s: string, pattern: string)
    ensures Find(s, pattern).Some? ==>
              && OccursAt(s, pattern, Find(s, pattern).value)
              && forall i: nat :: i < Find(s, pattern).value ==> !OccursAt(s, pattern, i)
    ensures Find(s, pattern).None? ==> forall i: nat :: !OccursAt(s, pattern, i)
  {
    FindIffContains(s, pattern);
    if Find(s, pattern).Some? && Find(s, pattern).value > 0 {
      FirstOccurs(s[1..], pattern);
      forall i: nat | i < Find(s, pattern).value ensures !OccursAt(s, pattern, i) {
        if i > 0 {
          assert s[1..][i - 1..i - 1 + |pattern|] == s[i..i + |pattern|];
          assert !OccursAt(s[1..], pattern, i - 1);
        }
      }
    }
  }

  /** The parts with the separator between each two. */
  function Join(parts: seq<string>, separator: string): string {
    if parts == [] then ""
    else if |parts| == 1 then parts[0]
    else Join(parts[..|parts| - 1], separator) + separator + parts[|parts| - 1]
  }

  /** A search succeeds exactly on a text that contains the pattern. */
  lemma {:induction false} FindIffContains(s: string, pattern: string)
    ensures Find(s, pattern).Some? <==> Contains(s, pattern)
  {
    if Find(s, pattern).Some? {
      assert OccursAt(s, pattern, Find(s, pattern).value);
    } else if |s| >= |pattern| && s != "" {
      FindIffContains(s[1..], pattern);
      forall i: nat ensures !OccursAt(s, pattern, i) {
        if i > 0 && i + |pattern| <= |s| {
          assert s[1..][i - 1..i - 1 + |pattern|] == s[i..i + |pattern|];
          assert !OccursAt(s[1..], pattern, i - 1);
        }
      }
    }
  }
}
