/** The string operations `search_book` relies on: lower-casing and substring containment. */
module Text {

  /** Lower-casing of one character, restricted to ASCII letters. */
  function LowerChar(c: char): char {
    if 'A' <= c <= 'Z' then (c as int + 32) as char else c
  }

  /** `str.lower()` applied character by character (ASCII only). */
  function Lower(s: string): (r: string)
    ensures |r| == |s|
    ensures forall i :: 0 <= i < |s| ==> r[i] == LowerChar(s[i])
  {
    if s == [] then [] else [LowerChar(s[0])] + Lower(s[1..])
  }

  /** Lower-casing twice is lower-casing once. */
  lemma LowerIdempotent(s: string)
    ensures Lower(Lower(s)) == Lower(s)
  {
  }

  /** `pattern` occurs in `text` starting at position `i`. */
  predicate OccursAt(text: string, pattern: string, i: nat) {
    i + |pattern| <= |text| && text[i..i + |pattern|] == pattern
  }

  /** `pattern` occurs somewhere in `text`. */
  ghost predicate Occurs(text: string, pattern: string) {
    exists i: nat :: OccursAt(text, pattern, i)
  }

  /** Python's `pattern in text` on strings: try every start position from the left. */
  predicate Contains(text: string, pattern: string)
    ensures Contains(text, pattern) ==> |pattern| <= |text|
    ensures pattern == [] ==> Contains(text, pattern)
    decreases |text|
  {
    if |pattern| > |text| then false
    else if text[..|pattern|] == pattern then true
    else Contains(text[1..], pattern)
  }

  /** Containment holds exactly when there is a position at which the pattern occurs. */
  lemma {:induction false} ContainsIffOccurs(text: string, pattern: string)
    ensures Contains(text, pattern) <==> exists i: nat :: OccursAt(text, pattern, i)
    decreases |text|
  {
    if |pattern| > |text| {
    } else if text[..|pattern|] == pattern {
      assert OccursAt(text, pattern, 0);
    } else {
      ContainsIffOccurs(text[1..], pattern);
      if Contains(text[1..], pattern) {
        var i: nat :| OccursAt(text[1..], pattern, i);
        assert text[i + 1..i + 1 + |pattern|] == text[1..][i..i + |pattern|];
        assert OccursAt(text, pattern, i + 1);
      } else {
        forall i: nat | OccursAt(text, pattern, i) ensures false {
          assert i != 0;
          assert text[1..][i - 1..i - 1 + |pattern|] == text[i..i + |pattern|];
          assert OccursAt(text[1..], pattern, i - 1);
        }
      }
    }
  }
}
