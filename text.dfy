/** Case-insensitive substring matching, the meaning of
    `column ILIKE '%query%'` on ASCII text. */
module Text {

  predicate IsUpper(c: char) {
    'A' <= c <= 'Z'
  }

  /** ASCII lower-casing of one character; every other character is kept. */
  function LowerChar(c: char): char {
    if IsUpper(c) then (c as int - 'A' as int + 'a' as int) as char else c
  }

  /** The string with every ASCII capital replaced by its small letter. */
  function Lower(s: string): (r: string)
    ensures |r| == |s|
    ensures forall i :: 0 <= i < |s| ==> r[i] == LowerChar(s[i])
    ensures forall i :: 0 <= i < |r| ==> !IsUpper(r[i])
  {
    if s == [] then [] else [LowerChar(s[0])] + Lower(s[1..])
  }

  /** Lower-casing twice is lower-casing once. */
  lemma LowerIdempotent(s: string)
    ensures Lower(Lower(s)) == Lower(s)
  {
  }

  /** `pattern` occurs in `text` starting at position `i`. */
  predicate OccursAt(text: string, pattern: string, i: nat) {
    i + |pattern| <= |text| && text[i..i + |pattern|] == pattern
  }

  /** `pattern` occurs somewhere in `text`. */
  ghost predicate OccursIn(text: string, pattern: string) {
    exists i: nat :: OccursAt(text, pattern, i)
  }

  /** `pattern` is a contiguous piece of `text`, found by trying each start
      position from the left. */
  predicate Contains(text: string, pattern: string)
    ensures Contains(text, pattern) ==> |pattern| <= |text|
    ensures pattern == [] ==> Contains(text, pattern)
    decreases |text|
  {
    |pattern| <= |text| &&
    (text[..|pattern|] == pattern || Contains(text[1..], pattern))
  }

  /** An occurrence in the tail of `text` is an occurrence one place
      further right in `text`. */
  lemma OccursShift(text: string, pattern: string, i: nat)
    requires text != []
    ensures OccursAt(text[1..], pattern, i) <==> OccursAt(text, pattern, i + 1)
  {
  }

  /** The left-to-right scan finds a match exactly when some position holds one. */
  lemma {:induction false} ContainsIff(text: string, pattern: string)
    ensures Contains(text, pattern) <==> exists i: nat :: OccursAt(text, pattern, i)
    decreases |text|
  {
    var n := |pattern|;
    if n > |text| {
      assert forall i: nat :: !OccursAt(text, pattern, i);
    } else if text[..n] == pattern {
      assert OccursAt(text, pattern, 0);
    } else {
      var tail := text[1..];
      ContainsIff(tail, pattern);
      if Contains(tail, pattern) {
        var j: nat :| OccursAt(tail, pattern, j);
        OccursShift(text, pattern, j);
      } else {
        forall i: nat ensures !OccursAt(text, pattern, i) {
          if i > 0 {
            OccursShift(text, pattern, i - 1);
          }
        }
      }
    }
  }

  /** `value ILIKE '%pattern%'`, with `%` and `_` in `pattern` taken literally. */
  predicate ILike(value: string, pattern: string)
    ensures ILike(value, pattern) <==> OccursIn(Lower(value), Lower(pattern))
    ensures ILike(value, pattern) ==> |pattern| <= |value|
  {
    ContainsIff(Lower(value), Lower(pattern));
    Contains(Lower(value), Lower(pattern))
  }

  /** Matching ignores the case of the query: a query and its lower-cased
      form select the same values. */
  lemma ILikeIgnoresQueryCase(value: string, pattern: string)
    ensures ILike(value, pattern) <==> ILike(value, Lower(pattern))
  {
    LowerIdempotent(pattern);
  }

  /** Matching ignores the case of the value too. */
  lemma ILikeIgnoresValueCase(value: string, pattern: string)
    ensures ILike(value, pattern) <==> ILike(Lower(value), pattern)
  {
  }
}
