/** Case-insensitive substring matching: the meaning of the SQL predicate
    `text ILIKE '%term%'` for a term without `%` or `_`, with ASCII case
    folding. */
module Text {

  predicate IsUpper(c: char) {
    'A' <= c <= 'Z'
  }

  /** `c` lower-cased: a capital becomes its own small letter, 32 code
      points further on, and every other character is kept. */
  function LowerChar(c: char): (r: char)
    ensures IsUpper(c) ==> r as int == c as int + 32 && 'a' <= r <= 'z'
    ensures !IsUpper(c) ==> r == c
  {
    if IsUpper(c) then (c as int - 'A' as int + 'a' as int) as char else c
  }

  /** ASCII lower-casing, character by character. */
  function Lower(s: string): (r: string)
    ensures |r| == |s|
    ensures forall i :: 0 <= i < |r| ==> !IsUpper(r[i])
    ensures forall i :: 0 <= i < |r| ==> r[i] == LowerChar(s[i])
  {
    if |s| == 0 then [] else [LowerChar(s[0])] + Lower(s[1..])
  }

  /** Two characters fold to the same character exactly when they are
      equal or one is the capital of the other. */
  lemma LowerCharSame(a: char, b: char)
    ensures LowerChar(a) == LowerChar(b) <==>
      || a == b
      || (IsUpper(a) && b as int == a as int + 32)
      || (IsUpper(b) && a as int == b as int + 32)
  {
  }

  /** Lower-casing twice is lower-casing once. */
  lemma LowerIdempotent(s: string)
    ensures Lower(Lower(s)) == Lower(s)
  {
    assert forall i :: 0 <= i < |s| ==> LowerChar(LowerChar(s[i])) == LowerChar(s[i]);
  }

  predicate IsPrefix(p: string, t: string) {
    |p| <= |t| && t[..|p|] == p
  }

  /** `p` occurs somewhere in `t`, tried at every position from the left. */
  predicate IsSubstring(p: string, t: string) {
    IsPrefix(p, t) || (|t| > 0 && IsSubstring(p, t[1..]))
  }

  /** `p` occurs in `t` starting at index `i`. */
  predicate OccursAt(p: string, t: string, i: int) {
    0 <= i <= |t| - |p| && t[i..i + |p|] == p
  }

  /** The positional meaning of `IsSubstring`: some window of `t` equals `p`. */
  lemma {:induction false} SubstringAt(p: string, t: string)
    ensures IsSubstring(p, t) <==> exists i :: OccursAt(p, t, i)
  {
    if IsPrefix(p, t) {
      assert OccursAt(p, t, 0);
    } else if |t| == 0 {
      assert forall i :: !OccursAt(p, t, i);
    } else {
      SubstringAt(p, t[1..]);
      if IsSubstring(p, t[1..]) {
        var i :| OccursAt(p, t[1..], i);
        assert t[i + 1..i + 1 + |p|] == t[1..][i..i + |p|];
        assert OccursAt(p, t, i + 1);
      }
      if exists i :: OccursAt(p, t, i) {
        var i :| OccursAt(p, t, i);
        assert i != 0;
        assert t[1..][i - 1..i - 1 + |p|] == t[i..i + |p|];
        assert OccursAt(p, t[1..], i - 1);
      }
    }
  }

  /** The empty string occurs in every text. */
  lemma EmptyIsSubstring(t: string)
    ensures IsSubstring("", t)
  {
    assert IsPrefix("", t);
  }

  /** `text ILIKE '%term%'`. */
  predicate ContainsIgnoringCase(text: string, term: string): (b: bool)
    ensures b ==> |term| <= |text|
    ensures b <==> exists i :: OccursAt(Lower(term), Lower(text), i)
  {
    LoweredSubstringAt(text, term);
    IsSubstring(Lower(term), Lower(text))
  }

  /** `SubstringAt` for the lower-cased term and text. */
  lemma LoweredSubstringAt(text: string, term: string)
    ensures IsSubstring(Lower(term), Lower(text)) <==> exists i :: OccursAt(Lower(term), Lower(text), i)
  {
    var lterm, ltext := Lower(term), Lower(text);
    SubstringAt(lterm, ltext);
    if IsSubstring(lterm, ltext) {
      var i :| OccursAt(lterm, ltext, i);
      assert OccursAt(Lower(term), Lower(text), i);
    }
  }

  /** An empty search term matches every text. */
  lemma EmptyTermMatches(text: string)
    ensures ContainsIgnoringCase(text, "")
  {
    EmptyIsSubstring(Lower(text));
  }

  /** The match ignores the case of the term: a term and its lower-case
      form match the same texts. */
  lemma MatchIgnoresTermCase(text: string, term: string)
    ensures ContainsIgnoringCase(text, term) <==> ContainsIgnoringCase(text, Lower(term))
  {
    LowerIdempotent(term);
  }

  /** A verbatim occurrence of the term is a match. */
  lemma OccurrenceMatches(text: string, term: string, i: int)
    requires OccursAt(term, text, i)
    ensures ContainsIgnoringCase(text, term)
  {
    var lterm, ltext := Lower(term), Lower(text);
    assert forall k :: 0 <= k < |term| ==> ltext[i + k] == LowerChar(text[i + k]) == LowerChar(term[k]);
    assert ltext[i..i + |term|] == lterm;
    assert OccursAt(lterm, ltext, i);
  }
}
