/**
 * Case-insensitive substring matching, the `icontains` lookup every list
 * filter of the API uses. Case folding is ASCII only: 'A'..'Z' map to
 * 'a'..'z' and every other character is left alone.
 */
module Text {

  predicate IsUpper(c: char) { 'A' <= c <= 'Z' }

  predicate IsLower(c: char) { 'a' <= c <= 'z' }

  function LowerChar(c: char): (r: char)
    ensures IsUpper(c) ==> IsLower(r) && r as int - c as int == 32
    ensures !IsUpper(c) ==> r == c
  {
    if IsUpper(c) then (c as int + 32) as char else c
  }

  function UpperChar(c: char): (r: char)
    ensures IsLower(c) ==> IsUpper(r) && c as int - r as int == 32
    ensures !IsLower(c) ==> r == c
  {
    if IsLower(c) then (c as int - 32) as char else c
  }

  /** The string with every ASCII capital replaced by its small letter. */
  function Lower(s: string): (r: string)
    ensures |r| == |s|
    ensures forall i :: 0 <= i < |s| ==> r[i] == LowerChar(s[i])
  {
    if s == [] then [] else [LowerChar(s[0])] + Lower(s[1..])
  }

  /** The string with every ASCII small letter replaced by its capital. */
  function Upper(s: string): (r: string)
    ensures |r| == |s|
    ensures forall i :: 0 <= i < |s| ==> r[i] == UpperChar(s[i])
  {
    if s == [] then [] else [UpperChar(s[0])] + Upper(s[1..])
  }

  /** `needle` occurs in `hay` as a contiguous run of characters. */
  predicate Contains(hay: string, needle: string) {
    exists i | 0 <= i <= |hay| :: needle <= hay[i..]
  }

  /** Django's `icontains`: substring test after folding both sides to lower case. */
  predicate IContains(hay: string, needle: string) {
    Contains(Lower(hay), Lower(needle))
  }

  /** Folding to lower case is idempotent. */
  lemma LowerIdempotent(s: string)
    ensures Lower(Lower(s)) == Lower(s)
  {
  }

  /** Folding to upper case first loses nothing the lower-case fold keeps. */
  lemma LowerOfUpper(s: string)
    ensures Lower(Upper(s)) == Lower(s)
  {
    forall i | 0 <= i < |s|
      ensures Lower(Upper(s))[i] == Lower(s)[i]
    {
      var c := s[i];
      if IsLower(c) {
        assert LowerChar(UpperChar(c)) == c;
      }
    }
  }

  /** The match ignores the case of either side: capitalising the stored name or the query changes nothing. */
  lemma IContainsIgnoresCase(hay: string, needle: string)
    ensures IContains(Upper(hay), needle) <==> IContains(hay, needle)
    ensures IContains(hay, Upper(needle)) <==> IContains(hay, needle)
    ensures IContains(Lower(hay), Lower(needle)) <==> IContains(hay, needle)
  {
    LowerOfUpper(hay);
    LowerOfUpper(needle);
    LowerIdempotent(hay);
    LowerIdempotent(needle);
  }

  /** Every name matches itself, whatever the case of the query. */
  lemma IContainsItself(name: string)
    ensures IContains(name, name)
    ensures IContains(name, Upper(name))
    ensures forall q :: Lower(q) == Lower(name) ==> IContains(name, q)
  {
    assert Lower(name) <= Lower(name)[0..];
    IContainsIgnoresCase(name, name);
  }

  /** The empty query is contained in every name. */
  lemma EmptyQueryMatchesAll(hay: string)
    ensures IContains(hay, "")
  {
    assert Lower("") <= Lower(hay)[0..];
  }

  /** A query longer than the name can never match. */
  lemma LongerQueryNeverMatches(hay: string, needle: string)
    requires |needle| > |hay|
    ensures !IContains(hay, needle)
  {
  }
}
