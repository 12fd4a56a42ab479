/** The character-level match score of the search engine: 1.0 when the
    lower-cased query occurs in the lower-cased document, 0.5 when only its
    first three characters do, 0 otherwise. */
module CharacterMatch {

  /** `c.lower()` on ASCII letters; every other character is unchanged. */
  function LowerChar(c: char): (r: char)
    ensures !('A' <= r <= 'Z')
    ensures 'A' <= c <= 'Z' ==> r as int == c as int + 32
    ensures !('A' <= c <= 'Z') ==> r == c
  {
    if 'A' <= c <= 'Z' then (c as int + 32) as char else c
  }

  /** `s.lower()`, character by character. */
  function Lower(s: string): (r: string)
    ensures |r| == |s|
    ensures forall i :: 0 <= i < |s| ==> r[i] == LowerChar(s[i])
  {
    seq(|s|, i requires 0 <= i < |s| => LowerChar(s[i]))
  }

  /** Lower-casing twice is lower-casing once. */
  lemma LowerIdempotent(s: string)
    ensures Lower(Lower(s)) == Lower(s)
  {
    assert forall i :: 0 <= i < |s| ==> Lower(Lower(s))[i] == Lower(s)[i];
  }

  /** `p` is the slice of `s` starting at `i`. */
  ghost predicate OccursAt(p: string, s: string, i: int)
  {
    0 <= i && i + |p| <= |s| && s[i..i + |p|] == p
  }

  /** `p in s` for strings, as a definition: `p` is a slice of `s`. */
  ghost predicate IsSubstring(p: string, s: string)
  {
    exists i :: OccursAt(p, s, i)
  }

  /** `p in s` as a scan: does `p` start at the front of `s`, else at a later
      position. */
  function Occurs(p: string, s: string): bool
    decreases |s|
  {
    if |p| > |s| then false
    else if s[..|p|] == p then true
    else Occurs(p, s[1..])
  }

  /** Dropping the first character of `s` shifts every occurrence left by one. */
  lemma OccursAtShift(p: string, s: string, i: nat)
    requires |s| >= 1
    ensures OccursAt(p, s[1..], i) <==> OccursAt(p, s, i + 1)
  {
    if i + |p| <= |s| - 1 {
      assert s[1..][i..i + |p|] == s[i + 1..i + 1 + |p|];
    }
  }

  /** The scan answers exactly the substring question. */
  lemma {:induction false} OccursIsSubstring(p: string, s: string)
    ensures Occurs(p, s) <==> IsSubstring(p, s)
    decreases |s|
  {
    if |p| > |s| {
      assert forall i :: !OccursAt(p, s, i);
    } else if s[..|p|] == p {
      assert OccursAt(p, s, 0);
    } else {
      OccursIsSubstring(p, s[1..]);
      if IsSubstring(p, s[1..]) {
        var i :| OccursAt(p, s[1..], i);
        OccursAtShift(p, s, i);
      }
      if IsSubstring(p, s) {
        var i :| OccursAt(p, s, i);
        assert i != 0;
        OccursAtShift(p, s, i - 1);
      }
    }
  }

  /** A prefix of a substring is a substring. */
  lemma PrefixOccurs(p: string, s: string, k: nat)
    requires k <= |p| && IsSubstring(p, s)
    ensures IsSubstring(p[..k], s)
  {
    var i :| OccursAt(p, s, i);
    assert s[i..i + k] == p[..k];
    assert OccursAt(p[..k], s, i);
  }

  /** `q[:3]`. */
  function Take3(q: string): (r: string)
    ensures |q| <= 3 ==> r == q
    ensures |q| > 3 ==> |r| == 3
    ensures r == q[..|r|]
  {
    if |q| <= 3 then q else q[..3]
  }

  /** The match score of `query` against `document`. */
  function CharacterLevelMatch(query: string, document: string): (r: real)
    ensures r == 0.0 || r == 0.5 || r == 1.0
  {
    var q := Lower(query);
    var d := Lower(document);
    if Occurs(q, d) then 1.0
    else if Occurs(Take3(q), d) then 0.5
    else 0.0
  }

  /** 1.0 exactly when the lower-cased query occurs in the lower-cased document. */
  lemma ExactMatch(query: string, document: string)
    ensures CharacterLevelMatch(query, document) == 1.0 <==> IsSubstring(Lower(query), Lower(document))
  {
    OccursIsSubstring(Lower(query), Lower(document));
  }

  /** 0.5 exactly when the query does not occur but its first three characters do. */
  lemma PartialMatch(query: string, document: string)
    ensures CharacterLevelMatch(query, document) == 0.5 <==>
      !IsSubstring(Lower(query), Lower(document)) && IsSubstring(Take3(Lower(query)), Lower(document))
  {
    OccursIsSubstring(Lower(query), Lower(document));
    OccursIsSubstring(Take3(Lower(query)), Lower(document));
  }

  /** 0 exactly when not even the first three characters occur: a document
      holding the whole query always holds its first three characters. */
  lemma NoMatch(query: string, document: string)
    ensures CharacterLevelMatch(query, document) == 0.0 <==>
      !IsSubstring(Take3(Lower(query)), Lower(document))
  {
    var q, d := Lower(query), Lower(document);
    OccursIsSubstring(q, d);
    OccursIsSubstring(Take3(q), d);
    if IsSubstring(q, d) {
      PrefixOccurs(q, d, |Take3(q)|);
    }
  }

  /** A query of at most three characters scores 1.0 or 0, never 0.5. */
  lemma ShortQueryNeverPartial(query: string, document: string)
    requires |query| <= 3
    ensures CharacterLevelMatch(query, document) != 0.5
  {
  }

  /** The empty query occurs in every document. */
  lemma EmptyQueryMatches(document: string)
    ensures CharacterLevelMatch("", document) == 1.0
  {
    assert Lower("") == "";
    assert Lower(document)[..0] == "";
    assert OccursAt("", Lower(document), 0);
  }

  /** Lower-casing either input beforehand does not change the score. */
  lemma CaseInsensitive(query: string, document: string)
    ensures CharacterLevelMatch(Lower(query), document) == CharacterLevelMatch(query, document)
    ensures CharacterLevelMatch(query, Lower(document)) == CharacterLevelMatch(query, document)
  {
    LowerIdempotent(query);
    LowerIdempotent(document);
  }
}
