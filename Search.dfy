/**
 * The search handler's term handling: every character outside `[a-zA-Z0-9 ]`
 * is deleted from the submitted term, and the result is used as a pattern
 * with the `i` flag against first and last names. Since the cleaned term
 * holds no pattern metacharacter, the pattern is a literal, and a name
 * matches when it contains the term as a substring, ignoring ASCII case.
 */
module Search {

  /** A member of `[a-zA-Z0-9 ]`, the characters the clean-up keeps. */
  predicate IsSearchChar(c: char)
  {
    ('a' <= c <= 'z') || ('A' <= c <= 'Z') || ('0' <= c <= '9') || c == ' '
  }

  /** The characters with a special meaning in a JavaScript regular expression. */
  const RegexMetachars: set<char> :=
    {'\\', '^', '$', '.', '|', '?', '*', '+', '(', ')', '[', ']', '{', '}', '/', '-'}

  /**
   * `term.replace(/[^a-zA-Z0-9 ]/g, "")`: the kept characters, in their
   * original order.
   */
  function Sanitize(term: string): (clean: string)
    ensures |clean| <= |term|
    ensures forall i :: 0 <= i < |clean| ==> IsSearchChar(clean[i])
    ensures forall i :: 0 <= i < |clean| ==> clean[i] !in RegexMetachars
  {
    if term == [] then []
    else (if IsSearchChar(term[0]) then [term[0]] else []) + Sanitize(term[1..])
  }

  /** Cleaning a concatenation cleans each part: the clean-up works character by character. */
  lemma {:induction false} SanitizeAppend(s: string, t: string)
    ensures Sanitize(s + t) == Sanitize(s) + Sanitize(t)
  {
    if s == [] {
      assert s + t == t;
    } else {
      assert (s + t)[0] == s[0];
      assert (s + t)[1..] == s[1..] + t;
      SanitizeAppend(s[1..], t);
    }
  }

  /** A single character is kept exactly when it is in `[a-zA-Z0-9 ]`. */
  lemma SanitizeChar(c: char)
    ensures Sanitize([c]) == if IsSearchChar(c) then [c] else []
  {
  }

  /** A term made only of kept characters is left as it is. */
  lemma {:induction false} SanitizeKeepsClean(s: string)
    requires forall i :: 0 <= i < |s| ==> IsSearchChar(s[i])
    ensures Sanitize(s) == s
  {
    if s != [] {
      SanitizeKeepsClean(s[1..]);
      assert s == [s[0]] + s[1..];
    }
  }

  /** Cleaning twice is cleaning once. */
  lemma SanitizeIdempotent(s: string)
    ensures Sanitize(Sanitize(s)) == Sanitize(s)
  {
    SanitizeKeepsClean(Sanitize(s));
  }

  /** A character survives the clean-up exactly when it occurs in the term and is in `[a-zA-Z0-9 ]`. */
  lemma {:induction false} SanitizeMembers(s: string, c: char)
    ensures c in Sanitize(s) <==> c in s && IsSearchChar(c)
  {
    if s != [] {
      SanitizeMembers(s[1..], c);
      assert s == [s[0]] + s[1..];
    }
  }

  /** ASCII lower-casing, the folding the `i` flag applies to a pattern of ASCII letters and digits. */
  function Lower(c: char): char
  {
    if 'A' <= c <= 'Z' then (c as int + 32) as char else c
  }

  /** `term` occurs in `subject` at offset `k`, ignoring case. */
  predicate MatchesAt(subject: string, term: string, k: nat)
    requires k + |term| <= |subject|
  {
    forall j :: 0 <= j < |term| ==> Lower(subject[k + j]) == Lower(term[j])
  }

  /** `new RegExp(term, "i").test(subject)` for a term without metacharacters. */
  predicate ContainsIgnoringCase(subject: string, term: string)
  {
    exists k: nat :: k + |term| <= |subject| && MatchesAt(subject, term, k)
  }

  /** An exact occurrence is a match. */
  lemma OccurrenceMatches(subject: string, term: string, k: nat)
    requires k + |term| <= |subject| && subject[k..k + |term|] == term
    ensures ContainsIgnoringCase(subject, term)
  {
    forall j | 0 <= j < |term|
      ensures Lower(subject[k + j]) == Lower(term[j])
    {
      assert subject[k..k + |term|][j] == subject[k + j];
    }
    assert MatchesAt(subject, term, k);
  }

  /** The empty term matches every name. */
  lemma EmptyTermMatches(subject: string)
    ensures ContainsIgnoringCase(subject, "")
  {
    assert MatchesAt(subject, "", 0);
  }

  /** Two terms that agree up to ASCII case match the same names. */
  lemma MatchIgnoresCase(subject: string, term: string, other: string)
    requires |term| == |other|
    requires forall j :: 0 <= j < |term| ==> Lower(term[j]) == Lower(other[j])
    ensures ContainsIgnoringCase(subject, term) <==> ContainsIgnoringCase(subject, other)
  {
    if ContainsIgnoringCase(subject, term) {
      var k: nat :| k + |term| <= |subject| && MatchesAt(subject, term, k);
      assert MatchesAt(subject, other, k);
    }
    if ContainsIgnoringCase(subject, other) {
      var k: nat :| k + |other| <= |subject| && MatchesAt(subject, other, k);
      assert MatchesAt(subject, term, k);
    }
  }

  /** A term with no character in `[a-zA-Z0-9 ]` is cleaned to the empty term, which matches every name. */
  lemma PunctuationOnlyTermMatchesAll(term: string, subject: string)
    requires forall i :: 0 <= i < |term| ==> !IsSearchChar(term[i])
    ensures Sanitize(term) == []
    ensures ContainsIgnoringCase(subject, Sanitize(term))
  {
    if Sanitize(term) != [] {
      var c := Sanitize(term)[0];
      SanitizeMembers(term, c);
      assert false;
    }
    EmptyTermMatches(subject);
  }
}
