/**
 The e-mail shape test of the contact form, the regular expression
 `/^[^\s@]+@[^\s@]+\.[^\s@]+$/`, read two ways: literally, as the
 decomposition the pattern asks for, and as a check the form can run.
 */
module Addresses {
  import opened Text

  /** A character of the class `[^\s@]`. */
  predicate IsAddressChar(c: char) {
    !IsWhitespace(c) && c != '@'
  }

  /** A string matched by `[^\s@]+`. */
  predicate IsRun(t: string) {
    |t| > 0 && forall i :: 0 <= i < |t| ==> IsAddressChar(t[i])
  }

  /** The pattern read literally: the whole of `s` splits into a run, "@",
      a run, ".", and a run. Regular-expression matching with both anchors
      succeeds exactly when such a split exists. */
  ghost predicate MatchesEmailPattern(s: string)
    ensures MatchesEmailPattern(s) ==> 5 <= |s| && s[0] != '@'
  {
    exists at: nat, dot: nat :: at < dot < |s| && s[at] == '@' && s[dot] == '.'
      && IsRun(s[..at]) && IsRun(s[at + 1..dot]) && IsRun(s[dot + 1..])
  }

  /** The domain has a "." with at least one character on each side. */
  predicate HasInnerDot(d: string) {
    exists i :: 0 < i < |d| - 1 && d[i] == '.'
  }

  /** Index of the first occurrence of `c` in `s`. */
  function IndexOf(s: string, c: char): (i: nat)
    requires c in s
    ensures i < |s| && s[i] == c
    ensures c !in s[..i]
  {
    if s[0] == c then 0
    else
      var i := 1 + IndexOf(s[1..], c);
      assert s[..i] == [s[0]] + s[1..][..i - 1];
      i
  }

  /** The shape the pattern accepts, stated the way one would describe an
      address: no white space, exactly one "@", something before it, and a
      domain after it holding a "." that is neither its first nor its last
      character. */
  predicate IsEmailAddress(s: string)
    ensures IsEmailAddress(s) ==> 5 <= |s| && s[0] != '@'
  {
    && NoWhitespace(s)
    && multiset(s)['@'] == 1
    && var at := IndexOf(s, '@');
       at > 0 && HasInnerDot(s[at + 1..])
  }

  /** A sample address of the described shape, with nothing to trim. */
  lemma SampleAddressShape()
    ensures Unpadded("a@b.com") && IsEmailAddress("a@b.com")
  {
    var good := "a@b.com";
    assert NoWhitespace(good);
    assert multiset(good)['@'] == 1;
    assert IndexOf(good, '@') == 1;
    assert good[2..][1] == '.';
  }

  /** The description and the literal pattern accept exactly the same strings. */
  lemma EmailPatternCharacterized(s: string)
    ensures IsEmailAddress(s) <==> MatchesEmailPattern(s)
  {
    if MatchesEmailPattern(s) {
      var at: nat, dot: nat :| at < dot < |s| && s[at] == '@' && s[dot] == '.'
        && IsRun(s[..at]) && IsRun(s[at + 1..dot]) && IsRun(s[dot + 1..]);
      MatchImpliesShape(s, at, dot);
    }
    if IsEmailAddress(s) {
      ShapeImpliesMatch(s);
    }
  }

  lemma MatchImpliesShape(s: string, at: nat, dot: nat)
    requires at < dot < |s| && s[at] == '@' && s[dot] == '.'
    requires IsRun(s[..at]) && IsRun(s[at + 1..dot]) && IsRun(s[dot + 1..])
    ensures IsEmailAddress(s)
  {
    var a, b, c := s[..at], s[at + 1..dot], s[dot + 1..];
    assert s == a + [s[at]] + b + [s[dot]] + c;
    forall i | 0 <= i < |s| ensures !IsWhitespace(s[i]) {
      if i < at { assert s[i] == a[i]; }
      else if at < i < dot { assert s[i] == b[i - at - 1]; }
      else if dot < i { assert s[i] == c[i - dot - 1]; }
    }
    assert '@' !in a && '@' !in b && '@' !in c;
    assert multiset(s) == multiset(a) + multiset{s[at]} + multiset(b) + multiset{s[dot]} + multiset(c);
    assert IndexOf(s, '@') == at;
    var d := s[at + 1..];
    assert d[dot - at - 1] == '.';
  }

  lemma ShapeImpliesMatch(s: string)
    requires IsEmailAddress(s)
    ensures MatchesEmailPattern(s)
  {
    var at := IndexOf(s, '@');
    var d := s[at + 1..];
    var i :| 0 < i < |d| - 1 && d[i] == '.';
    var dot := at + 1 + i;
    OnlyAtPosition(s, at);
    RunBetween(s, 0, at);
    RunBetween(s, at + 1, dot);
    RunBetween(s, dot + 1, |s|);
  }

  /** The first "@" of a string holding exactly one is the only one. */
  lemma OnlyAtPosition(s: string, at: nat)
    requires at < |s| && s[at] == '@' && multiset(s)['@'] == 1 && '@' !in s[..at]
    ensures forall j :: 0 <= j < |s| && j != at ==> s[j] != '@'
  {
    assert s == s[..at] + [s[at]] + s[at + 1..];
    assert multiset(s) == multiset(s[..at]) + multiset{s[at]} + multiset(s[at + 1..]);
    forall j | 0 <= j < |s| && j != at ensures s[j] != '@' {
      if j < at { assert s[j] == s[..at][j]; }
      else { assert s[j] == s[at + 1..][j - at - 1]; }
    }
  }

  /** A non-empty stretch of a string without white space and without "@"
      is matched by `[^\s@]+`. */
  lemma RunBetween(s: string, lo: nat, hi: nat)
    requires lo < hi <= |s| && NoWhitespace(s)
    requires forall j :: lo <= j < hi ==> s[j] != '@'
    ensures IsRun(s[lo..hi])
  {
    forall j | 0 <= j < hi - lo ensures IsAddressChar(s[lo..hi][j]) {
      assert s[lo..hi][j] == s[lo + j];
    }
  }
}
