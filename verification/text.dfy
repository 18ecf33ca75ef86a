/**
 Character-level text helpers shared by the contact-form validator: the
 white-space set of ECMAScript and `String.prototype.trim`.
 */
module Text {

  /** The ECMAScript WhiteSpace and LineTerminator characters. This one set is
      both what `String.prototype.trim` strips and what the regular-expression
      class `\s` matches. */
  predicate IsWhitespace(c: char) {
    || c == '\t' || c == '\n' || c == '\U{000B}' || c == '\U{000C}' || c == '\r'
    || c == ' ' || c == '\U{00A0}' || c == '\U{1680}'
    || ('\U{2000}' <= c <= '\U{200A}')
    || c == '\U{2028}' || c == '\U{2029}' || c == '\U{202F}' || c == '\U{205F}'
    || c == '\U{3000}' || c == '\U{FEFF}'
  }

  /** Every character of `s` at an index in [lo, hi) is white space. */
  predicate BlankBetween(s: string, lo: nat, hi: nat) {
    forall i :: lo <= i < hi && i < |s| ==> IsWhitespace(s[i])
  }

  predicate AllWhitespace(s: string) {
    BlankBetween(s, 0, |s|)
  }

  predicate NoWhitespace(s: string) {
    forall i :: 0 <= i < |s| ==> !IsWhitespace(s[i])
  }

  /** Neither end of `s` is white space (vacuously true of the empty string). */
  predicate Unpadded(s: string) {
    s == [] || (!IsWhitespace(s[0]) && !IsWhitespace(s[|s| - 1]))
  }

  /** `r` is what is left of `s` once some white-space prefix and some
      white-space suffix are cut off. */
  ghost predicate StripsPadding(s: string, r: string) {
    exists lo: nat, hi: nat :: lo <= hi <= |s| && s[lo..hi] == r
                               && BlankBetween(s, 0, lo) && BlankBetween(s, hi, |s|)
  }

  /** `String.prototype.trim`: `s` without its leading and trailing white
      space, peeled one character at a time. */
  function Trim(s: string): (r: string)
    ensures Unpadded(r)
    ensures |r| <= |s|
    decreases |s|
  {
    if s != [] && IsWhitespace(s[0]) then Trim(s[1..])
    else if s != [] && IsWhitespace(s[|s| - 1]) then Trim(s[..|s| - 1])
    else s
  }

  /** What Trim removes is white space at the two ends and nothing else. */
  lemma {:induction false} TrimStripsPadding(s: string)
    ensures StripsPadding(s, Trim(s))
    decreases |s|
  {
    var r := Trim(s);
    if s != [] && IsWhitespace(s[0]) {
      var t := s[1..];
      TrimStripsPadding(t);
      var lo: nat, hi: nat :| lo <= hi <= |t| && t[lo..hi] == r
                              && BlankBetween(t, 0, lo) && BlankBetween(t, hi, |t|);
      PadFront(s, lo, hi);
    } else if s != [] && IsWhitespace(s[|s| - 1]) {
      var t := s[..|s| - 1];
      TrimStripsPadding(t);
      var lo: nat, hi: nat :| lo <= hi <= |t| && t[lo..hi] == r
                              && BlankBetween(t, 0, lo) && BlankBetween(t, hi, |t|);
      PadBack(s, lo, hi);
    } else {
      assert s[0..|s|] == s;
    }
  }

  /** Putting one white-space character back in front keeps a stripping a
      stripping. */
  lemma PadFront(s: string, lo: nat, hi: nat)
    requires s != [] && IsWhitespace(s[0]) && lo <= hi <= |s| - 1
    requires BlankBetween(s[1..], 0, lo) && BlankBetween(s[1..], hi, |s| - 1)
    ensures StripsPadding(s, s[1..][lo..hi])
  {
    var t := s[1..];
    assert s[lo + 1..hi + 1] == t[lo..hi] by {
      forall k | 0 <= k < hi - lo ensures s[lo + 1..hi + 1][k] == t[lo..hi][k] {
        assert s[lo + 1 + k] == t[lo + k];
      }
    }
    assert BlankBetween(s, 0, lo + 1) by {
      forall i | 0 <= i < lo + 1 ensures IsWhitespace(s[i]) {
        if i > 0 { assert s[i] == t[i - 1]; }
      }
    }
    assert BlankBetween(s, hi + 1, |s|) by {
      forall i | hi + 1 <= i < |s| ensures IsWhitespace(s[i]) {
        assert s[i] == t[i - 1];
      }
    }
  }

  /** Putting one white-space character back at the end keeps a stripping a
      stripping. */
  lemma PadBack(s: string, lo: nat, hi: nat)
    requires s != [] && IsWhitespace(s[|s| - 1]) && lo <= hi <= |s| - 1
    requires BlankBetween(s[..|s| - 1], 0, lo) && BlankBetween(s[..|s| - 1], hi, |s| - 1)
    ensures StripsPadding(s, s[..|s| - 1][lo..hi])
  {
    var t := s[..|s| - 1];
    assert s[lo..hi] == t[lo..hi];
    assert BlankBetween(s, 0, lo) by {
      forall i | 0 <= i < lo ensures IsWhitespace(s[i]) {
        assert s[i] == t[i];
      }
    }
    assert BlankBetween(s, hi, |s|) by {
      forall i | hi <= i < |s| ensures IsWhitespace(s[i]) {
        if i < |s| - 1 { assert s[i] == t[i]; }
      }
    }
  }

  /** Trim is THE way to strip padding: any unpadded string obtained from `s`
      by cutting white space off both ends is `Trim(s)`. */
  lemma {:induction false} TrimUnique(s: string, r: string)
    requires Unpadded(r) && StripsPadding(s, r)
    ensures Trim(s) == r
    decreases |s|
  {
    var lo: nat, hi: nat :| lo <= hi <= |s| && s[lo..hi] == r
                            && BlankBetween(s, 0, lo) && BlankBetween(s, hi, |s|);
    if s != [] && IsWhitespace(s[0]) {
      var t := s[1..];
      if r == [] {
        assert t[0..0] == r;
        assert BlankBetween(t, 0, |t|) by {
          forall i | 0 <= i < |t| ensures IsWhitespace(t[i]) {
            assert t[i] == s[i + 1];
          }
        }
      } else {
        assert s[lo] == r[0];
        assert t[lo - 1..hi - 1] == r;
        assert BlankBetween(t, hi - 1, |t|) by {
          forall i | hi - 1 <= i < |t| ensures IsWhitespace(t[i]) {
            assert t[i] == s[i + 1];
          }
        }
      }
      TrimUnique(t, r);
    } else if s != [] && IsWhitespace(s[|s| - 1]) {
      var t := s[..|s| - 1];
      if r != [] {
        assert s[hi - 1] == r[|r| - 1];
        assert t[lo..hi] == r;
        assert BlankBetween(t, hi, |t|) by {
          forall i | hi <= i < |t| ensures IsWhitespace(t[i]) {
            assert t[i] == s[i];
          }
        }
        TrimUnique(t, r);
      }
    } else if s != [] {
      assert lo == 0 && hi == |s|;
      assert s[0..|s|] == s;
    }
  }

  /** Trimming twice is trimming once. */
  lemma TrimIdempotent(s: string)
    ensures Trim(Trim(s)) == Trim(s)
  {
    var t := Trim(s);
    assert t[0..|t|] == t;
    TrimUnique(t, t);
  }

  /** Trim removes white-space padding added around an unpadded string. */
  lemma TrimPadded(pre: string, t: string, post: string)
    requires AllWhitespace(pre) && AllWhitespace(post) && Unpadded(t)
    ensures Trim(pre + t + post) == t
  {
    var s := pre + t + post;
    assert s[|pre|..|pre| + |t|] == t;
    assert BlankBetween(s, 0, |pre|) by {
      forall i | 0 <= i < |pre| ensures IsWhitespace(s[i]) {
        assert s[i] == pre[i];
      }
    }
    assert BlankBetween(s, |pre| + |t|, |s|) by {
      forall i | |pre| + |t| <= i < |s| ensures IsWhitespace(s[i]) {
        assert s[i] == post[i - |pre| - |t|];
      }
    }
    TrimUnique(s, t);
  }

  /** Text with no padding passes through trimming unchanged. */
  lemma TrimOfUnpadded(t: string)
    requires Unpadded(t)
    ensures Trim(t) == t
  {
    assert "" + t + "" == t;
    TrimPadded("", t, "");
  }

  /** The trimmed text is empty exactly when the input is all white space:
      JavaScript's `!value.trim()` test. */
  lemma TrimEmptyIffBlank(s: string)
    ensures Trim(s) == [] <==> AllWhitespace(s)
  {
    if AllWhitespace(s) {
      assert s[0..0] == [];
      TrimUnique(s, []);
    } else {
      TrimStripsPadding(s);
      var lo: nat, hi: nat :| lo <= hi <= |s| && s[lo..hi] == Trim(s)
                              && BlankBetween(s, 0, lo) && BlankBetween(s, hi, |s|);
      var i :| 0 <= i < |s| && !IsWhitespace(s[i]);
      assert lo <= i < hi;
      assert Trim(s)[i - lo] == s[i];
    }
  }
}
