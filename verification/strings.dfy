/** Go's `strings.TrimSpace`, which the user use case applies to every
    credential it receives. Strings are sequences of code points. */
module Text {

  /** Go's `unicode.IsSpace`: the six ASCII spaces, NEL and NO-BREAK SPACE
      in Latin-1, and the other characters with Unicode's White_Space
      property. */
  predicate IsSpace(c: char) {
    || c in {'\t', '\n', '\U{000B}', '\U{000C}', '\r', ' ', '\U{0085}', '\U{00A0}'}
    || c in {'\U{1680}', '\U{2028}', '\U{2029}', '\U{202F}', '\U{205F}', '\U{3000}'}
    || '\U{2000}' <= c <= '\U{200A}'
  }

  /** Every character of `s` is white space. */
  predicate AllSpace(s: string) {
    forall k :: 0 <= k < |s| ==> IsSpace(s[k])
  }

  /** `s` without its leading white space: a suffix of `s` that does not
      start with white space, everything cut off being white space. */
  function TrimStart(s: string): (r: string)
    ensures |r| <= |s| && r == s[|s| - |r|..]
    ensures AllSpace(s[..|s| - |r|])
    ensures r == [] || !IsSpace(r[0])
    decreases |s|
  {
    if s != [] && IsSpace(s[0]) then
      var r := TrimStart(s[1..]);
      assert s[..|s| - |r|] == [s[0]] + s[1..][..|s[1..]| - |r|];
      r
    else s
  }

  /** `s` without its trailing white space. */
  function TrimEnd(s: string): (r: string)
    ensures |r| <= |s| && r == s[..|r|]
    ensures AllSpace(s[|r|..])
    ensures r == [] || !IsSpace(r[|r| - 1])
    decreases |s|
  {
    if s != [] && IsSpace(s[|s| - 1]) then
      var r := TrimEnd(s[..|s| - 1]);
      assert s[|r|..] == s[..|s| - 1][|r|..] + [s[|s| - 1]];
      r
    else s
  }

  /** `strings.TrimSpace`: `s` without its leading and its trailing white
      space. The result neither starts nor ends with white space. */
  function TrimSpace(s: string): (r: string)
    ensures |r| <= |s|
    ensures r == [] || (!IsSpace(r[0]) && !IsSpace(r[|r| - 1]))
  {
    TrimEnd(TrimStart(s))
  }

  /** The result of `TrimSpace` is a piece of `s`, and what was cut off on
      either side of it is all white space. */
  lemma TrimSpaceCutsOnlySpace(s: string)
    ensures var r := TrimSpace(s);
            exists i :: && 0 <= i <= |s| - |r| && r == s[i..i + |r|]
                        && AllSpace(s[..i]) && AllSpace(s[i + |r|..])
  {
    var left := TrimStart(s);
    var r := TrimEnd(left);
    var i := |s| - |left|;
    assert left == s[i..];
    assert r == s[i..i + |r|];
    assert s[i + |r|..] == left[|r|..];
  }

  /** Leading white space does not change the result. */
  lemma {:induction false} TrimStartOfPadded(p: string, s: string)
    requires AllSpace(p)
    ensures TrimStart(p + s) == TrimStart(s)
    decreases |p|
  {
    if p != [] {
      assert (p + s)[1..] == p[1..] + s;
      TrimStartOfPadded(p[1..], s);
    } else {
      assert p + s == s;
    }
  }

  /** Trailing white space does not change the result. */
  lemma {:induction false} TrimEndOfPadded(s: string, q: string)
    requires AllSpace(q)
    ensures TrimEnd(s + q) == TrimEnd(s)
    decreases |q|
  {
    if q != [] {
      var q' := q[..|q| - 1];
      assert (s + q)[..|s + q| - 1] == s + q';
      TrimEndOfPadded(s, q');
    } else {
      assert s + q == s;
    }
  }

  /** Text without white space at either end is left as it is. */
  lemma TrimSpaceOfTrimmed(s: string)
    requires s == [] || (!IsSpace(s[0]) && !IsSpace(s[|s| - 1]))
    ensures TrimSpace(s) == s
  {
  }

  /** Trimming twice is trimming once. */
  lemma TrimSpaceIdempotent(s: string)
    ensures TrimSpace(TrimSpace(s)) == TrimSpace(s)
  {
    TrimSpaceOfTrimmed(TrimSpace(s));
  }

  /** White space added around a string is removed again: an email typed
      with stray spaces reaches the store as the same key. */
  lemma TrimSpaceOfPadded(p: string, s: string, q: string)
    requires AllSpace(p) && AllSpace(q)
    ensures TrimSpace(p + s + q) == TrimSpace(s)
  {
    assert p + s + q == p + (s + q);
    TrimStartOfPadded(p, s + q);
    assert TrimStart(p + s + q) == TrimStart(s + q);
    TrimStartEndCommute(s, q);
  }

  /** Cutting trailing white space first or leading white space first ends
      the same way when the trailing part is all white space. */
  lemma TrimStartEndCommute(s: string, q: string)
    requires AllSpace(q)
    ensures TrimEnd(TrimStart(s + q)) == TrimEnd(TrimStart(s))
  {
    var l := TrimStart(s);
    if l == [] {
      assert AllSpace(s);
      AllSpaceTrimsAway(s + q);
    } else {
      TrimStartKeepsTail(s, q);
      TrimEndOfPadded(l, q);
    }
  }

  /** An all-white-space string trims to nothing from the left. */
  lemma {:induction false} AllSpaceTrimsAway(s: string)
    requires AllSpace(s)
    ensures TrimStart(s) == []
    decreases |s|
  {
    if s != [] {
      AllSpaceTrimsAway(s[1..]);
    }
  }

  /** If `s` does not trim away entirely, what follows `s` is carried
      through the left trim untouched. */
  lemma {:induction false} TrimStartKeepsTail(s: string, q: string)
    requires TrimStart(s) != []
    ensures TrimStart(s + q) == TrimStart(s) + q
    decreases |s|
  {
    if s != [] && IsSpace(s[0]) {
      assert (s + q)[1..] == s[1..] + q;
      TrimStartKeepsTail(s[1..], q);
    }
  }
}
