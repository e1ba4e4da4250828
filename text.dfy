/**
 * Character and string helpers with Python's meaning: `str.strip()` with no
 * argument, the substring test `sub in s`, and `str(n)` for a natural number.
 */
module Text {

  /** `c.isspace()`: exactly the characters that `str.strip()` removes. */
  predicate IsSpace(c: char)
  {
    ('\t' <= c <= '\r') || ('\U{1C}' <= c <= ' ') || c == '\U{85}' || c == '\U{A0}'
    || c == '\U{1680}' || ('\U{2000}' <= c <= '\U{200A}') || c == '\U{2028}' || c == '\U{2029}'
    || c == '\U{202F}' || c == '\U{205F}' || c == '\U{3000}'
  }

  predicate AllSpace(s: string)
  {
    forall i | 0 <= i < |s| :: IsSpace(s[i])
  }

  /** `sub in s` for strings: `sub` occurs as a contiguous slice of `s`. */
  predicate Contains(s: string, sub: string)
  {
    exists i | 0 <= i <= |s| - |sub| :: OccursAt(s, sub, i)
  }

  /** `sub` occurs in `s` starting at index `i`. */
  predicate OccursAt(s: string, sub: string, i: int)
    requires 0 <= i <= |s| - |sub|
  {
    s[i..i + |sub|] == sub
  }

  /** What `lstrip` leaves: a suffix of `s` after white space, not starting with white space. */
  predicate LeftStripped(s: string, t: string)
  {
    |t| <= |s| && t == s[|s| - |t|..] && AllSpace(s[..|s| - |t|]) && (t == [] || !IsSpace(t[0]))
  }

  /** What `rstrip` leaves: a prefix of `t` before white space, not ending with white space. */
  predicate RightStripped(t: string, r: string)
  {
    |r| <= |t| && r == t[..|r|] && AllSpace(t[|r|..]) && (r == [] || !IsSpace(r[|r| - 1]))
  }

  /** `s.lstrip()`: the longest suffix of `s` that does not start with white space. */
  function StripStart(s: string): (r: string)
    ensures LeftStripped(s, r)
  {
    if s != [] && IsSpace(s[0]) then
      var r := StripStart(s[1..]);
      LeadingSpace(s, r);
      r
    else s
  }

  /** A white-space character in front of a stripped tail is stripped with it. */
  lemma LeadingSpace(s: string, r: string)
    requires s != [] && IsSpace(s[0]) && LeftStripped(s[1..], r)
    ensures LeftStripped(s, r)
  {
    var m := |s| - |r|;
    assert s[1..][m - 1..] == s[m..];
    forall i | 0 <= i < m ensures IsSpace(s[..m][i]) {
      if i > 0 {
        assert s[..m][i] == s[1..][..m - 1][i - 1];
      }
    }
  }

  /** `s.rstrip()`: the longest prefix of `s` that does not end with white space. */
  function StripEnd(s: string): (r: string)
    ensures RightStripped(s, r)
  {
    if s != [] && IsSpace(s[|s| - 1]) then
      var r := StripEnd(s[..|s| - 1]);
      TrailingSpace(s, r);
      r
    else s
  }

  /** A white-space character after a stripped head is stripped with it. */
  lemma TrailingSpace(s: string, r: string)
    requires s != [] && IsSpace(s[|s| - 1]) && RightStripped(s[..|s| - 1], r)
    ensures RightStripped(s, r)
  {
    var m := |s| - 1;
    assert s[..m][..|r|] == s[..|r|];
    forall i | 0 <= i < |s| - |r| ensures IsSpace(s[|r|..][i]) {
      if i < m - |r| {
        assert s[|r|..][i] == s[..m][|r|..][i];
      }
    }
  }

  /**
   * `s.strip()`: the slice of `s` left once the white space at both ends is
   * cut away; it has white space neither at its start nor at its end, it is
   * empty exactly when `s` is all white space, and a string that is already
   * trimmed comes back unchanged.
   */
  function Strip(s: string): (r: string)
    ensures |r| <= |s| && Contains(s, r)
    ensures exists i | 0 <= i <= |s| - |r| :: OccursAt(s, r, i) && AllSpace(s[..i]) && AllSpace(s[i + |r|..])
    ensures r == [] || (!IsSpace(r[0]) && !IsSpace(r[|r| - 1]))
    ensures r == [] <==> AllSpace(s)
    ensures (s == [] || (!IsSpace(s[0]) && !IsSpace(s[|s| - 1]))) ==> r == s
  {
    StripFacts(s, StripStart(s), StripEnd(StripStart(s)));
    StripEnd(StripStart(s))
  }

  lemma StripFacts(s: string, t: string, r: string)
    requires LeftStripped(s, t) && RightStripped(t, r)
    ensures |r| <= |s| && Contains(s, r)
    ensures exists i | 0 <= i <= |s| - |r| :: OccursAt(s, r, i) && AllSpace(s[..i]) && AllSpace(s[i + |r|..])
    ensures r == [] || (!IsSpace(r[0]) && !IsSpace(r[|r| - 1]))
    ensures r == [] <==> AllSpace(s)
    ensures (s == [] || (!IsSpace(s[0]) && !IsSpace(s[|s| - 1]))) ==> r == s
  {
    PrefixOfSuffix(s, t, r);
    assert t[|r|..] == s[|s| - |t| + |r|..];
    StripEmpty(s, t, r);
    if s == [] || (!IsSpace(s[0]) && !IsSpace(s[|s| - 1])) {
      StripTrimmed(s, t, r);
    }
  }

  /** Neither half of `strip` changes a string that does not start or end with white space. */
  lemma StripTrimmed(s: string, t: string, r: string)
    requires LeftStripped(s, t) && RightStripped(t, r)
    requires s == [] || (!IsSpace(s[0]) && !IsSpace(s[|s| - 1]))
    ensures t == s && r == s
  {
  }

  /** The stripped string is empty exactly for an all-white-space input, and otherwise starts with `t`'s first character. */
  lemma StripEmpty(s: string, t: string, r: string)
    requires LeftStripped(s, t) && RightStripped(t, r)
    ensures r == [] <==> AllSpace(s)
    ensures r != [] ==> r[0] == t[0] && !IsSpace(r[0])
  {
    if r != [] {
      assert r[0] == t[0];
      assert t[0] == s[|s| - |t|];
    } else {
      assert t[|r|..] == t;
      AllSpaceJoin(s, |s| - |t|);
    }
  }

  /** A prefix of a suffix of `s` occurs in `s`. */
  lemma PrefixOfSuffix(s: string, t: string, r: string)
    requires |t| <= |s| && t == s[|s| - |t|..] && |r| <= |t| && r == t[..|r|]
    ensures OccursAt(s, r, |s| - |t|) && Contains(s, r)
  {
    var a := |s| - |t|;
    assert s[a..a + |r|] == r;
    assert OccursAt(s, r, a);
  }

  lemma AllSpaceJoin(s: string, a: nat)
    requires a <= |s| && AllSpace(s[..a]) && AllSpace(s[a..])
    ensures AllSpace(s)
  {
    forall i | 0 <= i < |s| ensures IsSpace(s[i]) {
      if i < a { assert s[i] == s[..a][i]; } else { assert s[i] == s[a..][i - a]; }
    }
  }

  /** The decimal digit character for `d`. */
  function Digit(d: nat): (c: char)
    requires d < 10
    ensures '0' <= c <= '9'
  {
    (48 + d) as char
  }

  /** `str(n)` for a natural number: its decimal digits, without leading zeros. */
  function NatToString(n: nat): (s: string)
    ensures 1 <= |s|
    ensures |s| == 1 <==> n < 10
    ensures forall i | 0 <= i < |s| :: '0' <= s[i] <= '9'
    decreases n
  {
    if n < 10 then [Digit(n)] else NatToString(n / 10) + [Digit(n % 10)]
  }

  /** Distinct numbers print differently, so the names `Column_<i>` never collide. */
  lemma {:induction false} NatToStringInjective(a: nat, b: nat)
    requires NatToString(a) == NatToString(b)
    ensures a == b
    decreases a
  {
    if a >= 10 && b >= 10 {
      var sa, sb := NatToString(a), NatToString(b);
      assert Digit(a % 10) == sa[|sa| - 1] == sb[|sb| - 1] == Digit(b % 10);
      assert NatToString(a / 10) == sa[..|sa| - 1] == sb[..|sb| - 1] == NatToString(b / 10);
      NatToStringInjective(a / 10, b / 10);
    }
  }
}
