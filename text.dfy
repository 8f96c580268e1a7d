/** The two string builtins the catalog relies on: `str.lower` (modelled as
    ASCII A-Z folding) and the substring test `t in s`. */
module Text {

  /** Folds one ASCII upper-case letter to lower case; every other character is kept. */
  function LowerChar(c: char): (d: char)
    ensures 'A' <= c <= 'Z' ==> d as int == c as int + 32
    ensures !('A' <= c <= 'Z') ==> d == c
    ensures !('A' <= d <= 'Z')
  {
    if 'A' <= c <= 'Z' then (c as int + 32) as char else c
  }

  /** `s.lower()`, restricted to ASCII folding: the result has the same length, holds no
      upper-case letter, and a string without upper-case letters is its own lowering. */
  function Lower(s: string): (r: string)
    ensures |r| == |s|
    ensures forall i :: 0 <= i < |r| ==> !('A' <= r[i] <= 'Z')
    ensures (forall i :: 0 <= i < |s| ==> !('A' <= s[i] <= 'Z')) ==> r == s
  {
    seq(|s|, i requires 0 <= i < |s| => LowerChar(s[i]))
  }

  /** Lowering an already lowered string changes nothing. */
  lemma LowerIdempotent(s: string)
    ensures Lower(Lower(s)) == Lower(s)
  {
    assert forall i :: 0 <= i < |s| ==> LowerChar(LowerChar(s[i])) == LowerChar(s[i]);
  }

  /** `t` occurs in `s` starting at offset `i`. */
  ghost predicate OccursAt(t: string, s: string, i: int)
  {
    0 <= i <= |s| - |t| && s[i..i + |t|] == t
  }

  /** The meaning of Python's `t in s` on strings: `t` occurs at some offset of `s`. */
  ghost predicate IsSubstring(t: string, s: string)
  {
    exists i :: OccursAt(t, s, i)
  }

  /** The executable substring test, scanning the offsets of `s` from the left. */
  function Contains(s: string, t: string): bool
    decreases |s|
  {
    if |t| > |s| then false
    else if s[..|t|] == t then true
    else Contains(s[1..], t)
  }

  /** `Contains` decides exactly the substring relation, in both directions. */
  lemma {:induction false} ContainsIsSubstring(s: string, t: string)
    ensures Contains(s, t) <==> IsSubstring(t, s)
    decreases |s|
  {
    if |t| > |s| {
    } else if s[..|t|] == t {
      assert OccursAt(t, s, 0);
    } else {
      ContainsIsSubstring(s[1..], t);
      if Contains(s[1..], t) {
        var i :| OccursAt(t, s[1..], i);
        assert 0 <= i && i + |t| <= |s| - 1;
        var u, w := s[1..][i..i + |t|], s[i + 1..i + 1 + |t|];
        assert forall k :: 0 <= k < |t| ==> u[k] == w[k];
        assert u == w;
        assert OccursAt(t, s, i + 1);
      } else if IsSubstring(t, s) {
        var i :| OccursAt(t, s, i);
        assert i != 0;
        assert s[1..][i - 1..i - 1 + |t|] == s[i..i + |t|];
        assert OccursAt(t, s[1..], i - 1);
      }
    }
  }

  /** The empty string is a substring of every string. */
  lemma EmptyIsSubstring(s: string)
    ensures Contains(s, "")
  {
    assert s[..0] == "";
  }
}
