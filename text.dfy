/**
  The three pieces of java.lang.String that the catalog relies on: `trim()`
  and its emptiness test, `toLowerCase()` and `contains(...)`.
  Lower-casing is modelled on ASCII letters only.
*/
module Text {

  /** `trim()` strips every character whose code is at most U+0020. */
  predicate IsSpace(c: char) {
    c <= ' '
  }

  /** A string made of trimmable characters only. */
  predicate IsBlank(s: string) {
    forall i :: 0 <= i < |s| ==> IsSpace(s[i])
  }

  /** Drops the leading trimmable characters: the result is a suffix of `s`. */
  function TrimStart(s: string): (r: string)
    ensures |r| <= |s| && r == s[|s| - |r|..]
    ensures r != [] ==> !IsSpace(r[0])
    ensures forall i :: 0 <= i < |s| - |r| ==> IsSpace(s[i])
  {
    if |s| > 0 && IsSpace(s[0]) then TrimStart(s[1..]) else s
  }

  /** Drops the trailing trimmable characters: the result is a prefix of `s`. */
  function TrimEnd(s: string): (r: string)
    ensures |r| <= |s| && r == s[..|r|]
    ensures r != [] ==> !IsSpace(r[|r| - 1])
    ensures forall i :: |r| <= i < |s| ==> IsSpace(s[i])
  {
    if |s| > 0 && IsSpace(s[|s| - 1]) then TrimEnd(s[..|s| - 1]) else s
  }

  /**
    java.lang.String.trim: the result is the slice of `s` that starts and ends
    with a non-trimmable character, and everything outside it is trimmable.
  */
  function Trim(s: string): (r: string)
    ensures r != [] ==> !IsSpace(r[0]) && !IsSpace(r[|r| - 1])
    ensures exists i :: OccursAt(s, r, i) && OnlySpaceOutside(s, i, i + |r|)
  {
    var t := TrimStart(s);
    var r := TrimEnd(t);
    TrimmedSlice(s, t, r);
    r
  }

  /**
    A prefix `r` of a suffix `t` of `s` sits at offset |s| - |t| of `s`, with
    only trimmable characters around it.
  */
  lemma TrimmedSlice(s: string, t: string, r: string)
    requires |t| <= |s| && t == s[|s| - |t|..] && |r| <= |t| && r == t[..|r|]
    requires forall j :: 0 <= j < |s| - |t| ==> IsSpace(s[j])
    requires forall j :: |r| <= j < |t| ==> IsSpace(t[j])
    ensures OccursAt(s, r, |s| - |t|) && OnlySpaceOutside(s, |s| - |t|, |s| - |t| + |r|)
  {
    var i := |s| - |t|;
    assert s[i..i + |r|] == r;
    forall j | i + |r| <= j < |s| ensures IsSpace(s[j]) {
      assert s[j] == t[j - i];
    }
  }

  /** Every character of `s` before `from` or from `to` on is trimmable. */
  predicate OnlySpaceOutside(s: string, from: int, to: int) {
    && (forall j :: 0 <= j < from && j < |s| ==> IsSpace(s[j]))
    && (forall j :: to <= j < |s| && 0 <= j ==> IsSpace(s[j]))
  }

  /** `s.trim().isEmpty()` holds exactly when every character of `s` is trimmable. */
  lemma TrimEmptyIffBlank(s: string)
    ensures Trim(s) == [] <==> IsBlank(s)
  {
    var t := TrimStart(s);
    if Trim(s) == [] {
      assert t == [];
    }
  }

  /** A string survives `trim()` unchanged when both its ends are non-trimmable. */
  lemma TrimKeepsInner(s: string)
    requires s != [] && !IsSpace(s[0]) && !IsSpace(s[|s| - 1])
    ensures Trim(s) == s
  {
  }

  predicate IsUpper(c: char) {
    'A' <= c <= 'Z'
  }

  /** ASCII lower-casing of one character. */
  function LowerChar(c: char): (r: char)
    ensures !IsUpper(r)
    ensures IsUpper(c) ==> 'a' <= r <= 'z' && r as int - 'a' as int == c as int - 'A' as int
    ensures !IsUpper(c) ==> r == c
  {
    if IsUpper(c) then (c as int - 'A' as int + 'a' as int) as char else c
  }

  /** java.lang.String.toLowerCase, restricted to ASCII letters. */
  function ToLower(s: string): (r: string)
    ensures |r| == |s|
    ensures forall i :: 0 <= i < |s| ==> r[i] == LowerChar(s[i])
  {
    if s == [] then [] else [LowerChar(s[0])] + ToLower(s[1..])
  }

  /** Lower-casing twice is lower-casing once. */
  lemma ToLowerIdempotent(s: string)
    ensures ToLower(ToLower(s)) == ToLower(s)
  {
    var once := ToLower(s);
    assert forall i :: 0 <= i < |once| ==> LowerChar(once[i]) == once[i];
  }

  /** `sub` occurs in `s` starting at offset `i`. */
  predicate OccursAt(s: string, sub: string, i: int) {
    0 <= i <= |s| - |sub| && s[i..i + |sub|] == sub
  }

  /**
    java.lang.String.contains: `sub` occurs in `s` at some offset. Every string
    contains the empty string and itself, and no string contains a longer one.
  */
  predicate Contains(s: string, sub: string)
    ensures Contains(s, sub) ==> |sub| <= |s|
    ensures sub == [] || sub == s ==> Contains(s, sub)
  {
    assert sub == [] || sub == s ==> OccursAt(s, sub, 0);
    // the explicit range lets the quantifier be compiled
    exists i :: 0 <= i <= |s| - |sub| && OccursAt(s, sub, i)
  }

  /** Lower-casing both sides keeps an occurrence where it is. */
  lemma ContainsLowered(s: string, sub: string)
    ensures Contains(s, sub) ==> Contains(ToLower(s), ToLower(sub))
  {
    if Contains(s, sub) {
      var i :| 0 <= i <= |s| - |sub| && OccursAt(s, sub, i);
      var ls, lsub := ToLower(s), ToLower(sub);
      forall k | 0 <= k < |sub| ensures ls[i + k] == lsub[k] {
        assert s[i + k] == sub[k];
      }
      assert ls[i..i + |sub|] == lsub;
      assert OccursAt(ToLower(s), ToLower(sub), i);
    }
  }

  /** Every string contains the empty string, and itself embedded anywhere. */
  lemma ContainsInfix(a: string, sub: string, b: string)
    ensures Contains(a + sub + b, sub)
    ensures Contains(a, [])
  {
    var s := a + sub + b;
    assert OccursAt(s, sub, |a|);
    assert OccursAt(a, [], 0);
  }
}
