/**
 * The text operations the controllers rely on: a code-point order on text
 * that stands in for the database engine's collation in ORDER BY,
 * String.equalsIgnoreCase, String.trim, and the substring test behind
 * LIKE '%q%'.
 */
module Strings {

  /** `a` sorts no later than `b` in lexicographic character-code order. */
  predicate StrLeq(a: string, b: string)
  {
    if a == [] then true
    else if b == [] then false
    else if a[0] != b[0] then a[0] < b[0]
    else StrLeq(a[1..], b[1..])
  }

  predicate StrLt(a: string, b: string)
  {
    StrLeq(a, b) && a != b
  }

  lemma {:induction false} StrLeqTotal(a: string, b: string)
    ensures StrLeq(a, b) || StrLeq(b, a)
  {
    if a != [] && b != [] && a[0] == b[0] {
      StrLeqTotal(a[1..], b[1..]);
    }
  }

  lemma {:induction false} StrLeqTransitive(a: string, b: string, c: string)
    requires StrLeq(a, b) && StrLeq(b, c)
    ensures StrLeq(a, c)
  {
    if a != [] && b != [] && c != [] && a[0] == b[0] && b[0] == c[0] {
      StrLeqTransitive(a[1..], b[1..], c[1..]);
    }
  }

  lemma {:induction false} StrLeqAntisymmetric(a: string, b: string)
    requires StrLeq(a, b) && StrLeq(b, a)
    ensures a == b
  {
    if a != [] && b != [] {
      StrLeqAntisymmetric(a[1..], b[1..]);
      assert a == [a[0]] + a[1..] && b == [b[0]] + b[1..];
    }
  }

  /** Upper-case of an ASCII letter; every other character is its own upper case. */
  function UpperAscii(c: char): char
  {
    if 'a' <= c <= 'z' then (c as int - 32) as char else c
  }

  /** String.equalsIgnoreCase, restricted to ASCII case folding. */
  predicate EqualsIgnoreCase(a: string, b: string)
  {
    |a| == |b| && forall i :: 0 <= i < |a| ==> UpperAscii(a[i]) == UpperAscii(b[i])
  }

  lemma EqualsIgnoreCaseExamples()
    ensures EqualsIgnoreCase("available", "AVAILABLE")
    ensures EqualsIgnoreCase("Available", "AVAILABLE")
    ensures !EqualsIgnoreCase("ISSUED", "AVAILABLE")
  {
    var s := "available";
    assert forall i :: 0 <= i < 9 ==> UpperAscii(s[i]) == "AVAILABLE"[i];
    var u := "Available";
    assert forall i :: 0 <= i < 9 ==> UpperAscii(u[i]) == "AVAILABLE"[i];
  }

  predicate IsPrefix(p: string, s: string)
  {
    |p| <= |s| && s[..|p|] == p
  }

  /** `q` occurs in `s` as a contiguous substring (LIKE '%q%' without wildcards in q). */
  predicate Contains(s: string, q: string)
  {
    IsPrefix(q, s) || (s != [] && Contains(s[1..], q))
  }

  lemma {:induction false} ContainsAt(s: string, q: string, i: nat)
    requires i + |q| <= |s| && s[i..i + |q|] == q
    ensures Contains(s, q)
  {
    if i > 0 {
      assert s[1..][i - 1..i - 1 + |q|] == s[i..i + |q|];
      ContainsAt(s[1..], q, i - 1);
    }
  }

  lemma {:induction false} ContainsWitness(s: string, q: string) returns (i: nat)
    requires Contains(s, q)
    ensures i + |q| <= |s| && s[i..i + |q|] == q
  {
    if IsPrefix(q, s) {
      i := 0;
    } else {
      var j := ContainsWitness(s[1..], q);
      assert s[1..][j..j + |q|] == s[j + 1..j + 1 + |q|];
      i := j + 1;
    }
  }

  /** Characters String.trim removes: every code point up to U+0020. */
  predicate IsTrimmable(c: char)
  {
    c <= ' '
  }

  function TrimStart(s: string): (r: string)
    ensures |r| <= |s| && r == s[|s| - |r|..]
    ensures r == [] || !IsTrimmable(r[0])
    ensures forall i :: 0 <= i < |s| - |r| ==> IsTrimmable(s[i])
  {
    if s != [] && IsTrimmable(s[0]) then TrimStart(s[1..]) else s
  }

  function TrimEnd(s: string): (r: string)
    ensures |r| <= |s| && r == s[..|r|]
    ensures r == [] || !IsTrimmable(r[|r| - 1])
    ensures forall i :: |r| <= i < |s| ==> IsTrimmable(s[i])
  {
    if s != [] && IsTrimmable(s[|s| - 1]) then TrimEnd(s[..|s| - 1]) else s
  }

  /**
   * `r` is the slice of `s` starting at `a`, and every character of `s`
   * outside that slice is trimmable.
   */
  ghost predicate IsTrimmedSlice(s: string, r: string, a: int)
  {
    && 0 <= a <= |s| - |r|
    && r == s[a..a + |r|]
    && forall k :: 0 <= k < |s| && (k < a || a + |r| <= k) ==> IsTrimmable(s[k])
  }

  /** String.trim: strip leading and trailing control characters and spaces. */
  function Trim(s: string): (r: string)
    ensures |r| <= |s|
    ensures r == [] || (!IsTrimmable(r[0]) && !IsTrimmable(r[|r| - 1]))
    ensures s == [] || (!IsTrimmable(s[0]) && !IsTrimmable(s[|s| - 1])) ==> r == s
    ensures forall i :: 0 <= i < |s| && !IsTrimmable(s[i]) ==> s[i] in r
    ensures exists a :: IsTrimmedSlice(s, r, a)
  {
    var t := TrimStart(s);
    var r := TrimEnd(t);
    SuffixPrefixIsSlice(s, t, r);
    r
  }

  /**
   * Trimming a suffix `t` of `s` to a prefix `r` of `t`, where only
   * trimmable characters are dropped, leaves a trimmed slice of `s`.
   */
  lemma SuffixPrefixIsSlice(s: string, t: string, r: string)
    requires |t| <= |s| && t == s[|s| - |t|..]
    requires forall i :: 0 <= i < |s| - |t| ==> IsTrimmable(s[i])
    requires |r| <= |t| && r == t[..|r|]
    requires forall i :: |r| <= i < |t| ==> IsTrimmable(t[i])
    ensures IsTrimmedSlice(s, r, |s| - |t|)
  {
    var a := |s| - |t|;
    assert r == s[a..a + |r|];
    forall k | a + |r| <= k < |s| ensures IsTrimmable(s[k]) {
      assert s[k] == t[k - a];
    }
  }
}
