/**
 * The string operations the search filter relies on: `lowercased()` and
 * `contains(_:)`. Lower-casing is modelled on ASCII letters only.
 */
module Text {

  predicate IsUpper(c: char)
  {
    'A' <= c <= 'Z'
  }

  /** Lower-case one character: 'A'..'Z' map to 'a'..'z', all else is kept. */
  function LowerChar(c: char): char
  {
    if IsUpper(c) then (c as int + 32) as char else c
  }

  /** `lowercased()`, ASCII only. */
  function Lower(s: string): (r: string)
    ensures |r| == |s|
    ensures forall i :: 0 <= i < |s| && IsUpper(s[i]) ==> r[i] as int == s[i] as int + 32
    ensures forall i :: 0 <= i < |s| && !IsUpper(s[i]) ==> r[i] == s[i]
  {
    seq(|s|, i requires 0 <= i < |s| => LowerChar(s[i]))
  }

  /** Lower-casing twice is lower-casing once. */
  lemma LowerIdempotent(s: string)
    ensures Lower(Lower(s)) == Lower(s)
  {
    assert forall i :: 0 <= i < |s| ==> Lower(Lower(s))[i] == Lower(s)[i];
  }

  /** A lower-case string is its own lower-cased form. */
  lemma LowerOfLowerCase(s: string)
    requires forall i :: 0 <= i < |s| ==> !IsUpper(s[i])
    ensures Lower(s) == s
  {
  }

  /** `c` and `d` are the same letter in either case, or the same character. */
  predicate SameCharUpToCase(c: char, d: char)
  {
    c == d || (IsUpper(c) && d as int == c as int + 32) || (IsUpper(d) && c as int == d as int + 32)
  }

  /** `s` and `t` differ at most in the case of their letters. */
  predicate SameUpToCase(s: string, t: string)
  {
    |s| == |t| && forall i :: 0 <= i < |s| ==> SameCharUpToCase(s[i], t[i])
  }

  /** Strings that differ only in letter case lower-case to the same string. */
  lemma LowerIgnoresCase(s: string, t: string)
    requires SameUpToCase(s, t)
    ensures Lower(s) == Lower(t)
  {
    assert forall i :: 0 <= i < |s| ==> Lower(s)[i] == Lower(t)[i];
  }

  /** `q` occurs in `s` starting at position `i`. */
  ghost predicate OccursAt(q: string, s: string, i: int)
  {
    0 <= i && i + |q| <= |s| && s[i..i + |q|] == q
  }

  /** `q` is a substring of `s`. */
  ghost predicate IsSubstring(q: string, s: string)
  {
    exists i :: OccursAt(q, s, i)
  }

  /** `s.contains(q)`: a left-to-right scan testing `q` as a prefix of every
      suffix of `s`. */
  function Contains(s: string, q: string): bool
    decreases |s|
  {
    if |q| <= |s| && s[..|q|] == q then true
    else if |s| == 0 then false
    else Contains(s[1..], q)
  }

  /** An occurrence in `s[1..]` is an occurrence in `s` one position on. */
  lemma OccursInTail(q: string, s: string, i: nat)
    requires |s| > 0
    ensures OccursAt(q, s[1..], i) <==> OccursAt(q, s, i + 1)
  {
    if i + |q| <= |s| - 1 {
      assert s[1..][i..i + |q|] == s[i + 1..i + 1 + |q|];
    }
  }

  /** The scan finds `q` exactly when `q` occurs somewhere in `s`. */
  lemma {:induction false} ContainsIsSubstring(s: string, q: string)
    ensures Contains(s, q) <==> IsSubstring(q, s)
    decreases |s|
  {
    if |q| <= |s| && s[..|q|] == q {
      assert OccursAt(q, s, 0);
    } else if |s| == 0 {
      assert !IsSubstring(q, s) by {
        forall i | OccursAt(q, s, i) ensures false { }
      }
    } else {
      ContainsIsSubstring(s[1..], q);
      if IsSubstring(q, s[1..]) {
        var i :| OccursAt(q, s[1..], i);
        OccursInTail(q, s, i);
      }
      if IsSubstring(q, s) {
        var i :| OccursAt(q, s, i);
        assert i != 0;
        OccursInTail(q, s, i - 1);
      }
    }
  }

  /** A string in which the first two characters of `q` never appear side by
      side does not contain `q`. */
  lemma NoOccurrenceOfPair(s: string, q: string)
    requires |q| >= 2
    requires forall i :: 0 <= i < |s| - 1 ==> !(s[i] == q[0] && s[i + 1] == q[1])
    ensures !IsSubstring(q, s)
  {
    forall i | 0 <= i && i + |q| <= |s| ensures !OccursAt(q, s, i) {
      assert s[i..i + |q|][0] == s[i] && s[i..i + |q|][1] == s[i + 1];
    }
  }
}
