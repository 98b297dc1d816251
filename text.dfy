/** String helpers the query conditions rely on: case folding, substring
    search and the lexicographic order a `title` sort uses. */
module Text {

  /** Lower-cases the ASCII letters A-Z and leaves every other char as is. */
  function LowerChar(c: char): (d: char)
    ensures 'A' <= c <= 'Z' ==> d as int == c as int + 32
    ensures !('A' <= c <= 'Z') ==> d == c
  {
    if 'A' <= c <= 'Z' then (c as int + 32) as char else c
  }

  function Lower(s: string): (r: string)
    ensures |r| == |s| && forall i :: 0 <= i < |s| ==> r[i] == LowerChar(s[i])
  {
    if |s| == 0 then [] else [LowerChar(s[0])] + Lower(s[1..])
  }

  /** `sub` occurs in `s` at position `i`. */
  predicate OccursAt(s: string, sub: string, i: int) {
    0 <= i && i + |sub| <= |s| && s[i..i + |sub|] == sub
  }

  /** Substring search, scanning `s` from the left. */
  predicate Contains(s: string, sub: string)
    decreases |s|
  {
    |sub| <= |s| && (s[..|sub|] == sub || (|s| > 0 && Contains(s[1..], sub)))
  }

  /** The scan finds `sub` exactly when it occurs somewhere. */
  lemma {:induction false} ContainsIffOccurs(s: string, sub: string)
    ensures Contains(s, sub) <==> exists i :: OccursAt(s, sub, i)
    decreases |s|
  {
    if |sub| > |s| {
      forall i | OccursAt(s, sub, i) ensures false { }
    } else if s[..|sub|] == sub {
      assert OccursAt(s, sub, 0);
    } else {
      ContainsIffOccurs(s[1..], sub);
      forall i | OccursAt(s[1..], sub, i) ensures OccursAt(s, sub, i + 1) {
        assert s[i + 1..i + 1 + |sub|] == s[1..][i..i + |sub|];
      }
      forall i | OccursAt(s, sub, i) ensures OccursAt(s[1..], sub, i - 1) {
        assert i != 0;
        assert s[1..][i - 1..i - 1 + |sub|] == s[i..i + |sub|];
      }
    }
  }

  /** `containsIgnoreCase`: both sides lower-cased, then a substring test. */
  predicate ContainsIgnoreCase(s: string, sub: string) {
    Contains(Lower(s), Lower(sub))
  }

  /** Every string contains the empty string, so an empty title filter keeps
      every row. */
  lemma ContainsEmpty(s: string)
    ensures ContainsIgnoreCase(s, "")
  {
    assert Lower(s)[..0] == Lower("");
  }

  // ------------------------------------------------- lexicographic order

  /** Strict lexicographic order on character codes. */
  predicate StringLess(a: string, b: string) {
    if |a| == 0 then |b| > 0
    else if |b| == 0 then false
    else a[0] < b[0] || (a[0] == b[0] && StringLess(a[1..], b[1..]))
  }

  lemma {:induction false} StringLessIrreflexive(a: string)
    ensures !StringLess(a, a)
  {
    if |a| > 0 { StringLessIrreflexive(a[1..]); }
  }

  lemma {:induction false} StringLessTransitive(a: string, b: string, c: string)
    requires StringLess(a, b) && StringLess(b, c)
    ensures StringLess(a, c)
  {
    if |a| > 0 && |b| > 0 && |c| > 0 && a[0] == b[0] && b[0] == c[0] {
      StringLessTransitive(a[1..], b[1..], c[1..]);
    }
  }

  /** Any two strings are ordered one way or the other, or are equal. */
  lemma {:induction false} StringLessTotal(a: string, b: string)
    ensures StringLess(a, b) || a == b || StringLess(b, a)
  {
    if |a| > 0 && |b| > 0 && a[0] == b[0] {
      StringLessTotal(a[1..], b[1..]);
      if a[1..] == b[1..] {
        assert a == [a[0]] + a[1..] && b == [b[0]] + b[1..];
      }
    }
  }
}
