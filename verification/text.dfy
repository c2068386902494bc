/**
 * Case-insensitive substring search over column names, the test a compiled
 * `re.IGNORECASE` pattern of plain-literal alternatives performs with `search`.
 * Case folding is ASCII only.
 */
module Text {

  /** The ASCII lower-case form of one character; every other character is unchanged. */
  function LowerChar(c: char): char
  {
    if 'A' <= c <= 'Z' then (c as int - 'A' as int + 'a' as int) as char else c
  }

  /** The ASCII lower-case form of a string, character by character. */
  function Lower(s: string): (r: string)
    ensures |r| == |s|
    ensures forall i :: 0 <= i < |s| ==> r[i] == LowerChar(s[i])
    ensures forall i :: 0 <= i < |r| ==> !('A' <= r[i] <= 'Z')
  {
    if s == [] then [] else [LowerChar(s[0])] + Lower(s[1..])
  }

  /** `t` occurs in `s` as a contiguous substring (the empty string occurs everywhere). */
  predicate Contains(s: string, t: string)
  {
    t <= s || (s != [] && Contains(s[1..], t))
  }

  /** `t` occurs in `s` when both are compared ignoring ASCII case. */
  predicate ContainsIgnoreCase(s: string, t: string)
  {
    Contains(Lower(s), Lower(t))
  }

  /** `t` starts at position `i` of `s`. */
  predicate OccursAt(s: string, t: string, i: nat)
  {
    i + |t| <= |s| && s[i..i + |t|] == t
  }

  /** `Contains` is exactly "there is a position where `t` starts in `s`". */
  lemma {:induction false} ContainsAt(s: string, t: string)
    ensures Contains(s, t) <==> exists i: nat :: OccursAt(s, t, i)
  {
    if t <= s {
      assert OccursAt(s, t, 0);
    } else if s == [] {
    } else {
      ContainsAt(s[1..], t);
      if Contains(s, t) {
        var rest := s[1..];
        var i: nat :| OccursAt(rest, t, i);
        forall k | 0 <= k < |t|
          ensures s[i + 1 + k] == t[k]
        {
          assert rest[i..i + |t|][k] == t[k];
        }
        assert s[i + 1..i + 1 + |t|] == t;
        assert OccursAt(s, t, i + 1);
      } else {
        forall i: nat
          ensures !OccursAt(s, t, i)
        {
          if i > 0 && i + |t| <= |s| {
            var rest := s[1..];
            assert !OccursAt(rest, t, i - 1);
            assert rest[i - 1..i - 1 + |t|] == s[i..i + |t|];
          }
        }
      }
    }
  }

  /** Lower-casing twice is lower-casing once. */
  lemma {:induction false} LowerIdempotent(s: string)
    ensures Lower(Lower(s)) == Lower(s)
  {
    var l := Lower(s);
    assert forall i :: 0 <= i < |l| ==> Lower(l)[i] == l[i];
  }

  /** A case-sensitive occurrence is also a case-insensitive one. */
  lemma {:induction false} ContainsIgnoresCase(s: string, t: string)
    requires Contains(s, t)
    ensures ContainsIgnoreCase(s, t)
  {
    ContainsAt(s, t);
    var i: nat :| OccursAt(s, t, i);
    assert Lower(s)[i..i + |t|] == Lower(t);
    assert OccursAt(Lower(s), Lower(t), i);
    ContainsAt(Lower(s), Lower(t));
  }

  /** Changing the ASCII case of either side does not change a case-insensitive match. */
  lemma CaseOfArgumentsIrrelevant(s: string, s': string, t: string, t': string)
    requires Lower(s) == Lower(s') && Lower(t) == Lower(t')
    ensures ContainsIgnoreCase(s, t) == ContainsIgnoreCase(s', t')
  {
  }
}
