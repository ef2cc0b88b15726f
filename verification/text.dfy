/**
 Python's `str.replace(old, "")` for a non-empty `old`: every occurrence found
 by a left-to-right scan is deleted, and the scan resumes after the deleted
 text, so occurrences never overlap.
 */
module Text {

  /** `p` occurs in `s` starting at index `i`. */
  predicate OccursAt(s: string, p: string, i: nat) {
    i + |p| <= |s| && s[i..i + |p|] == p
  }

  /** `p in s`, for a non-empty `p`. */
  predicate Contains(s: string, p: string) {
    exists i: nat :: i <= |s| && OccursAt(s, p, i)
  }

  /** `s.replace(p, "")`. */
  function RemoveAll(s: string, p: string): (r: string)
    requires |p| > 0
    ensures |r| <= |s|
    decreases |s|
  {
    if |s| < |p| then s
    else if s[..|p|] == p then RemoveAll(s[|p|..], p)
    else [s[0]] + RemoveAll(s[1..], p)
  }

  /** A string without an occurrence is returned unchanged. */
  lemma {:induction false} RemoveAllAbsent(s: string, p: string)
    requires |p| > 0 && !Contains(s, p)
    ensures RemoveAll(s, p) == s
    decreases |s|
  {
    if |s| >= |p| {
      assert !OccursAt(s, p, 0);
      assert !Contains(s[1..], p) by {
        forall i: nat | i <= |s[1..]| && OccursAt(s[1..], p, i)
          ensures false
        {
          assert s[1..][i..i + |p|] == s[i + 1..i + 1 + |p|];
          assert OccursAt(s, p, i + 1);
        }
      }
      RemoveAllAbsent(s[1..], p);
    }
  }

  /** Prepending one character shifts every occurrence by one. */
  lemma OccursShift(c: char, t: string, p: string, i: nat)
    ensures OccursAt([c] + t, p, i + 1) <==> OccursAt(t, p, i)
  {
  }

  /** Where no occurrence starts at the front, the scan keeps the first
      character and continues with the rest. */
  lemma RemoveAllKeepsFirst(s: string, p: string)
    requires |p| > 0 && |s| >= |p| && !OccursAt(s, p, 0)
    ensures RemoveAll(s, p) == [s[0]] + RemoveAll(s[1..], p)
  {
    assert s[..|p|] != p;
  }

  /** Having no occurrence start among the first `n + 1` positions of `[c] + t`
      means none starts among the first `n` positions of `t`. */
  lemma NoEarlyOccurrenceInTail(c: char, t: string, p: string, n: nat)
    requires forall i: nat :: i < n + 1 ==> !OccursAt([c] + t, p, i)
    ensures forall i: nat :: i < n ==> !OccursAt(t, p, i)
  {
    forall i: nat | i < n
      ensures !OccursAt(t, p, i)
    {
      assert !OccursAt([c] + t, p, i + 1);
      OccursShift(c, t, p, i);
    }
  }

  /** An occurrence at the front is deleted and the scan continues after it. */
  lemma RemoveAllDropsFront(p: string, b: string)
    requires |p| > 0
    ensures RemoveAll(p + b, p) == RemoveAll(b, p)
  {
    assert (p + b)[..|p|] == p;
    assert (p + b)[|p|..] == b;
  }

  /** The scan deletes the leftmost occurrence: when no occurrence of `p`
      starts inside `a`, the text `a + p + b` loses exactly that `p` and the
      scan continues on `b`. */
  lemma {:induction false} RemoveAllLeftmost(a: string, p: string, b: string)
    requires |p| > 0
    requires forall i: nat :: i < |a| ==> !OccursAt(a + p + b, p, i)
    ensures RemoveAll(a + p + b, p) == a + RemoveAll(b, p)
    decreases |a|
  {
    if a == [] {
      assert a + p + b == p + b;
      RemoveAllDropsFront(p, b);
    } else {
      var s, t := a + p + b, a[1..] + p + b;
      assert s == [a[0]] + t;
      assert s[1..] == t;
      RemoveAllKeepsFirst(s, p);
      NoEarlyOccurrenceInTail(a[0], t, p, |a| - 1);
      RemoveAllLeftmost(a[1..], p, b);
      assert RemoveAll(s, p) == [a[0]] + (a[1..] + RemoveAll(b, p));
      assert [a[0]] + a[1..] == a;
    }
  }

  /** Removal can reassemble the pattern from its surroundings, so a second
      pass may remove more: `"hhtmx/tmx/"` becomes `"htmx/"`. */
  lemma RemoveAllNotIdempotent()
    ensures RemoveAll("hhtmx/tmx/", "htmx/") == "htmx/"
    ensures RemoveAll(RemoveAll("hhtmx/tmx/", "htmx/"), "htmx/") == ""
  {
  }
}
