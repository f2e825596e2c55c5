/**
 * strings.ReplaceAll(s, p, "") as the handlers use it: scan left to right,
 * drop every non-overlapping occurrence of p, keep everything else. When p
 * is empty, ReplaceAll with an empty replacement returns s unchanged
 * (old == new). A character here stands for one byte of the Go string.
 */
module Text {

  /** p occurs in s starting at index i. */
  predicate OccursAt(p: string, s: string, i: int)
  {
    0 <= i && i + |p| <= |s| && s[i..i + |p|] == p
  }

  /** p occurs somewhere in s (strings.Contains). */
  predicate Occurs(p: string, s: string)
  {
    exists i :: 0 <= i <= |s| - |p| && OccursAt(p, s, i)
  }

  /** strings.ReplaceAll(s, p, ""). */
  function RemoveAll(s: string, p: string): (r: string)
    ensures |r| <= |s|
    decreases |s|
  {
    if |p| == 0 || |s| < |p| then s
    else if s[..|p|] == p then RemoveAll(s[|p|..], p)
    else [s[0]] + RemoveAll(s[1..], p)
  }

  /** One step of the scan when s does not start with p. */
  lemma RemoveAllKeep(s: string, p: string)
    requires |p| > 0 && |s| >= |p| && s[..|p|] != p
    ensures RemoveAll(s, p) == [s[0]] + RemoveAll(s[1..], p)
  {
  }

  /** One step of the scan when s starts with p. */
  lemma RemoveAllDrop(s: string, p: string)
    requires |p| > 0 && |s| >= |p| && s[..|p|] == p
    ensures RemoveAll(s, p) == RemoveAll(s[|p|..], p)
  {
  }

  /** Occurrences in s[1..] are occurrences in s, one place further on. */
  lemma OccursShift(p: string, s: string, i: int)
    requires |s| > 0
    ensures OccursAt(p, s[1..], i) <==> 1 <= i + 1 && OccursAt(p, s, i + 1)
  {
    if 0 <= i && i + 1 + |p| <= |s| {
      assert s[1..][i..i + |p|] == s[i + 1..i + 1 + |p|];
    }
  }

  /** If p does not occur in s, it does not occur in s[1..] either. */
  lemma AbsentFromTail(p: string, s: string)
    requires |s| > 0 && !Occurs(p, s)
    ensures !Occurs(p, s[1..])
  {
    forall i | 0 <= i <= |s[1..]| - |p|
      ensures !OccursAt(p, s[1..], i)
    {
      OccursShift(p, s, i);
    }
  }

  /** An occurrence of p in s other than at 0 is an occurrence in s[1..]. */
  lemma PresentInTail(p: string, s: string)
    requires |s| > 0 && Occurs(p, s) && !OccursAt(p, s, 0)
    ensures Occurs(p, s[1..])
  {
    var i :| 0 <= i <= |s| - |p| && OccursAt(p, s, i);
    assert i >= 1;
    OccursShift(p, s, i - 1);
    assert OccursAt(p, s[1..], i - 1);
  }

  /** Nothing is removed from a string in which p does not occur. */
  lemma {:induction false} RemoveAllAbsent(s: string, p: string)
    requires !Occurs(p, s)
    ensures RemoveAll(s, p) == s
    decreases |s|
  {
    if |p| == 0 {
      assert OccursAt(p, s, 0);
    } else if |s| >= |p| {
      assert !OccursAt(p, s, 0);
      assert s[0..|p|] == s[..|p|];
      RemoveAllKeep(s, p);
      AbsentFromTail(p, s);
      RemoveAllAbsent(s[1..], p);
      assert [s[0]] + s[1..] == s;
    }
  }

  /** Every occurrence of a non-empty p that is found shortens the string. */
  lemma {:induction false} RemoveAllPresent(s: string, p: string)
    requires |p| > 0 && Occurs(p, s)
    ensures |RemoveAll(s, p)| < |s|
    decreases |s|
  {
    assert |s| >= |p|;
    if s[..|p|] == p {
      RemoveAllDrop(s, p);
    } else {
      assert s[0..|p|] == s[..|p|];
      RemoveAllKeep(s, p);
      PresentInTail(p, s);
      RemoveAllPresent(s[1..], p);
    }
  }

  /**
   * ReplaceAll leaves a string as it was exactly when the (non-empty)
   * pattern does not occur in it.
   */
  lemma RemoveAllUnchangedIff(s: string, p: string)
    requires |p| > 0
    ensures RemoveAll(s, p) == s <==> !Occurs(p, s)
  {
    if Occurs(p, s) {
      RemoveAllPresent(s, p);
    } else {
      RemoveAllAbsent(s, p);
    }
  }

  /** A string shorter than p cannot contain it. */
  lemma TooShort(p: string, s: string)
    requires |s| < |p|
    ensures !Occurs(p, s)
  {
  }

  /**
   * Left-to-right scanning: when the first occurrence of p in a + p + b is
   * the one right after a, the prefix a is kept, that occurrence is dropped
   * and the scan resumes on b.
   */
  lemma {:induction false} RemoveAllFirst(a: string, b: string, p: string)
    requires |p| > 0
    requires !Occurs(p, a + p[..|p| - 1])
    ensures RemoveAll(a + p + b, p) == a + RemoveAll(b, p)
    decreases |a|
  {
    var s := a + p + b;
    if |a| == 0 {
      assert s == p + b;
      assert s[..|p|] == p;
      RemoveAllDrop(s, p);
      assert s[|p|..] == b;
    } else {
      var t := a + p[..|p| - 1];
      assert t[0..|p|] == s[..|p|];
      assert !OccursAt(p, t, 0);
      AbsentFromTail(p, t);
      assert t[1..] == a[1..] + p[..|p| - 1];
      var rest := RemoveAll(b, p);
      calc {
        RemoveAll(s, p);
      == { RemoveAllKeep(s, p); }
        [s[0]] + RemoveAll(s[1..], p);
      == { assert s[1..] == a[1..] + p + b; }
        [a[0]] + RemoveAll(a[1..] + p + b, p);
      == { RemoveAllFirst(a[1..], b, p); }
        [a[0]] + (a[1..] + rest);
      == { assert [a[0]] + a[1..] == a; }
        a + rest;
      }
    }
  }

  /**
   * Removal does not reach a fixed point in one pass: a pattern nested inside
   * its own first character and the rest of itself comes out whole.
   */
  lemma RemoveAllNested(p: string)
    requires |p| >= 2 && p[0] != p[1]
    ensures RemoveAll([p[0]] + p + p[1..], p) == p
  {
    var tail := p[1..];
    var t := p + tail;
    var s := [p[0]] + t;
    assert s[1] == p[0] != p[1];
    assert s[..|p|] != p;
    assert t[..|p|] == p;
    assert t[|p|..] == tail;
    calc {
      RemoveAll(s, p);
    == { RemoveAllKeep(s, p); assert s[1..] == t; }
      [p[0]] + RemoveAll(t, p);
    == { RemoveAllDrop(t, p); }
      [p[0]] + RemoveAll(tail, p);
    == { assert |tail| < |p|; }
      [p[0]] + tail;
    }
    assert [p[0]] + tail == p;
    assert [p[0]] + p + p[1..] == s;
  }
}
