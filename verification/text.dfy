/** String primitives the classifier is built from: ASCII lowercasing and
    plain substring containment (Python's `in` on two `str` values). */
module Text {
  import opened Wrappers

  /** True iff `c` is one of the ASCII capitals `A`..`Z`. */
  predicate IsAsciiUpper(c: char)
  {
    'A' <= c <= 'Z'
  }

  /** Lowercases one character; every character outside `A`..`Z` is kept. */
  function LowerChar(c: char): (r: char)
    ensures IsAsciiUpper(c) ==> r as int == c as int + 32
    ensures !IsAsciiUpper(c) ==> r == c
    ensures !IsAsciiUpper(r)
  {
    if IsAsciiUpper(c) then (c as int + 32) as char else c
  }

  /** The lowercase form of a string, character by character. */
  function Lower(s: string): (r: string)
    ensures |r| == |s|
    ensures forall i :: 0 <= i < |s| ==> r[i] == LowerChar(s[i])
  {
    if s == [] then [] else [LowerChar(s[0])] + Lower(s[1..])
  }

  /** A string with no ASCII capital in it. */
  predicate IsLowerCase(s: string)
  {
    s == [] || (!IsAsciiUpper(s[0]) && IsLowerCase(s[1..]))
  }

  /** `w` occurs in `s` starting at position `i`. */
  predicate OccursAt(s: string, w: string, i: int)
  {
    0 <= i && i + |w| <= |s| && s[i..i + |w|] == w
  }

  /** `w` is a substring of `s`; the empty string is a substring of every string. */
  predicate Contains(s: string, w: string)
    ensures Contains(s, w) ==> |w| <= |s|
    ensures |w| == 0 ==> Contains(s, w)
  {
    assert |w| == 0 ==> OccursAt(s, w, 0);
    exists i :: 0 <= i <= |s| - |w| && OccursAt(s, w, i)
  }

  /** An independent, recursive reading of containment: `w` is a prefix of
      `s` or of one of its suffixes. */
  predicate ContainsRec(s: string, w: string)
    decreases |s|
  {
    (|w| <= |s| && s[..|w|] == w) || (s != [] && ContainsRec(s[1..], w))
  }

  /** Naive left-to-right substring search: the first position where `w`
      occurs in `s`, or `None` when it occurs nowhere. */
  method Find(s: string, w: string) returns (r: Option<nat>)
    ensures r.Some? ==> OccursAt(s, w, r.value)
    ensures r.Some? ==> forall j :: 0 <= j < r.value ==> !OccursAt(s, w, j)
    ensures r.None? <==> !Contains(s, w)
  {
    if |w| > |s| {
      return None;
    }
    var i := 0;
    while i <= |s| - |w|
      invariant 0 <= i <= |s| - |w| + 1
      invariant forall j :: 0 <= j < i ==> !OccursAt(s, w, j)
    {
      var k := 0;
      while k < |w| && s[i + k] == w[k]
        invariant 0 <= k <= |w|
        invariant s[i..i + k] == w[..k]
      {
        assert s[i..i + k + 1] == s[i..i + k] + [s[i + k]];
        assert w[..k + 1] == w[..k] + [w[k]];
        k := k + 1;
      }
      if k == |w| {
        assert w[..k] == w;
        assert OccursAt(s, w, i);
        return Some(i);
      }
      assert s[i..i + |w|][k] != w[k];
      i := i + 1;
    }
    return None;
  }

  /** Lowercase strings are exactly the fixed points of `Lower`. */
  lemma {:induction false} LowerFixedPoint(s: string)
    ensures IsLowerCase(s) <==> Lower(s) == s
  {
    if s != [] {
      LowerFixedPoint(s[1..]);
      assert Lower(s) == [LowerChar(s[0])] + Lower(s[1..]);
      if Lower(s) == s {
        assert Lower(s)[1..] == Lower(s[1..]);
      }
    }
  }

  /** Lowercasing yields a lowercase string, so it is idempotent. */
  lemma {:induction false} LowerIdempotent(s: string)
    ensures IsLowerCase(Lower(s))
    ensures Lower(Lower(s)) == Lower(s)
  {
    if s != [] {
      LowerIdempotent(s[1..]);
      assert Lower(s)[1..] == Lower(s[1..]);
    }
    LowerFixedPoint(Lower(s));
  }

  /** Lowercasing distributes over concatenation. */
  lemma LowerConcat(a: string, b: string)
    ensures Lower(a + b) == Lower(a) + Lower(b)
  {
  }

  /** An occurrence of `w` in `s` is an occurrence of `Lower(w)` in `Lower(s)`. */
  lemma LowerKeepsOccurrence(s: string, w: string, i: int)
    requires OccursAt(s, w, i)
    ensures OccursAt(Lower(s), Lower(w), i)
  {
  }

  /** Containment survives lowercasing both sides. */
  lemma LowerKeepsContains(s: string, w: string)
    requires Contains(s, w)
    ensures Contains(Lower(s), Lower(w))
  {
    var i :| 0 <= i <= |s| - |w| && OccursAt(s, w, i);
    LowerKeepsOccurrence(s, w, i);
  }

  /** Monotonicity: a substring of `s` is a substring of any extension of `s`. */
  lemma ContainsExtend(s: string, w: string, p: string, q: string)
    requires Contains(s, w)
    ensures Contains(p + s + q, w)
  {
    var i :| 0 <= i <= |s| - |w| && OccursAt(s, w, i);
    var t := p + s + q;
    forall k | 0 <= k < |w|
      ensures t[|p| + i..|p| + i + |w|][k] == w[k]
    {
      assert t[|p| + i + k] == s[i + k];
      assert s[i..i + |w|][k] == w[k];
    }
    assert OccursAt(t, w, |p| + i);
  }

  /** Nothing non-empty is a substring of the empty string. */
  lemma EmptyContainsOnlyEmpty(w: string)
    ensures Contains([], w) <==> w == []
  {
    if w == [] {
      assert OccursAt([], w, 0);
    }
  }

  /** The capital whose lowercase form is `c`, or `c` itself when there is none. */
  function UpperChar(c: char): (r: char)
    ensures 'a' <= c <= 'z' ==> IsAsciiUpper(r) && LowerChar(r) == c
    ensures !('a' <= c <= 'z') ==> r == c
  {
    if 'a' <= c <= 'z' then (c as int - 32) as char else c
  }

  /** A lowercased string cannot contain `w` when the original string has
      neither a character `c` of `w` nor its capital. */
  lemma LowerExcludes(s: string, w: string, c: char)
    requires c in w
    requires c !in s && UpperChar(c) !in s
    ensures !Contains(Lower(s), w)
  {
  }

  /** The declarative and the recursive readings of containment agree. */
  lemma {:induction false} ContainsRecIff(s: string, w: string)
    ensures ContainsRec(s, w) <==> Contains(s, w)
    decreases |s|
  {
    if s == [] {
      EmptyContainsOnlyEmpty(w);
    } else {
      ContainsRecIff(s[1..], w);
      if |w| <= |s| && s[..|w|] == w {
        assert OccursAt(s, w, 0);
      }
      if Contains(s[1..], w) {
        var i :| 0 <= i <= |s[1..]| - |w| && OccursAt(s[1..], w, i);
        assert s[1 + i..1 + i + |w|] == s[1..][i..i + |w|];
        assert OccursAt(s, w, 1 + i);
      }
      if Contains(s, w) {
        var i :| 0 <= i <= |s| - |w| && OccursAt(s, w, i);
        if i > 0 {
          assert s[1..][i - 1..i - 1 + |w|] == s[i..i + |w|];
          assert OccursAt(s[1..], w, i - 1);
        }
      }
    }
  }
}
