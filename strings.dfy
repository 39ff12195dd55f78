/** String primitives with the semantics of their JavaScript counterparts:
    `startsWith`, `endsWith`, `includes`, `split` with a one-character separator,
    `join`, and decimal digit strings as matched by `\d+` and read by `parseInt`. */
module Strings {

  predicate StartsWith(s: string, prefix: string) {
    |prefix| <= |s| && s[..|prefix|] == prefix
  }

  predicate EndsWith(s: string, suffix: string) {
    |suffix| <= |s| && s[|s| - |suffix|..] == suffix
  }

  /** `s.includes(w)`: `w` occurs somewhere in `s`. */
  predicate Contains(s: string, w: string) {
    exists i | 0 <= i <= |s| - |w| :: OccursAt(s, w, i)
  }

  predicate OccursAt(s: string, w: string, i: int) {
    0 <= i <= |s| - |w| && s[i..i + |w|] == w
  }

  /** An occurrence survives adding text on either side. */
  lemma OccursWithin(a: string, s: string, b: string, w: string, i: int)
    requires OccursAt(s, w, i)
    ensures OccursAt(a + s + b, w, |a| + i)
  {
    assert (a + s + b)[|a| + i..|a| + i + |w|] == s[i..i + |w|];
  }

  /** A word inside a word inside a text is inside the text. */
  lemma ContainsTransitive(s: string, t: string, w: string)
    requires Contains(s, t) && Contains(t, w)
    ensures Contains(s, w)
  {
    var i: int :| OccursAt(s, t, i);
    assert OccursAt(s, t, i);
    var j: int :| OccursAt(t, w, j);
    assert OccursAt(t, w, j);
    forall k | 0 <= k < |w|
      ensures s[i + j + k] == w[k]
    {
      assert t[j..j + |w|][k] == w[k];
      assert s[i..i + |t|][j + k] == t[j + k];
    }
    assert s[i + j..i + j + |w|] == w;
    assert OccursAt(s, w, i + j);
  }

  /** `s.split(d)`: the maximal separator-free fragments, empty ones included;
      `"".split(d)` is `[""]`. */
  function Split(s: string, d: char): (r: seq<string>)
    ensures |r| >= 1
    decreases |s|
  {
    if s == [] then [[]]
    else
      var rest := Split(s[1..], d);
      if s[0] == d then [[]] + rest
      else [[s[0]] + rest[0]] + rest[1..]
  }

  /** No fragment holds the separator. */
  lemma {:induction false} SplitAvoids(s: string, d: char)
    ensures forall i :: 0 <= i < |Split(s, d)| ==> d !in Split(s, d)[i]
    decreases |s|
  {
    if s != [] {
      SplitAvoids(s[1..], d);
    }
  }

  /** `fragments.join(d)`. */
  function Join(fragments: seq<string>, d: char): string
    requires |fragments| >= 1
    decreases |fragments|
  {
    if |fragments| == 1 then fragments[0]
    else fragments[0] + [d] + Join(fragments[1..], d)
  }

  /** A character that is neither the separator nor in any fragment is not in the join. */
  lemma {:induction false} JoinAvoids(fragments: seq<string>, d: char, c: char)
    requires |fragments| >= 1
    requires c != d
    requires forall i :: 0 <= i < |fragments| ==> c !in fragments[i]
    ensures c !in Join(fragments, d)
    decreases |fragments|
  {
    if |fragments| > 1 {
      JoinAvoids(fragments[1..], d, c);
    }
  }

  /** A separator-free prefix becomes part of the first fragment. */
  lemma {:induction false} SplitPrefix(a: string, t: string, d: char)
    requires d !in a
    ensures Split(a + t, d) == [a + Split(t, d)[0]] + Split(t, d)[1..]
    decreases |a|
  {
    if a == [] {
      assert a + t == t;
      var r := Split(t, d);
      assert a + r[0] == r[0];
      assert [r[0]] + r[1..] == r;
    } else {
      assert (a + t)[0] == a[0];
      assert (a + t)[1..] == a[1..] + t;
      SplitPrefix(a[1..], t, d);
      assert [a[0]] + (a[1..] + Split(t, d)[0]) == a + Split(t, d)[0];
    }
  }

  /** Splitting undoes joining when no fragment holds the separator. */
  lemma {:induction false} SplitJoin(fragments: seq<string>, d: char)
    requires |fragments| >= 1
    requires forall i :: 0 <= i < |fragments| ==> d !in fragments[i]
    ensures Split(Join(fragments, d), d) == fragments
    decreases |fragments|
  {
    if |fragments| == 1 {
      SplitPrefix(fragments[0], [], d);
      assert fragments[0] + [] == fragments[0];
      assert Split([], d) == [[]];
      assert Join(fragments, d) == fragments[0];
    } else {
      var rest := fragments[1..];
      SplitJoin(rest, d);
      assert Join(fragments, d) == fragments[0] + ([d] + Join(rest, d));
      SplitPrefix(fragments[0], [d] + Join(rest, d), d);
      var tail := [d] + Join(rest, d);
      assert tail[0] == d && tail[1..] == Join(rest, d);
      assert Split(tail, d) == [[]] + rest;
      assert fragments[0] + Split(tail, d)[0] == fragments[0];
      assert Split(tail, d)[1..] == rest;
      assert fragments == [fragments[0]] + rest;
    }
  }

  /** Joining undoes splitting: `split` loses nothing but the separators. */
  lemma {:induction false} JoinSplit(s: string, d: char)
    ensures Join(Split(s, d), d) == s
    decreases |s|
  {
    if s != [] {
      var rest := Split(s[1..], d);
      JoinSplit(s[1..], d);
      if s[0] == d {
        assert Split(s, d)[1..] == rest;
      } else if |rest| == 1 {
        assert Join(Split(s, d), d) == [s[0]] + rest[0];
      } else {
        var r := Split(s, d);
        assert r[1..] == rest[1..];
        assert Join(r, d) == ([s[0]] + rest[0]) + [d] + Join(rest[1..], d);
        assert Join(rest, d) == rest[0] + [d] + Join(rest[1..], d);
      }
    }
  }

  /** A word found in a text is found in any text around it. */
  lemma ContainsWithin(a: string, s: string, b: string, w: string)
    requires Contains(s, w)
    ensures Contains(a + s + b, w)
  {
    var i: int :| OccursAt(s, w, i);
    assert OccursAt(s, w, i);
    OccursWithin(a, s, b, w, i);
  }

  /** Every fragment of a join occurs in it. */
  lemma {:induction false} JoinContainsFragments(fragments: seq<string>, d: char, k: int)
    requires |fragments| >= 1 && 0 <= k < |fragments|
    ensures Contains(Join(fragments, d), fragments[k])
    decreases |fragments|
  {
    var f := fragments[k];
    assert f[0..|f|] == f;
    assert OccursAt(f, f, 0);
    if |fragments| > 1 {
      var rest := fragments[1..];
      var tail := Join(rest, d);
      assert Join(fragments, d) == fragments[0] + [d] + tail;
      if k == 0 {
        ContainsWithin([], f, [d] + tail, f);
        assert [] + f + ([d] + tail) == Join(fragments, d);
      } else {
        assert f == rest[k - 1];
        JoinContainsFragments(rest, d, k - 1);
        ContainsWithin(fragments[0] + [d], tail, [], f);
        assert fragments[0] + [d] + tail + [] == Join(fragments, d);
      }
    }
  }

  /** Every fragment `s.split(d)` yields occurs in `s`. */
  lemma SplitFragmentsOccur(s: string, d: char, f: string)
    requires f in Split(s, d)
    ensures Contains(s, f)
  {
    JoinSplit(s, d);
    var k :| 0 <= k < |Split(s, d)| && Split(s, d)[k] == f;
    JoinContainsFragments(Split(s, d), d, k);
  }

  /** Joining two lists of fragments puts one separator between their joins. */
  lemma {:induction false} JoinAppend(x: seq<string>, y: seq<string>, d: char)
    requires |x| >= 1 && |y| >= 1
    ensures Join(x + y, d) == Join(x, d) + [d] + Join(y, d)
    decreases |x|
  {
    var xy := x + y;
    assert xy[0] == x[0];
    if |x| == 1 {
      assert xy[1..] == y;
    } else {
      assert xy[1..] == x[1..] + y;
      JoinAppend(x[1..], y, d);
    }
  }

  /** Splitting at a separator splits the two sides independently. */
  lemma SplitAround(a: string, b: string, d: char)
    ensures Split(a + [d] + b, d) == Split(a, d) + Split(b, d)
  {
    var x, y := Split(a, d), Split(b, d);
    JoinSplit(a, d);
    JoinSplit(b, d);
    JoinAppend(x, y, d);
    SplitAvoids(a, d);
    SplitAvoids(b, d);
    assert forall i :: 0 <= i < |x + y| ==> d !in (x + y)[i] by {
      forall i | 0 <= i < |x + y|
        ensures d !in (x + y)[i]
      {
        if i < |x| {
          assert (x + y)[i] == x[i];
        } else {
          assert (x + y)[i] == y[i - |x|];
        }
      }
    }
    SplitJoin(x + y, d);
  }

  /** A text without the separator is a single fragment. */
  lemma SplitWhole(s: string, d: char)
    requires d !in s
    ensures Split(s, d) == [s]
  {
    SplitJoin([s], d);
  }

  /** The fragments of `s` without the empty ones (`.filter(Boolean)`). */
  function NonEmpty(fragments: seq<string>): (r: seq<string>)
    ensures forall i :: 0 <= i < |r| ==> r[i] != [] && r[i] in fragments
    ensures forall f :: f in fragments && f != [] ==> f in r
  {
    if fragments == [] then []
    else if fragments[0] == [] then NonEmpty(fragments[1..])
    else [fragments[0]] + NonEmpty(fragments[1..])
  }

  // ---------------------------------------------------------------------------
  // Decimal digits (`\d` is ASCII 0-9 in a JavaScript regular expression).

  predicate IsDigit(c: char) { '0' <= c <= '9' }

  predicate AllDigits(s: string) {
    forall i :: 0 <= i < |s| ==> IsDigit(s[i])
  }

  function DigitValue(c: char): nat
    requires IsDigit(c)
  {
    c as int - '0' as int
  }

  function DigitChar(d: nat): (c: char)
    requires d < 10
    ensures IsDigit(c) && DigitValue(c) == d
  {
    ('0' as int + d) as char
  }

  /** The value `parseInt` reads from a string of decimal digits. */
  function DigitsValue(s: string): nat
    requires AllDigits(s)
    decreases |s|
  {
    if s == [] then 0
    else DigitsValue(s[..|s| - 1]) * 10 + DigitValue(s[|s| - 1])
  }

  /** The decimal spelling of `n`, as `String(n)` writes it. */
  function NatToDigits(n: nat): (s: string)
    ensures |s| >= 1
    ensures AllDigits(s)
    decreases n
  {
    if n < 10 then [DigitChar(n)]
    else NatToDigits(n / 10) + [DigitChar(n % 10)]
  }

  lemma {:induction false} DigitsRoundTrip(n: nat)
    ensures DigitsValue(NatToDigits(n)) == n
    decreases n
  {
    var s := NatToDigits(n);
    if n >= 10 {
      DigitsRoundTrip(n / 10);
      assert s[..|s| - 1] == NatToDigits(n / 10);
    } else {
      assert s[..|s| - 1] == [];
    }
  }
}
