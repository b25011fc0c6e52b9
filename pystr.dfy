/**
 * The handful of Python string operations the source relies on, with their
 * Python semantics spelled out: `str.rfind`, slicing with negative bounds,
 * `str.split` on one separator, `in` on strings, `startswith`/`endswith`.
 */
module PyStr {

  /** Python's normalisation of a slice bound `i` for a sequence of length `n`. */
  function SliceBound(i: int, n: nat): (r: nat)
    ensures r <= n
    ensures 0 <= i <= n ==> r == i
    ensures i < 0 && n + i >= 0 ==> r == n + i
  {
    if i < 0 then (if n + i < 0 then 0 else n + i) else if i > n then n else i
  }

  /** `s[i:]` */
  function From(s: string, i: int): (r: string)
    ensures |r| == |s| - SliceBound(i, |s|)
  {
    s[SliceBound(i, |s|)..]
  }

  /** `s[:j]` */
  function Upto(s: string, j: int): (r: string)
    ensures |r| == SliceBound(j, |s|)
  {
    s[..SliceBound(j, |s|)]
  }

  /** `s.rfind(c)`: the last position of `c` in `s`, or -1. */
  function RFind(s: string, c: char): (r: int)
    ensures -1 <= r < |s|
    ensures r == -1 <==> c !in s
    ensures r >= 0 ==> s[r] == c && forall j :: r < j < |s| ==> s[j] != c
  {
    if |s| == 0 then -1
    else if s[|s| - 1] == c then |s| - 1
    else RFind(s[..|s| - 1], c)
  }

  /** The last occurrence of `c` determines `rfind`. */
  lemma {:induction false} RFindAt(s: string, c: char, k: nat)
    requires k < |s| && s[k] == c
    requires forall j :: k < j < |s| ==> s[j] != c
    ensures RFind(s, c) == k
    decreases |s|
  {
    if k < |s| - 1 {
      RFindAt(s[..|s| - 1], c, k);
    }
  }

  /** `s.startswith(p)` */
  predicate StartsWith(s: string, p: string) {
    |p| <= |s| && s[..|p|] == p
  }

  /** `s.endswith(p)` */
  predicate EndsWith(s: string, p: string) {
    |p| <= |s| && s[|s| - |p|..] == p
  }

  /** `sub in s` for two strings: `sub` occurs somewhere in `s`. */
  predicate Contains(s: string, sub: string) {
    StartsWith(s, sub) || (|s| > 0 && Contains(s[1..], sub))
  }

  /** `sub` occurs in `s` at position `i`. */
  predicate OccursAt(s: string, sub: string, i: int) {
    0 <= i <= |s| - |sub| && s[i..i + |sub|] == sub
  }

  /** `Contains` holds exactly when `sub` occurs at some position of `s`. */
  lemma {:induction false} ContainsAt(s: string, sub: string)
    ensures Contains(s, sub) <==> exists i :: OccursAt(s, sub, i)
    decreases |s|
  {
    if StartsWith(s, sub) {
      assert OccursAt(s, sub, 0);
    } else if |s| > 0 {
      ContainsAt(s[1..], sub);
      if exists i :: OccursAt(s, sub, i) {
        var i :| OccursAt(s, sub, i);
        assert i != 0;
        assert s[1..][i - 1..i - 1 + |sub|] == s[i..i + |sub|];
        assert OccursAt(s[1..], sub, i - 1);
      }
      if Contains(s[1..], sub) {
        var i :| OccursAt(s[1..], sub, i);
        assert s[1..][i..i + |sub|] == s[i + 1..i + 1 + |sub|];
        assert OccursAt(s, sub, i + 1);
      }
    }
  }

  /** A string contains every part it is glued from. */
  lemma ContainsPart(pre: string, sub: string, post: string)
    ensures Contains(pre + sub + post, sub)
  {
    var s := pre + sub + post;
    assert s[|pre|..|pre| + |sub|] == sub;
    assert OccursAt(s, sub, |pre|);
    ContainsAt(s, sub);
  }

  /** Text and values alternating: the string contains each of the four values. */
  lemma ContainsValues(t1: string, v1: string, t2: string, v2: string, t3: string, v3: string, t4: string, v4: string)
    ensures var s := t1 + v1 + t2 + v2 + t3 + v3 + t4 + v4;
      Contains(s, v1) && Contains(s, v2) && Contains(s, v3) && Contains(s, v4)
  {
    var s := t1 + v1 + t2 + v2 + t3 + v3 + t4 + v4;
    ContainsPart(t1, v1, t2 + v2 + t3 + v3 + t4 + v4);
    assert s == t1 + v1 + (t2 + v2 + t3 + v3 + t4 + v4);
    ContainsPart(t1 + v1 + t2, v2, t3 + v3 + t4 + v4);
    assert s == t1 + v1 + t2 + v2 + (t3 + v3 + t4 + v4);
    ContainsPart(t1 + v1 + t2 + v2 + t3, v3, t4 + v4);
    assert s == t1 + v1 + t2 + v2 + t3 + v3 + (t4 + v4);
    ContainsPart(t1 + v1 + t2 + v2 + t3 + v3 + t4, v4, []);
    assert s == s + [];
  }

  /** ASCII lower-casing of one character (Python's `str.lower` restricted to ASCII). */
  function LowerChar(c: char): char {
    if 'A' <= c <= 'Z' then (c as int + 32) as char else c
  }

  function Lower(s: string): (r: string)
    ensures |r| == |s| && forall i :: 0 <= i < |s| ==> r[i] == LowerChar(s[i])
  {
    seq(|s|, i requires 0 <= i < |s| => LowerChar(s[i]))
  }

  /** `s.split(c)`: the maximal runs between separators, always at least one part. */
  function Split(s: string, c: char): (parts: seq<string>)
    ensures |parts| >= 1
    decreases |s|
  {
    var k := RFind(s, c);
    if k < 0 then [s] else Split(s[..k], c) + [s[k + 1..]]
  }

  /** No part of `s.split(c)` contains the separator. */
  lemma {:induction false} SplitNoSeparator(s: string, c: char)
    ensures forall k :: 0 <= k < |Split(s, c)| ==> c !in Split(s, c)[k]
    decreases |s|
  {
    var k := RFind(s, c);
    if k >= 0 {
      SplitNoSeparator(s[..k], c);
      var tail := s[k + 1..];
      assert forall j :: 0 <= j < |tail| ==> tail[j] == s[k + 1 + j];
    }
  }

  /** `c.join(parts)` */
  function Join(parts: seq<string>, c: char): string
  {
    if |parts| == 0 then ""
    else if |parts| == 1 then parts[0]
    else Join(parts[..|parts| - 1], c) + [c] + parts[|parts| - 1]
  }

  /** Number of occurrences of `c` in `s`. */
  function Count(s: string, c: char): nat {
    if |s| == 0 then 0 else Count(s[..|s| - 1], c) + (if s[|s| - 1] == c then 1 else 0)
  }

  lemma {:induction false} CountSplit(s: string, t: string, c: char)
    ensures Count(s + t, c) == Count(s, c) + Count(t, c)
    decreases |t|
  {
    if |t| == 0 {
      assert s + t == s;
    } else {
      assert (s + t)[..|s + t| - 1] == s + t[..|t| - 1];
      CountSplit(s, t[..|t| - 1], c);
    }
  }

  lemma {:induction false} CountAbsent(s: string, c: char)
    requires c !in s
    ensures Count(s, c) == 0
    decreases |s|
  {
    if |s| > 0 {
      CountAbsent(s[..|s| - 1], c);
    }
  }

  /** Splitting then joining on the same separator gives the string back. */
  lemma {:induction false} JoinSplit(s: string, c: char)
    ensures Join(Split(s, c), c) == s
    decreases |s|
  {
    var k := RFind(s, c);
    if k >= 0 {
      var front, tail := Split(s[..k], c), s[k + 1..];
      var parts := front + [tail];
      JoinSplit(s[..k], c);
      assert Split(s, c) == parts;
      assert parts[..|parts| - 1] == front && parts[|parts| - 1] == tail;
      assert Join(parts, c) == Join(front, c) + [c] + tail;
      assert s == s[..k] + [c] + tail;
    }
  }

  /** `s.split(c)` has exactly one more part than `s` has separators. */
  lemma {:induction false} SplitLength(s: string, c: char)
    ensures |Split(s, c)| == Count(s, c) + 1
    decreases |s|
  {
    var k := RFind(s, c);
    if k < 0 {
      CountAbsent(s, c);
    } else {
      SplitLength(s[..k], c);
      assert s == s[..k] + ([c] + s[k + 1..]);
      CountSplit(s[..k], [c] + s[k + 1..], c);
      CountSplit([c], s[k + 1..], c);
      assert [c][..0] == [];
      CountAbsent(s[k + 1..], c);
    }
  }

  /** A prefix of the first part is a prefix of the joined string. */
  lemma {:induction false} JoinHead(a: string, p: string, rest: seq<string>, c: char)
    ensures Join([a + p] + rest, c) == a + Join([p] + rest, c)
    decreases |rest|
  {
    if |rest| > 0 {
      var parts, parts' := [a + p] + rest, [p] + rest;
      var front := rest[..|rest| - 1];
      assert parts[..|parts| - 1] == [a + p] + front;
      assert parts'[..|parts'| - 1] == [p] + front;
      JoinHead(a, p, front, c);
    }
  }

  /** A character in no part, other than the separator, is not in the joined string. */
  lemma {:induction false} JoinAvoids(parts: seq<string>, c: char, x: char)
    requires x != c && forall k :: 0 <= k < |parts| ==> x !in parts[k]
    ensures x !in Join(parts, c)
    decreases |parts|
  {
    if |parts| > 1 {
      JoinAvoids(parts[..|parts| - 1], c, x);
    }
  }

  /** `s.split(c)` ends with what follows the last separator. */
  lemma SplitLast(s: string, c: char, k: nat)
    requires RFind(s, c) == k
    ensures Split(s, c) == Split(s[..k], c) + [s[k + 1..]]
  {
  }

  /** Joining parts free of the separator, then splitting, gives the parts back. */
  lemma {:induction false} SplitJoin(parts: seq<string>, c: char)
    requires |parts| >= 1 && forall k :: 0 <= k < |parts| ==> c !in parts[k]
    ensures Split(Join(parts, c), c) == parts
    decreases |parts|
  {
    var s := Join(parts, c);
    if |parts| == 1 {
      assert s == parts[0];
      assert RFind(s, c) == -1;
    } else {
      var front, last := parts[..|parts| - 1], parts[|parts| - 1];
      var j := Join(front, c);
      assert s == j + [c] + last;
      assert s[|j|] == c;
      assert forall m :: |j| < m < |s| ==> s[m] == last[m - |j| - 1];
      RFindAt(s, c, |j|);
      SplitLast(s, c, |j|);
      assert s[..|j|] == j && s[|j| + 1..] == last;
      SplitJoin(front, c);
      assert parts == front + [last];
    }
  }
}
