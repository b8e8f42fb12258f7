/**
  Substring search and Python's `str.split(sep)` on strings, as the
  file-ID extraction of the service uses them. Only non-empty separators
  are modelled: every separator of the service is a non-empty constant
  (an empty one makes Python raise `ValueError`).
*/
module Strings {

  import opened Wrappers

  /** `sep` occurs in `s` starting at index `i`. */
  predicate OccursAt(s: string, sep: string, i: int)
  {
    0 <= i && i + |sep| <= |s| && s[i..i + |sep|] == sep
  }

  /** `s` contains `sep` somewhere (Python's `sep in s`). */
  predicate Contains(s: string, sep: string)
  {
    exists i | 0 <= i <= |s| :: OccursAt(s, sep, i)
  }

  /** An occurrence inside a prefix of `s` is an occurrence in `s`. */
  lemma OccursInPrefix(s: string, sep: string, n: nat, i: int)
    requires n <= |s| && OccursAt(s[..n], sep, i)
    ensures OccursAt(s, sep, i)
  {
    assert s[..n][i..i + |sep|] == s[i..i + |sep|];
  }

  /** An occurrence that ends within the first `n` characters of `s` is one of `s[..n]`. */
  lemma OccursInShorterPrefix(s: string, sep: string, n: nat, i: int)
    requires n <= |s| && OccursAt(s, sep, i) && i + |sep| <= n
    ensures OccursAt(s[..n], sep, i)
  {
    assert s[..n][i..i + |sep|] == s[i..i + |sep|];
  }

  /** The leftmost occurrence of `sep` in `s`, the point at which `str.split` cuts. */
  function Find(s: string, sep: string): (r: Option<nat>)
    requires |sep| > 0
    ensures r.Some? ==> OccursAt(s, sep, r.value)
    ensures forall j :: 0 <= j && (r.None? || j < r.value) ==> !OccursAt(s, sep, j)
    decreases |s|
  {
    if |s| < |sep| then None
    else if s[..|sep|] == sep then Some(0)
    else
      var rest := Find(s[1..], sep);
      assert !OccursAt(s, sep, 0);
      forall j | 1 <= j ensures OccursAt(s, sep, j) == OccursAt(s[1..], sep, j - 1) {
        if j + |sep| <= |s| {
          assert s[1..][j - 1..j - 1 + |sep|] == s[j..j + |sep|];
        }
      }
      match rest
      case None => None
      case Some(k) => Some(k + 1)
  }

  /** The pieces joined back together with `sep` between them (Python's `sep.join`). */
  function Join(parts: seq<string>, sep: string): string
    requires |parts| >= 1
  {
    if |parts| == 1 then parts[0] else parts[0] + sep + Join(parts[1..], sep)
  }

  /**
    Python's `s.split(sep)`: cut at the leftmost occurrence, then go on
    splitting what follows it; a string without `sep` is one piece.
  */
  function Split(s: string, sep: string): (parts: seq<string>)
    requires |sep| > 0
    ensures |parts| >= 1
    decreases |s|
  {
    match Find(s, sep)
    case None => [s]
    case Some(i) => [s[..i]] + Split(s[i + |sep|..], sep)
  }

  /** A string without `sep` is a single piece. */
  lemma SplitWhole(s: string, sep: string)
    requires |sep| > 0 && Find(s, sep).None?
    ensures Split(s, sep) == [s]
  {
  }

  /** Splitting at the leftmost occurrence `i`. */
  lemma SplitCut(s: string, sep: string, i: nat)
    requires |sep| > 0 && Find(s, sep) == Some(i)
    ensures Split(s, sep) == [s[..i]] + Split(s[i + |sep|..], sep)
  {
  }

  /** The first piece is a prefix of the string. */
  lemma SplitHeadIsPrefix(s: string, sep: string)
    requires |sep| > 0
    ensures Split(s, sep)[0] <= s
  {
    match Find(s, sep)
    case None => SplitWhole(s, sep);
    case Some(i) => SplitCut(s, sep, i);
  }

  /** A split has more than one piece exactly when `sep` occurs. */
  lemma SplitCount(s: string, sep: string)
    requires |sep| > 0
    ensures |Split(s, sep)| == 1 <==> !Contains(s, sep)
  {
    match Find(s, sep)
    case None => SplitWhole(s, sep);
    case Some(i) =>
      SplitCut(s, sep, i);
      assert OccursAt(s, sep, i);
  }

  /** The first piece, cut at the leftmost occurrence, does not contain `sep`. */
  lemma HeadIsFree(s: string, sep: string, i: nat)
    requires |sep| > 0 && Find(s, sep) == Some(i)
    ensures !Contains(s[..i], sep)
  {
    forall j | OccursAt(s[..i], sep, j) ensures false {
      OccursInPrefix(s, sep, i, j);
    }
  }

  /** No piece of a split contains the separator. */
  lemma {:induction false} SplitPiecesAreFree(s: string, sep: string)
    requires |sep| > 0
    ensures forall k :: 0 <= k < |Split(s, sep)| ==> !Contains(Split(s, sep)[k], sep)
    decreases |s|
  {
    match Find(s, sep)
    case None =>
      SplitWhole(s, sep);
    case Some(i) =>
      SplitCut(s, sep, i);
      HeadIsFree(s, sep, i);
      SplitPiecesAreFree(s[i + |sep|..], sep);
      var tail := Split(s[i + |sep|..], sep);
      assert forall k :: 1 <= k < |Split(s, sep)| ==> Split(s, sep)[k] == tail[k - 1];
  }

  /** Cutting at an occurrence `i` and joining again gives `s` back. */
  lemma CutJoin(s: string, sep: string, i: nat, tail: seq<string>)
    requires OccursAt(s, sep, i) && |tail| >= 1 && Join(tail, sep) == s[i + |sep|..]
    ensures Join([s[..i]] + tail, sep) == s
  {
    var parts := [s[..i]] + tail;
    assert parts[0] == s[..i] && parts[1..] == tail;
    assert Join(parts, sep) == s[..i] + sep + s[i + |sep|..];
    ThreeParts(s, i, i + |sep|);
  }

  /** A string is the concatenation of its three parts around two cut points. */
  lemma ThreeParts(s: string, i: nat, j: nat)
    requires i <= j <= |s|
    ensures s == s[..i] + s[i..j] + s[j..]
  {
  }

  /** Joining the pieces of a split with the separator gives the string back. */
  lemma {:induction false} SplitJoin(s: string, sep: string)
    requires |sep| > 0
    ensures Join(Split(s, sep), sep) == s
    decreases |s|
  {
    match Find(s, sep)
    case None =>
      SplitWhole(s, sep);
    case Some(i) =>
      SplitJoin(s[i + |sep|..], sep);
      SplitCut(s, sep, i);
      CutJoin(s, sep, i, Split(s[i + |sep|..], sep));
  }

  /** The characters of an occurrence are those of `sep`. */
  lemma OccurrenceChar(s: string, sep: string, i: int, k: int)
    requires OccursAt(s, sep, i) && 0 <= k < |sep|
    ensures s[i + k] == sep[k]
  {
    assert s[i..i + |sep|][k] == s[i + k];
  }

  /** A prefix of a string free of `sep` is free of it too. */
  lemma PrefixIsFree(s: string, t: string, sep: string)
    requires t <= s && !Contains(s, sep)
    ensures !Contains(t, sep)
  {
    forall j | OccursAt(t, sep, j) ensures false {
      assert t == s[..|t|];
      OccursInPrefix(s, sep, |t|, j);
    }
  }

  /** An occurrence starting inside `a` of `a + sep + b` lies in `a + sep[..|sep| - 1]`. */
  lemma EarlyOccurrence(a: string, sep: string, b: string, i: nat)
    requires |sep| > 0
    ensures i < |a| && OccursAt(a + sep + b, sep, i) ==> OccursAt(a + sep[..|sep| - 1], sep, i)
  {
    var s := a + sep + b;
    var pre := a + sep[..|sep| - 1];
    if i < |a| && OccursAt(s, sep, i) {
      assert s[..|pre|] == pre;
      OccursInShorterPrefix(s, sep, |pre|, i);
    }
  }

  /**
    When no occurrence of `sep` starts inside `a + sep` before the `sep`
    written after `a`, splitting cuts there first: the first piece is
    `a` and the rest is the split of `b`.
  */
  lemma SplitAtFirst(a: string, sep: string, b: string)
    requires |sep| > 0 && !Contains(a + sep[..|sep| - 1], sep)
    ensures Split(a + sep + b, sep) == [a] + Split(b, sep)
  {
    var s := a + sep + b;
    assert OccursAt(s, sep, |a|) by {
      assert s[|a|..|a| + |sep|] == sep;
    }
    var r := Find(s, sep);
    assert r.Some? && r.value <= |a|;
    EarlyOccurrence(a, sep, b, r.value);
    assert r.value == |a|;
    SplitCut(s, sep, |a|);
    assert s[..|a|] == a && s[|a| + |sep|..] == b;
  }

  /** `a` is a prefix of every prefix of `a + b` at least as long as `a`. */
  lemma PrefixOfPrefix(a: string, b: string, i: nat)
    requires |a| <= i <= |a| + |b|
    ensures a <= (a + b)[..i]
  {
    assert (a + b)[..i][..|a|] == a;
  }

  /** The first piece ends at the leftmost occurrence. */
  lemma SplitHead(s: string, sep: string, i: nat)
    requires |sep| > 0 && Find(s, sep) == Some(i)
    ensures Split(s, sep)[0] == s[..i]
  {
    SplitCut(s, sep, i);
  }

  /**
    When no occurrence of `sep` starts inside `a`, the first piece of
    splitting `a + b` begins with the whole of `a`.
  */
  lemma SplitKeepsHead(a: string, b: string, sep: string)
    requires |sep| > 0
    requires forall j :: 0 <= j < |a| ==> !OccursAt(a + b, sep, j)
    ensures a <= Split(a + b, sep)[0]
  {
    var r := Find(a + b, sep);
    if r.None? {
      SplitWhole(a + b, sep);
    } else {
      SplitHead(a + b, sep, r.value);
      PrefixOfPrefix(a, b, r.value);
    }
  }
}
