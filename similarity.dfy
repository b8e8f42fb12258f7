/**
  The scoring half of `orb_similarity`. The descriptor extraction and the
  cross-checked brute-force matching are done by OpenCV; the model takes
  their outcome as input: whether each image yielded descriptors at all,
  and the Hamming distance of every accepted match.
*/
module Similarity {

  /** The distance threshold of `orb_similarity` when none is given. */
  const DefaultThreshold: int := 50

  /** The distances are in ascending order. */
  predicate Ascending(s: seq<nat>)
  {
    forall i, j :: 0 <= i < j < |s| ==> s[i] <= s[j]
  }

  /** A lower bound of an ascending sequence may be put in front of it. */
  lemma AscendingCons(h: nat, t: seq<nat>)
    requires Ascending(t)
    requires forall k :: 0 <= k < |t| ==> h <= t[k]
    ensures Ascending([h] + t)
  {
    var r := [h] + t;
    assert forall k :: 1 <= k < |r| ==> r[k] == t[k - 1];
  }

  /** A lower bound of `x` and of `t` bounds every element of a permutation of `t + [x]`. */
  lemma LowerBound(h: nat, x: nat, t: seq<nat>, r: seq<nat>)
    requires h <= x && forall k :: 0 <= k < |t| ==> h <= t[k]
    requires multiset(r) == multiset(t) + multiset{x}
    ensures forall k :: 0 <= k < |r| ==> h <= r[k]
  {
    forall k | 0 <= k < |r| ensures h <= r[k] {
      assert r[k] in multiset(r);
      assert r[k] == x || r[k] in t;
    }
  }

  /** Inserts `x` into an ascending sequence, keeping it ascending. */
  function Insert(x: nat, s: seq<nat>): (r: seq<nat>)
    requires Ascending(s)
    ensures Ascending(r)
    ensures multiset(r) == multiset(s) + multiset{x}
  {
    if s == [] || x <= s[0] then
      AscendingCons(x, s);
      [x] + s
    else
      var rest := Insert(x, s[1..]);
      assert s == [s[0]] + s[1..];
      LowerBound(s[0], x, s[1..], rest);
      AscendingCons(s[0], rest);
      [s[0]] + rest
  }

  /**
    `sorted(matches, key=lambda x: x.distance)`, on the distances: the
    result is ascending and a permutation of the input.
  */
  function SortByDistance(s: seq<nat>): (r: seq<nat>)
    ensures Ascending(r)
    ensures multiset(r) == multiset(s)
  {
    if s == [] then []
    else
      assert s == [s[0]] + s[1..];
      Insert(s[0], SortByDistance(s[1..]))
  }

  /**
    `[m for m in matches if m.distance < distance_threshold]`: exactly the
    matches below the threshold, each as often as it occurs.
  */
  function GoodMatches(matches: seq<nat>, threshold: int): (good: seq<nat>)
    ensures |good| <= |matches|
    ensures forall d :: multiset(good)[d] == if d < threshold then multiset(matches)[d] else 0
  {
    if matches == [] then []
    else
      assert matches == [matches[0]] + matches[1..];
      (if matches[0] < threshold then [matches[0]] else []) + GoodMatches(matches[1..], threshold)
  }

  /** `good / total if total else 0`, a fraction of the whole. */
  function Ratio(good: nat, total: nat): (r: real)
    requires good <= total
    ensures 0.0 <= r <= 1.0
    ensures r == 1.0 <==> total > 0 && good == total
    ensures r == 0.0 <==> good == 0
  {
    if total == 0 then 0.0
    else
      var q := good as real / total as real;
      assert q * total as real == good as real;
      q
  }

  /**
    `len(good_matches) / len(matches) if matches else 0`, once both
    descriptor sets exist; 0 when either of them is missing.
  */
  function OrbSimilarity(des1Missing: bool, des2Missing: bool, distances: seq<nat>, threshold: int): (r: real)
    ensures 0.0 <= r <= 1.0
    ensures des1Missing || des2Missing ==> r == 0.0
    ensures distances == [] ==> r == 0.0
  {
    if des1Missing || des2Missing then 0.0
    else
      var matches := SortByDistance(distances);
      var good := GoodMatches(matches, threshold);
      Ratio(|good|, |matches|)
  }

  /** The number of good matches depends only on the multiset of distances. */
  lemma GoodCountOfPermutation(a: seq<nat>, b: seq<nat>, threshold: int)
    requires multiset(a) == multiset(b)
    ensures |GoodMatches(a, threshold)| == |GoodMatches(b, threshold)|
  {
    var ga, gb := GoodMatches(a, threshold), GoodMatches(b, threshold);
    assert multiset(ga) == multiset(gb);
    assert |multiset(ga)| == |ga| && |multiset(gb)| == |gb|;
  }

  /** Sorting the matches first changes nothing: the score is that of the unsorted matches. */
  lemma SortDoesNotMatter(des1Missing: bool, des2Missing: bool, distances: seq<nat>, threshold: int)
    ensures OrbSimilarity(des1Missing, des2Missing, distances, threshold) ==
      if des1Missing || des2Missing then 0.0
      else Ratio(|GoodMatches(distances, threshold)|, |distances|)
  {
    var sorted := SortByDistance(distances);
    GoodCountOfPermutation(sorted, distances, threshold);
    assert |sorted| == |distances| by {
      assert |multiset(sorted)| == |multiset(distances)|;
    }
  }

  /**
    Matching the images the other way round accepts the same mutual pairs,
    so it yields the same distances in some order: the score is symmetric.
  */
  lemma Symmetric(des1Missing: bool, des2Missing: bool, a: seq<nat>, b: seq<nat>, threshold: int)
    requires multiset(a) == multiset(b)
    ensures OrbSimilarity(des1Missing, des2Missing, a, threshold) == OrbSimilarity(des2Missing, des1Missing, b, threshold)
  {
    SortDoesNotMatter(des1Missing, des2Missing, a, threshold);
    SortDoesNotMatter(des2Missing, des1Missing, b, threshold);
    GoodCountOfPermutation(a, b, threshold);
    assert |a| == |b| by {
      assert |multiset(a)| == |multiset(b)|;
    }
  }

  /** A higher threshold lets at least as many matches through. */
  lemma {:induction false} GoodCountMonotone(matches: seq<nat>, low: int, high: int)
    requires low <= high
    ensures |GoodMatches(matches, low)| <= |GoodMatches(matches, high)|
  {
    if matches != [] {
      GoodCountMonotone(matches[1..], low, high);
    }
  }

  /** More good matches out of the same total is a larger ratio. */
  lemma RatioMonotone(fewer: nat, more: nat, total: nat)
    requires fewer <= more <= total
    ensures Ratio(fewer, total) <= Ratio(more, total)
  {
    if total > 0 {
      var n := total as real;
      assert more as real / n - fewer as real / n == (more - fewer) as real / n;
    }
  }

  /** Raising the distance threshold never lowers the score. */
  lemma ThresholdMonotone(des1Missing: bool, des2Missing: bool, distances: seq<nat>, low: int, high: int)
    requires low <= high
    ensures OrbSimilarity(des1Missing, des2Missing, distances, low) <= OrbSimilarity(des1Missing, des2Missing, distances, high)
  {
    SortDoesNotMatter(des1Missing, des2Missing, distances, low);
    SortDoesNotMatter(des1Missing, des2Missing, distances, high);
    GoodCountMonotone(distances, low, high);
    RatioMonotone(|GoodMatches(distances, low)|, |GoodMatches(distances, high)|, |distances|);
  }

  /** Every match is good exactly when every distance is below the threshold. */
  lemma {:induction false} AllGood(matches: seq<nat>, threshold: int)
    ensures |GoodMatches(matches, threshold)| == |matches| <==> forall i :: 0 <= i < |matches| ==> matches[i] < threshold
  {
    if matches != [] {
      AllGood(matches[1..], threshold);
      assert forall i :: 1 <= i < |matches| ==> matches[i] == matches[1..][i - 1];
    }
  }

  /** No match is good exactly when no distance is below the threshold. */
  lemma {:induction false} NoneGood(matches: seq<nat>, threshold: int)
    ensures |GoodMatches(matches, threshold)| == 0 <==> forall i :: 0 <= i < |matches| ==> matches[i] >= threshold
  {
    if matches != [] {
      NoneGood(matches[1..], threshold);
      assert forall i :: 1 <= i < |matches| ==> matches[i] == matches[1..][i - 1];
    }
  }

  /**
    The score is exactly 1 when both images have descriptors, there is at
    least one match, and every match is below the threshold.
  */
  lemma SimilarityIsOne(des1Missing: bool, des2Missing: bool, distances: seq<nat>, threshold: int)
    ensures OrbSimilarity(des1Missing, des2Missing, distances, threshold) == 1.0 <==>
      && !des1Missing && !des2Missing && |distances| > 0
      && forall i :: 0 <= i < |distances| ==> distances[i] < threshold
  {
    SortDoesNotMatter(des1Missing, des2Missing, distances, threshold);
    AllGood(distances, threshold);
  }

  /**
    The score is exactly 0 when a descriptor set is missing or no match is
    below the threshold (in particular when there are no matches).
  */
  lemma SimilarityIsZero(des1Missing: bool, des2Missing: bool, distances: seq<nat>, threshold: int)
    ensures OrbSimilarity(des1Missing, des2Missing, distances, threshold) == 0.0 <==>
      || des1Missing || des2Missing
      || forall i :: 0 <= i < |distances| ==> distances[i] >= threshold
  {
    SortDoesNotMatter(des1Missing, des2Missing, distances, threshold);
    NoneGood(distances, threshold);
  }

  /** In the sorted list the good matches are the first ones: a prefix of it. */
  lemma {:induction false} GoodMatchesArePrefix(matches: seq<nat>, threshold: int)
    requires Ascending(matches)
    ensures GoodMatches(matches, threshold) == matches[..|GoodMatches(matches, threshold)|]
  {
    if matches != [] {
      var tail := matches[1..];
      assert Ascending(tail);
      GoodMatchesArePrefix(tail, threshold);
      if matches[0] >= threshold {
        NoneGood(tail, threshold);
        assert forall i :: 0 <= i < |tail| ==> tail[i] >= threshold by {
          forall i | 0 <= i < |tail| ensures tail[i] >= threshold {
            assert matches[0] <= matches[i + 1];
          }
        }
      } else {
        var m := |GoodMatches(tail, threshold)|;
        assert matches[..m + 1] == [matches[0]] + tail[..m];
      }
    }
  }
}
