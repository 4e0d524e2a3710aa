/** The similarity measure (longest common contiguous substring, case-folded)
    and the matcher that decides whether a predicted object is a gold object. */
module Matcher {
  import opened Values

  // ---------------------------------------------------------------------
  // Longest common contiguous substring: the reference definition
  // ---------------------------------------------------------------------

  /** `a[s..s+k]` and `b[t..t+k]` are the same run of `k` characters. */
  predicate RunAt(a: string, b: string, s: int, t: int, k: nat) {
    0 <= s && s + k <= |a| && 0 <= t && t + k <= |b| && a[s..s + k] == b[t..t + k]
  }

  /** Some substring of length `k` of `a` also occurs in `b`. */
  predicate SharesRun(a: string, b: string, k: nat) {
    exists s, t :: 0 <= s <= |a| && 0 <= t <= |b| && RunAt(a, b, s, t, k)
  }

  // ---------------------------------------------------------------------
  // The dynamic-programming table, as functions
  // ---------------------------------------------------------------------

  /** Length of the longest common suffix of `a[..i]` and `b[..j]`: the value
      the table holds in row `i`, column `j`. */
  function SuffixRun(a: string, b: string, i: nat, j: nat): (n: nat)
    requires i <= |a| && j <= |b|
    ensures n <= i && n <= j
  {
    if i == 0 || j == 0 || a[i - 1] != b[j - 1] then 0
    else SuffixRun(a, b, i - 1, j - 1) + 1
  }

  /** Largest entry of row `i` among columns `0..j`. */
  function RowBest(a: string, b: string, i: nat, j: nat): nat
    requires i <= |a| && j <= |b|
  {
    if j == 0 then 0 else Max(RowBest(a, b, i, j - 1), SuffixRun(a, b, i, j))
  }

  /** Largest entry of rows `0..i`. */
  function TableBest(a: string, b: string, i: nat): nat
    requires i <= |a|
  {
    if i == 0 then 0 else Max(TableBest(a, b, i - 1), RowBest(a, b, i, |b|))
  }

  /** Longest common contiguous substring of `a` and `b`, as the table computes it. */
  function LcsLength(a: string, b: string): nat {
    TableBest(a, b, |a|)
  }

  /** The similarity measure of the source: the longest common contiguous
      substring of the two case-folded strings. */
  function Similarity(a: string, b: string): nat {
    LcsLength(Lower(a), Lower(b))
  }

  // ---------------------------------------------------------------------
  // The table is right: it finds a common run, and no common run is longer
  // ---------------------------------------------------------------------

  lemma {:induction false} SuffixRunIsRun(a: string, b: string, i: nat, j: nat)
    requires i <= |a| && j <= |b|
    ensures RunAt(a, b, i - SuffixRun(a, b, i, j), j - SuffixRun(a, b, i, j), SuffixRun(a, b, i, j))
  {
    var n := SuffixRun(a, b, i, j);
    if n == 0 {
      EmptyRun(a, b, i, j);
    } else {
      TableStep(a, b, i, j);
      var m := SuffixRun(a, b, i - 1, j - 1);
      SuffixRunIsRun(a, b, i - 1, j - 1);
      ExtendRun(a, b, i - n, j - n, m);
    }
  }

  /** The empty run occurs anywhere. */
  lemma EmptyRun(a: string, b: string, s: nat, t: nat)
    requires s <= |a| && t <= |b|
    ensures RunAt(a, b, s, t, 0)
  {
    assert a[s..s] == [] == b[t..t];
  }

  /** A common run followed by equal characters is one longer. */
  lemma ExtendRun(a: string, b: string, s: nat, t: nat, m: nat)
    requires RunAt(a, b, s, t, m) && s + m < |a| && t + m < |b| && a[s + m] == b[t + m]
    ensures RunAt(a, b, s, t, m + 1)
  {
    assert a[s..s + m + 1] == a[s..s + m] + [a[s + m]];
    assert b[t..t + m + 1] == b[t..t + m] + [b[t + m]];
  }

  lemma {:induction false} SuffixRunIsLongest(a: string, b: string, i: nat, j: nat, k: nat)
    requires i <= |a| && j <= |b| && k <= i && k <= j
    requires a[i - k..i] == b[j - k..j]
    ensures k <= SuffixRun(a, b, i, j)
  {
    if k > 0 {
      assert a[i - 1] == a[i - k..i][k - 1] == b[j - k..j][k - 1] == b[j - 1];
      assert a[i - k..i - 1] == a[i - k..i][..k - 1];
      assert b[j - k..j - 1] == b[j - k..j][..k - 1];
      SuffixRunIsLongest(a, b, i - 1, j - 1, k - 1);
    }
  }

  lemma {:induction false} RowBestIsAttained(a: string, b: string, i: nat, j: nat)
    requires i <= |a| && j <= |b|
    ensures exists c :: 0 <= c <= j && RowBest(a, b, i, j) == SuffixRun(a, b, i, c)
  {
    if j == 0 {
      assert RowBest(a, b, i, 0) == SuffixRun(a, b, i, 0);
    } else {
      RowBestIsAttained(a, b, i, j - 1);
      if RowBest(a, b, i, j) == SuffixRun(a, b, i, j) {
      }
    }
  }

  lemma {:induction false} RowBestIsUpperBound(a: string, b: string, i: nat, j: nat, c: nat)
    requires i <= |a| && c <= j <= |b|
    ensures SuffixRun(a, b, i, c) <= RowBest(a, b, i, j)
  {
    if c < j {
      RowBestIsUpperBound(a, b, i, j - 1, c);
    }
  }

  lemma {:induction false} TableBestIsAttained(a: string, b: string, i: nat)
    requires i <= |a|
    ensures exists r, c :: 0 <= r <= i && 0 <= c <= |b| && TableBest(a, b, i) == SuffixRun(a, b, r, c)
  {
    if i == 0 {
      assert TableBest(a, b, 0) == SuffixRun(a, b, 0, 0);
    } else {
      TableBestIsAttained(a, b, i - 1);
      RowBestIsAttained(a, b, i, |b|);
    }
  }

  lemma {:induction false} TableBestIsUpperBound(a: string, b: string, i: nat, r: nat, c: nat)
    requires r <= i <= |a| && c <= |b|
    ensures SuffixRun(a, b, r, c) <= TableBest(a, b, i)
  {
    if r < i {
      TableBestIsUpperBound(a, b, i - 1, r, c);
    } else if r > 0 {
      RowBestIsUpperBound(a, b, r, |b|, c);
    }
  }

  /** The computed length is the length of a common run of `a` and `b`. */
  lemma LcsLengthIsShared(a: string, b: string)
    ensures SharesRun(a, b, LcsLength(a, b))
  {
    TableBestIsAttained(a, b, |a|);
    var r, c :| 0 <= r <= |a| && 0 <= c <= |b| && LcsLength(a, b) == SuffixRun(a, b, r, c);
    SuffixRunIsRun(a, b, r, c);
  }

  /** No common run of `a` and `b` is longer than the computed length. */
  lemma LcsLengthIsLongest(a: string, b: string, k: nat)
    requires SharesRun(a, b, k)
    ensures k <= LcsLength(a, b)
  {
    var s, t :| 0 <= s <= |a| && 0 <= t <= |b| && RunAt(a, b, s, t, k);
    SuffixRunIsLongest(a, b, s + k, t + k, k);
    TableBestIsUpperBound(a, b, |a|, s + k, t + k);
  }

  /** The computed length is at most the length of the shorter string. */
  lemma LcsLengthBounded(a: string, b: string)
    ensures LcsLength(a, b) <= |a| && LcsLength(a, b) <= |b|
  {
    LcsLengthIsShared(a, b);
  }

  /** A contiguous common substring of `a` and `b` is one of `b` and `a`. */
  lemma LcsLengthSymmetric(a: string, b: string)
    ensures LcsLength(a, b) == LcsLength(b, a)
  {
    LcsLengthIsShared(a, b);
    var s, t :| 0 <= s <= |a| && 0 <= t <= |b| && RunAt(a, b, s, t, LcsLength(a, b));
    assert RunAt(b, a, t, s, LcsLength(a, b));
    LcsLengthIsLongest(b, a, LcsLength(a, b));
    LcsLengthIsShared(b, a);
    var s', t' :| 0 <= s' <= |b| && 0 <= t' <= |a| && RunAt(b, a, s', t', LcsLength(b, a));
    assert RunAt(a, b, t', s', LcsLength(b, a));
    LcsLengthIsLongest(a, b, LcsLength(b, a));
  }

  // ---------------------------------------------------------------------
  // Properties of the similarity measure
  // ---------------------------------------------------------------------

  /** The measure is the longest run the two case-folded strings share. */
  lemma SimilarityIsLongestSharedRun(a: string, b: string)
    ensures SharesRun(Lower(a), Lower(b), Similarity(a, b))
    ensures forall k: nat :: SharesRun(Lower(a), Lower(b), k) ==> k <= Similarity(a, b)
  {
    LcsLengthIsShared(Lower(a), Lower(b));
    forall k: nat | SharesRun(Lower(a), Lower(b), k)
      ensures k <= Similarity(a, b)
    {
      LcsLengthIsLongest(Lower(a), Lower(b), k);
    }
  }

  /** An empty string shares nothing; otherwise the measure is bounded by
      the shorter string. */
  lemma SimilarityBounded(a: string, b: string)
    ensures Similarity(a, b) <= |a| && Similarity(a, b) <= |b|
    ensures |a| == 0 || |b| == 0 ==> Similarity(a, b) == 0
  {
    LcsLengthBounded(Lower(a), Lower(b));
  }

  lemma SimilaritySymmetric(a: string, b: string)
    ensures Similarity(a, b) == Similarity(b, a)
  {
    LcsLengthSymmetric(Lower(a), Lower(b));
  }

  /** Case folding the arguments first changes nothing. */
  lemma SimilarityIgnoresCase(a: string, b: string)
    ensures Similarity(a, b) == Similarity(Lower(a), Lower(b))
  {
    LowerIdempotent(a);
    LowerIdempotent(b);
  }

  /** A string that occurs, ignoring case, inside another is shared whole. */
  lemma SimilarityOfContained(a: string, b: string)
    requires IsSubstring(Lower(a), Lower(b))
    ensures Similarity(a, b) == |a|
  {
    var i :| 0 <= i <= |Lower(b)| - |Lower(a)| && OccursAt(Lower(a), Lower(b), i);
    assert Lower(a)[0..|a|] == Lower(a);
    assert RunAt(Lower(a), Lower(b), 0, i, |a|);
    LcsLengthIsLongest(Lower(a), Lower(b), |a|);
    LcsLengthBounded(Lower(a), Lower(b));
  }

  // ---------------------------------------------------------------------
  // The dynamic program over one rolling row
  // ---------------------------------------------------------------------

  /** `longest_common_substring_length`: fills one row of the table at a time
      into `dp`, keeping the largest entry seen in `best`. */
  method LongestCommonSubstringLength(a: string, b: string) returns (best: nat)
    ensures best == Similarity(a, b)
  {
    var la, lb := Lower(a), Lower(b);
    if |la| == 0 || |lb| == 0 {
      SimilarityBounded(a, b);
      return 0;
    }
    var dp := new int[|lb| + 1](_ => 0);
    best := 0;
    var i := 1;
    while i <= |la|
      invariant 1 <= i <= |la| + 1
      invariant forall c :: 0 <= c <= |lb| ==> dp[c] == SuffixRun(la, lb, i - 1, c)
      invariant best == TableBest(la, lb, i - 1)
    {
      best := FillRow(la, lb, i, dp, best);
      i := i + 1;
    }
  }

  /** How entry (i, j) of the table and the best of row `i` so far are built. */
  lemma TableStep(a: string, b: string, i: nat, j: nat)
    requires 1 <= i <= |a| && 1 <= j <= |b|
    ensures SuffixRun(a, b, i, j) == if a[i - 1] == b[j - 1] then SuffixRun(a, b, i - 1, j - 1) + 1 else 0
    ensures RowBest(a, b, i, j) == Max(RowBest(a, b, i, j - 1), SuffixRun(a, b, i, j))
  {
  }

  /** The inner loop: turns `dp` from row `i - 1` of the table into row `i`,
      column by column, keeping the entry it overwrites in `prev` for the next
      column, and raises `best` to the largest entry of the row. */
  method FillRow(la: string, lb: string, i: nat, dp: array<int>, best0: nat) returns (best: nat)
    requires 1 <= i <= |la| && dp.Length == |lb| + 1
    requires forall c :: 0 <= c <= |lb| ==> dp[c] == SuffixRun(la, lb, i - 1, c)
    requires best0 == TableBest(la, lb, i - 1)
    modifies dp
    ensures forall c :: 0 <= c <= |lb| ==> dp[c] == SuffixRun(la, lb, i, c)
    ensures best == TableBest(la, lb, i)
  {
    best := best0;
    var prev := 0;
    var j := 1;
    while j <= |lb|
      invariant 1 <= j <= |lb| + 1
      invariant prev == SuffixRun(la, lb, i - 1, j - 1)
      invariant forall c :: 0 <= c < j ==> dp[c] == SuffixRun(la, lb, i, c)
      invariant forall c :: j <= c <= |lb| ==> dp[c] == SuffixRun(la, lb, i - 1, c)
      invariant best == Max(TableBest(la, lb, i - 1), RowBest(la, lb, i, j - 1))
    {
      TableStep(la, lb, i, j);
      var tmp := dp[j];
      if la[i - 1] == lb[j - 1] {
        dp[j] := prev + 1;
        if dp[j] > best {
          best := dp[j];
        }
      } else {
        dp[j] := 0;
      }
      prev := tmp;
      j := j + 1;
    }
  }

  // ---------------------------------------------------------------------
  // The matcher
  // ---------------------------------------------------------------------

  /** The evidence an object offers: `evidence_text` when it is truthy,
      otherwise `evidence_span`, otherwise the empty string. */
  function Evidence(o: SemObj): (v: Value)
    ensures "evidence_text" in o && Truthy(o["evidence_text"]) ==> v == o["evidence_text"]
    ensures !Truthy(Get(o, "evidence_text")) && "evidence_span" in o ==> v == o["evidence_span"]
    ensures !Truthy(Get(o, "evidence_text")) && "evidence_span" !in o ==> v == Str("")
  {
    if Truthy(Get(o, "evidence_text")) then o["evidence_text"]
    else if "evidence_span" in o then o["evidence_span"]
    else Str("")
  }

  /** `LCS length / max(1, length of the shorter evidence)`. */
  function OverlapRatio(pe: string, ge: string): (r: real)
    ensures 0.0 <= r <= 1.0
    ensures pe == "" || ge == "" ==> r == 0.0
  {
    SimilarityBounded(pe, ge);
    var denom := if Min(|pe|, |ge|) == 0 then 1 else Min(|pe|, |ge|);
    QuotientAtMostOne(Similarity(pe, ge) as real, denom as real);
    Similarity(pe, ge) as real / denom as real
  }

  /** `is_match`: the domains must be equal, and then the overlap ratio of the
      two evidences must reach the threshold. Evidence that is not a string
      has no `lower()`, which raises. */
  function IsMatch(pred: SemObj, gold: SemObj, threshold: real): (r: Result<bool>)
    ensures !PyEq(Get(pred, "domain"), Get(gold, "domain")) ==> r == Ok(false)
    ensures r.Err? <==> PyEq(Get(pred, "domain"), Get(gold, "domain"))
                        && !(Evidence(pred).Str? && Evidence(gold).Str?)
    ensures r == Ok(true) ==> Evidence(pred).Str? && Evidence(gold).Str?
    ensures PyEq(Get(pred, "domain"), Get(gold, "domain")) && Evidence(pred).Str? && Evidence(gold).Str? ==>
              (r == Ok(true) <==> OverlapRatio(Evidence(pred).s, Evidence(gold).s) >= threshold)
  {
    if !PyEq(Get(pred, "domain"), Get(gold, "domain")) then Ok(false)
    else
      match (Evidence(pred), Evidence(gold))
      case (Str(pe), Str(ge)) => Ok(OverlapRatio(pe, ge) >= threshold)
      case _ => Err(AttributeError)
  }

  /** The default threshold of `is_match`. */
  const DefaultThreshold: real := 0.5

  // ---------------------------------------------------------------------
  // Properties of the matcher
  // ---------------------------------------------------------------------

  /** Two empty evidences never match at a positive threshold. */
  lemma EmptyEvidenceNeverMatches(pred: SemObj, gold: SemObj, threshold: real)
    requires threshold > 0.0
    requires Evidence(pred) == Str("") || Evidence(gold) == Str("")
    ensures IsMatch(pred, gold, threshold) != Ok(true)
  {
  }

  /** A ratio whose overlap is the whole of the shorter evidence is 1. */
  lemma FullOverlap(pe: string, ge: string)
    requires pe != "" && ge != ""
    requires Similarity(pe, ge) == Min(|pe|, |ge|)
    ensures OverlapRatio(pe, ge) == 1.0
  {
    var d := Min(|pe|, |ge|);
    assert d > 0;
    var x := d as real;
    QuotientOfSelf(x);
    assert OverlapRatio(pe, ge) == x / x;
  }

  /** The threshold is inclusive: a pair whose overlap is exactly half of the
      shorter evidence matches at threshold 0.5 and fails at 0.51. */
  lemma HalfOverlapIsBoundary(pred: SemObj, gold: SemObj)
    requires PyEq(Get(pred, "domain"), Get(gold, "domain"))
    requires Evidence(pred).Str? && Evidence(gold).Str?
    requires Evidence(pred).s != "" && Evidence(gold).s != ""
    requires 2 * Similarity(Evidence(pred).s, Evidence(gold).s) == Min(|Evidence(pred).s|, |Evidence(gold).s|)
    ensures IsMatch(pred, gold, DefaultThreshold) == Ok(true)
    ensures IsMatch(pred, gold, 0.51) == Ok(false)
  {
    var pe, ge := Evidence(pred).s, Evidence(gold).s;
    var x := Similarity(pe, ge) as real;
    assert x > 0.0;
    HalfOfDouble(x);
    assert OverlapRatio(pe, ge) == x / (2.0 * x);
  }

  /** An evidence contained, ignoring case, in the other overlaps it fully. */
  lemma ContainedOverlapIsFull(pe: string, ge: string)
    requires pe != "" && ge != ""
    requires IsSubstring(Lower(pe), Lower(ge)) || IsSubstring(Lower(ge), Lower(pe))
    ensures OverlapRatio(pe, ge) == 1.0
  {
    SimilarityBounded(pe, ge);
    if IsSubstring(Lower(pe), Lower(ge)) {
      SimilarityOfContained(pe, ge);
    } else {
      SimilarityOfContained(ge, pe);
      SimilaritySymmetric(pe, ge);
    }
    FullOverlap(pe, ge);
  }

  /** The threshold is inclusive: when the domains agree and one evidence is
      a case-insensitive substring of the other, the pair matches at every
      threshold up to 1. */
  lemma ContainedEvidenceMatches(pred: SemObj, gold: SemObj, threshold: real)
    requires PyEq(Get(pred, "domain"), Get(gold, "domain"))
    requires Evidence(pred).Str? && Evidence(gold).Str?
    requires Evidence(pred).s != "" && Evidence(gold).s != ""
    requires IsSubstring(Lower(Evidence(pred).s), Lower(Evidence(gold).s))
          || IsSubstring(Lower(Evidence(gold).s), Lower(Evidence(pred).s))
    requires threshold <= 1.0
    ensures IsMatch(pred, gold, threshold) == Ok(true)
  {
    ContainedOverlapIsFull(Evidence(pred).s, Evidence(gold).s);
  }
}
