/** Scoring one journal: greedy first-fit pairing of predictions with gold
    objects, and the metrics derived from the pairs. */
module Scorer {
  import opened Values
  import opened Matcher

  /** A match, as (prediction index, gold index). */
  type Pair = (nat, nat)

  /** A matcher's verdict on a (prediction, gold) pair, or the error it raises.
      The pairing below depends on the matcher only through its verdicts. */
  type Verdict = (SemObj, SemObj) -> Result<bool>

  /** The verdict `score_journal` uses: `is_match` at its default threshold. */
  function DefaultMatch(pred: SemObj, gold: SemObj): Result<bool> {
    IsMatch(pred, gold, DefaultThreshold)
  }

  // ---------------------------------------------------------------------
  // First-fit pairing: the reference definition
  // ---------------------------------------------------------------------

  /** The first gold index at or after `j`, not yet claimed, that the matcher
      accepts for `pred`; an error when the matcher raises before one is found. */
  function FirstFree(accept: Verdict, pred: SemObj, golds: seq<SemObj>, j: nat, claimed: set<nat>): (r: Result<Option<nat>>)
    requires j <= |golds|
    ensures r.Ok? && r.value.Some? ==>
      && j <= r.value.value < |golds| && r.value.value !in claimed
      && accept(pred, golds[r.value.value]) == Ok(true)
      && forall g :: j <= g < r.value.value && g !in claimed ==> accept(pred, golds[g]) == Ok(false)
    ensures r == Ok(None) ==>
      forall g :: j <= g < |golds| && g !in claimed ==> accept(pred, golds[g]) == Ok(false)
    ensures r.Err? ==>
      exists g :: j <= g < |golds| && g !in claimed && accept(pred, golds[g]).Err?
    decreases |golds| - j
  {
    if j == |golds| then Ok(None)
    else if j in claimed then FirstFree(accept, pred, golds, j + 1, claimed)
    else
      var m :- accept(pred, golds[j]);
      if m then Ok(Some(j)) else FirstFree(accept, pred, golds, j + 1, claimed)
  }

  /** Pairs the predictions from index `i` on, given the pairs made so far
      and the gold indices they claimed. */
  function GreedyFrom(accept: Verdict, preds: seq<SemObj>, golds: seq<SemObj>, i: nat, pairs: seq<Pair>, claimed: set<nat>)
    : Result<seq<Pair>>
    requires i <= |preds|
    decreases |preds| - i
  {
    if i == |preds| then Ok(pairs)
    else
      var found :- FirstFree(accept, preds[i], golds, 0, claimed);
      match found
      case None => GreedyFrom(accept, preds, golds, i + 1, pairs, claimed)
      case Some(j) => GreedyFrom(accept, preds, golds, i + 1, pairs + [(i, j)], claimed + {j})
  }

  /** The pairs `score_journal` makes. */
  function Greedy(accept: Verdict, preds: seq<SemObj>, golds: seq<SemObj>): Result<seq<Pair>> {
    GreedyFrom(accept, preds, golds, 0, [], {})
  }

  // ---------------------------------------------------------------------
  // First-fit pairing: what it means
  // ---------------------------------------------------------------------

  /** Gold `j` was claimed by a prediction before prediction `i`. */
  ghost predicate ClaimedBefore(pairs: seq<Pair>, j: nat, i: nat) {
    exists k :: 0 <= k < |pairs| && pairs[k].1 == j && pairs[k].0 < i
  }

  /** Prediction `i` was paired. */
  ghost predicate Paired(pairs: seq<Pair>, i: nat) {
    exists k :: 0 <= k < |pairs| && pairs[k].0 == i
  }

  /** Every pair is in range, prediction indices increase along the
      pairs (so each prediction is used at most once), and no gold index
      is used twice. */
  ghost predicate Shaped(golds: seq<SemObj>, pairs: seq<Pair>, n: nat) {
    && (forall k :: 0 <= k < |pairs| ==> pairs[k].0 < n && pairs[k].1 < |golds|)
    && (forall k, k' :: 0 <= k < k' < |pairs| ==> pairs[k].0 < pairs[k'].0)
    && (forall k, k' :: 0 <= k < k' < |pairs| ==> pairs[k].1 != pairs[k'].1)
  }

  /** Every pair is accepted by the matcher. */
  ghost predicate AllAccepted(accept: Verdict, preds: seq<SemObj>, golds: seq<SemObj>, pairs: seq<Pair>) {
    forall k :: 0 <= k < |pairs| && pairs[k].0 < |preds| && pairs[k].1 < |golds|
      ==> accept(preds[pairs[k].0], golds[pairs[k].1]) == Ok(true)
  }

  /** Every gold object before the one a prediction took, and accepted for
      it, had already been claimed at its turn. */
  ghost predicate TookFirstFree(accept: Verdict, preds: seq<SemObj>, golds: seq<SemObj>, pairs: seq<Pair>) {
    forall k, j :: 0 <= k < |pairs| && pairs[k].0 < |preds| && 0 <= j < pairs[k].1 <= |golds|
      && accept(preds[pairs[k].0], golds[j]) == Ok(true)
      ==> ClaimedBefore(pairs, j, pairs[k].0)
  }

  /** Every gold object accepted for an unpaired prediction among the first
      `n` had already been claimed at its turn. */
  ghost predicate UnpairedFoundNone(accept: Verdict, preds: seq<SemObj>, golds: seq<SemObj>, pairs: seq<Pair>, n: nat)
    requires n <= |preds|
  {
    forall i, j :: 0 <= i < n && 0 <= j < |golds| && !Paired(pairs, i) && accept(preds[i], golds[j]) == Ok(true)
      ==> ClaimedBefore(pairs, j, i)
  }

  /** `pairs` is the first-fit pairing of the first `n` predictions: each
      prediction and each gold object is used at most once, every pair is
      accepted by the matcher, a paired prediction took the lowest gold
      index still free at its turn that it is accepted for, and an unpaired
      one was accepted for no gold object still free at its turn. */
  ghost predicate FirstFitUpTo(accept: Verdict, preds: seq<SemObj>, golds: seq<SemObj>, pairs: seq<Pair>, n: nat)
    requires n <= |preds|
  {
    && Shaped(golds, pairs, n)
    && AllAccepted(accept, preds, golds, pairs)
    && TookFirstFree(accept, preds, golds, pairs)
    && UnpairedFoundNone(accept, preds, golds, pairs, n)
  }

  ghost predicate FirstFit(accept: Verdict, preds: seq<SemObj>, golds: seq<SemObj>, pairs: seq<Pair>) {
    FirstFitUpTo(accept, preds, golds, pairs, |preds|)
  }

  /** `claimed` holds exactly the gold indices of `pairs`. */
  ghost predicate ClaimedIs(pairs: seq<Pair>, claimed: set<nat>) {
    forall j :: j in claimed <==> exists k :: 0 <= k < |pairs| && pairs[k].1 == j
  }

  lemma {:induction false} RangeBound(s: set<nat>, n: nat)
    requires forall x :: x in s ==> x < n
    ensures |s| <= n
  {
    if n > 0 {
      RangeBound(s - {n - 1}, n - 1);
      if n - 1 in s {
        assert s == (s - {n - 1}) + {n - 1};
      } else {
        assert s == s - {n - 1};
      }
    }
  }

  lemma AddFresh(s: set<nat>, x: nat)
    requires x !in s
    ensures |s + {x}| == |s| + 1
  {
  }

  /** The claimed gold indices are gold indices, so there are no more of
      them than gold objects. */
  lemma ClaimedWithinGolds(golds: seq<SemObj>, pairs: seq<Pair>, claimed: set<nat>, n: nat)
    requires Shaped(golds, pairs, n) && ClaimedIs(pairs, claimed)
    ensures |claimed| <= |golds|
  {
    forall j | j in claimed ensures j < |golds| {
      var k :| 0 <= k < |pairs| && pairs[k].1 == j;
    }
    RangeBound(claimed, |golds|);
  }

  /** A prediction that finds no free gold object keeps every unpaired
      prediction without a free match. */
  lemma StepUnpaired(accept: Verdict, preds: seq<SemObj>, golds: seq<SemObj>, i: nat, pairs: seq<Pair>,
                     claimed: set<nat>)
    requires i < |preds|
    requires UnpairedFoundNone(accept, preds, golds, pairs, i) && ClaimedIs(pairs, claimed)
    requires forall k :: 0 <= k < |pairs| ==> pairs[k].0 < i
    requires forall g :: 0 <= g < |golds| && g !in claimed ==> accept(preds[i], golds[g]) == Ok(false)
    ensures UnpairedFoundNone(accept, preds, golds, pairs, i + 1)
  {
    forall i', j | 0 <= i' < i + 1 && 0 <= j < |golds| && !Paired(pairs, i') && accept(preds[i'], golds[j]) == Ok(true)
      ensures ClaimedBefore(pairs, j, i')
    {
      if i' == i {
        assert j in claimed;
        var k :| 0 <= k < |pairs| && pairs[k].1 == j;
      }
    }
  }

  /** Appending a pair for a later prediction keeps every earlier claim, and
      changes which predictions are paired only at that prediction. */
  lemma ExtendKeepsClaims(pairs: seq<Pair>, i: nat, j: nat)
    requires forall k :: 0 <= k < |pairs| ==> pairs[k].0 < i
    ensures forall g, i' :: ClaimedBefore(pairs, g, i') ==> ClaimedBefore(pairs + [(i, j)], g, i')
    ensures forall i' :: i' != i ==> (Paired(pairs + [(i, j)], i') <==> Paired(pairs, i'))
  {
    var pairs' := pairs + [(i, j)];
    forall g, i' | ClaimedBefore(pairs, g, i') ensures ClaimedBefore(pairs', g, i') {
      var k :| 0 <= k < |pairs| && pairs[k].1 == g && pairs[k].0 < i';
      assert pairs'[k] == pairs[k];
    }
    forall i' | i' != i ensures Paired(pairs', i') <==> Paired(pairs, i') {
      if Paired(pairs, i') {
        var k :| 0 <= k < |pairs| && pairs[k].0 == i';
        assert pairs'[k] == pairs[k];
      }
      if Paired(pairs', i') {
        var k :| 0 <= k < |pairs'| && pairs'[k].0 == i';
        assert k < |pairs|;
        assert pairs'[k] == pairs[k];
      }
    }
  }

  lemma StepPairedShaped(golds: seq<SemObj>, i: nat, pairs: seq<Pair>, claimed: set<nat>, j: nat)
    requires Shaped(golds, pairs, i) && ClaimedIs(pairs, claimed)
    requires j < |golds| && j !in claimed
    ensures Shaped(golds, pairs + [(i, j)], i + 1)
  {
    var pairs' := pairs + [(i, j)];
    assert forall k :: 0 <= k < |pairs| ==> pairs'[k] == pairs[k];
    forall k | 0 <= k < |pairs| ensures pairs[k].1 != j {
      assert pairs[k].1 in claimed;
    }
  }

  lemma StepPairedAccepted(accept: Verdict, preds: seq<SemObj>, golds: seq<SemObj>, i: nat, pairs: seq<Pair>, j: nat)
    requires AllAccepted(accept, preds, golds, pairs)
    requires i < |preds| && j < |golds| && accept(preds[i], golds[j]) == Ok(true)
    ensures AllAccepted(accept, preds, golds, pairs + [(i, j)])
  {
    var pairs' := pairs + [(i, j)];
    assert forall k :: 0 <= k < |pairs| ==> pairs'[k] == pairs[k];
  }

  lemma StepPairedFirstFree(accept: Verdict, preds: seq<SemObj>, golds: seq<SemObj>, i: nat, pairs: seq<Pair>,
                            claimed: set<nat>, j: nat)
    requires TookFirstFree(accept, preds, golds, pairs) && ClaimedIs(pairs, claimed)
    requires forall k :: 0 <= k < |pairs| ==> pairs[k].0 < i
    requires i < |preds| && j < |golds|
    requires forall g :: 0 <= g < j && g !in claimed ==> accept(preds[i], golds[g]) == Ok(false)
    ensures TookFirstFree(accept, preds, golds, pairs + [(i, j)])
  {
    var pairs' := pairs + [(i, j)];
    ExtendKeepsClaims(pairs, i, j);
    assert forall k :: 0 <= k < |pairs| ==> pairs'[k] == pairs[k];
    forall k, g | 0 <= k < |pairs'| && pairs'[k].0 < |preds| && 0 <= g < pairs'[k].1 <= |golds|
      && accept(preds[pairs'[k].0], golds[g]) == Ok(true)
      ensures ClaimedBefore(pairs', g, pairs'[k].0)
    {
      if k < |pairs| {
        assert ClaimedBefore(pairs, g, pairs[k].0);
      } else {
        assert g in claimed;
        var k' :| 0 <= k' < |pairs| && pairs[k'].1 == g;
        assert ClaimedBefore(pairs, g, i);
      }
    }
  }

  lemma StepPairedUnpaired(accept: Verdict, preds: seq<SemObj>, golds: seq<SemObj>, i: nat, pairs: seq<Pair>, j: nat)
    requires i < |preds|
    requires UnpairedFoundNone(accept, preds, golds, pairs, i)
    requires forall k :: 0 <= k < |pairs| ==> pairs[k].0 < i
    ensures UnpairedFoundNone(accept, preds, golds, pairs + [(i, j)], i + 1)
  {
    var pairs' := pairs + [(i, j)];
    ExtendKeepsClaims(pairs, i, j);
    assert pairs'[|pairs|].0 == i;
  }

  lemma StepPairedClaimed(pairs: seq<Pair>, claimed: set<nat>, i: nat, j: nat)
    requires ClaimedIs(pairs, claimed)
    ensures ClaimedIs(pairs + [(i, j)], claimed + {j})
  {
    var pairs' := pairs + [(i, j)];
    forall g ensures g in claimed + {j} <==> exists k :: 0 <= k < |pairs'| && pairs'[k].1 == g {
      if g in claimed {
        var k :| 0 <= k < |pairs| && pairs[k].1 == g;
        assert pairs'[k].1 == g;
      }
      if g == j {
        assert pairs'[|pairs|].1 == g;
      }
      if exists k :: 0 <= k < |pairs'| && pairs'[k].1 == g {
        var k :| 0 <= k < |pairs'| && pairs'[k].1 == g;
        if k < |pairs| {
          assert pairs[k] == pairs'[k];
        }
      }
    }
  }

  /** Unfolding `GreedyFrom` for a prediction that finds no free gold object. */
  lemma GreedyFromSkips(accept: Verdict, preds: seq<SemObj>, golds: seq<SemObj>, i: nat,
                        pairs: seq<Pair>, claimed: set<nat>)
    requires i < |preds|
    requires FirstFree(accept, preds[i], golds, 0, claimed) == Ok(None)
    ensures GreedyFrom(accept, preds, golds, i, pairs, claimed) == GreedyFrom(accept, preds, golds, i + 1, pairs, claimed)
  {
  }

  /** Unfolding `GreedyFrom` for a prediction that takes gold object `j`. */
  lemma GreedyFromTakes(accept: Verdict, preds: seq<SemObj>, golds: seq<SemObj>, i: nat,
                        pairs: seq<Pair>, claimed: set<nat>, j: nat)
    requires i < |preds|
    requires FirstFree(accept, preds[i], golds, 0, claimed) == Ok(Some(j))
    ensures GreedyFrom(accept, preds, golds, i, pairs, claimed)
         == GreedyFrom(accept, preds, golds, i + 1, pairs + [(i, j)], claimed + {j})
  {
  }

  /** Unfolding `GreedyFrom` for a prediction whose matcher raises. */
  lemma GreedyFromFails(accept: Verdict, preds: seq<SemObj>, golds: seq<SemObj>, i: nat,
                        pairs: seq<Pair>, claimed: set<nat>)
    requires i < |preds|
    requires FirstFree(accept, preds[i], golds, 0, claimed).Err?
    ensures GreedyFrom(accept, preds, golds, i, pairs, claimed) == Err(FirstFree(accept, preds[i], golds, 0, claimed).error)
  {
  }

  /** The pairing is well shaped, and has no more pairs than predictions or
      gold objects. */
  lemma {:induction false} GreedyFromIsShaped(accept: Verdict, preds: seq<SemObj>, golds: seq<SemObj>, i: nat,
                                              pairs: seq<Pair>, claimed: set<nat>)
    requires i <= |preds|
    requires Shaped(golds, pairs, i) && ClaimedIs(pairs, claimed)
    requires |pairs| <= i && |claimed| == |pairs|
    requires GreedyFrom(accept, preds, golds, i, pairs, claimed).Ok?
    ensures Shaped(golds, GreedyFrom(accept, preds, golds, i, pairs, claimed).value, |preds|)
    ensures |GreedyFrom(accept, preds, golds, i, pairs, claimed).value| <= |preds|
    ensures |GreedyFrom(accept, preds, golds, i, pairs, claimed).value| <= |golds|
    decreases |preds| - i, 1
  {
    if i == |preds| {
      ClaimedWithinGolds(golds, pairs, claimed, i);
    } else {
      match FirstFree(accept, preds[i], golds, 0, claimed).value
      case None =>
        GreedyFromSkips(accept, preds, golds, i, pairs, claimed);
        GreedyFromIsShaped(accept, preds, golds, i + 1, pairs, claimed);
      case Some(j) =>
        GreedyFromIsShapedAfter(accept, preds, golds, i, pairs, claimed, j);
    }
  }

  lemma {:induction false} GreedyFromIsShapedAfter(accept: Verdict, preds: seq<SemObj>, golds: seq<SemObj>, i: nat,
                                                   pairs: seq<Pair>, claimed: set<nat>, j: nat)
    requires i < |preds|
    requires Shaped(golds, pairs, i) && ClaimedIs(pairs, claimed)
    requires |pairs| <= i && |claimed| == |pairs|
    requires FirstFree(accept, preds[i], golds, 0, claimed) == Ok(Some(j))
    requires GreedyFrom(accept, preds, golds, i, pairs, claimed).Ok?
    ensures Shaped(golds, GreedyFrom(accept, preds, golds, i, pairs, claimed).value, |preds|)
    ensures |GreedyFrom(accept, preds, golds, i, pairs, claimed).value| <= |preds|
    ensures |GreedyFrom(accept, preds, golds, i, pairs, claimed).value| <= |golds|
    decreases |preds| - i, 0
  {
    StepPairedShaped(golds, i, pairs, claimed, j);
    StepPairedClaimed(pairs, claimed, i, j);
    AddFresh(claimed, j);
    GreedyFromTakes(accept, preds, golds, i, pairs, claimed, j);
    GreedyFromIsShaped(accept, preds, golds, i + 1, pairs + [(i, j)], claimed + {j});
  }

  /** Every pair the pairing makes is accepted by the matcher. */
  lemma {:induction false} GreedyFromIsAccepted(accept: Verdict, preds: seq<SemObj>, golds: seq<SemObj>, i: nat,
                                                pairs: seq<Pair>, claimed: set<nat>)
    requires i <= |preds|
    requires AllAccepted(accept, preds, golds, pairs)
    requires GreedyFrom(accept, preds, golds, i, pairs, claimed).Ok?
    ensures AllAccepted(accept, preds, golds, GreedyFrom(accept, preds, golds, i, pairs, claimed).value)
    decreases |preds| - i
  {
    if i < |preds| {
      match FirstFree(accept, preds[i], golds, 0, claimed).value
      case None =>
        GreedyFromSkips(accept, preds, golds, i, pairs, claimed);
        GreedyFromIsAccepted(accept, preds, golds, i + 1, pairs, claimed);
      case Some(j) =>
        StepPairedAccepted(accept, preds, golds, i, pairs, j);
        GreedyFromTakes(accept, preds, golds, i, pairs, claimed, j);
        GreedyFromIsAccepted(accept, preds, golds, i + 1, pairs + [(i, j)], claimed + {j});
    }
  }

  /** Every prediction the pairing pairs took the first free gold object it
      is accepted for. */
  lemma {:induction false} GreedyFromTakesFirstFree(accept: Verdict, preds: seq<SemObj>, golds: seq<SemObj>, i: nat,
                                                    pairs: seq<Pair>, claimed: set<nat>)
    requires i <= |preds|
    requires TookFirstFree(accept, preds, golds, pairs) && ClaimedIs(pairs, claimed)
    requires forall k :: 0 <= k < |pairs| ==> pairs[k].0 < i
    requires GreedyFrom(accept, preds, golds, i, pairs, claimed).Ok?
    ensures TookFirstFree(accept, preds, golds, GreedyFrom(accept, preds, golds, i, pairs, claimed).value)
    decreases |preds| - i
  {
    if i < |preds| {
      match FirstFree(accept, preds[i], golds, 0, claimed).value
      case None =>
        GreedyFromSkips(accept, preds, golds, i, pairs, claimed);
        GreedyFromTakesFirstFree(accept, preds, golds, i + 1, pairs, claimed);
      case Some(j) =>
        StepPairedFirstFree(accept, preds, golds, i, pairs, claimed, j);
        StepPairedClaimed(pairs, claimed, i, j);
        assert forall k :: 0 <= k < |pairs| + 1 ==> (pairs + [(i, j)])[k].0 < i + 1;
        GreedyFromTakes(accept, preds, golds, i, pairs, claimed, j);
        GreedyFromTakesFirstFree(accept, preds, golds, i + 1, pairs + [(i, j)], claimed + {j});
    }
  }

  /** Every prediction the pairing leaves unpaired was accepted for no gold
      object still free at its turn. */
  lemma {:induction false} GreedyFromUnpairedFoundNone(accept: Verdict, preds: seq<SemObj>, golds: seq<SemObj>, i: nat,
                                                       pairs: seq<Pair>, claimed: set<nat>)
    requires i <= |preds|
    requires UnpairedFoundNone(accept, preds, golds, pairs, i) && ClaimedIs(pairs, claimed)
    requires forall k :: 0 <= k < |pairs| ==> pairs[k].0 < i
    requires GreedyFrom(accept, preds, golds, i, pairs, claimed).Ok?
    ensures UnpairedFoundNone(accept, preds, golds, GreedyFrom(accept, preds, golds, i, pairs, claimed).value, |preds|)
    decreases |preds| - i
  {
    if i < |preds| {
      match FirstFree(accept, preds[i], golds, 0, claimed).value
      case None =>
        StepUnpaired(accept, preds, golds, i, pairs, claimed);
        GreedyFromSkips(accept, preds, golds, i, pairs, claimed);
        GreedyFromUnpairedFoundNone(accept, preds, golds, i + 1, pairs, claimed);
      case Some(j) =>
        StepPairedUnpaired(accept, preds, golds, i, pairs, j);
        StepPairedClaimed(pairs, claimed, i, j);
        assert forall k :: 0 <= k < |pairs| + 1 ==> (pairs + [(i, j)])[k].0 < i + 1;
        GreedyFromTakes(accept, preds, golds, i, pairs, claimed, j);
        GreedyFromUnpairedFoundNone(accept, preds, golds, i + 1, pairs + [(i, j)], claimed + {j});
    }
  }

  /** The pairing `score_journal` makes is first-fit, and it pairs at most
      as many objects as either side has. */
  lemma GreedyIsFirstFit(accept: Verdict, preds: seq<SemObj>, golds: seq<SemObj>)
    requires Greedy(accept, preds, golds).Ok?
    ensures FirstFit(accept, preds, golds, Greedy(accept, preds, golds).value)
    ensures |Greedy(accept, preds, golds).value| <= |preds| && |Greedy(accept, preds, golds).value| <= |golds|
  {
    GreedyFromIsShaped(accept, preds, golds, 0, [], {});
    GreedyFromIsAccepted(accept, preds, golds, 0, [], {});
    GreedyFromTakesFirstFree(accept, preds, golds, 0, [], {});
    GreedyFromUnpairedFoundNone(accept, preds, golds, 0, [], {});
  }

  /** The pairing has no more pairs than predictions or gold objects. */
  lemma GreedyPairsBounded(accept: Verdict, preds: seq<SemObj>, golds: seq<SemObj>)
    requires Greedy(accept, preds, golds).Ok?
    ensures |Greedy(accept, preds, golds).value| <= |preds| && |Greedy(accept, preds, golds).value| <= |golds|
  {
    GreedyFromIsShaped(accept, preds, golds, 0, [], {});
  }

  /** A gold object already claimed is never claimed again, even by a
      prediction that matches it better. */
  lemma EarlierPredictionWins(accept: Verdict, p1: SemObj, p2: SemObj, g: SemObj)
    requires accept(p1, g) == Ok(true) && accept(p2, g) == Ok(true)
    ensures Greedy(accept, [p1, p2], [g]) == Ok([(0, 0)])
  {
    var preds, golds := [p1, p2], [g];
    assert FirstFree(accept, preds[0], golds, 0, {}) == Ok(Some(0));
    GreedyFromTakes(accept, preds, golds, 0, [], {}, 0);
    assert [] + [(0, 0)] == [(0, 0)] && {} + {0} == {0};
    assert FirstFree(accept, preds[1], golds, 1, {0}) == Ok(None);
    GreedyFromSkips(accept, preds, golds, 1, [(0, 0)], {0});
  }

  // ---------------------------------------------------------------------
  // Metrics
  // ---------------------------------------------------------------------

  /** A per-journal score, before rounding for the report. */
  datatype Score = Score(
    tp: nat, fp: int, fn: int,
    precision: real, recall: real, f1: real,
    polarityAccuracy: real, evidenceCoverage: real)

  /** `num / den`, or 0 when `den` is 0. */
  function Ratio(num: nat, den: nat): (r: real)
    requires num <= den
    ensures 0.0 <= r <= 1.0
    ensures den == 0 ==> r == 0.0
    ensures den > 0 && num == den ==> r == 1.0
    ensures num == 0 ==> r == 0.0
  {
    if den > 0 then
      QuotientAtMostOne(num as real, den as real);
      num as real / den as real
    else 0.0
  }

  /** Bounds on the product of two ratios, named `m` so that the solver
      treats it as one quantity. */
  lemma ProductBounds(p: real, q: real, m: real)
    requires 0.0 <= p <= 1.0 && 0.0 <= q <= 1.0 && m == p * q
    ensures 0.0 <= m <= p && m <= q
  {
    ProductNonnegative(p, q);
    ProductNonnegative(p, 1.0 - q);
    ProductNonnegative(1.0 - p, q);
  }

  /** The harmonic mean of two ratios is a ratio. */
  lemma HarmonicMeanBounded(p: real, q: real)
    requires 0.0 <= p <= 1.0 && 0.0 <= q <= 1.0 && p + q > 0.0
    ensures 0.0 <= 2.0 * p * q / (p + q) <= 1.0
  {
    var m := p * q;
    ProductBounds(p, q, m);
    assert 2.0 * p * q == 2.0 * m;
    QuotientAtMostOne(2.0 * m, p + q);
  }

  /** The harmonic mean of precision and recall, or 0 when both are 0. */
  function F1(precision: real, recall: real): (f: real)
    requires 0.0 <= precision <= 1.0 && 0.0 <= recall <= 1.0
    ensures 0.0 <= f <= 1.0
    ensures precision + recall == 0.0 ==> f == 0.0
    ensures precision == 1.0 && recall == 1.0 ==> f == 1.0
  {
    if precision + recall > 0.0 then
      HarmonicMeanBounded(precision, recall);
      2.0 * precision * recall / (precision + recall)
    else 0.0
  }

  /** Both sides of the pair carry the same polarity (absent fields compare as `None`). */
  predicate PolarityAgrees(preds: seq<SemObj>, golds: seq<SemObj>, pair: Pair) {
    pair.0 < |preds| && pair.1 < |golds|
    && PyEq(Get(preds[pair.0], "polarity"), Get(golds[pair.1], "polarity"))
  }

  /** How many pairs agree on polarity. */
  function PolarityAgreements(preds: seq<SemObj>, golds: seq<SemObj>, pairs: seq<Pair>): (n: nat)
    ensures n <= |pairs|
  {
    if pairs == [] then 0
    else PolarityAgreements(preds, golds, pairs[..|pairs| - 1])
         + (if PolarityAgrees(preds, golds, pairs[|pairs| - 1]) then 1 else 0)
  }

  /** Whether a prediction's evidence (the `_evi` fallback) is non-empty and
      occurs in the journal text; testing a truthy non-string raises. */
  function Covered(pred: SemObj, text: string): (r: Result<bool>)
    ensures r == Ok(true) <==> Evidence(pred).Str? && Evidence(pred).s != "" && IsSubstring(Evidence(pred).s, text)
    ensures r.Err? <==> Truthy(Evidence(pred)) && !Evidence(pred).Str?
  {
    var e := Evidence(pred);
    if !Truthy(e) then Ok(false)
    else if e.Str? then Ok(IsSubstring(e.s, text))
    else Err(TypeError)
  }

  /** How many predictions are covered. */
  function CoveredCount(preds: seq<SemObj>, text: string): (r: Result<nat>)
    ensures r.Ok? ==> r.value <= |preds|
    ensures r.Err? <==> exists k :: 0 <= k < |preds| && Covered(preds[k], text).Err?
  {
    if preds == [] then Ok(0)
    else
      var first :- Covered(preds[0], text);
      var rest :- CoveredCount(preds[1..], text);
      Ok(rest + (if first then 1 else 0))
  }

  /** The score for a given pairing. */
  function Metrics(preds: seq<SemObj>, golds: seq<SemObj>, pairs: seq<Pair>, text: string): (r: Result<Score>)
    requires |pairs| <= |preds| && |pairs| <= |golds|
    ensures r.Ok? ==>
      && r.value.tp == |pairs|
      && r.value.fp == |preds| - |pairs| >= 0
      && r.value.fn == |golds| - |pairs| >= 0
      && 0.0 <= r.value.precision <= 1.0 && 0.0 <= r.value.recall <= 1.0 && 0.0 <= r.value.f1 <= 1.0
      && 0.0 <= r.value.polarityAccuracy <= 1.0 && 0.0 <= r.value.evidenceCoverage <= 1.0
    ensures r.Ok? && |preds| == 0 ==> r.value.precision == 0.0 && r.value.evidenceCoverage == 1.0
    ensures r.Ok? && |golds| == 0 ==> r.value.recall == 0.0
    ensures r.Ok? && r.value.precision + r.value.recall == 0.0 ==> r.value.f1 == 0.0
    ensures r.Ok? && |pairs| == 0 ==> r.value.polarityAccuracy == 0.0
    ensures r.Err? <==> CoveredCount(preds, text).Err?
  {
    var tp := |pairs|;
    var fp := |preds| - tp;
    var fn := |golds| - tp;
    var agreeing := PolarityAgreements(preds, golds, pairs);
    var covered :- CoveredCount(preds, text);
    var precision := Ratio(tp, tp + fp);
    var recall := Ratio(tp, tp + fn);
    Ok(Score(tp, fp, fn, precision, recall, F1(precision, recall),
             Ratio(agreeing, tp),
             if |preds| > 0 then Ratio(covered, |preds|) else 1.0))
  }

  /** What `score_journal` returns. */
  function ScoreSpec(preds: seq<SemObj>, golds: seq<SemObj>, text: string): Result<Score> {
    var pairs :- Greedy(DefaultMatch, preds, golds);
    GreedyPairsBounded(DefaultMatch, preds, golds);
    Metrics(preds, golds, pairs, text)
  }

  // ---------------------------------------------------------------------
  // score_journal
  // ---------------------------------------------------------------------

  /** The inner loop of `score_journal`: scans the gold objects in order,
      skipping claimed ones, and stops at the first that the matcher accepts. */
  method FindFreeGold(accept: Verdict, pred: SemObj, golds: seq<SemObj>, claimed: set<nat>) returns (r: Result<Option<nat>>)
    ensures r == FirstFree(accept, pred, golds, 0, claimed)
  {
    for j: nat := 0 to |golds|
      invariant FirstFree(accept, pred, golds, j, claimed) == FirstFree(accept, pred, golds, 0, claimed)
    {
      if j in claimed {
        continue;
      }
      var m := accept(pred, golds[j]);
      if m.Err? {
        return Err(m.error);
      }
      if m.value {
        return Ok(Some(j));
      }
    }
    r := Ok(None);
  }

  /** The outer loop of `score_journal`: each prediction in turn takes the
      first free gold object it matches. Returns the pairs made and the
      sets of matched prediction and gold indices. */
  method MatchItems(accept: Verdict, preds: seq<SemObj>, golds: seq<SemObj>) returns (r: Result<(seq<Pair>, set<nat>, set<nat>)>)
    ensures Greedy(accept, preds, golds) == if r.Ok? then Ok(r.value.0) else Err(r.error)
    ensures r.Ok? ==> |r.value.1| == |r.value.0| && |r.value.2| == |r.value.0|
  {
    var matchedPred: set<nat> := {};
    var matchedGold: set<nat> := {};
    var matches: seq<Pair> := [];
    ghost var pairing := Greedy(accept, preds, golds);
    for i: nat := 0 to |preds|
      invariant GreedyFrom(accept, preds, golds, i, matches, matchedGold) == pairing
      invariant |matchedPred| == |matches| == |matchedGold|
      invariant forall x :: x in matchedPred ==> x < i
    {
      var found := FindFreeGold(accept, preds[i], golds, matchedGold);
      if found.Err? {
        GreedyFromFails(accept, preds, golds, i, matches, matchedGold);
        return Err(found.error);
      }
      match found.value
      case None =>
        GreedyFromSkips(accept, preds, golds, i, matches, matchedGold);
      case Some(j) =>
        GreedyFromTakes(accept, preds, golds, i, matches, matchedGold, j);
        AddFresh(matchedPred, i);
        AddFresh(matchedGold, j);
        matchedPred := matchedPred + {i};
        matchedGold := matchedGold + {j};
        matches := matches + [(i, j)];
    }
    r := Ok((matches, matchedPred, matchedGold));
  }

  /** `score_journal`: pairs predictions with gold objects first-fit, then
      derives the counts and ratios. */
  method ScoreJournal(preds: seq<SemObj>, golds: seq<SemObj>, text: string) returns (r: Result<Score>)
    ensures r == ScoreSpec(preds, golds, text)
  {
    var matched := MatchItems(DefaultMatch, preds, golds);
    if matched.Err? {
      return Err(matched.error);
    }
    var (matches, matchedPred, matchedGold) := matched.value;
    GreedyPairsBounded(DefaultMatch, preds, golds);
    var tp := |matches|;
    var fp := |preds| - |matchedPred|;
    var fn := |golds| - |matchedGold|;
    assert tp == |matches| && fp == |preds| - |matches| && fn == |golds| - |matches|;
    var agreeing := PolarityAgreements(preds, golds, matches);
    var polarityAccuracy := Ratio(agreeing, tp);
    var covered := CoveredCount(preds, text);
    if covered.Err? {
      return Err(covered.error);
    }
    var evidenceCoverage := if |preds| > 0 then Ratio(covered.value, |preds|) else 1.0;
    var precision := Ratio(tp, tp + fp);
    var recall := Ratio(tp, tp + fn);
    var f1 := F1(precision, recall);
    assert Greedy(DefaultMatch, preds, golds) == Ok(matches);
    r := Ok(Score(tp, fp, fn, precision, recall, f1, polarityAccuracy, evidenceCoverage));
  }

  // ---------------------------------------------------------------------
  // Properties of the score
  // ---------------------------------------------------------------------

  /** All pairs agree on polarity exactly when the count reaches the number
      of pairs. */
  lemma {:induction false} PolarityAgreementsAll(preds: seq<SemObj>, golds: seq<SemObj>, pairs: seq<Pair>)
    ensures PolarityAgreements(preds, golds, pairs) == |pairs|
        <==> forall k :: 0 <= k < |pairs| ==> PolarityAgrees(preds, golds, pairs[k])
  {
    if pairs != [] {
      var init := pairs[..|pairs| - 1];
      PolarityAgreementsAll(preds, golds, init);
      assert forall k :: 0 <= k < |init| ==> init[k] == pairs[k];
    }
  }

  /** Every prediction is covered exactly when the covered count is the
      number of predictions. */
  lemma {:induction false} CoveredCountAll(preds: seq<SemObj>, text: string)
    ensures CoveredCount(preds, text) == Ok(|preds|)
        <==> forall k :: 0 <= k < |preds| ==> Covered(preds[k], text) == Ok(true)
  {
    if preds != [] {
      CoveredCountAll(preds[1..], text);
      assert forall k :: 1 <= k < |preds| ==> preds[1..][k - 1] == preds[k];
    }
  }

  /** The positions of the pairs that agree on polarity. */
  ghost function AgreeingIndices(preds: seq<SemObj>, golds: seq<SemObj>, pairs: seq<Pair>): set<nat> {
    set k: nat | k < |pairs| && PolarityAgrees(preds, golds, pairs[k])
  }

  /** The polarity count is the number of pairs that agree. */
  lemma {:induction false} PolarityAgreementsCounts(preds: seq<SemObj>, golds: seq<SemObj>, pairs: seq<Pair>)
    ensures PolarityAgreements(preds, golds, pairs) == |AgreeingIndices(preds, golds, pairs)|
  {
    if pairs != [] {
      var n := |pairs| - 1;
      var init := pairs[..n];
      PolarityAgreementsCounts(preds, golds, init);
      var s := AgreeingIndices(preds, golds, init);
      assert forall k :: 0 <= k < n ==> init[k] == pairs[k];
      if PolarityAgrees(preds, golds, pairs[n]) {
        assert AgreeingIndices(preds, golds, pairs) == s + {n};
        AddFresh(s, n);
      } else {
        assert AgreeingIndices(preds, golds, pairs) == s;
      }
    }
  }

  /** The positions of the covered predictions. */
  ghost function CoveredIndices(preds: seq<SemObj>, text: string): set<nat> {
    set k: nat | k < |preds| && Covered(preds[k], text) == Ok(true)
  }

  /** Every element of `s` moved up by one. */
  ghost function Shift(s: set<nat>): set<nat> {
    set x | x in s :: x + 1
  }

  lemma {:induction false} ShiftKeepsSize(s: set<nat>)
    ensures |Shift(s)| == |s|
    decreases |s|
  {
    if s != {} {
      var x :| x in s;
      ShiftKeepsSize(s - {x});
      forall y | y in Shift(s) ensures y in Shift(s - {x}) + {x + 1} {
        var z :| z in s && y == z + 1;
        if z != x {
          assert z in s - {x};
        }
      }
      forall y | y in Shift(s - {x}) + {x + 1} ensures y in Shift(s) {
        if y != x + 1 {
          var z :| z in s - {x} && y == z + 1;
        }
      }
      assert Shift(s) == Shift(s - {x}) + {x + 1};
      AddFresh(Shift(s - {x}), x + 1);
    }
  }

  /** A set that is `s` shifted up by one, perhaps with 0 added. */
  lemma SizeAfterShift(all: set<nat>, s: set<nat>)
    requires all - {0} == Shift(s)
    ensures |all| == |s| + (if 0 in all then 1 else 0)
  {
    ShiftKeepsSize(s);
    if 0 in all {
      assert all == Shift(s) + {0};
      AddFresh(Shift(s), 0);
    } else {
      assert all == Shift(s);
    }
  }

  /** Dropping the first prediction shifts the covered positions down by one. */
  lemma CoveredIndicesStep(preds: seq<SemObj>, text: string)
    requires preds != []
    ensures CoveredIndices(preds, text) - {0} == Shift(CoveredIndices(preds[1..], text))
    ensures 0 in CoveredIndices(preds, text) <==> Covered(preds[0], text) == Ok(true)
  {
    var rest := preds[1..];
    var s := CoveredIndices(rest, text);
    forall y | y in Shift(s) ensures y in CoveredIndices(preds, text) - {0} {
      var z :| z in s && y == z + 1;
      assert rest[z] == preds[y];
    }
    forall y | y in CoveredIndices(preds, text) - {0} ensures y in Shift(s) {
      assert rest[y - 1] == preds[y];
      assert y - 1 in s && (y - 1) + 1 == y;
    }
  }

  /** One step of the coverage count. */
  lemma CoveredCountStep(preds: seq<SemObj>, text: string)
    requires preds != [] && CoveredCount(preds, text).Ok?
    ensures Covered(preds[0], text).Ok? && CoveredCount(preds[1..], text).Ok?
    ensures CoveredCount(preds, text).value
         == CoveredCount(preds[1..], text).value + (if Covered(preds[0], text).value then 1 else 0)
  {
  }

  /** The coverage count is the number of covered predictions. */
  lemma {:induction false} CoveredCountCounts(preds: seq<SemObj>, text: string)
    requires CoveredCount(preds, text).Ok?
    ensures CoveredCount(preds, text).value == |CoveredIndices(preds, text)|
  {
    if preds != [] {
      CoveredCountStep(preds, text);
      CoveredCountCounts(preds[1..], text);
      CoveredIndicesStep(preds, text);
      SizeAfterShift(CoveredIndices(preds, text), CoveredIndices(preds[1..], text));
    }
  }

  /** The counts add up, every ratio is a ratio, and the zero-denominator
      fallbacks apply. */
  lemma ScoreBounds(preds: seq<SemObj>, golds: seq<SemObj>, text: string)
    requires ScoreSpec(preds, golds, text).Ok?
    ensures var s := ScoreSpec(preds, golds, text).value;
      && s.tp <= |preds| && s.tp <= |golds|
      && s.fp == |preds| - s.tp >= 0 && s.fn == |golds| - s.tp >= 0
      && 0.0 <= s.precision <= 1.0 && 0.0 <= s.recall <= 1.0 && 0.0 <= s.f1 <= 1.0
      && 0.0 <= s.polarityAccuracy <= 1.0 && 0.0 <= s.evidenceCoverage <= 1.0
      && (s.tp + s.fp == 0 ==> s.precision == 0.0)
      && (s.tp + s.fn == 0 ==> s.recall == 0.0)
      && (s.precision + s.recall == 0.0 ==> s.f1 == 0.0)
      && (s.tp == 0 ==> s.polarityAccuracy == 0.0)
      && (|preds| == 0 ==> s.evidenceCoverage == 1.0)
  {
  }

  /** With no predictions nothing is paired; precision falls back to 0 and
      coverage to 1. */
  lemma NoPredictions(golds: seq<SemObj>, text: string)
    ensures ScoreSpec([], golds, text) == Ok(Score(0, 0, |golds|, 0.0, 0.0, 0.0, 0.0, 1.0))
  {
  }

  /** An object whose evidence is a non-empty string matches itself. */
  lemma SelfMatch(o: SemObj)
    requires Evidence(o).Str? && Evidence(o).s != ""
    ensures DefaultMatch(o, o) == Ok(true)
  {
    var e := Evidence(o).s;
    assert OccursAt(Lower(e), Lower(e), 0) by {
      assert Lower(e)[0..|Lower(e)|] == Lower(e);
    }
    ContainedEvidenceMatches(o, o, DefaultThreshold);
  }

  /** One prediction, one gold object, accepted: one pair. */
  lemma SinglePair(accept: Verdict, p: SemObj, g: SemObj)
    requires accept(p, g) == Ok(true)
    ensures Greedy(accept, [p], [g]) == Ok([(0, 0)])
  {
    assert FirstFree(accept, [p][0], [g], 0, {}) == Ok(Some(0));
    GreedyFromTakes(accept, [p], [g], 0, [], {}, 0);
    assert [] + [(0, 0)] == [(0, 0)];
  }

  /** A prediction identical to the only gold object, with evidence found in
      the text, scores perfectly. */
  lemma ExactMatchScores(o: SemObj, e: string, text: string)
    requires "evidence_text" in o && o["evidence_text"] == Str(e)
    requires e != "" && IsSubstring(e, text)
    ensures ScoreSpec([o], [o], text) == Ok(Score(1, 0, 0, 1.0, 1.0, 1.0, 1.0, 1.0))
  {
    assert Evidence(o) == Str(e);
    SelfMatch(o);
    SinglePair(DefaultMatch, o, o);
    assert PolarityAgrees([o], [o], (0, 0));
    assert PolarityAgreements([o], [o], [(0, 0)]) == 1;
    assert CoveredCount([o], text) == Ok(1);
  }

  /** First-fit is order-sensitive: when two predictions match the only gold
      object, the second is a false positive. */
  lemma SecondClaimantIsFalsePositive(p1: SemObj, p2: SemObj, g: SemObj, text: string)
    requires DefaultMatch(p1, g) == Ok(true) && DefaultMatch(p2, g) == Ok(true)
    requires ScoreSpec([p1, p2], [g], text).Ok?
    ensures ScoreSpec([p1, p2], [g], text).value.tp == 1
    ensures ScoreSpec([p1, p2], [g], text).value.fp == 1
    ensures ScoreSpec([p1, p2], [g], text).value.fn == 0
  {
    EarlierPredictionWins(DefaultMatch, p1, p2, g);
  }
}
