/**
 * Greedy near-duplicate removal over a built index (`remove_duplicates`
 * in remove-dup-image.py). Every row is searched against the whole index
 * for its nearest neighbours; the neighbour table arrives as `I` (row
 * indices) and `D` (inner-product scores), one list per row. Rows are
 * visited in ascending order; a row that is still kept removes every
 * other kept row its list names with a score at or above the threshold.
 *
 * The pass is specified by a state (`keep_mask`, `processed`,
 * `duplicates_removed`) and a left fold of `Step` over the rows;
 * `RemoveDuplicates` is the loop itself, proved to compute that fold.
 */
module Dedup {
  import opened Strings
  import opened VectorIndex

  /** Neighbours searched per row, at most (remove-dup-image.py line 48). */
  const NeighbourCap: nat := 100

  /** `k = min(100, num_vectors)`: the length of every neighbour list. */
  function NeighbourCount(n: nat): (k: nat)
    ensures k <= NeighbourCap && k <= n
    ensures k == NeighbourCap || k == n
  {
    Min(NeighbourCap, n)
  }

  /** The shape of `temp_index.search(embeddings, k)` on an index of `n` rows. */
  predicate SearchShape(I: seq<seq<int>>, D: seq<seq<real>>, n: nat) {
    |I| == n && |D| == n &&
    forall i :: 0 <= i < n ==> |I[i]| == NeighbourCount(n) && |D[i]| == NeighbourCount(n)
  }

  /** Every neighbour named in the table is a row of the index. */
  predicate ValidNeighbours(I: seq<seq<int>>, n: nat) {
    forall i, t :: 0 <= i < |I| && 0 <= t < |I[i]| ==> 0 <= I[i][t] < n
  }

  /** Row `j` is a duplicate of row `i`: `j != i` and among the first pairs of `zip(ids, scores)` one names `j` with score `>= threshold`. */
  predicate IsDuplicateOf(i: int, j: int, ids: seq<int>, scores: seq<real>, threshold: real) {
    j != i && exists t :: 0 <= t < Min(|ids|, |scores|) && ids[t] == j && scores[t] >= threshold
  }

  /** The list `zip(ids, scores)` names row `j`. */
  predicate Names(ids: seq<int>, scores: seq<real>, j: int) {
    exists t :: 0 <= t < Min(|ids|, |scores|) && ids[t] == j
  }

  // ---------------------------------------------------------------------
  // Counting and selecting by a mask

  function CountTrue(keep: seq<bool>): nat {
    if keep == [] then 0
    else CountTrue(keep[..|keep| - 1]) + (if keep[|keep| - 1] then 1 else 0)
  }

  function CountFalse(keep: seq<bool>): nat {
    if keep == [] then 0
    else CountFalse(keep[..|keep| - 1]) + (if keep[|keep| - 1] then 0 else 1)
  }

  lemma {:induction false} CountsPartition(keep: seq<bool>)
    ensures CountTrue(keep) + CountFalse(keep) == |keep|
  {
    if keep != [] {
      CountsPartition(keep[..|keep| - 1]);
    }
  }

  lemma {:induction false} CountFalseAllTrue(n: nat)
    ensures CountFalse(seq(n, _ => true)) == 0
  {
    if n > 0 {
      assert seq(n, _ => true)[..n - 1] == seq(n - 1, _ => true);
      CountFalseAllTrue(n - 1);
    }
  }

  /** Clearing one true entry adds exactly one false entry. */
  lemma {:induction false} CountFalseClear(keep: seq<bool>, d: nat)
    requires d < |keep| && keep[d]
    ensures CountFalse(keep[d := false]) == CountFalse(keep) + 1
  {
    var last := |keep| - 1;
    if d == last {
      assert keep[d := false][..last] == keep[..last];
    } else {
      assert keep[d := false][..last] == keep[..last][d := false];
      CountFalseClear(keep[..last], d);
    }
  }

  /** `[xs[i] for i in range(len(xs)) if keep[i]]` (and `embeddings[keep_mask]`). */
  function Select<T>(xs: seq<T>, keep: seq<bool>): (r: seq<T>)
    requires |xs| == |keep|
    ensures |r| == CountTrue(keep)
    ensures forall x :: x in r ==> x in xs
  {
    if xs == [] then []
    else
      var n := |xs| - 1;
      assert forall x :: x in xs[..n] ==> x in xs;
      Select(xs[..n], keep[..n]) + (if keep[n] then [xs[n]] else [])
  }

  /** The kept positions, in ascending order. */
  function KeptIndices(keep: seq<bool>): (ks: seq<nat>)
    ensures |ks| == CountTrue(keep)
    ensures forall a, b :: 0 <= a < b < |ks| ==> ks[a] < ks[b]
    ensures forall a :: 0 <= a < |ks| ==> ks[a] < |keep| && keep[ks[a]]
    ensures forall x :: 0 <= x < |keep| && keep[x] ==> x in ks
  {
    if keep == [] then []
    else
      var n := |keep| - 1;
      KeptIndices(keep[..n]) + (if keep[n] then [n] else [])
  }

  /** The `k`-th selected element is the element at the `k`-th kept position: selection keeps exactly the kept entries, in order. */
  lemma {:induction false} SelectAt<T>(xs: seq<T>, keep: seq<bool>, k: nat)
    requires |xs| == |keep| && k < CountTrue(keep)
    ensures Select(xs, keep)[k] == xs[KeptIndices(keep)[k]]
  {
    var n := |xs| - 1;
    if k < CountTrue(keep[..n]) {
      SelectAt(xs[..n], keep[..n], k);
    }
  }

  // ---------------------------------------------------------------------
  // The pass as a fold

  /** `keep_mask`, `processed` and `duplicates_removed`. */
  datatype State = State(keep: seq<bool>, processed: set<int>, removed: nat)

  /** The state before the loop: every row kept, nothing processed or removed. */
  function Init(n: nat): State {
    State(seq(n, _ => true), {}, 0)
  }

  /**
   * `similar_indices`, built from the first `m` pairs of `zip(ids, scores)`:
   * the neighbours other than `i` with score at or above the threshold
   * that are still kept, in list order.
   */
  function Similar(keep: seq<bool>, i: int, ids: seq<int>, scores: seq<real>, threshold: real, m: nat): (r: seq<int>)
    requires m <= |ids| && m <= |scores|
    requires forall t :: 0 <= t < |ids| ==> 0 <= ids[t] < |keep|
    ensures forall u :: 0 <= u < |r| ==> 0 <= r[u] < |keep|
  {
    if m == 0 then []
    else
      var j := ids[m - 1];
      Similar(keep, i, ids, scores, threshold, m - 1) +
      (if j != i && scores[m - 1] >= threshold && keep[j] then [j] else [])
  }

  /** `similar_indices` holds exactly the kept rows other than `i` that some of the first `m` pairs name with score at or above the threshold. */
  lemma {:induction false} SimilarExactly(keep: seq<bool>, i: int, ids: seq<int>, scores: seq<real>, threshold: real, m: nat)
    requires m <= |ids| && m <= |scores|
    requires forall t :: 0 <= t < |ids| ==> 0 <= ids[t] < |keep|
    ensures forall j :: j in Similar(keep, i, ids, scores, threshold, m) ==>
      j != i && keep[j] && exists t :: 0 <= t < m && ids[t] == j && scores[t] >= threshold
    ensures forall t :: 0 <= t < m && ids[t] != i && scores[t] >= threshold && keep[ids[t]] ==>
      ids[t] in Similar(keep, i, ids, scores, threshold, m)
  {
    if m > 0 {
      SimilarExactly(keep, i, ids, scores, threshold, m - 1);
    }
  }

  /** One pass of the marking loop: a row still kept is cleared, counted and recorded as processed. */
  function MarkOne(s: State, d: int): State
    requires 0 <= d < |s.keep|
  {
    if s.keep[d] then State(s.keep[d := false], s.processed + {d}, s.removed + 1) else s
  }

  /** The marking loop over `dups`. */
  function Mark(s: State, dups: seq<int>): (r: State)
    requires forall u :: 0 <= u < |dups| ==> 0 <= dups[u] < |s.keep|
    ensures |r.keep| == |s.keep|
  {
    if dups == [] then s
    else MarkOne(Mark(s, dups[..|dups| - 1]), dups[|dups| - 1])
  }

  /**
   * The marking loop clears exactly the listed rows, adds to `processed`
   * exactly the rows it cleared, and counts one removal per cleared row.
   */
  lemma {:induction false} MarkEffect(s: State, dups: seq<int>)
    requires forall u :: 0 <= u < |dups| ==> 0 <= dups[u] < |s.keep|
    ensures forall x :: 0 <= x < |s.keep| ==> Mark(s, dups).keep[x] == (s.keep[x] && x !in dups)
    ensures forall x :: x in Mark(s, dups).processed <==>
      x in s.processed || (0 <= x < |s.keep| && s.keep[x] && !Mark(s, dups).keep[x])
    ensures Mark(s, dups).removed + CountFalse(s.keep) == s.removed + CountFalse(Mark(s, dups).keep)
  {
    if dups != [] {
      var init, d := dups[..|dups| - 1], dups[|dups| - 1];
      assert dups == init + [d];
      MarkEffect(s, init);
      var m := Mark(s, init);
      if m.keep[d] {
        CountFalseClear(m.keep, d);
      }
    }
  }

  /** One turn of `for i in range(num_vectors)` (lines 55-73). */
  function Step(s: State, i: nat, ids: seq<int>, scores: seq<real>, threshold: real): (r: State)
    requires i < |s.keep|
    requires forall t :: 0 <= t < |ids| ==> 0 <= ids[t] < |s.keep|
    ensures |r.keep| == |s.keep|
  {
    if !s.keep[i] || i in s.processed then s
    else
      var similar := Similar(s.keep, i, ids, scores, threshold, Min(|ids|, |scores|));
      var marked := Mark(s, similar);
      marked.(processed := marked.processed + {i})
  }

  /**
   * A row already removed (or processed) is skipped; a row still kept
   * survives its own visit, removes exactly the kept rows it has as
   * duplicates, marks them and itself processed and counts each removal.
   */
  lemma StepEffect(s: State, i: nat, ids: seq<int>, scores: seq<real>, threshold: real)
    requires i < |s.keep|
    requires forall t :: 0 <= t < |ids| ==> 0 <= ids[t] < |s.keep|
    ensures (!s.keep[i] || i in s.processed) ==> Step(s, i, ids, scores, threshold) == s
    ensures forall x :: 0 <= x < |s.keep| && Step(s, i, ids, scores, threshold).keep[x] ==> s.keep[x]
    ensures (s.keep[i] && i !in s.processed) ==>
      forall x :: 0 <= x < |s.keep| ==>
        Step(s, i, ids, scores, threshold).keep[x] == (s.keep[x] && !IsDuplicateOf(i, x, ids, scores, threshold))
    ensures (s.keep[i] && i !in s.processed) ==>
      forall x :: x in Step(s, i, ids, scores, threshold).processed <==>
        x == i || x in s.processed || (0 <= x < |s.keep| && s.keep[x] && !Step(s, i, ids, scores, threshold).keep[x])
    ensures Step(s, i, ids, scores, threshold).removed + CountFalse(s.keep) ==
      s.removed + CountFalse(Step(s, i, ids, scores, threshold).keep)
  {
    if s.keep[i] && i !in s.processed {
      var m := Min(|ids|, |scores|);
      var similar := Similar(s.keep, i, ids, scores, threshold, m);
      SimilarExactly(s.keep, i, ids, scores, threshold, m);
      MarkEffect(s, similar);
      forall x | 0 <= x < |s.keep|
        ensures (x in similar) <==> s.keep[x] && IsDuplicateOf(i, x, ids, scores, threshold)
      {
        if s.keep[x] && IsDuplicateOf(i, x, ids, scores, threshold) {
          var t :| 0 <= t < m && ids[t] == x && scores[t] >= threshold;
          assert ids[t] in similar;
        }
      }
    }
  }

  /** The state after the first `i` rows have been visited. */
  function Run(I: seq<seq<int>>, D: seq<seq<real>>, threshold: real, i: nat): (s: State)
    requires |I| == |D| && i <= |I| && ValidNeighbours(I, |I|)
    ensures |s.keep| == |I|
  {
    if i == 0 then Init(|I|)
    else Step(Run(I, D, threshold, i - 1), i - 1, I[i - 1], D[i - 1], threshold)
  }

  /** The state after the loop. */
  function Final(I: seq<seq<int>>, D: seq<seq<real>>, threshold: real): (s: State)
    requires |I| == |D| && ValidNeighbours(I, |I|)
    ensures |s.keep| == |I|
  {
    Run(I, D, threshold, |I|)
  }

  // ---------------------------------------------------------------------
  // Invariants of the pass

  /**
   * What holds after `i` visits: the counter equals the number of cleared
   * entries, and `processed` is exactly the visited rows plus the removed ones.
   */
  ghost predicate Consistent(s: State, n: nat, i: nat) {
    |s.keep| == n &&
    s.removed == CountFalse(s.keep) &&
    forall x :: x in s.processed <==> 0 <= x < n && (x < i || !s.keep[x])
  }

  lemma StepConsistent(s: State, n: nat, i: nat, ids: seq<int>, scores: seq<real>, threshold: real)
    requires Consistent(s, n, i) && i < n
    requires forall t :: 0 <= t < |ids| ==> 0 <= ids[t] < n
    ensures Consistent(Step(s, i, ids, scores, threshold), n, i + 1)
  {
    StepEffect(s, i, ids, scores, threshold);
  }

  lemma {:induction false} RunConsistent(I: seq<seq<int>>, D: seq<seq<real>>, threshold: real, i: nat)
    requires |I| == |D| && i <= |I| && ValidNeighbours(I, |I|)
    ensures Consistent(Run(I, D, threshold, i), |I|, i)
  {
    if i == 0 {
      CountFalseAllTrue(|I|);
    } else {
      RunConsistent(I, D, threshold, i - 1);
      StepConsistent(Run(I, D, threshold, i - 1), |I|, i - 1, I[i - 1], D[i - 1], threshold);
    }
  }

  /** `duplicates_removed` always equals the number of false entries of `keep_mask`. */
  lemma RemovedCountsClearedEntries(I: seq<seq<int>>, D: seq<seq<real>>, threshold: real, i: nat)
    requires |I| == |D| && i <= |I| && ValidNeighbours(I, |I|)
    ensures Run(I, D, threshold, i).removed == CountFalse(Run(I, D, threshold, i).keep)
  {
    RunConsistent(I, D, threshold, i);
  }

  /** When row `i` comes up, `i in processed` holds exactly when `keep_mask[i]` is false: the second test of line 56 never decides anything. */
  lemma ProcessedTestRedundant(I: seq<seq<int>>, D: seq<seq<real>>, threshold: real, i: nat)
    requires |I| == |D| && i < |I| && ValidNeighbours(I, |I|)
    ensures (i in Run(I, D, threshold, i).processed) <==> !Run(I, D, threshold, i).keep[i]
  {
    RunConsistent(I, D, threshold, i);
  }

  /** `keep_mask` entries only go from true to false. */
  lemma {:induction false} KeepMaskMonotone(I: seq<seq<int>>, D: seq<seq<real>>, threshold: real, i: nat, j: nat)
    requires |I| == |D| && i <= j <= |I| && ValidNeighbours(I, |I|)
    ensures forall x :: 0 <= x < |I| && Run(I, D, threshold, j).keep[x] ==> Run(I, D, threshold, i).keep[x]
    decreases j
  {
    if i < j {
      KeepMaskMonotone(I, D, threshold, i, j - 1);
      StepEffect(Run(I, D, threshold, j - 1), j - 1, I[j - 1], D[j - 1], threshold);
    }
  }

  /**
   * Visiting row `i`: a row already removed changes nothing; a kept row
   * survives its own visit and removes exactly the kept rows it has as
   * duplicates (score `>=` threshold, so a score equal to the threshold counts).
   */
  lemma VisitRow(I: seq<seq<int>>, D: seq<seq<real>>, threshold: real, i: nat)
    requires |I| == |D| && i < |I| && ValidNeighbours(I, |I|)
    ensures !Run(I, D, threshold, i).keep[i] ==> Run(I, D, threshold, i + 1) == Run(I, D, threshold, i)
    ensures Run(I, D, threshold, i).keep[i] ==> Run(I, D, threshold, i + 1).keep[i]
    ensures Run(I, D, threshold, i).keep[i] ==>
      forall x :: 0 <= x < |I| ==>
        (Run(I, D, threshold, i + 1).keep[x] <==>
         Run(I, D, threshold, i).keep[x] && !IsDuplicateOf(i, x, I[i], D[i], threshold))
  {
    RunConsistent(I, D, threshold, i);
    StepEffect(Run(I, D, threshold, i), i, I[i], D[i], threshold);
  }

  /**
   * No two survivors are duplicates of each other as far as their
   * neighbour lists go: no surviving row's list names another survivor
   * with a score at or above the threshold.
   */
  lemma SurvivorsAreNotDuplicates(I: seq<seq<int>>, D: seq<seq<real>>, threshold: real)
    requires |I| == |D| && ValidNeighbours(I, |I|)
    ensures forall x, y ::
      (0 <= x < |I| && 0 <= y < |I| && Final(I, D, threshold).keep[x] && Final(I, D, threshold).keep[y]) ==>
      !IsDuplicateOf(x, y, I[x], D[x], threshold)
  {
    var n := |I|;
    forall x, y | 0 <= x < n && 0 <= y < n && Final(I, D, threshold).keep[x] && Final(I, D, threshold).keep[y]
      ensures !IsDuplicateOf(x, y, I[x], D[x], threshold)
    {
      KeepMaskMonotone(I, D, threshold, x + 1, n);
      KeepMaskMonotone(I, D, threshold, x, x + 1);
      VisitRow(I, D, threshold, x);
    }
  }

  /** Every list names every row (possible only when the catalog has at most 100 rows). */
  ghost predicate CompleteLists(I: seq<seq<int>>, D: seq<seq<real>>, n: nat)
    requires |I| == n && |D| == n
  {
    forall i, j :: 0 <= i < n && 0 <= j < n ==> Names(I[i], D[i], j)
  }

  /** The score of each pair is `sim` applied to the row and the neighbour it names. */
  ghost predicate ScoredBy(I: seq<seq<int>>, D: seq<seq<real>>, sim: (int, int) -> real)
    requires |I| == |D|
  {
    forall i, t :: 0 <= i < |I| && 0 <= t < |I[i]| && t < |D[i]| ==> D[i][t] == sim(i, I[i][t])
  }

  /** With complete lists, no two surviving rows score at or above the threshold. */
  lemma CompleteListsLeaveNoDuplicatePair(I: seq<seq<int>>, D: seq<seq<real>>, threshold: real, sim: (int, int) -> real)
    requires |I| == |D| && ValidNeighbours(I, |I|)
    requires CompleteLists(I, D, |I|) && ScoredBy(I, D, sim)
    ensures forall x, y ::
      (0 <= x < |I| && 0 <= y < |I| && x != y && Final(I, D, threshold).keep[x] && Final(I, D, threshold).keep[y]) ==>
      sim(x, y) < threshold
  {
    SurvivorsAreNotDuplicates(I, D, threshold);
    forall x, y | 0 <= x < |I| && 0 <= y < |I| && x != y &&
      Final(I, D, threshold).keep[x] && Final(I, D, threshold).keep[y]
      ensures sim(x, y) < threshold
    {
      assert Names(I[x], D[x], y);
      var t :| 0 <= t < Min(|I[x]|, |D[x]|) && I[x][t] == y;
      assert !IsDuplicateOf(x, y, I[x], D[x], threshold);
    }
  }

  /** The rows `0 .. n-1` as a set. */
  function Rows(n: nat): (r: set<int>)
    ensures |r| == n
    ensures forall j :: j in r <==> 0 <= j < n
  {
    if n == 0 then {} else Rows(n - 1) + {n - 1}
  }

  /** The rows a list names. */
  function Named(ids: seq<int>): (r: set<int>)
    ensures |r| <= |ids|
    ensures forall j :: j in r <==> j in ids
  {
    if ids == [] then {}
    else
      var init := ids[..|ids| - 1];
      assert ids == init + [ids[|ids| - 1]];
      Named(init) + {ids[|ids| - 1]}
  }

  lemma SubsetCardinality(a: set<int>, b: set<int>)
    requires a <= b
    ensures |a| <= |b|
  {
    assert b == a + (b - a);
    assert a !! (b - a);
  }

  /**
   * The lists `temp_index.search` returns never name more than 100 rows,
   * so complete lists exist only for catalogs of at most 100 images;
   * beyond that the pass works from partial lists.
   */
  lemma CompleteListsNeedSmallCatalog(I: seq<seq<int>>, D: seq<seq<real>>)
    requires |I| > 0 && SearchShape(I, D, |I|)
    requires CompleteLists(I, D, |I|)
    ensures |I| <= NeighbourCap
  {
    var n := |I|;
    forall j | j in Rows(n)
      ensures j in Named(I[0])
    {
      assert Names(I[0], D[0], j);
      var t :| 0 <= t < Min(|I[0]|, |D[0]|) && I[0][t] == j;
      assert I[0][t] in I[0];
    }
    SubsetCardinality(Rows(n), Named(I[0]));
  }

  /** A row removed at visit `i` is removed by row `i`, which was kept then and names it as a duplicate. */
  lemma RemovedAtVisit(I: seq<seq<int>>, D: seq<seq<real>>, threshold: real, i: nat, y: nat)
    requires |I| == |D| && i < |I| && y < |I| && ValidNeighbours(I, |I|)
    requires Run(I, D, threshold, i).keep[y] && !Run(I, D, threshold, i + 1).keep[y]
    ensures Run(I, D, threshold, i).keep[i] && IsDuplicateOf(i, y, I[i], D[i], threshold)
  {
    VisitRow(I, D, threshold, i);
  }

  /** A row that starts kept at visit `i` and is gone at visit `j` is removed at some visit in between. */
  lemma {:induction false} RemovalVisitExists(I: seq<seq<int>>, D: seq<seq<real>>, threshold: real, i: nat, j: nat, y: nat)
    requires |I| == |D| && i <= j <= |I| && y < |I| && ValidNeighbours(I, |I|)
    requires Run(I, D, threshold, i).keep[y] && !Run(I, D, threshold, j).keep[y]
    ensures exists v :: i <= v < j && Run(I, D, threshold, v).keep[y] && !Run(I, D, threshold, v + 1).keep[y]
    decreases j - i
  {
    if !Run(I, D, threshold, i + 1).keep[y] {
      assert Run(I, D, threshold, i).keep[y] && !Run(I, D, threshold, i + 1).keep[y];
    } else {
      RemovalVisitExists(I, D, threshold, i + 1, j, y);
    }
  }

  /** `sim` is symmetric on the rows, as the inner product is. */
  ghost predicate Symmetric(sim: (int, int) -> real, n: nat) {
    forall x, y :: 0 <= x < n && 0 <= y < n ==> sim(x, y) == sim(y, x)
  }

  /** With complete lists and symmetric scores, whoever removes a row comes before it. */
  lemma RemoverIsEarlier(I: seq<seq<int>>, D: seq<seq<real>>, threshold: real, sim: (int, int) -> real, i: nat, y: nat)
    requires |I| == |D| && i < |I| && y < |I| && ValidNeighbours(I, |I|)
    requires CompleteLists(I, D, |I|) && ScoredBy(I, D, sim) && Symmetric(sim, |I|)
    requires Run(I, D, threshold, i).keep[y] && !Run(I, D, threshold, i + 1).keep[y]
    ensures i < y && Run(I, D, threshold, i).keep[i] && sim(i, y) >= threshold
  {
    RemovedAtVisit(I, D, threshold, i, y);
    var t :| 0 <= t < Min(|I[i]|, |D[i]|) && I[i][t] == y && D[i][t] >= threshold;
    assert sim(i, y) >= threshold;
    if y < i {
      KeepMaskMonotone(I, D, threshold, y, i);
      assert Run(I, D, threshold, y).keep[y] && Run(I, D, threshold, y).keep[i];
      assert Names(I[y], D[y], i);
      var u :| 0 <= u < Min(|I[y]|, |D[y]|) && I[y][u] == i;
      assert D[y][u] == sim(y, i) == sim(i, y);
      assert IsDuplicateOf(y, i, I[y], D[y], threshold);
      VisitRow(I, D, threshold, y);
      KeepMaskMonotone(I, D, threshold, y + 1, i);
      assert false;
    }
  }

  /** With complete lists and symmetric scores, a row still kept when its turn comes is never removed afterwards. */
  lemma {:induction false} WinnerSurvives(I: seq<seq<int>>, D: seq<seq<real>>, threshold: real, sim: (int, int) -> real, i: nat, j: nat)
    requires |I| == |D| && i < |I| && i <= j <= |I| && ValidNeighbours(I, |I|)
    requires CompleteLists(I, D, |I|) && ScoredBy(I, D, sim) && Symmetric(sim, |I|)
    requires Run(I, D, threshold, i).keep[i]
    ensures Run(I, D, threshold, j).keep[i]
    decreases j
  {
    if i < j {
      WinnerSurvives(I, D, threshold, sim, i, j - 1);
      if !Run(I, D, threshold, j).keep[i] {
        RemoverIsEarlier(I, D, threshold, sim, j - 1, i);
      }
    }
  }

  /**
   * With complete lists and symmetric scores the earliest row of a group
   * wins: every removed row has an earlier survivor scoring at or above
   * the threshold against it.
   */
  lemma EarliestRowWins(I: seq<seq<int>>, D: seq<seq<real>>, threshold: real, sim: (int, int) -> real, y: nat)
    requires |I| == |D| && y < |I| && ValidNeighbours(I, |I|)
    requires CompleteLists(I, D, |I|) && ScoredBy(I, D, sim) && Symmetric(sim, |I|)
    requires !Final(I, D, threshold).keep[y]
    ensures exists i :: 0 <= i < y && Final(I, D, threshold).keep[i] && sim(i, y) >= threshold
  {
    assert Run(I, D, threshold, 0).keep[y];
    RemovalVisitExists(I, D, threshold, 0, |I|, y);
    var i :| 0 <= i < |I| && Run(I, D, threshold, i).keep[y] && !Run(I, D, threshold, i + 1).keep[y];
    RemoverIsEarlier(I, D, threshold, sim, i, y);
    WinnerSurvives(I, D, threshold, sim, i, |I|);
  }

  // ---------------------------------------------------------------------
  // The loop

  /** Lines 60-63: the qualifying neighbours of row `i`, read off the current mask. */
  method CollectSimilar(mask: array<bool>, i: nat, ids: seq<int>, scores: seq<real>, threshold: real)
    returns (similar: seq<int>)
    requires forall t :: 0 <= t < |ids| ==> 0 <= ids[t] < mask.Length
    ensures similar == Similar(mask[..], i, ids, scores, threshold, Min(|ids|, |scores|))
  {
    similar := [];
    for t := 0 to Min(|ids|, |scores|)
      invariant similar == Similar(mask[..], i, ids, scores, threshold, t)
    {
      var j, similarity := ids[t], scores[t];
      if j != i && similarity >= threshold && mask[j] {
        similar := similar + [j];
      }
    }
  }

  /** Lines 66-71: clear, count and record each duplicate still kept. */
  method MarkDuplicates(mask: array<bool>, similar: seq<int>, processed: set<int>, removed: nat)
    returns (processed': set<int>, removed': nat)
    requires forall u :: 0 <= u < |similar| ==> 0 <= similar[u] < mask.Length
    modifies mask
    ensures State(mask[..], processed', removed') == Mark(State(old(mask[..]), processed, removed), similar)
  {
    processed', removed' := processed, removed;
    for u := 0 to |similar|
      invariant State(mask[..], processed', removed') == Mark(State(old(mask[..]), processed, removed), similar[..u])
    {
      assert similar[..u + 1] == similar[..u] + [similar[u]];
      var dup := similar[u];
      if mask[dup] {
        mask[dup] := false;
        removed' := removed' + 1;
        processed' := processed' + {dup};
      }
    }
    assert similar[..|similar|] == similar;
  }

  /**
   * The body of `remove_duplicates` from line 41 to line 80: the greedy
   * pass over the neighbour table, then the kept paths in their order.
   */
  method RemoveDuplicates(paths: seq<Path>, I: seq<seq<int>>, D: seq<seq<real>>, threshold: real)
    returns (keepMask: seq<bool>, duplicatesRemoved: nat, uniquePaths: seq<Path>)
    requires |I| == |paths| && |D| == |paths|
    requires ValidNeighbours(I, |paths|)
    ensures keepMask == Final(I, D, threshold).keep
    ensures duplicatesRemoved == Final(I, D, threshold).removed
    ensures duplicatesRemoved == CountFalse(keepMask)
    ensures uniquePaths == Select(paths, keepMask)
    ensures |uniquePaths| == |paths| - duplicatesRemoved
  {
    var n := |paths|;
    var mask := new bool[n](_ => true);
    var processed: set<int> := {};
    duplicatesRemoved := 0;
    assert mask[..] == Init(n).keep;
    for i := 0 to n
      invariant State(mask[..], processed, duplicatesRemoved) == Run(I, D, threshold, i)
    {
      if !mask[i] || i in processed {
        continue;
      }
      var similar := CollectSimilar(mask, i, I[i], D[i], threshold);
      processed, duplicatesRemoved := MarkDuplicates(mask, similar, processed, duplicatesRemoved);
      processed := processed + {i};
    }
    keepMask := mask[..];
    RunConsistent(I, D, threshold, n);
    uniquePaths := [];
    for k := 0 to n
      invariant uniquePaths == Select(paths[..k], keepMask[..k])
    {
      assert paths[..k + 1][..k] == paths[..k];
      assert keepMask[..k + 1][..k] == keepMask[..k];
      if keepMask[k] {
        uniquePaths := uniquePaths + [paths[k]];
      }
    }
    assert paths[..n] == paths && keepMask[..n] == keepMask;
    CountsPartition(keepMask);
  }

  /**
   * `remove_duplicates` from the reconstructed rows to the new index
   * (lines 30-85): the pass, then a fresh index of the same dimension
   * holding the kept rows, aligned with the kept paths.
   */
  method Deduplicate(index: FlatIndex, paths: seq<Path>, I: seq<seq<int>>, D: seq<seq<real>>, threshold: real)
    returns (newIndex: FlatIndex, uniquePaths: seq<Path>, duplicatesRemoved: nat)
    requires index.Valid() && |index.rows| == |paths|
    requires |I| == |paths| && |D| == |paths| && ValidNeighbours(I, |paths|)
    ensures fresh(newIndex) && newIndex.Valid() && newIndex.d == index.d
    ensures newIndex.rows == Select(index.rows, Final(I, D, threshold).keep)
    ensures uniquePaths == Select(paths, Final(I, D, threshold).keep)
    ensures duplicatesRemoved == Final(I, D, threshold).removed
    ensures newIndex.Size() == |uniquePaths| == |paths| - duplicatesRemoved
  {
    var keepMask;
    keepMask, duplicatesRemoved, uniquePaths := RemoveDuplicates(paths, I, D, threshold);
    var uniqueEmbeddings := Select(index.rows, keepMask);
    assert forall v :: v in uniqueEmbeddings ==> v in index.rows;
    assert forall k :: 0 <= k < |uniqueEmbeddings| ==> uniqueEmbeddings[k] in index.rows;
    newIndex := new FlatIndex(index.d);
    newIndex.Add(uniqueEmbeddings);
  }

  // ---------------------------------------------------------------------
  // Scenarios

  lemma ScenarioSimilarA()
    ensures Similar([true, true, true], 0, [0, 1, 2], [1.0, 0.97, 0.10], 0.95, 3) == [1]
  {
    var keep := [true, true, true];
    assert Similar(keep, 0, [0, 1, 2], [1.0, 0.97, 0.10], 0.95, 1) == [];
    assert Similar(keep, 0, [0, 1, 2], [1.0, 0.97, 0.10], 0.95, 2) == [1];
  }

  /** Row A's visit in the three-image scenario: its list names B at 0.97, so B is removed. */
  lemma ScenarioVisitA()
    ensures Step(Init(3), 0, [0, 1, 2], [1.0, 0.97, 0.10], 0.95) == State([true, false, true], {0, 1}, 1)
  {
    var keep := [true, true, true];
    assert Init(3).keep == keep;
    ScenarioSimilarA();
    assert [1][..0] == [];
    assert Mark(State(keep, {}, 0), [1]) == State([true, false, true], {1}, 1);
  }

  /** Row C's visit in the three-image scenario: nothing in its list reaches the threshold. */
  lemma ScenarioVisitC()
    ensures Step(State([true, false, true], {0, 1}, 1), 2, [2, 0, 1], [1.0, 0.10, 0.10], 0.95)
            == State([true, false, true], {0, 1, 2}, 1)
  {
    var keep := [true, false, true];
    assert Similar(keep, 2, [2, 0, 1], [1.0, 0.10, 0.10], 0.95, 1) == [];
    assert Similar(keep, 2, [2, 0, 1], [1.0, 0.10, 0.10], 0.95, 2) == [];
    assert Similar(keep, 2, [2, 0, 1], [1.0, 0.10, 0.10], 0.95, 3) == [];
  }

  /** Three rows A, B, C with sim(A,B) = 0.97 and the others 0.10, threshold 0.95: B goes, A and C stay. */
  lemma ThreeImageScenario(I: seq<seq<int>>, D: seq<seq<real>>)
    requires I == [[0, 1, 2], [1, 0, 2], [2, 0, 1]]
    requires D == [[1.0, 0.97, 0.10], [1.0, 0.97, 0.10], [1.0, 0.10, 0.10]]
    ensures Final(I, D, 0.95).keep == [true, false, true]
    ensures Final(I, D, 0.95).removed == 1
  {
    ScenarioVisitA();
    assert Run(I, D, 0.95, 1) == State([true, false, true], {0, 1}, 1);
    assert Run(I, D, 0.95, 2) == State([true, false, true], {0, 1}, 1);
    ScenarioVisitC();
  }

  /** Row 0's visit with truncated lists: it removes row 2. */
  lemma TruncatedVisit0()
    ensures Step(Init(3), 0, [0, 2], [1.0, 0.995], 0.95) == State([true, true, false], {0, 2}, 1)
  {
    var keep := [true, true, true];
    assert Init(3).keep == keep;
    assert Similar(keep, 0, [0, 2], [1.0, 0.995], 0.95, 1) == [];
    assert Similar(keep, 0, [0, 2], [1.0, 0.995], 0.95, 2) == [2];
    assert [2][..0] == [];
    assert Mark(State(keep, {}, 0), [2]) == State([true, true, false], {2}, 1);
  }

  /** Row 1's visit with truncated lists: it removes row 0, which survived its own visit. */
  lemma TruncatedVisit1()
    ensures Step(State([true, true, false], {0, 2}, 1), 1, [1, 0], [1.0, 0.99], 0.95)
            == State([false, true, false], {0, 1, 2}, 2)
  {
    var keep := [true, true, false];
    assert Similar(keep, 1, [1, 0], [1.0, 0.99], 0.95, 1) == [];
    assert Similar(keep, 1, [1, 0], [1.0, 0.99], 0.95, 2) == [0];
    assert [0][..0] == [];
    assert Mark(State(keep, {0, 2}, 1), [0]) == State([false, true, false], {0, 2}, 2);
  }

  /**
   * With lists cut short (two neighbours for three rows, standing for the
   * 100-neighbour cap on a larger catalog) a later row can remove an
   * earlier survivor: row 0 removes row 2, then row 1 removes row 0.
   */
  lemma TruncatedListsLetLaterRowWin(I: seq<seq<int>>, D: seq<seq<real>>)
    requires I == [[0, 2], [1, 0], [2, 0]]
    requires D == [[1.0, 0.995], [1.0, 0.99], [1.0, 0.995]]
    ensures Final(I, D, 0.95).keep == [false, true, false]
  {
    TruncatedVisit0();
    assert Run(I, D, 0.95, 1) == State([true, true, false], {0, 2}, 1);
    TruncatedVisit1();
    assert Run(I, D, 0.95, 2) == State([false, true, false], {0, 1, 2}, 2);
  }
}
