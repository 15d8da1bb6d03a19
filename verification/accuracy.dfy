/**
  Model of the prediction bookkeeping in
  src/dlutils/MedGemma/compute_accuracy.py: `compute_accuracy` and the
  index partition and mistake tally of `analyze_errors`.

  Predictions and references are integer class labels; a prediction of
  -1 marks a model output that could not be parsed into a class.
*/
module Accuracy {
  import opened Results

  /** The prediction label that marks an invalid (unparseable) output. */
  const InvalidLabel: int := -1

  /** The dictionary returned by `compute_accuracy`. */
  datatype Metrics = Metrics(accuracy: real, valid: nat, total: nat, correct: nat)

  /** `compute_accuracy` raises `IndexError` when a valid prediction has no reference. */
  datatype AccuracyError = ReferenceIndexError

  predicate StrictlyIncreasing(s: seq<nat>) {
    forall j, k :: 0 <= j < k < |s| ==> s[j] < s[k]
  }

  /** The entries of a sequence of indices, as a set. */
  function Elems(s: seq<nat>): set<nat> {
    set i | i in s
  }

  /** The indices of valid predictions, as a set. */
  function ValidSet(preds: seq<int>): set<nat> {
    set i: nat | i < |preds| && preds[i] != InvalidLabel
  }

  /** The indices of valid predictions that equal their reference, as a set. */
  function CorrectSet(preds: seq<int>, refs: seq<int>): set<nat> {
    set i: nat | i < |preds| && i < |refs| && preds[i] != InvalidLabel && preds[i] == refs[i]
  }

  /** `[i for i, pred in enumerate(predictions) if pred != -1]`, from index `from` on. */
  function ValidFrom(preds: seq<int>, from: nat): (idx: seq<nat>)
    requires from <= |preds|
    ensures |idx| <= |preds| - from
    ensures StrictlyIncreasing(idx)
    ensures forall k :: 0 <= k < |idx| ==> from <= idx[k] < |preds| && preds[idx[k]] != InvalidLabel
    ensures forall i :: from <= i < |preds| && preds[i] != InvalidLabel ==> i in idx
    decreases |preds| - from
  {
    if from == |preds| then []
    else if preds[from] != InvalidLabel then [from] + ValidFrom(preds, from + 1)
    else ValidFrom(preds, from + 1)
  }

  function ValidIndices(preds: seq<int>): seq<nat> {
    ValidFrom(preds, 0)
  }

  /** `[xs[i] for i in idx]`. */
  function Gather(xs: seq<int>, idx: seq<nat>): (r: seq<int>)
    requires forall k :: 0 <= k < |idx| ==> idx[k] < |xs|
    ensures |r| == |idx|
    ensures forall k :: 0 <= k < |idx| ==> r[k] == xs[idx[k]]
  {
    seq(|idx|, k requires 0 <= k < |idx| => xs[idx[k]])
  }

  /** `sum(1 for p, r in zip(xs, ys) if p == r)`. */
  function CountEqualPairs(xs: seq<int>, ys: seq<int>): nat {
    if |xs| == 0 || |ys| == 0 then 0
    else (if xs[0] == ys[0] then 1 else 0) + CountEqualPairs(xs[1..], ys[1..])
  }

  /** `compute_accuracy(predictions, references)`. */
  function ComputeAccuracy(preds: seq<int>, refs: seq<int>): (r: Result<Metrics, AccuracyError>)
    ensures r.Failure? <==> exists i :: 0 <= i < |preds| && preds[i] != InvalidLabel && i >= |refs|
    ensures r.Success? ==>
      && r.value.total == |preds|
      && r.value.valid == |ValidSet(preds)|
      && r.value.correct == |CorrectSet(preds, refs)|
      && r.value.correct <= r.value.valid <= r.value.total
    ensures r.Success? && r.value.valid == 0 ==> r.value.accuracy == 0.0 && r.value.correct == 0
    ensures r.Success? && r.value.valid > 0 ==>
      && r.value.accuracy == r.value.correct as real / r.value.valid as real
      && 0.0 <= r.value.accuracy <= 1.0
  {
    var valid := ValidIndices(preds);
    if |valid| == 0 then
      NoValidCase(preds, refs);
      Success(Metrics(0.0, 0, |preds|, 0))
    else if valid[|valid| - 1] >= |refs| then
      MissingReferenceCase(preds, refs);
      Failure(ReferenceIndexError)
    else
      AllReferencedCase(preds, refs);
      var vp := Gather(preds, valid);
      var vr := Gather(refs, valid);
      var correct := CountEqualPairs(vp, vr);
      RatioInUnitInterval(correct, |vp|);
      Success(Metrics(correct as real / |vp| as real, |vp|, |preds|, correct))
  }

  /** Without valid predictions nothing is valid or correct and no reference is missing. */
  lemma NoValidCase(preds: seq<int>, refs: seq<int>)
    requires |ValidIndices(preds)| == 0
    ensures |ValidSet(preds)| == 0 && |CorrectSet(preds, refs)| == 0
    ensures !exists i :: 0 <= i < |preds| && preds[i] != InvalidLabel && i >= |refs|
  {
    ValidIndicesCount(preds);
    CorrectWithinValid(preds, refs);
  }

  /** When the last valid index has no reference, some valid index lacks one. */
  lemma MissingReferenceCase(preds: seq<int>, refs: seq<int>)
    requires var valid := ValidIndices(preds); |valid| > 0 && valid[|valid| - 1] >= |refs|
    ensures exists i :: 0 <= i < |preds| && preds[i] != InvalidLabel && i >= |refs|
  {
    MissingReference(preds, refs);
  }

  /** When every valid index has a reference, the counts are those of the index sets. */
  lemma AllReferencedCase(preds: seq<int>, refs: seq<int>)
    requires var valid := ValidIndices(preds); |valid| > 0 && valid[|valid| - 1] < |refs|
    ensures var valid := ValidIndices(preds);
      && (forall k :: 0 <= k < |valid| ==> valid[k] < |refs|)
      && CountEqualPairs(Gather(preds, valid), Gather(refs, valid)) == |CorrectSet(preds, refs)|
      && |valid| == |ValidSet(preds)|
      && |CorrectSet(preds, refs)| <= |ValidSet(preds)|
    ensures !exists i :: 0 <= i < |preds| && preds[i] != InvalidLabel && i >= |refs|
  {
    var valid := ValidIndices(preds);
    BelowLast(valid, |refs|);
    MissingReference(preds, refs);
    ValidIndicesCount(preds);
    CorrectWithinValid(preds, refs);
    CorrectCount(preds, refs, valid);
  }


  /** A strictly increasing sequence has as many distinct elements as entries. */
  lemma {:induction false} IncreasingCard(s: seq<nat>)
    requires StrictlyIncreasing(s)
    ensures |Elems(s)| == |s|
  {
    if |s| > 0 {
      var rest := s[1..];
      IncreasingCard(rest);
      assert forall k :: 0 <= k < |rest| ==> rest[k] == s[k + 1] && s[0] < rest[k];
      assert s[0] !in Elems(rest);
      assert Elems(s) == Elems(rest) + {s[0]} by {
        assert forall x :: x in s <==> x == s[0] || x in rest;
      }
      assert |Elems(rest) + {s[0]}| == |Elems(rest)| + 1;
    }
  }

  /** The list of valid indices enumerates `ValidSet` exactly once each. */
  lemma ValidIndicesCount(preds: seq<int>)
    ensures Elems(ValidIndices(preds)) == ValidSet(preds)
    ensures |ValidIndices(preds)| == |ValidSet(preds)|
  {
    IncreasingCard(ValidIndices(preds));
  }

  /** The last valid index lacks a reference exactly when some valid index does. */
  lemma MissingReference(preds: seq<int>, refs: seq<int>)
    ensures var valid := ValidIndices(preds);
      (|valid| > 0 && valid[|valid| - 1] >= |refs|)
      <==> exists i :: 0 <= i < |preds| && preds[i] != InvalidLabel && i >= |refs|
  {
    var valid := ValidIndices(preds);
    if exists i :: 0 <= i < |preds| && preds[i] != InvalidLabel && i >= |refs| {
      var i :| 0 <= i < |preds| && preds[i] != InvalidLabel && i >= |refs|;
      assert i in valid;
      var k :| 0 <= k < |valid| && valid[k] == i;
      assert k == |valid| - 1 || valid[k] < valid[|valid| - 1];
    }
  }

  /** A correct index is a valid one. */
  lemma CorrectWithinValid(preds: seq<int>, refs: seq<int>)
    ensures CorrectSet(preds, refs) <= ValidSet(preds)
    ensures |CorrectSet(preds, refs)| <= |ValidSet(preds)|
  {
    assert CorrectSet(preds, refs) <= ValidSet(preds);
    SubsetCard(CorrectSet(preds, refs), ValidSet(preds));
  }

  lemma SubsetCard(a: set<nat>, b: set<nat>)
    requires a <= b
    ensures |a| <= |b|
  {
    assert b == a + (b - a);
  }

  /** A ratio of a count to a larger positive count lies in [0, 1]. */
  lemma RatioInUnitInterval(c: nat, v: nat)
    requires 0 < v && c <= v
    ensures 0.0 <= c as real / v as real <= 1.0
  {
  }

  /** The indices of `idx` whose prediction equals its reference. */
  function MatchSet(preds: seq<int>, refs: seq<int>, idx: seq<nat>): set<nat> {
    set i | i in idx && i < |preds| && i < |refs| && preds[i] == refs[i]
  }

  /**
    Counting equal pairs of the gathered predictions and references counts
    the indices of `idx` where the prediction matches its reference.
  */
  lemma {:induction false} CountGathered(preds: seq<int>, refs: seq<int>, idx: seq<nat>)
    requires StrictlyIncreasing(idx)
    requires forall k :: 0 <= k < |idx| ==> idx[k] < |preds| && idx[k] < |refs|
    ensures CountEqualPairs(Gather(preds, idx), Gather(refs, idx)) == |MatchSet(preds, refs, idx)| <= |idx|
  {
    if |idx| > 0 {
      var rest := idx[1..];
      assert StrictlyIncreasing(rest);
      CountGathered(preds, refs, rest);
      var xs, ys := Gather(preds, idx), Gather(refs, idx);
      assert xs[1..] == Gather(preds, rest);
      assert ys[1..] == Gather(refs, rest);
      var later := MatchSet(preds, refs, rest);
      assert idx[0] !in later by {
        assert forall k :: 0 <= k < |rest| ==> idx[0] < rest[k];
      }
      if preds[idx[0]] == refs[idx[0]] {
        assert MatchSet(preds, refs, idx) == later + {idx[0]};
      } else {
        assert MatchSet(preds, refs, idx) == later;
      }
    }
  }

  /** Every entry of an increasing sequence is at most its last entry. */
  lemma BelowLast(s: seq<nat>, bound: nat)
    requires StrictlyIncreasing(s) && |s| > 0 && s[|s| - 1] < bound
    ensures forall k :: 0 <= k < |s| ==> s[k] < bound
  {
  }

  /** When every valid index has a reference, the matched count is |CorrectSet|. */
  lemma CorrectCount(preds: seq<int>, refs: seq<int>, valid: seq<nat>)
    requires valid == ValidIndices(preds)
    requires forall k :: 0 <= k < |valid| ==> valid[k] < |refs|
    ensures CountEqualPairs(Gather(preds, valid), Gather(refs, valid)) == |CorrectSet(preds, refs)|
  {
    CountGathered(preds, refs, valid);
    ValidIndicesCount(preds);
    assert MatchSet(preds, refs, valid) == CorrectSet(preds, refs);
  }

  /* ---------------------------------------------------------------
     analyze_errors: the index partition and the mistake tally
     --------------------------------------------------------------- */

  /** The three index lists built by the loop of `analyze_errors`. */
  datatype Split = Split(invalid: seq<nat>, correct: seq<nat>, incorrect: seq<nat>)

  /** The class label shown for a prediction in a mistake key: the label, or the text "Invalid". */
  datatype PredictedClass = Class(value: int) | InvalidClass

  /** A mistake key `f"{true_class} → {pred_class}"`, kept as the pair it is rendered from. */
  datatype MistakeKey = Mistake(trueClass: int, predicted: PredictedClass)

  /** What the model keeps of the dictionary `analyze_errors` returns. */
  datatype ErrorReport = ErrorReport(split: Split, mistakes: map<MistakeKey, nat>)

  /** Index i lands in the invalid list. */
  predicate IsInvalid(preds: seq<int>, i: nat)
    requires i < |preds|
  {
    preds[i] == InvalidLabel
  }

  /** Index i lands in the correct list. */
  predicate IsCorrect(preds: seq<int>, refs: seq<int>, i: nat)
    requires i < |preds| && i < |refs|
  {
    preds[i] != InvalidLabel && preds[i] == refs[i]
  }

  /** Index i lands in the incorrect list. */
  predicate IsIncorrect(preds: seq<int>, refs: seq<int>, i: nat)
    requires i < |preds| && i < |refs|
  {
    preds[i] != InvalidLabel && preds[i] != refs[i]
  }

  /** Every entry of `s` is below n. */
  predicate Below(s: seq<nat>, n: nat) {
    forall k :: 0 <= k < |s| ==> s[k] < n
  }

  /** The loop over `enumerate(zip(predictions, references))`, run for its first n steps. */
  function SplitPrefix(preds: seq<int>, refs: seq<int>, n: nat): (sp: Split)
    requires n <= |preds| && n <= |refs|
    ensures StrictlyIncreasing(sp.invalid) && StrictlyIncreasing(sp.correct) && StrictlyIncreasing(sp.incorrect)
    ensures Below(sp.invalid, n) && Below(sp.correct, n) && Below(sp.incorrect, n)
    ensures forall i :: 0 <= i < n ==> (i in sp.invalid <==> IsInvalid(preds, i))
    ensures forall i :: 0 <= i < n ==> (i in sp.correct <==> IsCorrect(preds, refs, i))
    ensures forall i :: 0 <= i < n ==> (i in sp.incorrect <==> IsIncorrect(preds, refs, i))
    ensures |sp.invalid| + |sp.correct| + |sp.incorrect| == n
  {
    if n == 0 then Split([], [], [])
    else
      var sp := SplitPrefix(preds, refs, n - 1);
      var i := n - 1;
      if preds[i] == InvalidLabel then sp.(invalid := sp.invalid + [i])
      else if preds[i] == refs[i] then sp.(correct := sp.correct + [i])
      else sp.(incorrect := sp.incorrect + [i])
  }

  /** `zip` stops at the shorter list. */
  function ZipLength(preds: seq<int>, refs: seq<int>): nat {
    if |preds| <= |refs| then |preds| else |refs|
  }

  function SplitAll(preds: seq<int>, refs: seq<int>): Split {
    SplitPrefix(preds, refs, ZipLength(preds, refs))
  }

  /** Python's stop bound for `xs[:stop]` on a list of length n, negative stops included. */
  function SliceStop(n: nat, stop: int): (r: nat)
    ensures r <= n
    ensures stop >= 0 ==> r == if stop <= n then stop else n
    ensures stop < 0 ==> r + (if -stop <= n then -stop else n) == n
  {
    if stop >= 0 then (if stop <= n then stop else n)
    else if n + stop >= 0 then n + stop else 0
  }

  /** The key built for a mistaken index: the reference, and the prediction or "Invalid". */
  function KeyOf(preds: seq<int>, refs: seq<int>, i: nat): MistakeKey
    requires i < |preds| && i < |refs|
  {
    Mistake(refs[i], if preds[i] != InvalidLabel then Class(preds[i]) else InvalidClass)
  }

  function KeysOf(preds: seq<int>, refs: seq<int>, idx: seq<nat>): (keys: seq<MistakeKey>)
    requires forall k :: 0 <= k < |idx| ==> idx[k] < |preds| && idx[k] < |refs|
    ensures |keys| == |idx|
    ensures forall k :: 0 <= k < |idx| ==> keys[k] == KeyOf(preds, refs, idx[k])
  {
    seq(|idx|, k requires 0 <= k < |idx| => KeyOf(preds, refs, idx[k]))
  }

  /** `mistake_count[m] = mistake_count.get(m, 0) + 1` for each key in turn: the count of each key. */
  function Tally(keys: seq<MistakeKey>): (m: map<MistakeKey, nat>)
    ensures forall key :: key in m <==> key in keys
    ensures forall key :: key in m ==> m[key] == multiset(keys)[key]
  {
    if |keys| == 0 then map[]
    else
      var last := keys[|keys| - 1];
      var m := Tally(keys[..|keys| - 1]);
      assert keys == keys[..|keys| - 1] + [last];
      m[last := (if last in m then m[last] else 0) + 1]
  }

  /** The sum of the counts of a tally. */
  ghost function MapSum<K>(m: map<K, nat>): nat
    decreases |m|
  {
    if |m| == 0 then 0
    else
      var k :| k in m;
      m[k] + MapSum(m - {k})
  }

  /** The sum does not depend on which key is taken out first. */
  lemma {:induction false} MapSumRemove<K>(m: map<K, nat>, k: K)
    requires k in m
    ensures MapSum(m) == m[k] + MapSum(m - {k})
    decreases |m|, 1
  {
    var j :| j in m && MapSum(m) == m[j] + MapSum(m - {j});
    if j != k {
      MapSumSwap(m, j, k);
    }
  }

  /** Taking out j first or k first leaves the same sum. */
  lemma {:induction false} MapSumSwap<K>(m: map<K, nat>, j: K, k: K)
    requires j in m && k in m && j != k
    ensures m[j] + MapSum(m - {j}) == m[k] + MapSum(m - {k})
    decreases |m|, 0
  {
    var mj, mk := m - {j}, m - {k};
    assert |mj| == |m| - 1 && |mk| == |m| - 1;
    MapSumRemove(mj, k);
    MapSumRemove(mk, j);
    assert mj - {k} == mk - {j};
  }

  /** Counting one more occurrence of a key raises the sum by one. */
  lemma MapSumBump<K>(m: map<K, nat>, k: K)
    ensures MapSum(m[k := (if k in m then m[k] else 0) + 1]) == MapSum(m) + 1
  {
    var m' := m[k := (if k in m then m[k] else 0) + 1];
    MapSumRemove(m', k);
    assert m' - {k} == m - {k};
    if k in m {
      MapSumRemove(m, k);
    } else {
      assert m - {k} == m;
    }
  }

  /** Tallying one more key bumps that key's count and leaves the others. */
  lemma TallyStep(keys: seq<MistakeKey>)
    requires |keys| > 0
    ensures var m := Tally(keys[..|keys| - 1]);
      var last := keys[|keys| - 1];
      Tally(keys) == m[last := (if last in m then m[last] else 0) + 1]
  {
  }

  /** `MapSumBump` for a map already known to sum to n. */
  lemma MapSumBumpTo<K>(m: map<K, nat>, k: K, m': map<K, nat>, n: nat)
    requires MapSum(m) == n && m' == m[k := (if k in m then m[k] else 0) + 1]
    ensures MapSum(m') == n + 1
  {
    MapSumBump(m, k);
  }

  /** The counts of a tally add up to the number of keys tallied. */
  lemma {:induction false} TallySum(keys: seq<MistakeKey>)
    ensures MapSum(Tally(keys)) == |keys|
  {
    if |keys| > 0 {
      var last := keys[|keys| - 1];
      var init := keys[..|keys| - 1];
      TallySum(init);
      TallyStep(keys);
      MapSumBumpTo(Tally(init), last, Tally(keys), |init|);
    }
  }

  /** The incorrect indices whose mistakes are tallied: `incorrect_predictions[:max_mistakes]`. */
  function Shown(sp: Split, maxMistakes: int): seq<nat> {
    sp.incorrect[..SliceStop(|sp.incorrect|, maxMistakes)]
  }

  /**
    Lines 25-51 of `analyze_errors(predictions, references,
    max_mistakes=maxMistakes)`, without their printing; the full call
    returns these values only when the two lists have equal length, since
    its later `DataFrame` rejects unequal ones.  The three lists partition the zipped indices,
    the tally counts exactly the shown mistakes, and no key ever carries
    the "Invalid" label, because an incorrect index always has a real
    prediction that differs from its reference.
  */
  function AnalyzeErrors(preds: seq<int>, refs: seq<int>, maxMistakes: int): (r: ErrorReport)
    ensures var n := ZipLength(preds, refs);
      && StrictlyIncreasing(r.split.invalid) && StrictlyIncreasing(r.split.correct) && StrictlyIncreasing(r.split.incorrect)
      && Below(r.split.invalid, n) && Below(r.split.correct, n) && Below(r.split.incorrect, n)
      && (forall i :: 0 <= i < n ==> (i in r.split.invalid <==> IsInvalid(preds, i)))
      && (forall i :: 0 <= i < n ==> (i in r.split.correct <==> IsCorrect(preds, refs, i)))
      && (forall i :: 0 <= i < n ==> (i in r.split.incorrect <==> IsIncorrect(preds, refs, i)))
      && |r.split.invalid| + |r.split.correct| + |r.split.incorrect| == n
    ensures forall key :: key in r.mistakes ==> key.predicted.Class? && key.predicted.value != key.trueClass
    ensures forall key :: key in r.mistakes <==>
      exists i :: i in Shown(r.split, maxMistakes) && i < ZipLength(preds, refs) && key == Mistake(refs[i], Class(preds[i]))
    ensures MapSum(r.mistakes) == SliceStop(|r.split.incorrect|, maxMistakes)
    ensures maxMistakes >= 0 ==> MapSum(r.mistakes) == if maxMistakes <= |r.split.incorrect| then maxMistakes else |r.split.incorrect|
  {
    var sp := SplitAll(preds, refs);
    var shown := Shown(sp, maxMistakes);
    var keys := KeysOf(preds, refs, shown);
    TallySum(keys);
    ShownKeys(preds, refs, maxMistakes);
    ErrorReport(sp, Tally(keys))
  }

  /** The keys of the shown mistakes are the pairs (reference, real prediction) of shown indices. */
  lemma ShownKeys(preds: seq<int>, refs: seq<int>, maxMistakes: int)
    ensures var sp := SplitAll(preds, refs);
      var shown := Shown(sp, maxMistakes);
      && (forall k :: 0 <= k < |shown| ==> shown[k] < |preds| && shown[k] < |refs|)
      && forall key :: key in KeysOf(preds, refs, shown) <==>
           exists i :: i in shown && i < ZipLength(preds, refs) && key == Mistake(refs[i], Class(preds[i]))
    ensures forall key :: key in KeysOf(preds, refs, Shown(SplitAll(preds, refs), maxMistakes)) ==>
      key.predicted.Class? && key.predicted.value != key.trueClass
  {
    var sp := SplitAll(preds, refs);
    var shown := Shown(sp, maxMistakes);
    var n := ZipLength(preds, refs);
    assert forall k :: 0 <= k < |shown| ==> shown[k] in sp.incorrect;
    assert forall i :: i in shown ==> i in sp.incorrect && i < n && IsIncorrect(preds, refs, i);
    var keys := KeysOf(preds, refs, shown);
    forall key | key in keys
      ensures exists i :: i in shown && i < ZipLength(preds, refs) && key == Mistake(refs[i], Class(preds[i]))
    {
      var k :| 0 <= k < |keys| && keys[k] == key;
      assert shown[k] in shown;
    }
    forall key | exists i :: i in shown && i < ZipLength(preds, refs) && key == Mistake(refs[i], Class(preds[i]))
      ensures key in keys
    {
      var i :| i in shown && i < ZipLength(preds, refs) && key == Mistake(refs[i], Class(preds[i]));
      var k :| 0 <= k < |shown| && shown[k] == i;
      assert keys[k] == key;
    }
  }

  /**
    The invalid, correct and incorrect lists are pairwise disjoint and
    together hold exactly the indices `zip` visits.
  */
  lemma SplitIsPartition(preds: seq<int>, refs: seq<int>)
    ensures var sp, n := SplitAll(preds, refs), ZipLength(preds, refs);
      && Elems(sp.invalid) !! Elems(sp.correct)
      && Elems(sp.invalid) !! Elems(sp.incorrect)
      && Elems(sp.correct) !! Elems(sp.incorrect)
      && forall i: nat :: i in Elems(sp.invalid) + Elems(sp.correct) + Elems(sp.incorrect) <==> i < n
  {
    var sp, n := SplitAll(preds, refs), ZipLength(preds, refs);
    assert forall i :: i in Elems(sp.invalid) ==> i < n && IsInvalid(preds, i);
    assert forall i :: i in Elems(sp.correct) ==> i < n && IsCorrect(preds, refs, i);
    assert forall i :: i in Elems(sp.incorrect) ==> i < n && IsIncorrect(preds, refs, i);
    forall i: nat | i < n
      ensures i in Elems(sp.invalid) + Elems(sp.correct) + Elems(sp.incorrect)
    {
      if IsInvalid(preds, i) {
        assert i in sp.invalid;
      } else if IsCorrect(preds, refs, i) {
        assert i in sp.correct;
      } else {
        assert i in sp.incorrect;
      }
    }
  }

  /**
    On lists of equal length the two functions agree: the valid count of
    `compute_accuracy` is the number of correct plus incorrect indices of
    `analyze_errors`, and its correct count is the number of correct ones.
  */
  lemma AccuracyAgreesWithSplit(preds: seq<int>, refs: seq<int>)
    requires |preds| == |refs|
    ensures ComputeAccuracy(preds, refs).Success?
    ensures var m, sp := ComputeAccuracy(preds, refs).value, SplitAll(preds, refs);
      && m.valid == |sp.correct| + |sp.incorrect|
      && m.correct == |sp.correct|
      && m.total - m.valid == |sp.invalid|
  {
    var sp := SplitAll(preds, refs);
    SplitIsPartition(preds, refs);
    IncreasingCard(sp.correct);
    IncreasingCard(sp.incorrect);
    assert Elems(sp.correct) == CorrectSet(preds, refs);
    assert ValidSet(preds) == Elems(sp.correct) + Elems(sp.incorrect) by {
      forall i | i in ValidSet(preds)
        ensures i in Elems(sp.correct) + Elems(sp.incorrect)
      {
        assert i !in Elems(sp.invalid);
      }
    }
  }
}
