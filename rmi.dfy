/**
 * The two-layer recursive model index (RMI) of include/elsar/internal/rmi.h:
 * a root linear model that routes a key to one of `num_leaf_models` leaf
 * linear models, each of which predicts the key's position in the CDF.
 *
 * Doubles are modelled as reals (no rounding); a C++ cast of a double to an
 * integer is `Trunc`; `converted_t` differences are unsigned and wrap modulo
 * 2^64 (`USub`). A division by a zero key difference, which yields an IEEE
 * infinity or NaN in the source, is modelled by `Ratio` as slope 0.
 */
module Rmi {
  import opened Globals
  import opened Embeddings
  import opened Sorting
  import opened CppArith

  // ------------------------------------------------------------------
  // Hyperparameters
  // ------------------------------------------------------------------

  const DEFAULT_FANOUT: int := 1000
  const DEFAULT_SAMPLING_RATE: real := 0.1
  const DEFAULT_THRESHOLD: int := 100
  const DEFAULT_NUM_LEAF_MODELS: int := 1000
  const MIN_SORTING_SIZE: int := 10000

  /** `TwoLayerRMI::Params`. */
  datatype Params = Params(fanout: int, samplingRate: real, threshold: int, numLeafModels: int)

  /** `Params()`. */
  function DefaultParams(): (p: Params)
    ensures p.fanout == 1000 && p.samplingRate == 0.1 && p.threshold == 100 && p.numLeafModels == 1000
    ensures 0.0 < p.samplingRate <= 1.0 && p.fanout >= 1 && p.threshold > 0 && p.numLeafModels >= 1
  {
    Params(DEFAULT_FANOUT, DEFAULT_SAMPLING_RATE, DEFAULT_THRESHOLD, DEFAULT_NUM_LEAF_MODELS)
  }

  /** `Params(sampling_rate, fanout, threshold)`: the leaf count stays the default. */
  function CustomParams(samplingRate: real, fanout: int, threshold: int): (p: Params)
    ensures p.numLeafModels == DefaultParams().numLeafModels
    ensures p.samplingRate == samplingRate && p.fanout == fanout && p.threshold == threshold
  {
    Params(fanout, samplingRate, threshold, DEFAULT_NUM_LEAF_MODELS)
  }

  // ------------------------------------------------------------------
  // Models and training points
  // ------------------------------------------------------------------

  /** `linear_model`; both terms default to 0. */
  datatype LinearModel = LinearModel(slope: real, intercept: real)
  {
    function Eval(x: int): real
    {
      slope * x as real + intercept
    }
  }

  const ZERO_MODEL: LinearModel := LinearModel(0.0, 0.0)

  /** `training_point<Embedding>`: a key and its scaled CDF value. */
  datatype TrainingPoint = TrainingPoint(x: EmbeddingValue, y: real)
  {
    function Key(): u64 { x.convertedKey }
  }

  /** A default-constructed point with key 0 and y 0 (the fictive point of case 1). */
  const FICTIVE_POINT: TrainingPoint := TrainingPoint(EMPTY_EMBEDDING, 0.0)

  // ------------------------------------------------------------------
  // Parameter validation
  // ------------------------------------------------------------------

  /**
   * The threshold test divides `INPUT_SZ` by the (already validated)
   * fanout; the division is reached only when the first two tests pass.
   */
  predicate ThresholdDefined(t: int, inputSz: int, fanout: int)
  {
    fanout == 0 ==> !(0 < t < inputSz)
  }

  predicate ThresholdAccepted(t: int, inputSz: int, fanout: int)
    requires ThresholdDefined(t, inputSz, fanout)
  {
    0 < t && t < inputSz && t < CDiv(inputSz, fanout)
  }

  /** The validation at the start of `train` does not divide by zero. */
  predicate SanitizeDefined(p: Params, inputSz: int)
  {
    inputSz >= 1 && ThresholdDefined(p.threshold, inputSz, p.fanout)
  }

  /**
   * The validation of `train`: an invalid fanout, sampling rate or threshold
   * is replaced by its default, in that order, and the threshold is validated
   * against the fanout just validated.
   */
  function Sanitize(p: Params, inputSz: int): (q: Params)
    requires SanitizeDefined(p, inputSz)
    ensures q.numLeafModels == p.numLeafModels
    ensures p.fanout < inputSz ==> q.fanout == p.fanout
    ensures p.fanout >= inputSz ==> q.fanout == DEFAULT_FANOUT
    ensures 0.0 < p.samplingRate <= 1.0 ==> q.samplingRate == p.samplingRate
    ensures !(0.0 < p.samplingRate <= 1.0) ==> q.samplingRate == DEFAULT_SAMPLING_RATE
    ensures ThresholdDefined(p.threshold, inputSz, q.fanout)
    ensures ThresholdAccepted(p.threshold, inputSz, q.fanout) ==> q.threshold == p.threshold
    ensures !ThresholdAccepted(p.threshold, inputSz, q.fanout) ==> q.threshold == DEFAULT_THRESHOLD
    ensures 0.0 < q.samplingRate <= 1.0 && q.threshold > 0
  {
    var fanout := if p.fanout >= inputSz then DEFAULT_FANOUT else p.fanout;
    var rate := if p.samplingRate <= 0.0 || p.samplingRate > 1.0 then DEFAULT_SAMPLING_RATE else p.samplingRate;
    var threshold :=
      if p.threshold <= 0 || p.threshold >= inputSz || p.threshold >= CDiv(inputSz, fanout)
      then DEFAULT_THRESHOLD else p.threshold;
    Params(fanout, rate, threshold, p.numLeafModels)
  }

  /** The three tests at the start of `train`, applied in order. */
  method ValidateParams(p: Params, inputSz: int) returns (q: Params)
    requires SanitizeDefined(p, inputSz)
    ensures q == Sanitize(p, inputSz)
  {
    q := p;
    if q.fanout >= inputSz {
      q := q.(fanout := DEFAULT_FANOUT);
    }
    if q.samplingRate <= 0.0 || q.samplingRate > 1.0 {
      q := q.(samplingRate := DEFAULT_SAMPLING_RATE);
    }
    if q.threshold <= 0 || q.threshold >= inputSz || q.threshold >= CDiv(inputSz, q.fanout) {
      q := q.(threshold := DEFAULT_THRESHOLD);
    }
  }

  /** Validating twice changes nothing more than validating once. */
  lemma {:induction false} SanitizeIdempotent(p: Params, inputSz: int)
    requires SanitizeDefined(p, inputSz) && p.fanout != 0
    ensures SanitizeDefined(Sanitize(p, inputSz), inputSz)
    ensures Sanitize(Sanitize(p, inputSz), inputSz) == Sanitize(p, inputSz)
  {
  }

  /** The default hyperparameters pass validation unchanged, whatever the input size. */
  lemma {:induction false} DefaultsAreSanitized(inputSz: int)
    requires inputSz >= 1
    ensures SanitizeDefined(DefaultParams(), inputSz)
    ensures Sanitize(DefaultParams(), inputSz) == DefaultParams()
  {
  }

  // ------------------------------------------------------------------
  // Sampling
  // ------------------------------------------------------------------

  /** `SAMPLE_SZ`: the sampled fraction, at least MIN_SORTING_SIZE, at most the input. */
  function SampleSize(inputSz: int, rate: real): (s: int)
    requires inputSz >= 1 && 0.0 < rate <= 1.0
    ensures 1 <= s <= inputSz
    ensures s >= Trunc(rate * inputSz as real)
    ensures s == inputSz || s >= MIN_SORTING_SIZE
    ensures inputSz <= MIN_SORTING_SIZE ==> s == inputSz
  {
    var t := Trunc(rate * inputSz as real);
    FractionAtMostWhole(rate, inputSz);
    assert 0 <= t <= inputSz;
    Min(inputSz, Max(t, MIN_SORTING_SIZE))
  }


  /** `offset`: the stride of the sampling loop, the floor of INPUT_SZ / SAMPLE_SZ. */
  function StrideOffset(inputSz: int, sampleSz: int): (o: int)
    requires 1 <= sampleSz <= inputSz
    ensures o >= 1
    ensures o * sampleSz <= inputSz < (o + 1) * sampleSz
  {
    inputSz / sampleSz
  }

  /** The elements at positions 0, offset, 2*offset, ... of the input. */
  function Strided(input: seq<EmbeddingValue>, offset: nat): (sample: seq<EmbeddingValue>)
    requires offset >= 1
    ensures input != [] ==> |sample| >= 1 && sample[0] == input[0]
    decreases |input|
  {
    if input == [] then [] else [input[0]] + Strided(input[Min(offset, |input|)..], offset)
  }

  /** The sample has one element per stride that starts inside the input. */
  lemma {:induction false} StridedLength(input: seq<EmbeddingValue>, offset: nat)
    requires offset >= 1
    ensures var m := |Strided(input, offset)|;
      |input| <= m * offset && (m == 0 || (m - 1) * offset < |input|)
    decreases |input|
  {
    if input != [] {
      var rest := input[Min(offset, |input|)..];
      StridedLength(rest, offset);
      var m := |Strided(rest, offset)|;
      assert |Strided(input, offset)| == m + 1;
      if offset >= |input| {
        assert rest == [];
      } else {
        StrideCount(|input|, offset, m, m + 1);
      }
    }
  }

  /** One more stride covers offset more elements. */
  lemma {:induction false} StrideCount(n: int, offset: int, m: int, next: int)
    requires offset >= 1 && offset < n && next == m + 1
    requires n - offset <= m * offset && (m == 0 || (m - 1) * offset < n - offset)
    ensures n <= next * offset && (next - 1) * offset < n
  {
    assert next * offset == m * offset + offset;
    assert (next - 1) * offset == m * offset;
    if m > 0 {
      assert m * offset == (m - 1) * offset + offset;
    }
  }

  /** The k-th sampled element is the input element at k * offset. */
  lemma {:induction false} StridedAt(input: seq<EmbeddingValue>, offset: nat, k: nat)
    requires offset >= 1 && k < |Strided(input, offset)|
    ensures k * offset < |input| && Strided(input, offset)[k] == input[k * offset]
    decreases k
  {
    if k > 0 {
      var rest := input[Min(offset, |input|)..];
      var j := k - 1;
      assert Strided(input, offset) == [input[0]] + Strided(rest, offset);
      StridedAt(rest, offset, j);
      MulPred(k, offset);
    }
  }

  /** Every sampled element is the input element at its index times offset. */
  lemma {:induction false} StridedElements(input: seq<EmbeddingValue>, offset: nat)
    requires offset >= 1
    ensures var r := Strided(input, offset);
      forall k :: 0 <= k < |r| ==> k * offset < |input| && r[k] == input[k * offset]
  {
    forall k | 0 <= k < |Strided(input, offset)|
      ensures k * offset < |input| && Strided(input, offset)[k] == input[k * offset]
    {
      StridedAt(input, offset, k);
    }
  }

  /** The strided sample holds at least SAMPLE_SZ elements. */
  lemma {:induction false} StridedCoversSample(input: seq<EmbeddingValue>, sampleSz: int)
    requires 1 <= sampleSz <= |input|
    ensures |Strided(input, StrideOffset(|input|, sampleSz))| >= sampleSz
  {
    var o := StrideOffset(|input|, sampleSz);
    var r := Strided(input, o);
    StridedLength(input, o);
    MulStep(|r|, sampleSz, o);
    assert sampleSz * o == o * sampleSz;
  }

  /** Every sampled element is an input element. */
  lemma {:induction false} StridedIsSubset(input: seq<EmbeddingValue>, offset: nat)
    requires offset >= 1
    ensures forall e | e in Strided(input, offset) :: e in input
  {
    StridedElements(input, offset);
  }

  /** The sample of a suffix starting inside the input: its first element, then the sample one stride on. */
  lemma {:induction false} StridedFrom(input: seq<EmbeddingValue>, i: nat, offset: nat)
    requires offset >= 1 && i < |input|
    ensures Strided(input[i..], offset) == [input[i]] + Strided(input[Min(i + offset, |input|)..], offset)
  {
    assert input[i..][Min(offset, |input| - i)..] == input[Min(i + offset, |input|)..];
  }

  /** The sampling loop: `push_back(*i)` for i = begin, begin + offset, ... < end. */
  method StridedSample(input: seq<EmbeddingValue>, offset: nat) returns (picks: seq<EmbeddingValue>)
    requires offset >= 1
    ensures picks == Strided(input, offset)
  {
    picks := [];
    var i := 0;
    ghost var rest := input;
    while i < |input|
      invariant rest == input[Min(i, |input|)..]
      invariant picks + Strided(rest, offset) == Strided(input, offset)
      decreases |input| - i
    {
      StridedFrom(input, i, offset);
      ghost var next := input[Min(i + offset, |input|)..];
      assert picks + Strided(rest, offset) == (picks + [input[i]]) + Strided(next, offset);
      picks, rest := picks + [input[i]], next;
      i := i + offset;
    }
    assert rest == [];
  }

  /**
   * `training_sample` after `train`: the earlier contents and the strided
   * sample of the input, sorted by key.
   */
  function TrainingSample(buf: seq<byte>, prior: seq<EmbeddingValue>, input: seq<EmbeddingValue>, rate: real): (r: seq<EmbeddingValue>)
    requires |input| >= 1 && 0.0 < rate <= 1.0
    requires AllKeysInBuffer(buf, prior) && AllKeysInBuffer(buf, input)
    ensures AllKeysInBuffer(buf, r) && SortedByKey(buf, r)
    ensures multiset(r) == multiset(prior) + multiset(Strided(input, StrideOffset(|input|, SampleSize(|input|, rate))))
    ensures |r| >= |prior| + SampleSize(|input|, rate)
  {
    var s := SampleSize(|input|, rate);
    var o := StrideOffset(|input|, s);
    StridedIsSubset(input, o);
    StridedCoversSample(input, s);
    SortByKeySorted(buf, prior + Strided(input, o));
    SortByKeyPermutes(buf, prior + Strided(input, o));
    SortByKey(buf, prior + Strided(input, o))
  }

  // ------------------------------------------------------------------
  // The root model
  // ------------------------------------------------------------------

  /** `training_data[0][0]`: the first SAMPLE_SZ sorted keys, each paired with i / SAMPLE_SZ. */
  function RootPoints(sample: seq<EmbeddingValue>, sampleSz: nat): (r: seq<TrainingPoint>)
    requires 1 <= sampleSz <= |sample|
    ensures |r| == sampleSz
    ensures forall i :: 0 <= i < sampleSz ==> r[i].x == sample[i] && 0.0 <= r[i].y < 1.0
    ensures r[0].y == 0.0
    ensures forall i, j :: 0 <= i < j < sampleSz ==> r[i].y < r[j].y
  {
    RankBounds(sampleSz);
    seq(sampleSz, i requires 0 <= i < sampleSz => TrainingPoint(sample[i], Rank(i, sampleSz)))
  }

  /** `1. * i / SAMPLE_SZ`. */
  function Rank(i: int, sampleSz: int): (y: real)
    requires sampleSz >= 1
    ensures y * sampleSz as real == i as real
  {
    i as real / sampleSz as real
  }

  lemma {:induction false} RankBounds(sampleSz: int)
    requires sampleSz >= 1
    ensures Rank(0, sampleSz) == 0.0
    ensures forall i :: 0 <= i < sampleSz ==> 0.0 <= Rank(i, sampleSz) < 1.0
    ensures forall i, j :: 0 <= i < j < sampleSz ==> Rank(i, sampleSz) < Rank(j, sampleSz)
  {
    var s := sampleSz as real;
    forall i | 0 <= i < sampleSz ensures 0.0 <= Rank(i, sampleSz) < 1.0 {
      assert Rank(i, sampleSz) * s == i as real;
    }
    forall i, j | 0 <= i < j < sampleSz ensures Rank(i, sampleSz) < Rank(j, sampleSz) {
      RankLess(i, j, sampleSz);
    }
  }

  lemma {:induction false} RankLess(i: int, j: int, sampleSz: int)
    requires i < j && sampleSz >= 1
    ensures Rank(i, sampleSz) < Rank(j, sampleSz)
  {
    var s := sampleSz as real;
    assert (Rank(j, sampleSz) - Rank(i, sampleSz)) * s == (j - i) as real;
  }

  /** The loop that populates `training_data[0][0]`. */
  method RootTrainingData(sample: seq<EmbeddingValue>, sampleSz: nat) returns (pts: seq<TrainingPoint>)
    requires 1 <= sampleSz <= |sample|
    ensures pts == RootPoints(sample, sampleSz)
  {
    pts := [];
    var i := 0;
    while i < sampleSz
      invariant 0 <= i <= sampleSz
      invariant pts == RootPoints(sample, sampleSz)[..i]
    {
      pts := pts + [TrainingPoint(sample[i], Rank(i, sampleSz))];
      i := i + 1;
    }
  }

  /**
   * The root model: the line through (min key, 0) and (max key, 1), scaled
   * to the number of leaf models. The key difference is unsigned, so the
   * slope is never negative.
   */
  function FitRoot(pts: seq<TrainingPoint>, numLeaf: int): (m: LinearModel)
    requires |pts| >= 1 && numLeaf >= 1
    ensures m.slope >= 0.0
    ensures pts[0].Key() < Last(pts).Key() ==>
      m.Eval(pts[0].Key()) == 0.0 && m.Eval(Last(pts).Key()) == (numLeaf - 1) as real
  {
    var lo, hi := pts[0].Key(), Last(pts).Key();
    var s := Ratio(1.0, USub(hi, lo));
    var b := -s * lo as real;
    var scale := (numLeaf - 1) as real;
    assert lo < hi ==> (s * scale) * hi as real + (b * scale) == scale by {
      if lo < hi {
        assert s * (hi - lo) as real == 1.0;
        calc {
          (s * scale) * hi as real + (b * scale);
          scale * (s * (hi - lo) as real);
        }
      }
    }
    LinearModel(s * scale, b * scale)
  }

  /**
   * The leaf a key is routed to: the root prediction truncated and clamped
   * to [0, numLeaf - 1]. Training (`rank`) and `predict` use the same rule.
   */
  function LeafIndex(root: LinearModel, numLeaf: int, key: int): (k: int)
    requires numLeaf >= 1
    ensures 0 <= k < numLeaf
  {
    Max(0, Min(numLeaf - 1, Trunc(root.Eval(key))))
  }

  /** With a non-negative root slope, larger keys go to the same or a later leaf. */
  lemma {:induction false} LeafIndexMonotone(root: LinearModel, numLeaf: int, k1: int, k2: int)
    requires numLeaf >= 1 && root.slope >= 0.0 && k1 <= k2
    ensures LeafIndex(root, numLeaf, k1) <= LeafIndex(root, numLeaf, k2)
  {
    assert root.slope * k1 as real <= root.slope * k2 as real by {
      assert root.slope * k2 as real - root.slope * k1 as real == root.slope * (k2 - k1) as real;
    }
    TruncMonotone(root.Eval(k1), root.Eval(k2));
  }

  // ------------------------------------------------------------------
  // Routing
  // ------------------------------------------------------------------

  /** `training_data[1][k]`: the points routed to leaf k, in input order. */
  function Bucket(pts: seq<TrainingPoint>, root: LinearModel, numLeaf: int, k: int): (b: seq<TrainingPoint>)
    requires numLeaf >= 1
    ensures |b| <= |pts|
  {
    if pts == [] then []
    else
      Bucket(pts[..|pts| - 1], root, numLeaf, k) +
      (if LeafIndex(root, numLeaf, Last(pts).Key()) == k then [Last(pts)] else [])
  }

  function Routed(pts: seq<TrainingPoint>, root: LinearModel, numLeaf: int): (r: seq<seq<TrainingPoint>>)
    requires numLeaf >= 1
    ensures |r| == numLeaf
  {
    seq(numLeaf, k requires 0 <= k < numLeaf => Bucket(pts, root, numLeaf, k))
  }

  /** A point is in leaf k's bucket exactly when it is a training point routed to k. */
  lemma {:induction false} BucketMembership(pts: seq<TrainingPoint>, root: LinearModel, numLeaf: int, k: int, p: TrainingPoint)
    requires numLeaf >= 1
    ensures p in Bucket(pts, root, numLeaf, k) <==> p in pts && LeafIndex(root, numLeaf, p.Key()) == k
  {
    if pts != [] {
      var init := pts[..|pts| - 1];
      BucketMembership(init, root, numLeaf, k, p);
      assert pts == init + [Last(pts)];
    }
  }

  /** The bucket sizes of leaves 0 .. m-1. */
  function RoutedCount(pts: seq<TrainingPoint>, root: LinearModel, numLeaf: int, m: nat): nat
    requires numLeaf >= 1
  {
    if m == 0 then 0 else RoutedCount(pts, root, numLeaf, m - 1) + |Bucket(pts, root, numLeaf, m - 1)|
  }

  lemma {:induction false} RoutedCountStep(pts: seq<TrainingPoint>, root: LinearModel, numLeaf: int, m: nat)
    requires numLeaf >= 1 && pts != []
    ensures RoutedCount(pts, root, numLeaf, m) ==
      RoutedCount(pts[..|pts| - 1], root, numLeaf, m) +
      (if LeafIndex(root, numLeaf, Last(pts).Key()) < m then 1 else 0)
  {
    if m > 0 {
      RoutedCountStep(pts, root, numLeaf, m - 1);
    }
  }

  /** Routing loses no point and duplicates none: the bucket sizes sum to the input size. */
  lemma {:induction false} RoutingIsPartition(pts: seq<TrainingPoint>, root: LinearModel, numLeaf: int)
    requires numLeaf >= 1
    ensures RoutedCount(pts, root, numLeaf, numLeaf) == |pts|
  {
    if pts == [] {
      RoutedCountEmpty(root, numLeaf, numLeaf);
    } else {
      RoutingIsPartition(pts[..|pts| - 1], root, numLeaf);
      RoutedCountStep(pts, root, numLeaf, numLeaf);
    }
  }

  lemma {:induction false} RoutedCountEmpty(root: LinearModel, numLeaf: int, m: nat)
    requires numLeaf >= 1
    ensures RoutedCount([], root, numLeaf, m) == 0
  {
    if m > 0 {
      RoutedCountEmpty(root, numLeaf, m - 1);
    }
  }

  /** A point routed to leaf k heads k's bucket when it is the first point. */
  lemma {:induction false} BucketHead(pts: seq<TrainingPoint>, root: LinearModel, numLeaf: int, k: int)
    requires numLeaf >= 1 && |pts| > 0 && LeafIndex(root, numLeaf, pts[0].Key()) == k
    ensures |Bucket(pts, root, numLeaf, k)| > 0 && Bucket(pts, root, numLeaf, k)[0] == pts[0]
  {
    if |pts| > 1 {
      var init := pts[..|pts| - 1];
      assert init[0] == pts[0];
      BucketHead(init, root, numLeaf, k);
    }
  }

  /** The routing loop: each point is appended to the bucket of its predicted leaf. */
  method Route(pts: seq<TrainingPoint>, root: LinearModel, numLeaf: int) returns (buckets: seq<seq<TrainingPoint>>)
    requires numLeaf >= 1
    ensures buckets == Routed(pts, root, numLeaf)
  {
    buckets := seq(numLeaf, _ => []);
    var i := 0;
    while i < |pts|
      invariant 0 <= i <= |pts| && |buckets| == numLeaf
      invariant forall k :: 0 <= k < numLeaf ==> buckets[k] == Bucket(pts[..i], root, numLeaf, k)
    {
      var d := pts[i];
      var rank := LeafIndex(root, numLeaf, d.Key());
      assert pts[..i + 1][..i] == pts[..i];
      buckets := buckets[rank := buckets[rank] + [d]];
      i := i + 1;
    }
    assert pts[..|pts|] == pts;
  }

  // ------------------------------------------------------------------
  // The leaf models
  // ------------------------------------------------------------------

  /** The line through (x0, y0) that rises by dy up to key x1 (difference unsigned). */
  function Fit(x0: u64, y0: real, dy: real, x1: u64): LinearModel
  {
    var s := Ratio(dy, USub(x1, x0));
    LinearModel(s, y0 - s * x0 as real)
  }

  /** The fitted line passes through its anchor, and reaches y0 + dy at x1 when x0 < x1. */
  lemma {:induction false} FitAnchors(x0: u64, y0: real, dy: real, x1: u64)
    ensures Fit(x0, y0, dy, x1).Eval(x0) == y0
    ensures x0 < x1 ==> Fit(x0, y0, dy, x1).Eval(x1) == y0 + dy
  {
    var m := Fit(x0, y0, dy, x1);
    if x0 < x1 {
      var d := (x1 - x0) as real;
      assert m.slope * d == dy;
      assert m.Eval(x1) == y0 + m.slope * d;
    }
  }

  /** Cases 1 and 2: the first leaf. */
  function FirstLeafModel(b: seq<TrainingPoint>): (m: LinearModel)
    ensures |b| >= 2 ==> m.Eval(b[0].Key()) == b[0].y
  {
    if |b| < 2 then ZERO_MODEL else Fit(b[0].Key(), b[0].y, Last(b).y, Last(b).Key())
  }

  /** A first bucket with fewer than two points gets the fictive point appended. */
  function FirstLeafData(b: seq<TrainingPoint>): (data: seq<TrainingPoint>)
    ensures |data| >= 1 && b <= data
    ensures |b| >= 2 ==> data == b
  {
    if |b| < 2 then b + [FICTIVE_POINT] else b
  }

  /** Cases 5 and 6: an intermediate leaf, anchored at the previous bucket's last point. */
  function InteriorLeafModel(b: seq<TrainingPoint>, prev: TrainingPoint): (m: LinearModel)
    ensures m.Eval(prev.Key()) == prev.y
  {
    if b == [] then LinearModel(0.0, prev.y) else Fit(prev.Key(), prev.y, Last(b).y - prev.y, Last(b).Key())
  }

  /** An empty intermediate bucket inherits the previous bucket's last point. */
  function InteriorLeafData(b: seq<TrainingPoint>, prev: TrainingPoint): (data: seq<TrainingPoint>)
    ensures |data| >= 1 && Last(data).y == (if b == [] then prev.y else Last(b).y)
    ensures b != [] ==> data == b
  {
    if b == [] then [prev] else b
  }

  /** Cases 3 and 4: the last leaf, aiming at CDF 1. */
  function LastLeafModel(b: seq<TrainingPoint>, prev: TrainingPoint): (m: LinearModel)
    ensures b != [] ==> m.Eval(prev.Key()) == prev.y
    ensures b == [] ==> m.Eval(prev.Key()) == 1.0
  {
    if b == [] then LinearModel(0.0, 1.0) else Fit(prev.Key(), prev.y, 1.0 - prev.y, Last(b).Key())
  }

  /** Leaf k >= 1: its final bucket and its model, from its routed bucket and its predecessor's last point. */
  predicate LeafStep(k: int, numLeaf: int, routed: seq<TrainingPoint>, prev: TrainingPoint,
                     bucket: seq<TrainingPoint>, model: LinearModel)
  {
    if k == numLeaf - 1 then bucket == routed && model == LastLeafModel(routed, prev)
    else bucket == InteriorLeafData(routed, prev) && model == InteriorLeafModel(routed, prev)
  }

  /** Leaf k >= 1 was fitted from a non-empty predecessor bucket. */
  predicate LeafFitted(routed: seq<seq<TrainingPoint>>, buckets: seq<seq<TrainingPoint>>,
                       models: seq<LinearModel>, numLeaf: int, k: int)
    requires 1 <= k < numLeaf && |routed| == numLeaf && |buckets| == numLeaf && |models| == numLeaf
  {
    |buckets[k - 1]| > 0 && LeafStep(k, numLeaf, routed[k], Last(buckets[k - 1]), buckets[k], models[k])
  }

  /**
   * What the leaf loop leaves behind: leaf 0 by cases 1 and 2, every later
   * leaf from its own routed points and the last point of the bucket before,
   * which is never empty.
   */
  predicate ChainOfCustody(routed: seq<seq<TrainingPoint>>, buckets: seq<seq<TrainingPoint>>,
                           models: seq<LinearModel>, numLeaf: int)
  {
    numLeaf >= 1 && |routed| == numLeaf && |buckets| == numLeaf && |models| == numLeaf &&
    buckets[0] == FirstLeafData(routed[0]) && models[0] == FirstLeafModel(routed[0]) &&
    forall k :: 1 <= k < numLeaf ==> LeafFitted(routed, buckets, models, numLeaf, k)
  }

  /** The leaf loop of `train`. */
  method FitLeaves(routed: seq<seq<TrainingPoint>>, numLeaf: int)
      returns (buckets: seq<seq<TrainingPoint>>, models: seq<LinearModel>)
    requires numLeaf >= 1 && |routed| == numLeaf
    ensures ChainOfCustody(routed, buckets, models, numLeaf)
  {
    buckets := routed;
    models := seq(numLeaf, _ => ZERO_MODEL);
    var idx := 0;
    while idx < numLeaf
      invariant 0 <= idx <= numLeaf && |buckets| == numLeaf && |models| == numLeaf
      invariant forall k :: idx <= k < numLeaf ==> buckets[k] == routed[k]
      invariant idx > 0 ==> buckets[0] == FirstLeafData(routed[0]) && models[0] == FirstLeafModel(routed[0])
      invariant forall k :: 0 <= k < idx && k < numLeaf - 1 ==> |buckets[k]| > 0
      invariant forall k :: 1 <= k < idx ==> LeafFitted(routed, buckets, models, numLeaf, k)
    {
      ghost var buckets0, models0 := buckets, models;
      var cur := buckets[idx];
      if idx == 0 {
        if |cur| < 2 {
          models := models[0 := ZERO_MODEL];
          buckets := buckets[0 := cur + [FICTIVE_POINT]];
        } else {
          var lo, hi := cur[0], Last(cur);
          models := models[0 := Fit(lo.Key(), lo.y, hi.y, hi.Key())];
        }
      } else if idx == numLeaf - 1 {
        if cur == [] {
          models := models[idx := LinearModel(0.0, 1.0)];
        } else {
          var lo, hi := Last(buckets[idx - 1]), Last(cur);
          models := models[idx := Fit(lo.Key(), lo.y, 1.0 - lo.y, hi.Key())];
        }
      } else {
        var prev := Last(buckets[idx - 1]);
        if cur == [] {
          models := models[idx := LinearModel(0.0, prev.y)];
          buckets := buckets[idx := cur + [TrainingPoint(prev.x, prev.y)]];
        } else {
          var hi := Last(cur);
          models := models[idx := Fit(prev.Key(), prev.y, hi.y - prev.y, hi.Key())];
        }
      }
      forall k | 1 <= k < idx ensures LeafFitted(routed, buckets, models, numLeaf, k) {
        assert LeafFitted(routed, buckets0, models0, numLeaf, k);
        assert buckets[k - 1] == buckets0[k - 1] && buckets[k] == buckets0[k] && models[k] == models0[k];
      }
      if idx > 0 {
        assert LeafFitted(routed, buckets, models, numLeaf, idx);
      }
      idx := idx + 1;
    }
  }

  /**
   * The point an empty leaf inherits: the last routed point of the nearest
   * populated leaf before it, or leaf 0's last point (the fictive point when
   * leaf 0 held fewer than two points).
   */
  function CustodyPoint(routed: seq<seq<TrainingPoint>>, k: nat): TrainingPoint
    requires k < |routed|
  {
    if k == 0 then Last(FirstLeafData(routed[0]))
    else if routed[k] == [] then CustodyPoint(routed, k - 1)
    else Last(routed[k])
  }

  /** Every bucket but an empty last one ends with the custody point of its leaf. */
  lemma {:induction false} BucketsEndWithCustodyPoint(routed: seq<seq<TrainingPoint>>, buckets: seq<seq<TrainingPoint>>,
                                                      models: seq<LinearModel>, numLeaf: int, k: nat)
    requires ChainOfCustody(routed, buckets, models, numLeaf)
    requires k < numLeaf && (k == 0 || k < numLeaf - 1 || routed[k] != [])
    ensures |buckets[k]| > 0 && Last(buckets[k]) == CustodyPoint(routed, k)
  {
    if k > 0 {
      assert LeafFitted(routed, buckets, models, numLeaf, k);
      BucketsEndWithCustodyPoint(routed, buckets, models, numLeaf, k - 1);
    }
  }

  /**
   * Every leaf but an empty last one starts where the previous leaf's data
   * ended: at the custody point of leaf k - 1 it predicts that point's CDF
   * value. An empty intermediate leaf predicts that value everywhere.
   */
  lemma {:induction false} LeafContinuity(routed: seq<seq<TrainingPoint>>, buckets: seq<seq<TrainingPoint>>,
                       models: seq<LinearModel>, numLeaf: int, k: int)
    requires ChainOfCustody(routed, buckets, models, numLeaf)
    requires 1 <= k < numLeaf && !(k == numLeaf - 1 && routed[k] == [])
    ensures models[k].Eval(CustodyPoint(routed, k - 1).Key()) == CustodyPoint(routed, k - 1).y
    ensures routed[k] == [] ==> models[k] == LinearModel(0.0, CustodyPoint(routed, k - 1).y)
  {
    assert LeafFitted(routed, buckets, models, numLeaf, k);
    BucketsEndWithCustodyPoint(routed, buckets, models, numLeaf, k - 1);
    var prev := CustodyPoint(routed, k - 1);
    if routed[k] != [] {
      var dy := if k == numLeaf - 1 then 1.0 - prev.y else Last(routed[k]).y - prev.y;
      FitAnchors(prev.Key(), prev.y, dy, Last(routed[k]).Key());
    }
  }

  /**
   * A populated leaf k >= 1 ends at its own last point, or at CDF 1 for the
   * last leaf, when its last key lies above the custody point of leaf k - 1.
   */
  lemma {:induction false} LeafReachesTarget(routed: seq<seq<TrainingPoint>>, buckets: seq<seq<TrainingPoint>>,
                          models: seq<LinearModel>, numLeaf: int, k: int)
    requires ChainOfCustody(routed, buckets, models, numLeaf)
    requires 1 <= k < numLeaf && routed[k] != []
    requires CustodyPoint(routed, k - 1).Key() < Last(routed[k]).Key()
    ensures models[k].Eval(Last(routed[k]).Key()) ==
      (if k == numLeaf - 1 then 1.0 else Last(routed[k]).y)
  {
    assert LeafFitted(routed, buckets, models, numLeaf, k);
    BucketsEndWithCustodyPoint(routed, buckets, models, numLeaf, k - 1);
    var prev := CustodyPoint(routed, k - 1);
    var dy := if k == numLeaf - 1 then 1.0 - prev.y else Last(routed[k]).y - prev.y;
    FitAnchors(prev.Key(), prev.y, dy, Last(routed[k]).Key());
  }

  /**
   * Leaf 0 with at least two points passes through its first point and,
   * "hallucinating" that point's CDF as 0, rises by the last point's CDF.
   */
  lemma {:induction false} FirstLeafSpan(b: seq<TrainingPoint>)
    requires |b| >= 2 && b[0].Key() < Last(b).Key()
    ensures FirstLeafModel(b).Eval(b[0].Key()) == b[0].y
    ensures FirstLeafModel(b).Eval(Last(b).Key()) == b[0].y + Last(b).y
  {
    FitAnchors(b[0].Key(), b[0].y, Last(b).y, Last(b).Key());
  }

  // ------------------------------------------------------------------
  // The model object
  // ------------------------------------------------------------------

  class TwoLayerRMI {
    var trained: bool
    var rootModel: LinearModel
    var leafModels: seq<LinearModel>
    var trainingSample: seq<EmbeddingValue>
    var hp: Params
    var enableDupsDetection: bool

    /** One leaf model per leaf. */
    ghost predicate Valid()
      reads this
    {
      hp.numLeafModels >= 1 && |leafModels| == hp.numLeafModels
    }

    /** `TwoLayerRMI()`: default hyperparameters, untrained, zero models. */
    constructor ()
      ensures Valid() && !trained && enableDupsDetection
      ensures hp == DefaultParams() && rootModel == ZERO_MODEL
      ensures leafModels == seq(DEFAULT_NUM_LEAF_MODELS, _ => ZERO_MODEL)
      ensures trainingSample == []
    {
      trained := false;
      hp := DefaultParams();
      rootModel := ZERO_MODEL;
      leafModels := seq(DEFAULT_NUM_LEAF_MODELS, _ => ZERO_MODEL);
      trainingSample := [];
      enableDupsDetection := true;
    }

    /** `TwoLayerRMI(Params p)`. */
    constructor WithParams(p: Params)
      requires p.numLeafModels >= 0
      ensures p.numLeafModels >= 1 ==> Valid()
      ensures !trained && enableDupsDetection && hp == p && rootModel == ZERO_MODEL
      ensures leafModels == seq(p.numLeafModels, _ => ZERO_MODEL)
      ensures trainingSample == []
    {
      trained := false;
      hp := p;
      rootModel := ZERO_MODEL;
      leafModels := seq(p.numLeafModels, _ => ZERO_MODEL);
      trainingSample := [];
      enableDupsDetection := true;
    }

    /** The leaf `predict` consults for a key. */
    function PredictedLeaf(key: int): (k: int)
      reads this
      requires Valid()
      ensures 0 <= k < |leafModels|
    {
      LeafIndex(rootModel, hp.numLeafModels, key)
    }

    /** `predict(key, scale)`: the leaf's CDF estimate scaled, truncated and clamped to [0, scale - 1]. */
    function Predict(key: int, scale: int): (r: int)
      reads this
      requires Valid()
      ensures scale >= 1 ==> 0 <= r < scale
      ensures scale < 1 ==> r == 0
    {
      var m := leafModels[PredictedLeaf(key)];
      Max(0, Min(scale - 1, Trunc(scale as real * m.Eval(key))))
    }

    /**
     * `train(begin, end)`. The sample is appended to whatever an earlier
     * call left in `training_sample`; `leafData` is `training_data[1]` after
     * the leaf loop.
     */
    method Train(input: seq<EmbeddingValue>, buf: seq<byte>) returns (ok: bool, ghost leafData: seq<seq<TrainingPoint>>)
      requires Valid() && SanitizeDefined(hp, |input|)
      requires AllKeysInBuffer(buf, input) && AllKeysInBuffer(buf, trainingSample)
      modifies this
      ensures ok && trained && Valid()
      ensures enableDupsDetection == old(enableDupsDetection)
      ensures hp == Sanitize(old(hp), |input|)
      ensures trainingSample == TrainingSample(buf, old(trainingSample), input, hp.samplingRate)
      ensures AllKeysInBuffer(buf, trainingSample) && SortedByKey(buf, trainingSample)
      ensures SampleSize(|input|, hp.samplingRate) <= |trainingSample|
      ensures rootModel == FitRoot(RootPoints(trainingSample, SampleSize(|input|, hp.samplingRate)), hp.numLeafModels)
      ensures rootModel.slope >= 0.0
      ensures ChainOfCustody(Routed(RootPoints(trainingSample, SampleSize(|input|, hp.samplingRate)), rootModel, hp.numLeafModels),
                             leafData, leafModels, hp.numLeafModels)
    {
      var inputSz := |input|;
      var p := ValidateParams(hp, inputSz);

      // Sample, then sort the sample by key
      var sampleSz := SampleSize(inputSz, p.samplingRate);
      var offset := StrideOffset(inputSz, sampleSz);
      var picks := StridedSample(input, offset);
      StridedCoversSample(input, sampleSz);
      StridedIsSubset(input, offset);
      var sample := trainingSample + picks;
      var sorted := SortByKey(buf, sample);
      SortByKeySorted(buf, sample);
      SortByKeyPermutes(buf, sample);

      // Root model, routing and leaf models
      var pts := RootTrainingData(sorted, sampleSz);
      var root := FitRoot(pts, p.numLeafModels);
      var routed := Route(pts, root, p.numLeafModels);
      var buckets, models := FitLeaves(routed, p.numLeafModels);

      hp := p;
      trainingSample := sorted;
      rootModel := root;
      leafModels := models;
      leafData := buckets;
      trained := true;
      ok := true;
    }
  }
}
