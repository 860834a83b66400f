/**
 * The Shannon-Fano table builder of shannon_fano.py.
 *
 * `compress_data` tabulates every distinct character of the input with its
 * count and probability `count / len(data)`, stable-sorts the records by
 * descending probability and hands them to `_encoder`, which splits the list
 * at the index chosen by `_splitter`, appends '0' to the codes of the left
 * part and '1' to those of the right part, and recurses on both parts until
 * a part has at most one record.
 *
 * Probabilities are exact reals here; the program's floating-point division
 * is not modelled.
 */
module ShannonFano {
  import opened Common
  import opened Codewords
  import opened Frequency

  /** The `Compress` record kept for one character. */
  datatype Compress = Compress(original: char, count: nat, code: Bits, probability: real)

  function Probabilities(cs: seq<Compress>): (ps: seq<real>)
    ensures |ps| == |cs|
    ensures forall k :: 0 <= k < |cs| ==> ps[k] == cs[k].probability
  {
    seq(|cs|, k requires 0 <= k < |cs| => cs[k].probability)
  }

  /** The `(character, count)` items of a list of records. */
  function Items(cs: seq<Compress>): (f: seq<(char, nat)>)
    ensures |f| == |cs|
    ensures forall k :: 0 <= k < |cs| ==> f[k] == (cs[k].original, cs[k].count)
  {
    seq(|cs|, k requires 0 <= k < |cs| => (cs[k].original, cs[k].count))
  }

  /** The records as `[character, code]` pairs, the dictionary their codes form. */
  function SfTable(cs: seq<Compress>): (t: Table)
    ensures Syms(t) == Originals(cs)
    ensures forall k :: 0 <= k < |t| ==> t[k].code == cs[k].code
  {
    seq(|cs|, k requires 0 <= k < |cs| => Pair(cs[k].original, cs[k].code))
  }

  /** The codes of the records, in order. */
  function CodesOf(cs: seq<Compress>): (codes: seq<Bits>)
    ensures |codes| == |cs|
    ensures forall k :: 0 <= k < |cs| ==> codes[k] == cs[k].code
  {
    Codes(SfTable(cs))
  }

  predicate NonNegative(ps: seq<real>)
  {
    forall k :: 0 <= k < |ps| ==> ps[k] >= 0.0
  }

  predicate Positive(ps: seq<real>)
  {
    forall k :: 0 <= k < |ps| ==> ps[k] > 0.0
  }

  /** Every record has a positive probability, as every record compress_data builds does. */
  predicate PositiveRecords(cs: seq<Compress>)
  {
    forall k :: 0 <= k < |cs| ==> cs[k].probability > 0.0
  }

  // ---------------------------------------------------------------------
  // Sums and imbalances

  function Sum(ps: seq<real>): real
  {
    if |ps| == 0 then 0.0 else Sum(ps[..|ps| - 1]) + ps[|ps| - 1]
  }

  lemma {:induction false} SumConcat(a: seq<real>, b: seq<real>)
    ensures Sum(a + b) == Sum(a) + Sum(b)
    decreases |b|
  {
    if |b| == 0 {
      assert a + b == a;
    } else {
      assert (a + b)[..|a + b| - 1] == a + b[..|b| - 1];
      SumConcat(a, b[..|b| - 1]);
    }
  }

  /** `sum(ps[:k])`: Python clamps a slice bound past the end. */
  function LeftSum(ps: seq<real>, k: nat): real
    decreases k
  {
    if k == 0 then 0.0
    else if k > |ps| then LeftSum(ps, |ps|)
    else LeftSum(ps, k - 1) + ps[k - 1]
  }

  /** `sum(ps[k:])`: empty past the end. */
  function RightSum(ps: seq<real>, k: nat): real
    decreases |ps| - k
  {
    if k >= |ps| then 0.0 else ps[k] + RightSum(ps, k + 1)
  }

  lemma {:induction false} LeftSumNonNegative(ps: seq<real>, k: nat)
    requires NonNegative(ps)
    requires k <= |ps|
    ensures LeftSum(ps, k) >= 0.0
    ensures Positive(ps) && k > 0 ==> LeftSum(ps, k) > 0.0
  {
    if k > 0 {
      LeftSumNonNegative(ps, k - 1);
    }
  }

  function Abs(x: real): real
  {
    if x < 0.0 then -x else x
  }

  /** `sum(ps[:k]) - sum(ps[k:])`: how much heavier the left part is when the first `k` entries go left. */
  function Diff(ps: seq<real>, k: nat): real
  {
    LeftSum(ps, k) - RightSum(ps, k)
  }

  /** Absolute imbalance of the split whose left part ends at index `s`. */
  function Imbalance(ps: seq<real>, s: nat): real
  {
    Abs(Diff(ps, s + 1))
  }

  lemma DiffAtEnd(ps: seq<real>, k: nat)
    ensures k >= |ps| ==> Diff(ps, k) == LeftSum(ps, |ps|)
  {
  }

  lemma DiffStep(ps: seq<real>, k: nat)
    requires k < |ps|
    ensures Diff(ps, k + 1) == Diff(ps, k) + 2.0 * ps[k]
  {
  }

  lemma {:induction false} DiffIncreasing(ps: seq<real>, a: nat, b: nat)
    requires Positive(ps)
    requires a < b <= |ps|
    ensures Diff(ps, a) < Diff(ps, b)
    decreases b - a
  {
    DiffStep(ps, a);
    if a + 1 < b {
      DiffIncreasing(ps, a + 1, b);
    }
  }

  // ---------------------------------------------------------------------
  // _splitter

  /**
   * `_splitter(probability, pointer)`: walk right while the left part is
   * lighter, then, at every level of the recursion on the way back, step
   * back one index when that split is strictly better balanced.
   */
  function Splitter(ps: seq<real>, pointer: nat): (point: nat)
    requires NonNegative(ps)
    ensures pointer <= point
    ensures pointer < |ps| ==> point < |ps|
    decreases |ps| - pointer
  {
    LeftSumNonNegative(ps, |ps|);
    DiffAtEnd(ps, pointer + 1);
    if Diff(ps, pointer + 1) < 0.0 then
      var point := Splitter(ps, pointer + 1);
      if Abs(Diff(ps, point)) < Abs(Diff(ps, point + 1)) then point - 1 else point
    else
      pointer
  }

  /**
   * `r` is, among the split indices from `from` on, one of least imbalance,
   * and every later index is strictly worse: on a tie the later index wins.
   */
  ghost predicate LastMinimiser(ps: seq<real>, from: nat, r: nat)
  {
    && from <= r < |ps|
    && (forall s :: from <= s < |ps| ==> Imbalance(ps, r) <= Imbalance(ps, s))
    && (forall s :: r < s < |ps| ==> Imbalance(ps, r) < Imbalance(ps, s))
  }

  /**
   * One level of the way back: given the last minimiser from `pointer + 1` on,
   * the strict comparison with the index before it gives the last minimiser
   * from `pointer` on, provided `pointer` is worse than `pointer + 1`
   * whenever the minimiser lies further right.
   */
  lemma ExtendMinimiser(ps: seq<real>, pointer: nat, point: nat)
    requires LastMinimiser(ps, pointer + 1, point)
    requires point > pointer + 1 ==> Imbalance(ps, pointer) > Imbalance(ps, pointer + 1)
    ensures LastMinimiser(ps, pointer, if Imbalance(ps, point - 1) < Imbalance(ps, point) then point - 1 else point)
  {
    if point > pointer + 1 {
      assert Imbalance(ps, point) <= Imbalance(ps, point - 1);
    }
  }

  /** With positive probabilities, `_splitter` returns the last best-balanced split index. */
  lemma {:induction false} SplitterFindsLastMinimiser(ps: seq<real>, pointer: nat)
    requires Positive(ps)
    requires pointer < |ps|
    ensures LastMinimiser(ps, pointer, Splitter(ps, pointer))
    decreases |ps| - pointer
  {
    var r := Splitter(ps, pointer);
    DiffAtEnd(ps, pointer + 1);
    if Diff(ps, pointer + 1) < 0.0 {
      var point := Splitter(ps, pointer + 1);
      assert r == if Imbalance(ps, point - 1) < Imbalance(ps, point) then point - 1 else point;
      assert LastMinimiser(ps, pointer + 1, point) by {
        SplitterFindsLastMinimiser(ps, pointer + 1);
      }
      if point > pointer + 1 {
        assert Diff(ps, pointer + 2) < 0.0;
        DiffStep(ps, pointer + 1);
      }
      ExtendMinimiser(ps, pointer, point);
    } else {
      assert r == pointer;
      forall s | pointer < s < |ps| ensures Imbalance(ps, pointer) < Imbalance(ps, s) {
        DiffIncreasing(ps, pointer + 1, s + 1);
      }
    }
  }

  /** On two or more positive probabilities both parts of the first split are non-empty. */
  lemma SplitterBounds(ps: seq<real>)
    requires Positive(ps)
    requires |ps| >= 2
    ensures Splitter(ps, 0) <= |ps| - 2
  {
    var n := |ps|;
    SplitterFindsLastMinimiser(ps, 0);
    DiffStep(ps, n - 1);
    DiffAtEnd(ps, n);
    LeftSumNonNegative(ps, n - 1);
    assert Imbalance(ps, n - 2) < Imbalance(ps, n - 1);
  }

  // ---------------------------------------------------------------------
  // _encoder

  /** `for i in part: i.code += bit`. */
  function AppendBit(cs: seq<Compress>, b: bool): (r: seq<Compress>)
    ensures |r| == |cs|
    ensures forall k :: 0 <= k < |cs| ==> r[k] == cs[k].(code := cs[k].code + [b])
  {
    seq(|cs|, k requires 0 <= k < |cs| => cs[k].(code := cs[k].code + [b]))
  }

  /**
   * The codes `_encoder` appends, stated as a pure recursion: the codes of
   * the left part with a leading '0', then those of the right part with a
   * leading '1'.
   */
  function SfCodes(ps: seq<real>): (codes: seq<Bits>)
    requires Positive(ps)
    ensures |codes| == |ps|
    decreases |ps|, 1
  {
    if |ps| <= 1 then
      seq(|ps|, k requires 0 <= k < |ps| => [])
    else
      SplitterBounds(ps);
      SfBranch(ps, Splitter(ps, 0))
  }

  /** The codes of both parts of a split, with '0' in front of the first part's and '1' in front of the second's. */
  function SfBranch(ps: seq<real>, split: nat): (codes: seq<Bits>)
    requires Positive(ps) && split + 1 < |ps|
    ensures |codes| == |ps|
    decreases |ps|, 0
  {
    Branch(SfCodes(ps[..split + 1]), SfCodes(ps[split + 1..]))
  }

  /** The prefix recursion yields a prefix code: no codeword begins another, and with two or more records none is empty. */
  lemma {:induction false} SfCodesPrefixCode(ps: seq<real>)
    requires Positive(ps)
    ensures PrefixFree(SfCodes(ps))
    ensures |ps| >= 2 ==> NonEmptyCodes(SfCodes(ps))
    decreases |ps|
  {
    if |ps| >= 2 {
      SplitterBounds(ps);
      var split := Splitter(ps, 0);
      SfCodesPrefixCode(ps[..split + 1]);
      SfCodesPrefixCode(ps[split + 1..]);
      BranchPrefixCode(SfCodes(ps[..split + 1]), SfCodes(ps[split + 1..]));
    }
  }

  /** The record `c` with `suffix` appended to its code and every other field unchanged. */
  function Extended(c: Compress, suffix: Bits): Compress
  {
    c.(code := c.code + suffix)
  }

  /**
   * `_encoder(compressor)`, returning the list it leaves behind: the same
   * records in the same order, each with nothing changed but its code, to
   * which it appends that record's codeword of the prefix recursion
   * `SfCodes`. Because each level appends its bit before the deeper levels
   * append theirs, the in-place appending and the prefix recursion agree.
   */
  function Encoder(cs: seq<Compress>): (r: seq<Compress>)
    requires PositiveRecords(cs)
    ensures |r| == |cs|
    ensures forall k :: 0 <= k < |cs| ==> r[k] == Extended(cs[k], SfCodes(Probabilities(cs))[k])
    decreases |cs|
  {
    if |cs| > 1 then
      var split := SplitIndex(cs);
      var left := Encoder(AppendBit(cs[..split + 1], false));
      var right := Encoder(AppendBit(cs[split + 1..], true));
      EncoderJoin(cs, split, left, right);
      left + right
    else
      assert forall k :: 0 <= k < |cs| ==> Extended(cs[k], SfCodes(Probabilities(cs))[k]) == cs[k];
      cs
  }

  /** The index `_encoder` splits at: `_splitter` over the probabilities, starting at pointer 0. */
  function SplitIndex(cs: seq<Compress>): (split: nat)
    requires PositiveRecords(cs)
    requires |cs| >= 2
    ensures split <= |cs| - 2
  {
    var ps := Probabilities(cs);
    SplitterBounds(ps);
    Splitter(ps, 0)
  }

  /** Joining the two recursively encoded parts gives every record of the whole its codeword. */
  lemma EncoderJoin(cs: seq<Compress>, split: nat, left: seq<Compress>, right: seq<Compress>)
    requires PositiveRecords(cs) && |cs| >= 2 && split == SplitIndex(cs)
    requires var part := AppendBit(cs[..split + 1], false);
      && |left| == |part|
      && forall k :: 0 <= k < |part| ==> left[k] == Extended(part[k], SfCodes(Probabilities(part))[k])
    requires var part := AppendBit(cs[split + 1..], true);
      && |right| == |part|
      && forall k :: 0 <= k < |part| ==> right[k] == Extended(part[k], SfCodes(Probabilities(part))[k])
    ensures |left + right| == |cs|
    ensures forall k :: 0 <= k < |cs| ==> (left + right)[k] == Extended(cs[k], SfCodes(Probabilities(cs))[k])
  {
    var ps := Probabilities(cs);
    assert Probabilities(AppendBit(cs[..split + 1], false)) == ps[..split + 1];
    assert Probabilities(AppendBit(cs[split + 1..], true)) == ps[split + 1..];
    var lower := SfCodes(ps[..split + 1]);
    var upper := SfCodes(ps[split + 1..]);
    SfCodesSplit(ps, split);
    PartSuffixes(cs[..split + 1], false, left, lower);
    PartSuffixes(cs[split + 1..], true, right, upper);
    JoinParts(cs, split, left, right, lower, upper);
  }

  /** A part encoded after its bit was appended: each record gains the bit followed by its own codeword. */
  lemma PartSuffixes(part: seq<Compress>, b: bool, e: seq<Compress>, codes: seq<Bits>)
    requires |e| == |part| == |codes|
    requires forall k :: 0 <= k < |part| ==> e[k] == Extended(AppendBit(part, b)[k], codes[k])
    ensures forall k :: 0 <= k < |part| ==> e[k] == Extended(part[k], [b] + codes[k])
  {
    forall k | 0 <= k < |part| ensures e[k] == Extended(part[k], [b] + codes[k]) {
      assert part[k].code + [b] + codes[k] == part[k].code + ([b] + codes[k]);
    }
  }

  /** The '0' part followed by the '1' part gives each record of the whole its branch codeword. */
  lemma JoinParts(cs: seq<Compress>, split: nat, left: seq<Compress>, right: seq<Compress>,
                  lower: seq<Bits>, upper: seq<Bits>)
    requires split < |cs|
    requires |left| == |lower| == split + 1 && |right| == |upper| == |cs| - (split + 1)
    requires forall k :: 0 <= k < split + 1 ==> left[k] == Extended(cs[..split + 1][k], [false] + lower[k])
    requires forall k :: 0 <= k < |cs| - (split + 1) ==> right[k] == Extended(cs[split + 1..][k], [true] + upper[k])
    ensures |left + right| == |cs|
    ensures forall k :: 0 <= k < |cs| ==>
              (left + right)[k] == Extended(cs[k], (Prefixed(false, lower) + Prefixed(true, upper))[k])
  {
    forall k | 0 <= k < |cs|
      ensures (left + right)[k] == Extended(cs[k], (Prefixed(false, lower) + Prefixed(true, upper))[k])
    {
      if k <= split {
        assert cs[..split + 1][k] == cs[k];
      } else {
        assert cs[split + 1..][k - (split + 1)] == cs[k];
      }
    }
  }

  /** One level of the prefix recursion, unfolded at the split `_splitter` picks. */
  lemma SfCodesSplit(ps: seq<real>, split: nat)
    requires Positive(ps) && |ps| >= 2 && split == Splitter(ps, 0)
    ensures split + 1 < |ps|
    ensures SfCodes(ps) == SfBranch(ps, split)
  {
    SplitterBounds(ps);
  }

  /** `_encoder` only ever appends: every record keeps its character, count and probability, and its old code is a prefix of its new one. */
  lemma EncoderOnlyAppends(cs: seq<Compress>)
    requires PositiveRecords(cs)
    ensures |Encoder(cs)| == |cs|
    ensures forall k :: 0 <= k < |cs| ==>
              && Encoder(cs)[k].original == cs[k].original
              && Encoder(cs)[k].count == cs[k].count
              && Encoder(cs)[k].probability == cs[k].probability
              && cs[k].code <= Encoder(cs)[k].code
  {
  }

  // ---------------------------------------------------------------------
  // sorted(compressor, key=probability, reverse=True)

  predicate NonIncreasing(cs: seq<Compress>)
  {
    forall i, j :: 0 <= i < j < |cs| ==> cs[i].probability >= cs[j].probability
  }

  /** Puts `x` in front of the first record whose probability does not exceed its own. */
  function Insert(x: Compress, s: seq<Compress>): (r: seq<Compress>)
    ensures |r| == |s| + 1
    ensures multiset(r) == multiset(s) + multiset{x}
    ensures r[0] == x || (|s| > 0 && r[0] == s[0])
  {
    if |s| == 0 then [x]
    else if s[0].probability <= x.probability then [x] + s
    else
      assert s == [s[0]] + s[1..];
      [s[0]] + Insert(x, s[1..])
  }

  lemma {:induction false} InsertKeepsOrder(x: Compress, s: seq<Compress>)
    requires NonIncreasing(s)
    ensures NonIncreasing(Insert(x, s))
  {
    if |s| > 0 && s[0].probability > x.probability {
      var tail := Insert(x, s[1..]);
      InsertKeepsOrder(x, s[1..]);
      assert Insert(x, s) == [s[0]] + tail;
      assert tail[0].probability <= s[0].probability;
    }
  }

  /** A stable sort by descending probability (Python's `sorted(..., reverse=True)` keeps ties in input order). */
  function SortByProbability(cs: seq<Compress>): (r: seq<Compress>)
    ensures |r| == |cs|
    ensures multiset(r) == multiset(cs)
    ensures NonIncreasing(r)
  {
    if |cs| == 0 then []
    else
      assert cs == [cs[0]] + cs[1..];
      var rest := SortByProbability(cs[1..]);
      InsertKeepsOrder(cs[0], rest);
      Insert(cs[0], rest)
  }

  /** Ordered by descending probability, and by ascending `rank` among equal probabilities. */
  ghost predicate OrderedByProbabilityThenRank(cs: seq<Compress>, rank: Compress -> int)
  {
    forall i, j :: 0 <= i < j < |cs| ==>
      || cs[i].probability > cs[j].probability
      || (cs[i].probability == cs[j].probability && rank(cs[i]) < rank(cs[j]))
  }

  /** A record that comes before every record of an ordered sequence may be put in front of it. */
  lemma ConsOrdered(y: Compress, tail: seq<Compress>, rank: Compress -> int)
    requires OrderedByProbabilityThenRank(tail, rank)
    requires forall j :: 0 <= j < |tail| ==>
               || y.probability > tail[j].probability
               || (y.probability == tail[j].probability && rank(y) < rank(tail[j]))
    ensures OrderedByProbabilityThenRank([y] + tail, rank)
  {
    var r := [y] + tail;
    forall i, j | 0 <= i < j < |r|
      ensures r[i].probability > r[j].probability
           || (r[i].probability == r[j].probability && rank(r[i]) < rank(r[j]))
    {
      if i > 0 {
        assert r[i] == tail[i - 1] && r[j] == tail[j - 1];
      } else {
        assert r[j] == tail[j - 1];
      }
    }
  }

  /** When `x` goes past the head of `s`, that head comes before everything the insertion into the rest produces. */
  lemma HeadBeforeInsert(x: Compress, s: seq<Compress>, rank: Compress -> int, j: nat)
    requires OrderedByProbabilityThenRank(s, rank)
    requires |s| > 0 && s[0].probability > x.probability
    requires j < |Insert(x, s[1..])|
    ensures var y := Insert(x, s[1..])[j];
      || s[0].probability > y.probability
      || (s[0].probability == y.probability && rank(s[0]) < rank(y))
  {
    var tail := Insert(x, s[1..]);
    var m := PermutationSource(s[1..] + [x], tail, j);
    if m < |s| - 1 {
      assert tail[j] == s[m + 1];
    }
  }

  lemma {:induction false} InsertStable(x: Compress, s: seq<Compress>, rank: Compress -> int)
    requires OrderedByProbabilityThenRank(s, rank)
    requires forall k :: 0 <= k < |s| ==> rank(x) < rank(s[k])
    ensures OrderedByProbabilityThenRank(Insert(x, s), rank)
  {
    if |s| == 0 {
    } else if s[0].probability <= x.probability {
      ConsOrdered(x, s, rank);
    } else {
      var tail := Insert(x, s[1..]);
      assert OrderedByProbabilityThenRank(tail, rank) by {
        assert OrderedByProbabilityThenRank(s[1..], rank);
        InsertStable(x, s[1..], rank);
      }
      forall j | 0 <= j < |tail|
        ensures || s[0].probability > tail[j].probability
                || (s[0].probability == tail[j].probability && rank(s[0]) < rank(tail[j]))
      {
        HeadBeforeInsert(x, s, rank, j);
      }
      ConsOrdered(s[0], tail, rank);
    }
  }

  /** Records of equal probability leave the sort in the order of their ranks, given the input is in rank order. */
  lemma {:induction false} SortIsStable(cs: seq<Compress>, rank: Compress -> int)
    requires forall i, j :: 0 <= i < j < |cs| ==> rank(cs[i]) < rank(cs[j])
    ensures OrderedByProbabilityThenRank(SortByProbability(cs), rank)
  {
    if |cs| > 0 {
      var rest := SortByProbability(cs[1..]);
      SortIsStable(cs[1..], rank);
      forall k | 0 <= k < |rest| ensures rank(cs[0]) < rank(rest[k]) {
        assert rest[k] in multiset(cs[1..]);
        var m :| 0 <= m < |cs[1..]| && cs[1..][m] == rest[k];
        assert rest[k] == cs[m + 1];
      }
      InsertStable(cs[0], rest, rank);
    }
  }

  // ---------------------------------------------------------------------
  // compress_data

  /** The loop of compress_data: one record per distinct character, first appearance first, with an empty code. */
  function Tabulate(data: string): (cs: seq<Compress>)
    ensures Items(cs) == Frequencies(data)
    ensures forall k :: 0 <= k < |cs| ==> cs[k].code == []
    ensures forall k :: 0 <= k < |cs| ==> cs[k].probability == Ratio(cs[k].count, |data|)
    ensures PositiveRecords(cs)
  {
    var f := Frequencies(data);
    RatioPositive();
    seq(|f|, k requires 0 <= k < |f| => Compress(f[k].0, f[k].1, [], Ratio(f[k].1, |data|)))
  }

  /** `compress_data(data)`: the sorted records with their final codes. */
  function CompressData(data: string): (r: seq<Compress>)
    ensures |r| == |Distinct(data)|
  {
    var sorted := SortByProbability(Tabulate(data));
    PermutationPositive(Tabulate(data), sorted);
    Encoder(sorted)
  }

  lemma PermutationPositive(a: seq<Compress>, b: seq<Compress>)
    requires multiset(a) == multiset(b)
    requires PositiveRecords(a)
    ensures PositiveRecords(b)
  {
    forall k | 0 <= k < |b| ensures b[k].probability > 0.0 {
      var m := PermutationSource(a, b, k);
    }
  }


  function Originals(cs: seq<Compress>): (s: seq<char>)
    ensures |s| == |cs|
    ensures forall k :: 0 <= k < |cs| ==> s[k] == cs[k].original
  {
    seq(|cs|, k requires 0 <= k < |cs| => cs[k].original)
  }

  /** compress_data keeps exactly one record per distinct character, with its count and probability. */
  lemma CompressDataRecords(data: string)
    ensures var r := CompressData(data);
      && |r| == |Distinct(data)|
      && NoDup(Originals(r))
      && (forall c :: c in Originals(r) <==> c in data)
      && (forall k :: 0 <= k < |r| ==>
            && r[k].count == Count(data, r[k].original)
            && r[k].probability == Ratio(r[k].count, |data|))
  {
    var tab := Tabulate(data);
    var sorted := SortByProbability(tab);
    PermutationPositive(tab, sorted);
    var r := Encoder(sorted);
    assert r == CompressData(data);
    SortedRecords(data);
    assert Originals(r) == Originals(sorted);
  }

  /** The sorted table, before any code is assigned, has the same properties. */
  lemma SortedRecords(data: string)
    ensures var sorted := SortByProbability(Tabulate(data));
      && NoDup(Originals(sorted))
      && (forall c :: c in Originals(sorted) <==> c in data)
      && (forall k :: 0 <= k < |sorted| ==>
            && sorted[k].count == Count(data, sorted[k].original)
            && sorted[k].probability == Ratio(sorted[k].count, |data|))
  {
    SortedCounts(data);
    SortedDistinct(data);
    SortedCoverage(data);
  }

  lemma SortedCounts(data: string)
    ensures var sorted := SortByProbability(Tabulate(data));
      forall k :: 0 <= k < |sorted| ==>
        && sorted[k].count == Count(data, sorted[k].original)
        && sorted[k].probability == Ratio(sorted[k].count, |data|)
        && sorted[k].original in data
  {
    var tab := Tabulate(data);
    var sorted := SortByProbability(tab);
    forall k | 0 <= k < |sorted|
      ensures sorted[k].count == Count(data, sorted[k].original)
      ensures sorted[k].probability == Ratio(sorted[k].count, |data|)
      ensures sorted[k].original in data
    {
      var m := PermutationSource(tab, sorted, k);
      assert tab[m].original == Distinct(data)[m];
    }
  }

  lemma TabulateOriginals(data: string)
    ensures forall m :: 0 <= m < |Tabulate(data)| ==> Tabulate(data)[m].original == Distinct(data)[m]
    ensures NoDup(Tabulate(data))
  {
    var tab := Tabulate(data);
    var d := Distinct(data);
    assert forall m :: 0 <= m < |tab| ==> tab[m].original == d[m];
  }

  lemma SortedDistinct(data: string)
    ensures NoDup(Originals(SortByProbability(Tabulate(data))))
  {
    var tab := Tabulate(data);
    var sorted := SortByProbability(tab);
    var d := Distinct(data);
    TabulateOriginals(data);
    assert NoDup(sorted) by {
      NoDupPermutation(tab, sorted);
    }
    forall i, j | 0 <= i < j < |sorted| ensures sorted[i].original != sorted[j].original {
      var mi := PermutationSource(tab, sorted, i);
      var mj := PermutationSource(tab, sorted, j);
      assert mi != mj by {
        assert sorted[i] != sorted[j];
      }
      assert tab[mi].original == d[mi] && tab[mj].original == d[mj];
    }
  }

  lemma SortedCoverage(data: string)
    ensures forall c :: c in data ==> c in Originals(SortByProbability(Tabulate(data)))
  {
    var tab := Tabulate(data);
    var sorted := SortByProbability(tab);
    var d := Distinct(data);
    forall c | c in data ensures c in Originals(sorted) {
      var m :| 0 <= m < |d| && d[m] == c;
      assert tab[m].original == c;
      assert tab[m] in multiset(sorted);
      var k :| 0 <= k < |sorted| && sorted[k] == tab[m];
      assert Originals(sorted)[k] == c;
    }
  }

  lemma RecordsConcat(a: seq<Compress>, b: seq<Compress>)
    ensures Items(a + b) == Items(a) + Items(b)
    ensures Probabilities(a + b) == Probabilities(a) + Probabilities(b)
  {
  }

  lemma SingleTotals(x: Compress)
    ensures Total(Items([x])) == x.count
    ensures Sum(Probabilities([x])) == x.probability
  {
    assert Items([x])[..0] == [];
    assert Probabilities([x])[..0] == [];
  }

  lemma ConsTotals(x: Compress, s: seq<Compress>)
    ensures Total(Items([x] + s)) == x.count + Total(Items(s))
    ensures Sum(Probabilities([x] + s)) == x.probability + Sum(Probabilities(s))
  {
    RecordsConcat([x], s);
    SingleTotals(x);
    TotalConcat(Items([x]), Items(s));
    SumConcat(Probabilities([x]), Probabilities(s));
  }

  lemma {:induction false} InsertTotals(x: Compress, s: seq<Compress>)
    ensures Total(Items(Insert(x, s))) == x.count + Total(Items(s))
    ensures Sum(Probabilities(Insert(x, s))) == x.probability + Sum(Probabilities(s))
  {
    if |s| == 0 || s[0].probability <= x.probability {
      ConsTotals(x, s);
    } else {
      var tail := Insert(x, s[1..]);
      assert Insert(x, s) == [s[0]] + tail;
      assert s == [s[0]] + s[1..];
      InsertTotals(x, s[1..]);
      ConsTotals(s[0], tail);
      ConsTotals(s[0], s[1..]);
    }
  }

  lemma SortKeepsTotals(cs: seq<Compress>)
    ensures Total(Items(SortByProbability(cs))) == Total(Items(cs))
    ensures Sum(Probabilities(SortByProbability(cs))) == Sum(Probabilities(cs))
  {
    SortKeepsCounts(cs);
    SortKeepsProbabilities(cs);
  }

  lemma {:induction false} SortKeepsCounts(cs: seq<Compress>)
    ensures Total(Items(SortByProbability(cs))) == Total(Items(cs))
  {
    if |cs| > 0 {
      var rest := SortByProbability(cs[1..]);
      assert SortByProbability(cs) == Insert(cs[0], rest);
      assert Total(Items(Insert(cs[0], rest))) == cs[0].count + Total(Items(rest)) by {
        InsertTotals(cs[0], rest);
      }
      SortKeepsCounts(cs[1..]);
      assert Total(Items(cs)) == cs[0].count + Total(Items(cs[1..])) by {
        HeadTail(cs);
        ConsTotals(cs[0], cs[1..]);
      }
    }
  }

  lemma {:induction false} SortKeepsProbabilities(cs: seq<Compress>)
    ensures Sum(Probabilities(SortByProbability(cs))) == Sum(Probabilities(cs))
  {
    if |cs| > 0 {
      var rest := SortByProbability(cs[1..]);
      assert SortByProbability(cs) == Insert(cs[0], rest);
      assert Sum(Probabilities(Insert(cs[0], rest))) == cs[0].probability + Sum(Probabilities(rest)) by {
        InsertTotals(cs[0], rest);
      }
      SortKeepsProbabilities(cs[1..]);
      assert Sum(Probabilities(cs)) == cs[0].probability + Sum(Probabilities(cs[1..])) by {
        HeadTail(cs);
        ConsTotals(cs[0], cs[1..]);
      }
    }
  }

  /** `count / total`, exactly (the program divides in floating point). */
  function Ratio(count: nat, total: nat): real
    requires total > 0
  {
    count as real / total as real
  }

  lemma RatioPositive()
    ensures forall c: nat, t: nat :: c > 0 && t > 0 ==> Ratio(c, t) > 0.0
  {
  }

  lemma RatioAdd(a: nat, b: nat, n: nat)
    requires n > 0
    ensures Ratio(a, n) + Ratio(b, n) == Ratio(a + b, n)
  {
  }

  lemma RatioWhole(n: nat)
    requires n > 0
    ensures Ratio(n, n) == 1.0
  {
  }

  /** Probabilities `count / n` add up to the total count over `n`. */
  lemma {:induction false} ProbabilitySum(cs: seq<Compress>, n: nat)
    requires n > 0
    requires forall k :: 0 <= k < |cs| ==> cs[k].probability == Ratio(cs[k].count, n)
    ensures Sum(Probabilities(cs)) == Ratio(Total(Items(cs)), n)
  {
    if |cs| > 0 {
      var init := cs[..|cs| - 1];
      var c := cs[|cs| - 1].count;
      var t := Total(Items(init));
      assert Sum(Probabilities(init)) == Ratio(t, n) by {
        ProbabilitySum(init, n);
      }
      assert Sum(Probabilities(cs)) == Sum(Probabilities(init)) + Ratio(c, n) by {
        assert Probabilities(cs)[..|cs| - 1] == Probabilities(init);
      }
      assert Total(Items(cs)) == t + c by {
        assert Items(cs)[..|cs| - 1] == Items(init);
      }
      RatioAdd(t, c, n);
    }
  }

  /** The counts add up to the input length and, for non-empty input, the probabilities to one. */
  lemma CompressDataTotals(data: string)
    ensures Total(Items(CompressData(data))) == |data|
    ensures |data| > 0 ==> Sum(Probabilities(CompressData(data))) == 1.0
  {
    var tab := Tabulate(data);
    var sorted := SortByProbability(tab);
    PermutationPositive(tab, sorted);
    var r := Encoder(sorted);
    assert r == CompressData(data);
    assert Items(r) == Items(sorted);
    assert Probabilities(r) == Probabilities(sorted);
    SortKeepsTotals(tab);
    FrequenciesTotal(data);
    if |data| > 0 {
      ProbabilitySum(tab, |data|);
      RatioWhole(|data|);
    }
  }

  /** compress_data returns the sorted table with codes filled in and every other field as it was. */
  lemma CompressDataFields(data: string)
    ensures var sorted := SortByProbability(Tabulate(data));
      var r := CompressData(data);
      && |r| == |sorted|
      && forall k :: 0 <= k < |r| ==>
           && r[k].original == sorted[k].original
           && r[k].count == sorted[k].count
           && r[k].probability == sorted[k].probability
  {
    var tab := Tabulate(data);
    var sorted := SortByProbability(tab);
    PermutationPositive(tab, sorted);
    assert CompressData(data) == Encoder(sorted);
  }

  /**
   * The records come out by non-increasing probability, and records of
   * equal probability in the order their characters first appear.
   */
  lemma CompressDataOrder(data: string)
    ensures var r := CompressData(data);
      forall i, j :: 0 <= i < j < |r| ==>
        || r[i].probability > r[j].probability
        || (&& r[i].probability == r[j].probability
            && FirstIndex(data, r[i].original) < FirstIndex(data, r[j].original))
  {
    var rank := (c: Compress) => FirstIndex(data, c.original);
    SortedOrder(data, rank);
    CompressDataFields(data);
  }

  lemma SortedOrder(data: string, rank: Compress -> int)
    requires forall c :: rank(c) == FirstIndex(data, c.original)
    ensures OrderedByProbabilityThenRank(SortByProbability(Tabulate(data)), rank)
  {
    var d := Distinct(data);
    var tab := Tabulate(data);
    assert forall i, j :: 0 <= i < j < |tab| ==> rank(tab[i]) < rank(tab[j]) by {
      DistinctFirstAppearance(data);
      assert forall m :: 0 <= m < |tab| ==> tab[m].original == d[m];
    }
    SortIsStable(tab, rank);
  }

  /** Empty input gives no records; a single distinct character gives one record with probability one and an empty code. */
  lemma CompressDataSmall(data: string)
    ensures data == [] ==> CompressData(data) == []
    ensures |Distinct(data)| == 1 ==> CompressData(data) == [Compress(data[0], |data|, [], 1.0)]
  {
    if |Distinct(data)| == 1 {
      var tab := Tabulate(data);
      var f := Frequencies(data);
      assert data[0] in Distinct(data);
      assert f[0].0 == data[0];
      assert f[0].1 == |data| by {
        FrequenciesTotal(data);
        assert f[..0] == [];
      }
      RatioWhole(|data|);
      assert tab[0] == Compress(data[0], |data|, [], 1.0);
      assert tab == [Compress(data[0], |data|, [], 1.0)];
    }
  }

  /** With two or more distinct characters every final code is non-empty and no code is a prefix of another. */
  lemma CompressDataCodes(data: string)
    requires |Distinct(data)| >= 2
    ensures NonEmptyCodes(CodesOf(CompressData(data)))
    ensures PrefixFree(CodesOf(CompressData(data)))
  {
    var tab := Tabulate(data);
    var sorted := SortByProbability(tab);
    PermutationPositive(tab, sorted);
    var ps := Probabilities(sorted);
    assert |ps| >= 2;
    assert CodesOf(CompressData(data)) == SfCodes(ps) by {
      assert CompressData(data) == Encoder(sorted);
      SortedCodesEmpty(tab, sorted);
      EncoderFromEmpty(sorted);
    }
    SfCodesPrefixCode(ps);
  }

  /** A permutation of freshly tabulated records still has only empty codes. */
  lemma SortedCodesEmpty(tab: seq<Compress>, sorted: seq<Compress>)
    requires multiset(tab) == multiset(sorted)
    requires forall k :: 0 <= k < |tab| ==> tab[k].code == []
    ensures forall k :: 0 <= k < |sorted| ==> sorted[k].code == []
  {
    forall k | 0 <= k < |sorted| ensures sorted[k].code == [] {
      var m := PermutationSource(tab, sorted, k);
    }
  }

  /** Started from empty codes, `_encoder` leaves exactly the codewords of the prefix recursion. */
  lemma EncoderFromEmpty(cs: seq<Compress>)
    requires PositiveRecords(cs)
    requires forall k :: 0 <= k < |cs| ==> cs[k].code == []
    ensures CodesOf(Encoder(cs)) == SfCodes(Probabilities(cs))
  {
    var r := Encoder(cs);
    var codes := SfCodes(Probabilities(cs));
    forall k | 0 <= k < |r| ensures CodesOf(r)[k] == codes[k] {
      assert r[k].code == [] + codes[k];
    }
  }
}
