/**
 * The Huffman table builder of huffman.py:5-31.
 *
 * The program keeps a `heapq` min-heap of entries `[weight, [sym, code], ...]`.
 * Each round pops two entries, prepends '0' to every code of the first one
 * popped and '1' to every code of the second, and pushes back one entry whose
 * weight is the sum of the two and whose pairs are the first entry's followed
 * by the second's. When one entry is left, the pairs of the last merge become
 * the dictionary.
 *
 * The heap is a sequence of entries here. `heappop` returns the least entry
 * under Python's comparison of lists, which looks at the weight first and
 * breaks ties on the `[sym, code]` pairs; `EntryLess` is that comparison and
 * `PopIndex` finds the least entry, so `Loop` pops what `heapq` pops. Where
 * the entries sit inside the heap list does not matter, because the least
 * entry is unique. `MergeAt` merges ANY two entries and keeps the invariants.
 */
module Huffman {
  import opened Common
  import opened Codewords
  import opened Frequency

  /** One heap entry: its weight and its `[sym, code]` pairs. */
  datatype Node = Node(weight: nat, pairs: Table)

  type Heap = seq<Node>

  /** The entry `[fq, [sym, ""]]` built for one dictionary item. */
  function Leaf(sym: char, weight: nat): Node
  {
    Node(weight, [Pair(sym, [])])
  }

  /** The starting heap of huffman.py:15, one leaf per item. */
  function InitialHeap(freq: seq<(char, nat)>): (h: Heap)
    ensures |h| == |freq|
    ensures forall k :: 0 <= k < |h| ==> h[k] == Leaf(freq[k].0, freq[k].1)
  {
    seq(|freq|, k requires 0 <= k < |freq| => Leaf(freq[k].0, freq[k].1))
  }

  /** Total weight of the heap. */
  function Weight(h: Heap): nat
  {
    if |h| == 0 then 0 else Weight(h[..|h| - 1]) + h[|h| - 1].weight
  }

  /** All pairs held by the heap, entry after entry. */
  function AllPairs(h: Heap): Table
  {
    if |h| == 0 then [] else AllPairs(h[..|h| - 1]) + h[|h| - 1].pairs
  }

  /** The symbols held by the heap. */
  function AllSyms(h: Heap): seq<char>
  {
    Syms(AllPairs(h))
  }

  lemma SymsConcat(a: Table, b: Table)
    ensures Syms(a + b) == Syms(a) + Syms(b)
  {
  }

  lemma CodesConcat(a: Table, b: Table)
    ensures Codes(a + b) == Codes(a) + Codes(b)
  {
  }

  lemma {:induction false} WeightConcat(a: Heap, b: Heap)
    ensures Weight(a + b) == Weight(a) + Weight(b)
    decreases |b|
  {
    if |b| == 0 {
      assert a + b == a;
    } else {
      assert (a + b)[..|a + b| - 1] == a + b[..|b| - 1];
      WeightConcat(a, b[..|b| - 1]);
    }
  }

  lemma {:induction false} PairsConcat(a: Heap, b: Heap)
    ensures AllPairs(a + b) == AllPairs(a) + AllPairs(b)
    decreases |b|
  {
    if |b| == 0 {
      assert a + b == a;
    } else {
      var init := b[..|b| - 1];
      var last := b[|b| - 1];
      assert (a + b)[..|a + b| - 1] == a + init;
      assert (a + b)[|a + b| - 1] == last;
      PairsConcat(a, init);
      assert AllPairs(a + b) == AllPairs(a) + AllPairs(init) + last.pairs;
      assert AllPairs(b) == AllPairs(init) + last.pairs;
    }
  }

  /** Every code of `t` with the bit `b` put in front (the two `for pair in ...` loops). */
  function Prepend(b: bool, t: Table): (r: Table)
    ensures Syms(r) == Syms(t)
    ensures Codes(r) == Prefixed(b, Codes(t))
  {
    seq(|t|, k requires 0 <= k < |t| => Pair(t[k].sym, [b] + t[k].code))
  }

  /**
   * The entry pushed back after popping `right` and then `left`: '0' goes in
   * front of the first popped entry's codes, '1' in front of the second's.
   */
  function Merge(right: Node, left: Node): (m: Node)
    ensures m.weight == right.weight + left.weight
    ensures Syms(m.pairs) == Syms(right.pairs) + Syms(left.pairs)
    ensures Codes(m.pairs) == Branch(Codes(right.pairs), Codes(left.pairs))
  {
    var zeros := Prepend(false, right.pairs);
    var ones := Prepend(true, left.pairs);
    SymsConcat(zeros, ones);
    CodesConcat(zeros, ones);
    Node(right.weight + left.weight, zeros + ones)
  }

  /** The heap without its entry at `i`. */
  function Remove(h: Heap, i: nat): (r: Heap)
    requires i < |h|
    ensures |r| == |h| - 1
    ensures forall k :: 0 <= k < |r| ==> r[k] == h[if k < i then k else k + 1]
  {
    h[..i] + h[i + 1..]
  }

  /** Taking out the entry at `i` takes away its weight. */
  lemma RemoveWeight(h: Heap, i: nat)
    requires i < |h|
    ensures Weight(Remove(h, i)) + h[i].weight == Weight(h)
  {
    var a := h[..i];
    var c := h[i + 1..];
    assert Remove(h, i) == a + c;
    assert Weight(h) == Weight(a + [h[i]]) + Weight(c) by {
      SplitAt(h, i);
      WeightConcat(a + [h[i]], c);
    }
    assert Weight(a + [h[i]]) == Weight(a) + h[i].weight by {
      assert (a + [h[i]])[..|a|] == a;
    }
    WeightConcat(a, c);
  }

  /** Symbols of a concatenation, counted as a multiset. */
  lemma SymsMultiset(a: Table, b: Table)
    ensures multiset(Syms(a + b)) == multiset(Syms(a)) + multiset(Syms(b))
  {
    SymsConcat(a, b);
  }

  /** Taking out the entry at `i` takes away its symbols. */
  lemma RemoveSyms(h: Heap, i: nat)
    requires i < |h|
    ensures multiset(AllSyms(Remove(h, i))) + multiset(Syms(h[i].pairs)) == multiset(AllSyms(h))
  {
    var a := h[..i];
    var c := h[i + 1..];
    var pa := AllPairs(a);
    var pc := AllPairs(c);
    assert Remove(h, i) == a + c;
    assert AllPairs(h) == AllPairs(a + [h[i]]) + pc by {
      SplitAt(h, i);
      PairsConcat(a + [h[i]], c);
    }
    assert AllPairs(a + [h[i]]) == pa + h[i].pairs by {
      assert (a + [h[i]])[..|a|] == a;
    }
    PairsConcat(a, c);
    assert multiset(AllSyms(h)) == multiset(Syms(pa)) + multiset(Syms(h[i].pairs)) + multiset(Syms(pc)) by {
      SymsMultiset(pa + h[i].pairs, pc);
      SymsMultiset(pa, h[i].pairs);
    }
    assert multiset(AllSyms(a + c)) == multiset(Syms(pa)) + multiset(Syms(pc)) by {
      SymsMultiset(pa, pc);
    }
  }

  /** What every heap entry satisfies: its codes are prefix-free, and all non-empty once it has two pairs. */
  predicate NodeOk(n: Node)
  {
    && |n.pairs| >= 1
    && PrefixFree(Codes(n.pairs))
    && (|n.pairs| >= 2 ==> NonEmptyCodes(Codes(n.pairs)))
  }

  predicate HeapOk(h: Heap)
  {
    forall k :: 0 <= k < |h| ==> NodeOk(h[k])
  }

  /**
   * One round with a free choice: pop the entry at `i`, then the entry at
   * `j` of what is left, and push their merge.
   */
  function MergeAt(h: Heap, i: nat, j: nat): (r: Heap)
    requires i < |h| && j < |h| - 1
    ensures |r| == |h| - 1
    ensures r[|r| - 1] == Merge(h[i], h[if j < i then j else j + 1])
  {
    var rest := Remove(h, i);
    Remove(rest, j) + [Merge(h[i], rest[j])]
  }

  /**
   * A round is pop, pop, push: the heap afterwards holds every entry it had
   * except the two popped ones, plus their merge.
   */
  lemma MergeAtKeepsOthers(h: Heap, i: nat, j: nat)
    requires i < |h| && j < |h| - 1
    ensures var second := if j < i then j else j + 1;
      multiset(MergeAt(h, i, j)) + multiset{h[i], h[second]} ==
      multiset(h) + multiset{Merge(h[i], h[second])}
  {
    var second := if j < i then j else j + 1;
    var rest := Remove(h, i);
    var m := Merge(h[i], rest[j]);
    assert rest[j] == h[second];
    RemoveMultiset(h, i);
    RemoveMultiset(rest, j);
    assert multiset(MergeAt(h, i, j)) == multiset(Remove(rest, j)) + multiset{m};
  }

  /**
   * Whichever two entries a round pops, the heap shrinks by one, its total
   * weight and its multiset of symbols do not change, and every entry keeps
   * its codes prefix-free.
   */
  lemma MergeAtInvariant(h: Heap, i: nat, j: nat)
    requires i < |h| && j < |h| - 1
    requires HeapOk(h)
    ensures |MergeAt(h, i, j)| == |h| - 1
    ensures Weight(MergeAt(h, i, j)) == Weight(h)
    ensures multiset(AllSyms(MergeAt(h, i, j))) == multiset(AllSyms(h))
    ensures HeapOk(MergeAt(h, i, j))
  {
    MergeAtContents(h, i, j);
    MergeAtNodes(h, i, j);
  }

  lemma MergeAtContents(h: Heap, i: nat, j: nat)
    requires i < |h| && j < |h| - 1
    ensures Weight(MergeAt(h, i, j)) == Weight(h)
    ensures multiset(AllSyms(MergeAt(h, i, j))) == multiset(AllSyms(h))
  {
    MergeAtWeight(h, i, j);
    MergeAtSyms(h, i, j);
  }

  lemma MergeAtWeight(h: Heap, i: nat, j: nat)
    requires i < |h| && j < |h| - 1
    ensures Weight(MergeAt(h, i, j)) == Weight(h)
  {
    var rest := Remove(h, i);
    var rest2 := Remove(rest, j);
    var m := Merge(h[i], rest[j]);
    assert MergeAt(h, i, j) == rest2 + [m];
    assert m.weight == h[i].weight + rest[j].weight;
    RemoveWeight(h, i);
    RemoveWeight(rest, j);
    PushWeight(rest2, m);
  }

  /** Pushing an entry adds its weight. */
  lemma PushWeight(h: Heap, m: Node)
    ensures Weight(h + [m]) == Weight(h) + m.weight
  {
    assert (h + [m])[..|h|] == h;
  }

  lemma MergeAtSyms(h: Heap, i: nat, j: nat)
    requires i < |h| && j < |h| - 1
    ensures multiset(AllSyms(MergeAt(h, i, j))) == multiset(AllSyms(h))
  {
    var rest := Remove(h, i);
    var rest2 := Remove(rest, j);
    var m := Merge(h[i], rest[j]);
    assert MergeAt(h, i, j) == rest2 + [m];
    var mi := multiset(Syms(h[i].pairs));
    var mj := multiset(Syms(rest[j].pairs));
    assert multiset(Syms(m.pairs)) == mi + mj;
    RemoveSyms(h, i);
    RemoveSyms(rest, j);
    assert AllPairs(rest2 + [m]) == AllPairs(rest2) + m.pairs by {
      assert (rest2 + [m])[..|rest2|] == rest2;
    }
    SymsMultiset(AllPairs(rest2), m.pairs);
  }

  lemma MergeAtNodes(h: Heap, i: nat, j: nat)
    requires i < |h| && j < |h| - 1
    requires HeapOk(h)
    ensures HeapOk(MergeAt(h, i, j))
  {
    var rest := Remove(h, i);
    var m := Merge(h[i], rest[j]);
    assert HeapOk(rest);
    assert HeapOk(Remove(rest, j));
    assert NodeOk(m) by {
      assert NodeOk(h[i]) && NodeOk(rest[j]);
      BranchPrefixCode(Codes(h[i].pairs), Codes(rest[j].pairs));
    }
  }

  // ---------------------------------------------------------------------
  // The order heapq pops in

  /** Python's `<` on two codes written as strings of '0' and '1'. */
  predicate BitsLess(a: Bits, b: Bits)
  {
    if |a| == 0 then |b| > 0
    else if |b| == 0 then false
    else if a[0] != b[0] then !a[0]
    else BitsLess(a[1..], b[1..])
  }

  /** Python's `<` on two `[sym, code]` lists. */
  predicate PairLess(p: Pair, q: Pair)
  {
    p.sym < q.sym || (p.sym == q.sym && BitsLess(p.code, q.code))
  }

  /** Python's `<` on two lists of `[sym, code]` pairs: the first pair that differs decides, and a proper prefix is less. */
  predicate PairsLess(s: Table, t: Table)
  {
    if |s| == 0 then |t| > 0
    else if |t| == 0 then false
    else if s[0] != t[0] then PairLess(s[0], t[0])
    else PairsLess(s[1..], t[1..])
  }

  /** Python's `<` on two heap entries `[weight, [sym, code], ...]`. */
  predicate EntryLess(m: Node, n: Node)
  {
    m.weight < n.weight || (m.weight == n.weight && PairsLess(m.pairs, n.pairs))
  }

  lemma {:induction false} BitsLessIrreflexive(a: Bits)
    ensures !BitsLess(a, a)
  {
    if |a| > 0 {
      BitsLessIrreflexive(a[1..]);
    }
  }

  lemma {:induction false} BitsLessTransitive(a: Bits, b: Bits, c: Bits)
    requires BitsLess(a, b) && BitsLess(b, c)
    ensures BitsLess(a, c)
  {
    if |a| > 0 && a[0] == b[0] && b[0] == c[0] {
      BitsLessTransitive(a[1..], b[1..], c[1..]);
    }
  }

  lemma {:induction false} BitsLessTotal(a: Bits, b: Bits)
    ensures a == b || BitsLess(a, b) || BitsLess(b, a)
  {
    if |a| > 0 && |b| > 0 && a[0] == b[0] {
      BitsLessTotal(a[1..], b[1..]);
      HeadTail(a);
      HeadTail(b);
    }
  }

  lemma PairLessIrreflexive(p: Pair)
    ensures !PairLess(p, p)
  {
    BitsLessIrreflexive(p.code);
  }

  lemma PairLessTransitive(p: Pair, q: Pair, r: Pair)
    requires PairLess(p, q) && PairLess(q, r)
    ensures PairLess(p, r)
  {
    if p.sym == q.sym == r.sym {
      BitsLessTransitive(p.code, q.code, r.code);
    }
  }

  lemma PairLessTotal(p: Pair, q: Pair)
    ensures p == q || PairLess(p, q) || PairLess(q, p)
  {
    BitsLessTotal(p.code, q.code);
  }

  lemma {:induction false} PairsLessTransitive(s: Table, t: Table, u: Table)
    requires PairsLess(s, t) && PairsLess(t, u)
    ensures PairsLess(s, u)
  {
    if |s| > 0 {
      if s[0] != t[0] && t[0] != u[0] {
        PairLessTransitive(s[0], t[0], u[0]);
        if s[0] == u[0] {
          PairLessIrreflexive(s[0]);
        }
      } else if s[0] == t[0] && t[0] == u[0] {
        PairsLessTransitive(s[1..], t[1..], u[1..]);
      }
    }
  }

  lemma {:induction false} PairsLessTotal(s: Table, t: Table)
    ensures s == t || PairsLess(s, t) || PairsLess(t, s)
  {
    if |s| > 0 && |t| > 0 {
      if s[0] == t[0] {
        PairsLessTotal(s[1..], t[1..]);
        HeadTail(s);
        HeadTail(t);
      } else {
        PairLessTotal(s[0], t[0]);
      }
    }
  }

  /** Python's comparison of heap entries is a strict total order, so a heap has exactly one least entry. */
  lemma EntryLessOrder(m: Node, n: Node, o: Node)
    ensures !EntryLess(m, m)
    ensures EntryLess(m, n) && EntryLess(n, o) ==> EntryLess(m, o)
    ensures m == n || EntryLess(m, n) || EntryLess(n, m)
  {
    PairsLessIrreflexive(m.pairs);
    if EntryLess(m, n) && EntryLess(n, o) && m.weight == n.weight == o.weight {
      PairsLessTransitive(m.pairs, n.pairs, o.pairs);
    }
    PairsLessTotal(m.pairs, n.pairs);
  }

  lemma {:induction false} PairsLessIrreflexive(s: Table)
    ensures !PairsLess(s, s)
  {
    if |s| > 0 {
      PairsLessIrreflexive(s[1..]);
    }
  }

  /** An entry below the least entry of `h` is below every entry of `h`. */
  lemma BelowLeast(h: Heap, j: nat, x: Node)
    requires j < |h|
    requires forall k :: 0 <= k < |h| ==> !EntryLess(h[k], h[j])
    requires EntryLess(x, h[j])
    ensures forall k :: 0 <= k < |h| ==> !EntryLess(h[k], x)
  {
    forall k | 0 <= k < |h| ensures !EntryLess(h[k], x) {
      EntryLessOrder(h[k], x, h[j]);
    }
  }

  /** Position of the entry `heappop` returns: no entry of the heap is less than it in Python's order. */
  function PopIndex(h: Heap): (i: nat)
    requires |h| > 0
    ensures i < |h|
    ensures forall k :: 0 <= k < |h| ==> !EntryLess(h[k], h[i])
    ensures forall k :: 0 <= k < |h| ==> h[i].weight <= h[k].weight
  {
    if |h| == 1 then
      EntryLessOrder(h[0], h[0], h[0]);
      0
    else
      var init := h[..|h| - 1];
      var j := PopIndex(init);
      if EntryLess(h[|h| - 1], h[j]) then
        BelowLeast(init, j, h[|h| - 1]);
        EntryLessOrder(h[|h| - 1], h[|h| - 1], h[|h| - 1]);
        |h| - 1
      else
        j
  }

  /** The popped entry is THE least entry: it is below every entry that differs from it. */
  lemma PopsLeast(h: Heap)
    requires |h| > 0
    ensures forall k :: 0 <= k < |h| ==> h[k] == h[PopIndex(h)] || EntryLess(h[PopIndex(h)], h[k])
  {
    var i := PopIndex(h);
    forall k | 0 <= k < |h| ensures h[k] == h[i] || EntryLess(h[i], h[k]) {
      EntryLessOrder(h[k], h[i], h[i]);
    }
  }

  /**
   * The two entries a round of `Loop` pops are a lightest entry of the heap
   * and a lightest entry of what remains, so no entry left behind is lighter
   * than either.
   */
  lemma RoundPopsLightest(h: Heap)
    requires |h| >= 2
    ensures var i := PopIndex(h);
      var rest := Remove(h, i);
      var j := PopIndex(rest);
      && (forall k :: 0 <= k < |h| ==> h[i].weight <= h[k].weight)
      && (forall k :: 0 <= k < |h| && k != i ==> rest[j].weight <= h[k].weight)
  {
    var i := PopIndex(h);
    var rest := Remove(h, i);
    var j := PopIndex(rest);
    forall k | 0 <= k < |h| && k != i ensures rest[j].weight <= h[k].weight {
      var kk := if k < i then k else k - 1;
      assert rest[kk] == h[k];
    }
  }

  /**
   * The `while len(heap) > 1` loop. `last` is the entry pushed by the most
   * recent round, whose pairs are `right[1:] + left[1:]` after the codes were
   * prepended; it stays `None` when the loop body never runs.
   */
  function Loop(h: Heap, last: Option<Node>): (r: Option<Node>)
    ensures |h| <= 1 ==> r == last
    ensures |h| >= 2 ==> r.Some?
    decreases |h|
  {
    if |h| <= 1 then last
    else
      var i := PopIndex(h);
      var rest := Remove(h, i);
      var j := PopIndex(rest);
      Loop(MergeAt(h, i, j), Some(Merge(h[i], rest[j])))
  }

  /**
   * Once the loop has run at least once, the last merged entry holds every
   * symbol of the heap it started from, carries its total weight, and has at
   * least two pairs whose codes are non-empty and prefix-free.
   */
  lemma {:induction false} LoopResult(h: Heap, last: Option<Node>)
    requires HeapOk(h) && |h| >= 2
    ensures var r := Loop(h, last);
      && r.Some?
      && r.value.weight == Weight(h)
      && multiset(Syms(r.value.pairs)) == multiset(AllSyms(h))
      && |r.value.pairs| >= 2
      && PrefixFree(Codes(r.value.pairs))
      && NonEmptyCodes(Codes(r.value.pairs))
    decreases |h|
  {
    var i := PopIndex(h);
    var rest := Remove(h, i);
    var j := PopIndex(rest);
    var m := Merge(h[i], rest[j]);
    var next := MergeAt(h, i, j);
    MergeAtInvariant(h, i, j);
    assert Loop(h, last) == Loop(next, Some(m));
    if |next| == 1 {
      assert next == [m];
      assert next[..0] == [];
      assert AllPairs(next) == m.pairs;
      assert |m.pairs| >= 2 by {
        assert NodeOk(h[i]) && NodeOk(rest[j]);
      }
      assert NodeOk(next[0]);
    } else {
      LoopResult(next, Some(m));
    }
  }

  /**
   * build_huffman_tree: the pairs of the last merge, as the dictionary's
   * items, or `None` when fewer than two items mean the loop never ran and
   * line 28 reads the unbound `right` and `left`.
   */
  function BuildHuffman(freq: seq<(char, nat)>): (r: Option<Table>)
    ensures r.Some? <==> |freq| >= 2
  {
    match Loop(InitialHeap(freq), None)
    case None => None
    case Some(m) => Some(m.pairs)
  }

  /** Every leaf holds one pair with the empty code, which is trivially a prefix code. */
  lemma InitialHeapOk(freq: seq<(char, nat)>)
    ensures HeapOk(InitialHeap(freq))
  {
    var h := InitialHeap(freq);
    forall k | 0 <= k < |h| ensures NodeOk(h[k]) {
      assert Codes(h[k].pairs) == [[]];
    }
  }

  lemma {:induction false} InitialHeapContents(freq: seq<(char, nat)>)
    ensures Weight(InitialHeap(freq)) == Total(freq)
    ensures AllSyms(InitialHeap(freq)) == Keys(freq)
    decreases |freq|
  {
    var h := InitialHeap(freq);
    if |freq| > 0 {
      var init := freq[..|freq| - 1];
      InitialHeapContents(init);
      assert h[..|h| - 1] == InitialHeap(init);
      SymsConcat(AllPairs(InitialHeap(init)), h[|h| - 1].pairs);
      assert Keys(freq) == Keys(init) + [freq[|freq| - 1].0];
    }
  }

  /**
   * With at least two items, the dictionary build_huffman_tree returns has
   * exactly the symbols of `freq`, each once, and its codes are non-empty and
   * prefix-free; with fewer it fails.
   */
  lemma BuildHuffmanTable(freq: seq<(char, nat)>)
    requires NoDup(Keys(freq))
    ensures BuildHuffman(freq).None? <==> |freq| < 2
    ensures BuildHuffman(freq).Some? ==>
      var t := BuildHuffman(freq).value;
      && multiset(Syms(t)) == multiset(Keys(freq))
      && NoDup(Syms(t))
      && (forall c :: c in Syms(t) <==> c in Keys(freq))
      && PrefixFree(Codes(t))
      && NonEmptyCodes(Codes(t))
  {
    if |freq| >= 2 {
      var h := InitialHeap(freq);
      InitialHeapOk(freq);
      LoopResult(h, None);
      InitialHeapContents(freq);
      var t := BuildHuffman(freq).value;
      NoDupPermutation(Keys(freq), Syms(t));
      forall c ensures c in Syms(t) <==> c in Keys(freq) {
        assert c in Syms(t) <==> c in multiset(Syms(t));
        assert c in Keys(freq) <==> c in multiset(Keys(freq));
      }
    }
  }

  /** The weight of the final entry is the total of the frequencies, which for counted text is its length. */
  lemma BuildHuffmanWeight(freq: seq<(char, nat)>)
    requires |freq| >= 2
    ensures Loop(InitialHeap(freq), None).Some?
    ensures Loop(InitialHeap(freq), None).value.weight == Total(freq)
  {
    var h := InitialHeap(freq);
    InitialHeapOk(freq);
    LoopResult(h, None);
    InitialHeapContents(freq);
  }

  // ---------------------------------------------------------------------
  // A tie, worked through: the counts of "bbaacc"

  /**
   * Round one: all three leaves weigh 2, so Python's order decides on the
   * symbol; 'a' is popped first and gets '0', then 'b' gets '1'.
   */
  lemma TieRoundOne()
    ensures Loop(InitialHeap([('b', 2), ('a', 2), ('c', 2)]), None) ==
      Loop([Leaf('c', 2), Node(4, [Pair('a', [false]), Pair('b', [true])])],
           Some(Node(4, [Pair('a', [false]), Pair('b', [true])])))
  {
    var a := Leaf('a', 2);
    var b := Leaf('b', 2);
    var c := Leaf('c', 2);
    var h0 := InitialHeap([('b', 2), ('a', 2), ('c', 2)]);
    assert h0 == [b, a, c];
    assert PopIndex(h0) == 1 by {
      assert EntryLess(a, b) && EntryLess(a, c);
    }
    assert PopIndex(Remove(h0, 1)) == 0 by {
      assert Remove(h0, 1) == [b, c];
      assert EntryLess(b, c);
    }
    assert Merge(a, b) == Node(4, [Pair('a', [false]), Pair('b', [true])]) by {
      assert Prepend(false, a.pairs) == [Pair('a', [false])] by {
        assert [false] + [] == [false];
      }
      assert Prepend(true, b.pairs) == [Pair('b', [true])] by {
        assert [true] + [] == [true];
      }
    }
    assert MergeAt(h0, 1, 0) == [c, Merge(a, b)];
  }

  /** Round two: 'c' (weight 2) is lighter than the merged entry (weight 4), so it gets '0'. */
  lemma TieRoundTwo()
    ensures Loop([Leaf('c', 2), Node(4, [Pair('a', [false]), Pair('b', [true])])],
                 Some(Node(4, [Pair('a', [false]), Pair('b', [true])]))) ==
      Some(Node(6, [Pair('c', [false]), Pair('a', [true, false]), Pair('b', [true, true])]))
  {
    var c := Leaf('c', 2);
    var m1 := Node(4, [Pair('a', [false]), Pair('b', [true])]);
    var h1 := [c, m1];
    assert PopIndex(h1) == 0 by {
      assert EntryLess(c, m1);
    }
    assert Remove(h1, 0) == [m1];
    assert Merge(c, m1) == Node(6, [Pair('c', [false]), Pair('a', [true, false]), Pair('b', [true, true])]) by {
      assert Prepend(false, c.pairs) == [Pair('c', [false])] by {
        assert [false] + [] == [false];
      }
      assert Prepend(true, m1.pairs) == [Pair('a', [true, false]), Pair('b', [true, true])] by {
        assert [true] + [false] == [true, false];
        assert [true] + [true] == [true, true];
      }
    }
    assert PopIndex([m1]) == 0;
    assert MergeAt(h1, 0, 0) == [Merge(c, m1)];
    assert Loop(h1, Some(m1)) == Loop([Merge(c, m1)], Some(Merge(c, m1)));
  }

  /** For the counts of "bbaacc" the dictionary maps 'c' to 0, 'a' to 10 and 'b' to 11. */
  lemma TieBreakExample()
    ensures BuildHuffman([('b', 2), ('a', 2), ('c', 2)]) ==
      Some([Pair('c', [false]), Pair('a', [true, false]), Pair('b', [true, true])])
  {
    TieRoundOne();
    TieRoundTwo();
  }
}
