/**
 * Codewords and code tables shared by both table builders and the codec.
 *
 * Both Python builders hold a codeword as a string of the characters '0' and
 * '1'; here it is a sequence of booleans, `false` for '0' and `true` for '1'.
 * A code table is the list of (symbol, codeword) pairs the Huffman builder
 * turns into its dictionary; Dafny's `a <= b` on sequences is "a is a prefix
 * of b".
 */
module Codewords {

  type Bits = seq<bool>

  /** One `[sym, code]` pair of the Huffman heap, or one dictionary item. */
  datatype Pair = Pair(sym: char, code: Bits)

  type Table = seq<Pair>

  function Syms(t: Table): (s: seq<char>)
    ensures |s| == |t|
    ensures forall k :: 0 <= k < |t| ==> s[k] == t[k].sym
  {
    seq(|t|, k requires 0 <= k < |t| => t[k].sym)
  }

  function Codes(t: Table): (cs: seq<Bits>)
    ensures |cs| == |t|
    ensures forall k :: 0 <= k < |t| ==> cs[k] == t[k].code
  {
    seq(|t|, k requires 0 <= k < |t| => t[k].code)
  }

  /** No codeword is a prefix of a codeword at another position (so, in particular, no two are equal). */
  predicate PrefixFree(cs: seq<Bits>)
  {
    forall i, j :: 0 <= i < |cs| && 0 <= j < |cs| && i != j ==> !(cs[i] <= cs[j])
  }

  /** Every codeword has at least one bit. */
  predicate NonEmptyCodes(cs: seq<Bits>)
  {
    forall k :: 0 <= k < |cs| ==> |cs[k]| > 0
  }

  /** Puts `b` in front of every codeword. */
  function Prefixed(b: bool, cs: seq<Bits>): (r: seq<Bits>)
    ensures |r| == |cs|
    ensures forall k :: 0 <= k < |cs| ==> r[k] == [b] + cs[k]
  {
    seq(|cs|, k requires 0 <= k < |cs| => [b] + cs[k])
  }

  lemma ConsPrefix(b: bool, x: Bits, y: Bits)
    ensures ([b] + x <= [b] + y) <==> (x <= y)
  {
    if [b] + x <= [b] + y {
      assert x == ([b] + x)[1..] && y == ([b] + y)[1..];
      assert x == y[..|x|];
    }
    if x <= y {
      assert ([b] + y)[..|x| + 1] == [b] + y[..|x|];
    }
  }

  /**
   * The two halves of one split or merge: every codeword of the first group
   * gains a leading '0' and every codeword of the second a leading '1'.
   */
  function Branch(zeros: seq<Bits>, ones: seq<Bits>): (r: seq<Bits>)
    ensures |r| == |zeros| + |ones|
  {
    Prefixed(false, zeros) + Prefixed(true, ones)
  }

  /** Two prefix-free groups give a prefix-free whole, all of whose codewords are non-empty. */
  lemma BranchPrefixCode(zeros: seq<Bits>, ones: seq<Bits>)
    ensures NonEmptyCodes(Branch(zeros, ones))
    ensures PrefixFree(zeros) && PrefixFree(ones) ==> PrefixFree(Branch(zeros, ones))
  {
    var r := Branch(zeros, ones);
    if PrefixFree(zeros) && PrefixFree(ones) {
      forall i, j | 0 <= i < |r| && 0 <= j < |r| && i != j ensures !(r[i] <= r[j]) {
        if i < |zeros| && j < |zeros| {
          ConsPrefix(false, zeros[i], zeros[j]);
        } else if i >= |zeros| && j >= |zeros| {
          ConsPrefix(true, ones[i - |zeros|], ones[j - |zeros|]);
        } else {
          assert r[i][0] != r[j][0];
        }
      }
    }
  }
}
