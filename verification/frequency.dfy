/**
 * Symbol statistics of an input string, shared by both builders.
 *
 * The Shannon-Fano builder walks the input left to right, keeps every
 * character the first time it meets it and asks `data.count(ch)` for it
 * (shannon_fano.py:37-45); the Huffman driver fills a `defaultdict(int)`
 * with `freq_lib[ch] += 1` (huffman.py:73-75). Both end with the same
 * table: one item per distinct character, in order of first appearance,
 * holding that character's number of occurrences.
 */
module Frequency {
  import opened Common

  /** Number of occurrences of `c` in `s`. */
  function Count(s: string, c: char): (n: nat)
    ensures n <= |s|
    ensures n > 0 <==> c in s
  {
    if |s| == 0 then 0
    else
      var init := s[..|s| - 1];
      assert s == init + [s[|s| - 1]];
      Count(init, c) + (if s[|s| - 1] == c then 1 else 0)
  }

  /** The distinct characters of `s`, collected left to right. */
  function Distinct(s: string): (d: string)
    ensures NoDup(d)
    ensures forall c :: c in d <==> c in s
    ensures |d| <= |s|
  {
    if |s| == 0 then []
    else
      var init := s[..|s| - 1];
      var prev := Distinct(init);
      assert s == init + [s[|s| - 1]];
      if s[|s| - 1] in prev then prev else prev + [s[|s| - 1]]
  }

  /** The counting table: `(character, occurrences)` for every distinct character, first appearance first. */
  function Frequencies(s: string): (f: seq<(char, nat)>)
    ensures NoDup(Keys(f))
    ensures forall c :: c in Keys(f) <==> c in s
    ensures forall k :: 0 <= k < |f| ==> f[k].1 == Count(s, f[k].0) && f[k].1 > 0
  {
    var d := Distinct(s);
    var f := seq(|d|, k requires 0 <= k < |d| => (d[k], Count(s, d[k])));
    assert Keys(f) == d;
    f
  }

  function Keys(f: seq<(char, nat)>): (ks: seq<char>)
    ensures |ks| == |f|
    ensures forall k :: 0 <= k < |f| ==> ks[k] == f[k].0
  {
    seq(|f|, k requires 0 <= k < |f| => f[k].0)
  }

  /** Sum of the counts of a table. */
  function Total(f: seq<(char, nat)>): nat
  {
    if |f| == 0 then 0 else Total(f[..|f| - 1]) + f[|f| - 1].1
  }

  lemma {:induction false} TotalConcat(f: seq<(char, nat)>, g: seq<(char, nat)>)
    ensures Total(f + g) == Total(f) + Total(g)
    decreases |g|
  {
    if |g| == 0 {
      assert f + g == f;
    } else {
      assert (f + g)[..|f + g| - 1] == f + g[..|g| - 1];
      TotalConcat(f, g[..|g| - 1]);
    }
  }

  /** Position of key `c` in the table, or `|f|` when it is absent (the dictionary lookup). */
  function KeyIndex(f: seq<(char, nat)>, c: char): (i: nat)
    ensures i <= |f|
    ensures i < |f| <==> c in Keys(f)
    ensures i < |f| ==> f[i].0 == c
    ensures forall k :: 0 <= k < i ==> f[k].0 != c
  {
    var i := FirstIndex(Keys(f), c);
    assert forall k :: 0 <= k < i ==> Keys(f)[k] != c;
    i
  }

  lemma CountSnoc(s: string, x: char, c: char)
    ensures Count(s + [x], c) == Count(s, c) + (if x == c then 1 else 0)
  {
    assert (s + [x])[..|s|] == s;
  }

  lemma DistinctSnoc(s: string, x: char)
    ensures Distinct(s + [x]) == if x in s then Distinct(s) else Distinct(s) + [x]
  {
    assert (s + [x])[..|s|] == s;
  }

  lemma FirstIndexSnoc(s: string, x: char, c: char)
    requires c in s + [x]
    ensures FirstIndex(s + [x], c) == if c in s then FirstIndex(s, c) else |s|
  {
    var i := FirstIndex(s + [x], c);
    if c in s {
      var j := FirstIndex(s, c);
      assert (s + [x])[j] == c;
      assert s[..] == (s + [x])[..|s|];
    } else {
      assert (s + [x])[|s|] == c;
    }
  }

  /** Items of the table come in order of first appearance in the input. */
  lemma {:induction false} DistinctFirstAppearance(s: string)
    ensures forall i, j :: 0 <= i < j < |Distinct(s)| ==>
              FirstIndex(s, Distinct(s)[i]) < FirstIndex(s, Distinct(s)[j])
  {
    if |s| > 0 {
      var init := s[..|s| - 1];
      var x := s[|s| - 1];
      assert s == init + [x];
      DistinctFirstAppearance(init);
      DistinctSnoc(init, x);
      var d := Distinct(s);
      forall i, j | 0 <= i < j < |d| ensures FirstIndex(s, d[i]) < FirstIndex(s, d[j]) {
        FirstIndexSnoc(init, x, d[i]);
        FirstIndexSnoc(init, x, d[j]);
        assert d[i] in Distinct(init);
      }
    }
  }

  /** One item of the table after appending `x`, which sits at position `i`. */
  lemma FrequencyAfterSnoc(s: string, x: char, i: nat, k: nat)
    requires i < |Distinct(s)| && Distinct(s)[i] == x
    requires k < |Distinct(s)|
    ensures k < |Frequencies(s + [x])| && i < |Frequencies(s)|
    ensures Frequencies(s + [x])[k] == Frequencies(s)[i := (x, Frequencies(s)[i].1 + 1)][k]
  {
    var d := Distinct(s);
    var f := Frequencies(s);
    var g := Frequencies(s + [x]);
    assert Distinct(s + [x]) == d by {
      assert x in s by {
        assert x in d;
      }
      DistinctSnoc(s, x);
    }
    assert g[k] == (d[k], Count(s, d[k]) + (if x == d[k] then 1 else 0)) by {
      CountSnoc(s, x, d[k]);
    }
    assert f[k] == (d[k], Count(s, d[k]));
    if k != i {
      assert d[k] != x by {
        assert NoDup(d);
      }
    }
  }

  /** Appending a character already present bumps its item. */
  lemma FrequenciesSnocPresent(s: string, x: char)
    requires x in s
    ensures KeyIndex(Frequencies(s), x) < |Frequencies(s)|
    ensures var f := Frequencies(s);
      var i := KeyIndex(f, x);
      Frequencies(s + [x]) == f[i := (x, f[i].1 + 1)]
  {
    var d := Distinct(s);
    var f := Frequencies(s);
    var g := Frequencies(s + [x]);
    var i := KeyIndex(f, x);
    assert i < |f| && d[i] == x by {
      assert x in d;
      var i0 :| 0 <= i0 < |d| && d[i0] == x;
      assert f[i0].0 == x;
    }
    assert |g| == |f| by {
      DistinctSnoc(s, x);
    }
    var h := f[i := (x, f[i].1 + 1)];
    forall k | 0 <= k < |g| ensures g[k] == h[k] {
      FrequencyAfterSnoc(s, x, i, k);
    }
  }

  /** The item at position `k` of the table, read off the definition. */
  lemma FrequencyItem(s: string, k: nat)
    requires k < |Distinct(s)|
    ensures k < |Frequencies(s)|
    ensures Frequencies(s)[k] == (Distinct(s)[k], Count(s, Distinct(s)[k]))
  {
  }

  /** Appending a new character adds an item with count one. */
  lemma FrequenciesSnocAbsent(s: string, x: char)
    requires x !in s
    ensures Frequencies(s + [x]) == Frequencies(s) + [(x, 1)]
  {
    var d := Distinct(s);
    var f := Frequencies(s);
    var g := Frequencies(s + [x]);
    assert Distinct(s + [x]) == d + [x] by {
      DistinctSnoc(s, x);
    }
    assert |g| == |d| + 1 && |f| == |d|;
    forall k | 0 <= k < |g| ensures g[k] == (f + [(x, 1)])[k] {
      FrequencyItem(s + [x], k);
      if k < |d| {
        FrequencyItem(s, k);
        CountSnoc(s, x, d[k]);
        assert d[k] != x by {
          assert d[k] in s;
        }
      } else {
        CountSnoc(s, x, x);
      }
    }
  }

  lemma {:induction false} TotalUpdate(f: seq<(char, nat)>, i: nat, e: (char, nat))
    requires i < |f|
    ensures Total(f[i := e]) == Total(f) - f[i].1 + e.1
    decreases |f|
  {
    var g := f[i := e];
    if i < |f| - 1 {
      assert g[..|g| - 1] == f[..|f| - 1][i := e];
      TotalUpdate(f[..|f| - 1], i, e);
    } else {
      assert g[..|g| - 1] == f[..|f| - 1];
    }
  }

  /** The counts of the table add up to the length of the input. */
  lemma {:induction false} FrequenciesTotal(s: string)
    ensures Total(Frequencies(s)) == |s|
  {
    if |s| > 0 {
      var init := s[..|s| - 1];
      var x := s[|s| - 1];
      assert s == init + [x];
      FrequenciesTotal(init);
      var f := Frequencies(init);
      if x in init {
        FrequenciesSnocPresent(init, x);
        var i := KeyIndex(f, x);
        TotalUpdate(f, i, (x, f[i].1 + 1));
      } else {
        FrequenciesSnocAbsent(init, x);
        assert (f + [(x, 1)])[..|f|] == f;
      }
    }
  }

  /** The counting loop of huffman.py:73-75: look the character up, then bump or insert it. */
  method CountFrequencies(text: string) returns (freq: seq<(char, nat)>)
    ensures freq == Frequencies(text)
    ensures Keys(freq) == Distinct(text)
    ensures forall k :: 0 <= k < |freq| ==> freq[k].1 == Count(text, freq[k].0)
    ensures Total(freq) == |text|
  {
    freq := [];
    var n := 0;
    while n < |text|
      invariant n <= |text|
      invariant freq == Frequencies(text[..n])
    {
      var ch := text[n];
      assert text[..n + 1] == text[..n] + [ch];
      var i := KeyIndex(freq, ch);
      if i < |freq| {
        FrequenciesSnocPresent(text[..n], ch);
        freq := freq[i := (ch, freq[i].1 + 1)];
      } else {
        FrequenciesSnocAbsent(text[..n], ch);
        freq := freq + [(ch, 1)];
      }
      n := n + 1;
    }
    assert text[..n] == text;
    FrequenciesTotal(text);
  }
}
