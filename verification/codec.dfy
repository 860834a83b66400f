/**
 * Encoding and decoding with a code table: huffman_encode and
 * huffman_decode of huffman.py:33-63, which hand the work to the `bitarray`
 * library's `encode` and `decode`.
 *
 * Encoding concatenates the codeword of every character in order and fails
 * on a character the table does not define. Decoding refuses a table that is
 * not a prefix code (an empty codeword, or a codeword that begins another),
 * then repeatedly strips the one codeword that begins the remaining bits; it
 * fails when no codeword does, which includes trailing bits that do not
 * complete a codeword.
 */
module Codec {
  import opened Common
  import opened Codewords
  import opened Frequency
  import opened Huffman
  import opened ShannonFano

  /** Position of the first pair for `c` (the dictionary lookup), or `|t|` when there is none. */
  function SymIndex(t: Table, c: char): (i: nat)
    ensures i <= |t|
    ensures i < |t| <==> c in Syms(t)
    ensures i < |t| ==> t[i].sym == c
    ensures forall k :: 0 <= k < i ==> t[k].sym != c
  {
    var i := FirstIndex(Syms(t), c);
    assert forall k :: 0 <= k < i ==> Syms(t)[k] != c;
    i
  }

  /** `encoded_text.encode(huffman_dict, text)`. */
  function Encode(text: string, t: Table): (r: Option<Bits>)
    ensures r.Some? <==> forall c :: c in text ==> c in Syms(t)
  {
    if |text| == 0 then Some([])
    else
      var i := SymIndex(t, text[0]);
      var rest := Encode(text[1..], t);
      assert forall c :: c in text <==> c == text[0] || c in text[1..];
      if i == |t| || rest.None? then None else Some(t[i].code + rest.value)
  }

  /** What the decoding tree of `bitarray` demands: every codeword non-empty and none the beginning of another. */
  predicate IsPrefixCode(t: Table)
  {
    NonEmptyCodes(Codes(t)) && PrefixFree(Codes(t))
  }

  /** Position of the first pair whose codeword begins `bits`, or `|t|` when none does. */
  function MatchIndex(t: Table, bits: Bits): (i: nat)
    ensures i <= |t|
    ensures i < |t| ==> t[i].code <= bits
    ensures forall k :: 0 <= k < i ==> !(t[k].code <= bits)
  {
    if |t| == 0 then 0
    else if t[0].code <= bits then 0
    else 1 + MatchIndex(t[1..], bits)
  }

  /**
   * The decoding walk: strip the first codeword that begins the bits, emit its
   * symbol, repeat. Every decoded character is a symbol of the table, and
   * since codewords are non-empty there are at most as many as there are bits.
   */
  function DecodeWith(bits: Bits, t: Table): (r: Option<string>)
    requires NonEmptyCodes(Codes(t))
    ensures |bits| == 0 ==> r == Some([])
    ensures r.Some? ==> |r.value| <= |bits|
    ensures r.Some? ==> forall c :: c in r.value ==> c in Syms(t)
    decreases |bits|
  {
    if |bits| == 0 then Some([])
    else
      var i := MatchIndex(t, bits);
      if i == |t| then None
      else
        assert |Codes(t)[i]| > 0;
        assert Syms(t)[i] == t[i].sym;
        match DecodeWith(bits[|t[i].code|..], t)
        case None => None
        case Some(rest) => Some([t[i].sym] + rest)
  }

  /** `encoded_text.decode(huffman_dict)`, joined into a string. */
  function Decode(bits: Bits, t: Table): (r: Option<string>)
    ensures !IsPrefixCode(t) ==> r.None?
    ensures |bits| == 0 && IsPrefixCode(t) ==> r == Some([])
  {
    if IsPrefixCode(t) then DecodeWith(bits, t) else None
  }

  /** Encoding distributes over concatenation of texts. */
  lemma {:induction false} EncodeConcat(a: string, b: string, t: Table)
    ensures Encode(a + b, t) ==
      if Encode(a, t).Some? && Encode(b, t).Some?
      then Some(Encode(a, t).value + Encode(b, t).value)
      else None
    decreases |a|
  {
    if |a| == 0 {
      assert a + b == b;
      if Encode(b, t).Some? {
        assert [] + Encode(b, t).value == Encode(b, t).value;
      }
    } else {
      assert (a + b)[0] == a[0];
      assert (a + b)[1..] == a[1..] + b;
      EncodeConcat(a[1..], b, t);
      var i := SymIndex(t, a[0]);
      if i < |t| && Encode(a[1..], t).Some? && Encode(b, t).Some? {
        var x := Encode(a[1..], t).value;
        var y := Encode(b, t).value;
        assert t[i].code + (x + y) == (t[i].code + x) + y;
      }
    }
  }

  /** A one-character text encodes to that character's codeword. */
  lemma EncodeSingle(c: char, t: Table)
    ensures Encode([c], t) == if SymIndex(t, c) < |t| then Some(t[SymIndex(t, c)].code) else None
  {
    assert [c][1..] == [];
    if SymIndex(t, c) < |t| {
      assert t[SymIndex(t, c)].code + [] == t[SymIndex(t, c)].code;
    }
  }

  /** Sum of the codeword lengths of the characters of `text`, counted from the back. */
  function CodeLength(text: string, t: Table): nat
    requires forall c :: c in text ==> c in Syms(t)
  {
    if |text| == 0 then 0
    else
      var last := text[|text| - 1];
      CodeLength(text[..|text| - 1], t) + |t[SymIndex(t, last)].code|
  }

  /** The encoded length is the sum of the codeword lengths. */
  lemma {:induction false} EncodeLength(text: string, t: Table)
    requires forall c :: c in text ==> c in Syms(t)
    ensures Encode(text, t).Some?
    ensures |Encode(text, t).value| == CodeLength(text, t)
    decreases |text|
  {
    if |text| > 0 {
      var init := text[..|text| - 1];
      var last := text[|text| - 1];
      assert text == init + [last];
      assert forall c :: c in init ==> c in text;
      EncodeLength(init, t);
      EncodeConcat(init, [last], t);
      EncodeSingle(last, t);
    }
  }

  /** Two codewords that both begin the same bits are one the beginning of the other. */
  lemma PrefixesComparable(a: Bits, b: Bits, s: Bits)
    requires a <= s && b <= s && |a| <= |b|
    ensures a <= b
  {
    assert a == s[..|a|] && b == s[..|b|];
    assert b[..|a|] == s[..|a|];
  }

  /** In a prefix code, the only codeword that begins `code + rest` is `code` itself. */
  lemma MatchIsUnique(t: Table, i: nat, rest: Bits)
    requires IsPrefixCode(t)
    requires i < |t|
    ensures MatchIndex(t, t[i].code + rest) == i
  {
    var bits := t[i].code + rest;
    assert t[i].code <= bits;
    var m := MatchIndex(t, bits);
    if m != i {
      assert m < i;
      assert Codes(t)[m] == t[m].code && Codes(t)[i] == t[i].code;
      if |t[m].code| <= |t[i].code| {
        PrefixesComparable(t[m].code, t[i].code, bits);
      } else {
        PrefixesComparable(t[i].code, t[m].code, bits);
      }
      assert false;
    }
  }

  /** Decoding an encoded text gives back the text, for any prefix code that defines all its characters. */
  lemma {:induction false} DecodeEncode(text: string, t: Table)
    requires IsPrefixCode(t)
    requires forall c :: c in text ==> c in Syms(t)
    ensures Encode(text, t).Some?
    ensures Decode(Encode(text, t).value, t) == Some(text)
    decreases |text|
  {
    if |text| > 0 {
      var i := SymIndex(t, text[0]);
      assert forall c :: c in text[1..] ==> c in text;
      DecodeEncode(text[1..], t);
      var rest := Encode(text[1..], t).value;
      var bits := t[i].code + rest;
      assert Encode(text, t) == Some(bits);
      MatchIsUnique(t, i, rest);
      assert |Codes(t)[i]| > 0;
      assert bits[|t[i].code|..] == rest;
      HeadTail(text);
    }
  }

  /**
   * Conversely, whatever a dictionary (distinct symbols) decodes re-encodes to
   * exactly the bits it came from: decoding inverts encoding on every input it
   * accepts.
   */
  lemma {:induction false} EncodeDecode(bits: Bits, t: Table)
    requires NoDup(Syms(t))
    requires Decode(bits, t).Some?
    ensures Encode(Decode(bits, t).value, t) == Some(bits)
    decreases |bits|
  {
    if |bits| > 0 {
      var i := MatchIndex(t, bits);
      assert |Codes(t)[i]| > 0;
      var code := t[i].code;
      var tail := bits[|code|..];
      var s := Decode(bits, t).value;
      assert Decode(tail, t).Some?;
      EncodeDecode(tail, t);
      assert s == [t[i].sym] + Decode(tail, t).value;
      assert Syms(t)[i] == t[i].sym;
      assert SymIndex(t, t[i].sym) == i by {
        var j := SymIndex(t, t[i].sym);
        assert Syms(t)[j] == Syms(t)[i];
      }
      assert s[1..] == Decode(tail, t).value;
      assert bits == code + tail;
    }
  }

  /** Keys of the counting table are the distinct characters of the text. */
  lemma FrequencyKeys(s: string)
    ensures Keys(Frequencies(s)) == Distinct(s)
  {
  }

  /**
   * The Huffman pipeline of huffman_main_func: count, build, encode, decode.
   * With at least two distinct characters the text comes back unchanged;
   * with fewer the build fails.
   */
  lemma HuffmanRoundTrip(text: string)
    ensures BuildHuffman(Frequencies(text)).None? <==> |Distinct(text)| < 2
    ensures BuildHuffman(Frequencies(text)).Some? ==>
      var t := BuildHuffman(Frequencies(text)).value;
      && Encode(text, t).Some?
      && Decode(Encode(text, t).value, t) == Some(text)
  {
    var f := Frequencies(text);
    FrequencyKeys(text);
    BuildHuffmanTable(f);
    if |f| >= 2 {
      var t := BuildHuffman(f).value;
      DecodeEncode(text, t);
    }
  }

  /** The Shannon-Fano codes of a text, used as a dictionary, decode its encoding back to the text. */
  lemma ShannonFanoRoundTrip(data: string)
    requires |Distinct(data)| >= 2
    ensures Encode(data, SfTable(CompressData(data))).Some?
    ensures Decode(Encode(data, SfTable(CompressData(data))).value, SfTable(CompressData(data))) == Some(data)
  {
    var t := SfTable(CompressData(data));
    CompressDataCodes(data);
    CompressDataRecords(data);
    DecodeEncode(data, t);
  }
}
