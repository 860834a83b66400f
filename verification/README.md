# Shannon-Fano and Huffman coding, modelled in Dafny

A model of the coding core of the InformationTheory repository:

- the Shannon-Fano table builder of `shannon_fano.py`. `compress_data` tabulates each distinct character with its count and probability. It then stable-sorts the records by descending probability. `_encoder` splits the list recursively at the index `_splitter` chooses, appending '0' to the left part and '1' to the right part.
- the Huffman builder of `huffman.py` (`build_huffman_tree`). It repeatedly pops the two lightest heap entries, prepends '0' to the codes of the first and '1' to the codes of the second, and pushes back their merge.
- the codec (`huffman_encode`, `huffman_decode`). It concatenates codewords and parses a prefix code.
- the character-counting loop of `huffman_main_func`.

The files are:

- `common.dfy` (module `Common`): an `Option` type, duplicate-freedom and small sequence lemmas.
- `codewords.dfy` (`Codewords`): codewords as `seq<bool>` (`false` is '0'), code tables, prefix-freeness, and `Branch`, which puts '0' in front of one group of codewords and '1' in front of another.
- `frequency.dfy` (`Frequency`): occurrence counts, distinct characters in order of first appearance, and the counting loop.
- `shannon_fano.dfy` (`ShannonFano`): `_splitter`, `_encoder` (with the pure prefix recursion `SfCodes` it agrees with), the stable sort, and `compress_data`.
- `huffman.dfy` (`Huffman`): the heap as a sequence of entries, one merge round, the loop and the builder.
- `codec.dfy` (`Codec`): encoding, decoding, the round trips, and both pipelines end to end.

A call that raises in Python returns `None` in the model. `_encoder` mutates records in place; here it returns the list it leaves behind.

Three behaviours of the code worth stating:

- The first entry popped in a Huffman round gets '0' and the second gets '1'. `heappop` pops the least entry under Python's comparison of the lists `[weight, [sym, code], ...]`: weights first, then on a tie the pairs, so the symbols decide. For the text "bbaacc" this gives 'c' the code 0, 'a' 10 and 'b' 11.
- On a tie between the two candidate splits, `_splitter` keeps the later index, because only a strict `<` steps back.
- No builder has an empty-input error or a 1-bit code for a single symbol. `compress_data("")` returns `[]`, and a single character keeps the empty code. `build_huffman_tree` with fewer than two symbols fails: line 28 reads the unbound `right` and `left`.

## Model

| member | source | states |
|---|---|---|
| ShannonFano.Splitter | shannon_fano.py:74-95 | `_splitter` walks right while the prefix sum is below the suffix sum, then at each level on the way back steps back one index when that split is strictly better balanced; its result is at least `pointer` and inside the list |
| ShannonFano.SplitterFindsLastMinimiser | shannon_fano.py:85-95 | for positive probabilities, the index returned minimises `abs(sum(left) - sum(right))` over every split index from `pointer` on, and every later index is strictly worse, so a tie goes to the later index |
| ShannonFano.ExtendMinimiser | shannon_fano.py:88-93 | one level of the way back: from the last minimiser from `pointer + 1` on, the strict `abs(diff_1) < abs(diff_2)` comparison yields the last minimiser from `pointer` on |
| ShannonFano.SplitterBounds | shannon_fano.py:63-65 | with two or more positive probabilities `_splitter(p, 0) <= len(p) - 2`, so both parts of every split are non-empty and the recursion terminates |
| ShannonFano.Encoder | shannon_fano.py:52-72 | `_encoder` keeps the records in order and only changes codes: each record's new code is its old code followed by its codeword of the pure prefix recursion `SfCodes` (left part '0' then its own codes, right part '1' then its own codes) |
| ShannonFano.AppendBit | shannon_fano.py:66-71 | `for i in part: i.code += bit` keeps every record and appends the bit to its code only |
| ShannonFano.SplitIndex | shannon_fano.py:63-64 | `_splitter(probability=[i.probability for i in compressor], pointer=0)` on two or more positive records returns at most `len - 2`, so `part_1` and `part_2` are both non-empty |
| ShannonFano.EncoderJoin | shannon_fano.py:63-72 | the records of `part_1` (with '0' appended, then encoded) followed by those of `part_2` (with '1' appended, then encoded) carry exactly the codewords of one level of the prefix recursion |
| ShannonFano.EncoderOnlyAppends | shannon_fano.py:62-72 | `_encoder` never changes `original`, `count` or `probability`, and every record's old code is a prefix of its new code |
| ShannonFano.SfCodesPrefixCode | shannon_fano.py:62-72 | the codes of the prefix recursion are prefix-free, and with two or more records every code is non-empty |
| ShannonFano.SortByProbability | shannon_fano.py:47-48 | the sort returns a permutation of its input ordered by non-increasing probability |
| ShannonFano.InsertKeepsOrder | shannon_fano.py:47-48 | inserting one record keeps a list ordered by non-increasing probability |
| ShannonFano.SortIsStable | shannon_fano.py:47-48 | records of equal probability leave the sort in their input order, as Python's `sorted` is stable |
| ShannonFano.Tabulate | shannon_fano.py:37-45 | the loop of `compress_data` builds one record per distinct character in order of first appearance, with `count = data.count(ch)`, `probability = count / len(data)` (positive) and an empty code |
| ShannonFano.CompressData | shannon_fano.py:18-50 | `compress_data` returns as many records as `data` has distinct characters (one record for each of them: `CompressDataRecords`) |
| ShannonFano.CompressDataRecords | shannon_fano.py:37-50 | `compress_data` returns exactly one record per distinct character of `data` (no duplicates, nothing missing), whose count is that character's number of occurrences and whose probability is `count / len(data)` |
| ShannonFano.CompressDataTotals | shannon_fano.py:35-44 | the counts sum to `len(data)` and, for non-empty data, the probabilities sum to 1 |
| ShannonFano.CompressDataOrder | shannon_fano.py:47-48 | the result is ordered by non-increasing probability, with equal probabilities in order of the characters' first appearance |
| ShannonFano.CompressDataFields | shannon_fano.py:47-50 | the returned list is the sorted list with only the codes changed |
| ShannonFano.CompressDataSmall | shannon_fano.py:35-50 | empty data returns `[]`; data with one distinct character returns one record with probability 1 and an empty code, since `_encoder` does nothing for one record |
| ShannonFano.CompressDataCodes | shannon_fano.py:18-50 | with two or more distinct characters every final code is non-empty and no code is a prefix of another |
| ShannonFano.SortKeepsTotals | shannon_fano.py:47-48 | sorting keeps the count total and the probability sum |
| ShannonFano.ProbabilitySum | shannon_fano.py:40-41 | probabilities `count / n` add up to the total count over `n` |
| Frequency.Frequencies | huffman.py:73-75 | the filled `freq_lib` holds each character of the text exactly once, and nothing else, with its positive number of occurrences |
| Frequency.Count | shannon_fano.py:40 | `data.count(ch)` is positive exactly when `ch` occurs and is at most `len(data)` |
| Frequency.Distinct | shannon_fano.py:37-39 | the `processed` list holds each character of the input exactly once and nothing else |
| Frequency.DistinctFirstAppearance | shannon_fano.py:37-39 | characters are collected in order of their first appearance in the input |
| Frequency.FrequenciesSnocPresent | huffman.py:74-75 | `freq_lib[ch] += 1` for a character already present bumps its count by one and changes nothing else |
| Frequency.FrequenciesSnocAbsent | huffman.py:74-75 | `freq_lib[ch] += 1` for a new character adds it with count one at the end |
| Frequency.FrequenciesTotal | huffman.py:73-75 | the counts of the table sum to the length of the text |
| Frequency.CountFrequencies | huffman.py:73-75 | the counting loop yields, for each distinct character in order of first appearance, its number of occurrences, and the counts sum to `len(text)` |
| Huffman.Prepend | huffman.py:22-25 | putting a bit in front of every code keeps the symbols and gives every code that bit in front |
| Huffman.Merge | huffman.py:19-26 | the pushed entry weighs the sum of the two popped weights, holds the first entry's symbols then the second's, and its codes are the first entry's with '0' in front followed by the second's with '1' in front |
| Huffman.EntryLessOrder | huffman.py:16-20 | Python's `<` on heap entries (weight first, then the `[sym, code]` pairs in order, each compared by symbol and then by code as a string of '0' and '1', a proper prefix being less) is irreflexive, transitive and total, so a heap has exactly one least entry |
| Huffman.PopIndex | huffman.py:19-20 | `heappop` returns an entry that no entry of the heap is less than in Python's order, and so an entry of least weight |
| Huffman.PopsLeast | huffman.py:19-20 | the popped entry is less than every entry of the heap that differs from it, so where entries sit in the heap list does not change what is popped |
| Huffman.RoundPopsLightest | huffman.py:19-20 | the two entries a round pops are a lightest entry and a lightest entry of what remains |
| Huffman.RemoveWeight | huffman.py:19-20 | popping an entry takes exactly its weight out of the heap |
| Huffman.RemoveSyms | huffman.py:19-20 | popping an entry takes exactly its symbols out of the heap |
| Huffman.MergeAtInvariant | huffman.py:18-26 | whichever two entries a round pops, the heap shrinks by one, its total weight and multiset of symbols are unchanged, and every entry keeps prefix-free codes (non-empty once it has two pairs) |
| Huffman.MergeAt | huffman.py:19-26 | a round that pops the entry at `i` and then the entry at `j` of what remains (position `j` or `j + 1` of the heap) shrinks the heap by one and pushes the merge of those two entries |
| Huffman.MergeAtKeepsOthers | huffman.py:19-26 | pop, pop, push: as a multiset, the heap after the round is the heap before it without the two popped entries and with their merge, so every other entry survives unchanged |
| Huffman.Loop | huffman.py:18-26 | the `while len(heap) > 1` loop, popping what `heappop` pops, leaves no merge when the heap starts with at most one entry and produces one otherwise |
| Huffman.LoopResult | huffman.py:18-28 | after at least one round, the last merged entry carries the total weight and every starting symbol, has at least two pairs, and its codes are non-empty and prefix-free |
| Huffman.InitialHeap | huffman.py:15 | the starting heap has one leaf `[fq, [sym, ""]]` per dictionary item, in the dictionary's order |
| Huffman.InitialHeapOk | huffman.py:15 | every leaf holds one pair with the empty code, so the heap starts with prefix-free entries |
| Huffman.InitialHeapContents | huffman.py:15 | the starting heap weighs the frequency total and holds the dictionary's keys in order |
| Huffman.BuildHuffman | huffman.py:5-31 | `build_huffman_tree` succeeds exactly when there are at least two symbols |
| Huffman.BuildHuffmanTable | huffman.py:15-31 | with at least two symbols, the returned dictionary has exactly the keys of `freq_lib`, each once, and its codes are non-empty and prefix-free |
| Huffman.BuildHuffmanWeight | huffman.py:15-26 | the final merged entry weighs the total of the frequencies |
| Huffman.TieRoundOne | huffman.py:19-26 | for the counts b:2, a:2, c:2 the first round pops 'a' then 'b' (equal weights, so the symbols decide) and pushes `[4, ['a', '0'], ['b', '1']]` |
| Huffman.TieRoundTwo | huffman.py:19-26 | the second round pops 'c' (weight 2) before the merged entry (weight 4) and pushes `[6, ['c', '0'], ['a', '10'], ['b', '11']]` |
| Huffman.TieBreakExample | huffman.py:15-31 | for the counts of "bbaacc" the dictionary maps 'c' to 0, 'a' to 10 and 'b' to 11 |
| Codewords.BranchPrefixCode | huffman.py:22-26 | prepending '0' to one prefix-free group and '1' to another gives a prefix-free group of non-empty codewords |
| Codec.Encode | huffman.py:33-46 | encoding succeeds exactly when every character of the text is in the dictionary |
| Codec.EncodeConcat | huffman.py:44-45 | the encoding of a concatenation is the concatenation of the encodings |
| Codec.EncodeLength | huffman.py:44-45 | the encoded length is the sum of the codeword lengths of the text's characters |
| Codec.Decode | huffman.py:59-62 | decoding refuses a table that is not a prefix code and decodes no bits to the empty text |
| Codec.DecodeWith | huffman.py:59-61 | the decoding walk decodes no bits to the empty text, and what it decodes consists of symbols of the dictionary, at most one per bit |
| Codec.MatchIsUnique | huffman.py:59-62 | in a prefix code, the only codeword that begins `code + rest` is `code` itself |
| Codec.DecodeEncode | huffman.py:48-63 | for a prefix code that defines every character of the text, decoding the encoding gives back the text |
| Codec.EncodeDecode | huffman.py:48-63 | whatever a dictionary decodes re-encodes to exactly the bits it came from |
| Codec.HuffmanRoundTrip | huffman.py:73-86 | counting, building, encoding and decoding a text with at least two distinct characters gives the text back; with fewer, the build fails |

`Codec.ShannonFanoRoundTrip` combines `CompressDataCodes` with the codec. The codes `compress_data` returns, used as a dictionary, decode the encoding of the data back to the data. The program itself only prints those codes.

## Left out

- Floating-point arithmetic: probabilities are exact reals `count / len`. Rounding that could flip a near-tie in `abs(diff_1) < abs(diff_2)`, or change the sort order of nearly equal probabilities, is not modelled.
- The entropy printed by `shannon_fano_main_func` (`math.log2` on floats), and all `input`/`print` I/O of both main functions and of main.py.
- The sift operations of `heapify`, `heappush` and `heappop`: the heap is a plain sequence, and a pop takes its least entry under Python's list comparison, which is what `heappop` returns. Python's order is total (`EntryLessOrder`), so the least entry is the same wherever it sits. `MergeAtInvariant` also holds for any two entries a round might pop.
- `bitarray` internals and exception types. Encoding fails (`None`) on a character the dictionary lacks. Decoding fails on a table with an empty or non-prefix-free codeword, or on bits that do not parse, including trailing bits. The library's own check for an empty dictionary is not modelled separately.
- Huffman optimality and entropy bounds: the source claims neither.
- ShannonFano.Splitter: requires non-negative probabilities, and the lemmas about its result require positive ones. This matches every list `compress_data` builds. With a zero probability `_splitter` can return the last index, and `_encoder` would then recurse forever.
- ShannonFano.Encoder: requires positive probabilities for the same reason.
- Huffman.BuildHuffmanTable: requires the frequency items to have distinct keys, as the keys of a Python dictionary do.
- Codec.EncodeDecode: requires distinct symbols, as a dictionary's keys are.
- `Frequency.Frequencies` lists items in order of first appearance. This is the iteration order of the `defaultdict` and the order of `processed`.
