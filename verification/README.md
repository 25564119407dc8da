# Huffman text encoder and decoder — a Dafny model

This project models a small Huffman coding program. Its `Encoder` counts the letters of a
text and builds a Huffman tree over them. The two branches of every merge are marked with
two marker characters, `G` and `g`, so each letter's codeword is a string of `G`s and `g`s.
The encoder then replaces every letter of the text by its codeword and copies all other
characters unchanged. It prints its table as `k v k v ...`. The `Decoder` builds the inverse
table, from codeword to letter, either by inverting the encoder's dictionary or by parsing
the printed table. It decodes greedily. A non-letter is copied. At a letter, it takes the
shortest prefix of the remaining input that is a codeword.

The model is written with pure functions over immutable values:

- `text.dfy` (`Text`): the character classes (`isalpha`, the regular-expression class `\w`),
  the markers, and prefix-freeness of a codeword table.
- `outcomes.dfy` (`Outcomes`): the three exceptions the program can raise, as a `Result`
  type.
- `dicts.dfy` (`Dicts`): Python dictionaries, as a map together with its iteration order.
  This covers `d[k] = v`, `dict(pairs)` where the last pair for a key wins, and `items()`.
- `huffman_tree.dfy` (`HuffmanTree`): `Encoder.from_frequencies`. The heap is a sequence of
  nodes, each holding a weight and the (symbol, codeword) pairs below it.
- `encoder.dfy` (`Encoder`): `Encoder.from_string`, `encode` and `__str__`.
- `decoder.dfy` (`Decoder`): `Decoder.from_string` (the `findall` of `(\w) ([Gg]+)`),
  `from_char2code_map`, `_get_head` and `decode`.
- `round_trip.dfy` (`RoundTrip`): the laws that tie them together.
  - Decoding undoes encoding for any prefix-free table whose codewords are non-empty and start
    with a letter (as the `G`/`g` codewords of two or more letters do).
  - Parsing the printed table gives the decoder the same table as inverting the dictionary,
    when the symbols are word characters and the codewords non-empty runs of `G`/`g`.
  - The `encode` command's end-to-end behaviour, for texts with one distinct letter and for
    texts with more.

Exceptions become `Failure` values:

- `EmptyInput` is the final `heappop` on an empty heap.
- `MissingCode(c)` is the `KeyError` in `encode`.
- `UnresolvableHead(head)` is the `RuntimeError` in `_get_head`.

## Model

| member | source | states |
|---|---|---|
| HuffmanTree.FromFrequencies | main.py:84-100 | Fails (with the empty-heap error) exactly when the frequency map is empty. Otherwise the code table has exactly the symbols of the frequency map. Every codeword is a string of the two markers. With distinct markers no codeword is a prefix of another. With two or more symbols every codeword is non-empty. A single symbol gets the empty codeword. |
| HuffmanTree.Combine | main.py:91-99 | The merge loop followed by the last pop fails only on an empty heap. It leaves the lone node of a one-node heap untouched. The resulting root carries the total weight and exactly the multiset of symbols of the whole heap. It keeps every node well formed: non-empty, codewords over the markers, prefix-free, and non-empty codewords once merged. |
| HuffmanTree.Step | main.py:92-98 | One round of the loop shrinks the heap by one node. It preserves the total weight and the multiset of symbols, and it preserves well-formedness of every node. The pushed node covers at least two symbols. |
| HuffmanTree.ExtractMin | main.py:92-93 | A pop returns a node of least weight and a heap holding exactly the other nodes, as a multiset. Totals and symbols are split between the two. |
| HuffmanTree.MergeProperties | main.py:94-98 | Prefixing the first-popped node's codewords with `hi_char` and the second's with `lo_char` gives a node whose weight is the sum and whose symbols are the union. Its codewords stay over the markers and become non-empty. Distinct markers keep the merged codewords prefix-free. |
| HuffmanTree.LeavesProperties | main.py:89-90 | The initial heap has one node per symbol, each holding only that symbol with the empty codeword. Its total weight is the sum of the frequencies and its symbols are the dictionary's keys. |
| HuffmanTree.Root | main.py:89-99 | For a non-empty frequency map the final root weighs the sum of all frequencies and holds each symbol exactly once. |
| Encoder.Frequencies | main.py:108-111 | The counted map has exactly the letters of the text as keys, and each maps to its number of occurrences. |
| Encoder.FromString | main.py:103-112 | Fails exactly when the text has no letter. Otherwise its table maps exactly the letters of the text, to prefix-free codewords over `G`/`g`. These are non-empty with two or more letters, and the single codeword is empty with one. |
| Encoder.Encode | main.py:118-129 | Succeeds exactly when every letter of the text has a codeword. A failure names a letter of the text that has none. A text without letters is returned unchanged. |
| Encoder.EncodeAppend | main.py:124-129 | Encoding a concatenation is the concatenation of the encodings, failures included. |
| Encoder.EncodeChar | main.py:124-128 | A letter becomes its codeword, or a missing-code failure when it has none, and any other character is copied. Together with `EncodeAppend` this fixes the encoding of every text. |
| Encoder.EncodeEmptyCodes | main.py:124-129 | When every codeword is empty, the encoding is the text with its letters removed and everything else kept in order. |
| Encoder.Serialize | main.py:131-133 | The printed table is empty exactly for an empty table. It opens with the first key, a space and that key's codeword. Its inverse is the parser: see `RoundTrip.ParseSerialized`. |
| Decoder.MarkerRun | main.py:27 | The greedy `[Gg]+` takes the longest run of markers at the front. |
| Decoder.FindAll | main.py:27-29 | Every match found pairs a word character with a non-empty run of `G`/`g`. |
| Decoder.FromString | main.py:22-30 | The parsed table never has the empty codeword. Its keys are runs of markers and its values word characters. Every codeword found in the text is a key. Each key maps to the symbol matched with it, taken from the last match of that codeword, and conversely every last match is an entry of the table. |
| Decoder.FromCodeMap | main.py:33-38 | Inverting the encoder's table keeps every codeword. Each inverted entry maps back to a symbol that has that codeword. When the table is injective, each codeword maps to its own symbol. |
| Decoder.Scan | main.py:49-57 | The loop of `_get_head`, starting from any accumulated head, stops at the first extension that is a codeword. If the input runs out first, it reports the whole accumulated text. |
| Decoder.GetHead | main.py:44-57 | On success the head plus the rest is the input, the head is a codeword, and no shorter prefix is one. On failure no prefix of the input is a codeword, and the error carries the whole input. |
| Decoder.GetHeadShortest | main.py:49-57 | Conversely, when `s[..n]` is the shortest codeword prefix, `_get_head` returns exactly `s[..n]` and `s[n..]`. |
| Decoder.Decode | main.py:59-72 | The decoded text is never longer than the input. Failures are unresolvable heads only. A text with no letter decodes to itself, even when the empty string is a codeword. |
| Dicts.FromPairs | main.py:29-30 | `dict(pairs)` has exactly the pairs' keys. For each key the value is that of its last pair. With distinct keys the iteration order is the pairs' order. |
| Outcomes.ConcatAssociative | main.py:123-129 | Accumulating partial results is associative, with the first failure winning. |
| Text.PrefixFreeIsInjective | main.py:37 | A prefix-free code assigns distinct codewords, so inverting it loses no symbol. |
| RoundTrip.HeadIsCodeword | main.py:44-57 | With a prefix-free code, `_get_head` on `code + t` returns exactly `code` and `t`. |
| RoundTrip.DecodeEncode | main.py:59-72 | Decoding undoes encoding. Take a prefix-free table whose codewords are non-empty and start with a letter, and any decoder table that inverts it. Then decoding the encoded text gives back the original text, for every text whose letters all have codewords. |
| RoundTrip.FromCodeMapInverts | main.py:33-38 | The table built by `from_char2code_map` is such an inverse. |
| RoundTrip.ManySymbols | main.py:150-156 | For a prefix-free table of letters with non-empty codewords over `G`/`g`, both round trips hold: decode after encode, and parse after print. |
| RoundTrip.FindAllJoin | main.py:131-133 | Parsing the printed entries finds every entry again, in order. This holds when symbols are word characters and codewords non-empty runs of markers. |
| RoundTrip.ParseSerialized | main.py:27-29 | Parsing the printed table finds exactly the dictionary's items again, in iteration order. This holds when symbols are word characters and codewords non-empty runs of markers. |
| RoundTrip.SerializeParse | main.py:131-133 | Parsing the printed table yields the same decoder table as inverting the encoder's dictionary. |
| RoundTrip.OneSymbol | main.py:89-99 | A one-letter table has the empty codeword. Its inverse then has the empty string as a key, and its printed form `k ` parses to the empty table. |
| RoundTrip.OneSymbolText | main.py:150-156 | With a one-letter table, encoding a text drops its letters, and decoding that gives the letter-free text back unchanged. |
| RoundTrip.SelfCheck | main.py:150-156 | For any text with a letter, the `encode` command's table encodes it. With two or more distinct letters, the decoder built from the table decodes the encoding back to the text, and the printed table parses back to that decoder's table. With one distinct letter, the inverted table has the empty codeword, the printed table parses to nothing, and the decoded text is the input with its letters removed. |

## Left out

- `main` (main.py:136-162): argument handling, reading standard input, joining lines and
  `strip()`, and printing are I/O. The `encode` branch's computation is stated by
  `RoundTrip.SelfCheck`.
- The `encoding` properties and the constructors only store or return the dictionary; the
  model uses the dictionary itself.
- `heapq` internals: the heap is a sequence, a pop takes the first node of least weight, and
  a push appends. Python breaks weight ties by comparing the node lists, which decides only
  which of several equally light nodes is popped. The model proves its properties for this
  one tie-break; they do not depend on the choice, but it is not shown that the same
  codewords come out.
- Dictionary iteration order: Python 2 iterates in hash order. The model iterates in
  insertion order. No stated property depends on the order, except the order of the printed
  entries.
- `isalpha` and `\w` are modelled over ASCII: letters, and letters, digits and `_`. Python 2
  byte strings under the default locale behave this way; Unicode text is not modelled.
- `hi_char` and `lo_char` are single characters in the model. Python accepts any strings,
  but the program only ever passes `G` and `g`.
- Optimality of the Huffman code (minimal weighted length) is not stated.
- Decoder.Decode: requires that the empty string is not a codeword unless the text has no
  letter. With an empty codeword and a text containing a letter, the source never leaves its
  loop, because `_get_head` returns the empty head without consuming input. On a text without
  letters `_get_head` is never called, and the model decodes it as the source does. The
  contract does not characterise which inputs fail beyond the error kind. The decodings of
  encoded texts are characterised by `RoundTrip.DecodeEncode` and `RoundTrip.OneSymbolText`;
  other successful decodings are not characterised.
- Encoder.Encode: a failure names some letter without a codeword, not necessarily the first
  one as the source's `KeyError` does.
- Decoder.FindAll: states the shape of each match; that it finds every leftmost match is
  given by its definition and by `RoundTrip.FindAllJoin` for printed tables, not by a
  separate specification of regular-expression matching.
- A text with a single distinct letter gets the empty codeword, so its encoding drops the
  letters and the `encode` command prints a decoded text without them.
  `RoundTrip.OneSymbolText` and `RoundTrip.SelfCheck` state this behaviour; the model does
  not correct it.
