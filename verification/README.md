# Anagram dictionary, modelled in Dafny

This project models `DictionaryImpl` from `Dictionary.cpp`, a word-anagram index.
`insert(word)` normalises the word: it keeps only the ASCII letters and lower-cases them.
It then sorts the letters into a canonical key (the `orderedWord`).
It picks one of `TABLE_SIZE` = 50000 buckets with a weighted-sum hash of the key.
It then files the normalised word in the bucket's node for that key, or in a new node at the end of the bucket.
`lookup(letters, callback)` normalises and sorts the query the same way.
It scans the key's bucket and reports every word of the matching node, in stored order.

The model has four modules, one per concern of the source file:

- `Normalization` (normalization.dfy): `isalpha`/`tolower` in the C locale, the specification function `Normalize`, and `RemoveNonLetters`. `RemoveNonLetters` rewrites a character array in place with the source's two-position loop.
- `Sorting` (sorting.dfy): `std::sort` is specified only by its result, a sorted permutation. `Sort` is one such permutation. `SortedUnique` proves there is no other.
- `Hashing` (hashing.dfy): `hashFunc` as a loop (`HashFunc`) proved equal to the function `Hash`. It also bounds the key lengths for which the source's 32-bit accumulator cannot overflow.
- `Dictionary` (dictionary.dfy): the `Node` record and the class `DictionaryImpl`. The class has a 50000-element array of bucket sequences and `Insert` and `Lookup` methods. A ghost field `History` lists every word passed to `Insert`.
  - The object invariant `Valid()` holds the table invariant: every node is in the bucket its key hashes to, keys are distinct within a bucket, and every node is well formed. It also ties each node's words to `History`.
  - `Lookup` is proved to return exactly `Anagrams(History, letters)`. That is the normal form of every inserted word that rearranges the query's letters, in insertion order and with duplicates.

The callback is modelled as the sequence of words `Lookup` emits. A null callback is modelled by `hasCallback == false`.

`insert` stores the word as `removeNonLetters` left it (Dictionary.cpp:45, 56, 64), not the caller's original text.
So a lookup reports normal forms: an inserted `"Cat!"` is reported as `"cat"`.

## Model

| member | source | states |
|---|---|---|
| `Normalization.IsAlpha` | Dictionary.cpp:100 | a character is a letter exactly when it is an ASCII upper-case or lower-case letter |
| `Normalization.ToLower` | Dictionary.cpp:100-102 | an upper-case letter maps to the lower-case letter at the same place in the alphabet ('D' to 'd'); a lower-case letter and every non-letter are unchanged |
| `Normalization.Normalize` | Dictionary.cpp:95-107 | the normal form: the input's letters, lower-cased, in their original order, every other character dropped |
| `Normalization.NormalizeSpec` | Dictionary.cpp:95-107 | the normalised string is no longer than the input and holds only lower-case letters |
| `Normalization.NormalizeAppend` | Dictionary.cpp:97-105 | normalisation works character by character in order: normalising a concatenation concatenates the normal forms |
| `Normalization.NormalizeLength` | Dictionary.cpp:97-106 | the normal form has exactly as many characters as the input has letters: no letter is lost, no other character kept |
| `Normalization.NormalizeLowerIsIdentity` | Dictionary.cpp:95-107 | a string of lower-case letters is left as it is |
| `Normalization.NormalizeIdempotent` | Dictionary.cpp:95-107 | applying the normalisation to its own output changes nothing |
| `Normalization.NormalizeSnoc` | Dictionary.cpp:98-105 | one more input character extends the normal form by that character lower-cased when it is a letter, and by nothing otherwise |
| `Normalization.RewriteStep` | Dictionary.cpp:98-105 | one iteration of the loop keeps the written prefix equal to the normal form of the characters read so far and leaves the unread suffix untouched |
| `Normalization.RemoveNonLetters` | Dictionary.cpp:95-107 | the in-place rewrite leaves, in the first `len` cells, exactly the normal form of the original contents |
| `Sorting.Sort` | Dictionary.cpp:47 | the canonical ordering of a word's letters, defined by insertion into a sorted prefix |
| `Sorting.InsertSortedSpec` | Dictionary.cpp:47 | placing a character into a sorted word keeps it sorted and adds exactly that character |
| `Sorting.SortSpec` | Dictionary.cpp:47 | the canonical ordering is sorted and is a permutation of its input (same multiset, same length) |
| `Sorting.SortedUnique` | Dictionary.cpp:47 | two sorted words with the same multiset of letters are equal, so any sort yields the same key |
| `Sorting.SortEqualIffPermutation` | Dictionary.cpp:46-47 | two words sort to the same key if and only if they hold the same multiset of letters |
| `Hashing.WeightedSum` | Dictionary.cpp:34-38 | the accumulated total is never negative, so the modulo cannot give a negative index |
| `Hashing.Hash` | Dictionary.cpp:39-40 | the bucket index is below `TABLE_SIZE` |
| `Hashing.HashFunc` | Dictionary.cpp:32-41 | the accumulating loop returns the bucket `Hash(name)`, an index in [0, 50000) |
| `Hashing.WeightedSumBound` | Dictionary.cpp:34-38 | for a key of n lower-case letters the total is at most 61 * n * (n + 1) |
| `Hashing.AccumulatorFitsInt32` | Dictionary.cpp:34-37 | for keys of at most 5000 lower-case letters every intermediate total fits in a 32-bit `int`, so the source computes the modelled bucket |
| `Dictionary.Node` | Dictionary.cpp:24-28 | one bucket entry: a canonical key and the words filed under it, in insertion order |
| `Dictionary.OrderedWord` | Dictionary.cpp:46-47 | a word's canonical key: its normal form with the letters sorted |
| `Dictionary.OrderedWordEmpty` | Dictionary.cpp:45-49 | a key is empty exactly when the word has no letters |
| `Dictionary.OrderedWordIsLower` | Dictionary.cpp:46-47 | keys consist of lower-case letters only |
| `Dictionary.SameKeyIffAnagram` | Dictionary.cpp:46-47 | two words get the same key if and only if their normal forms are rearrangements of each other |
| `Dictionary.AnagramsSpec` | Dictionary.cpp:69-93 | a lookup's answer has at most one entry per inserted word, and every entry is a non-empty rearrangement of the query's letters |
| `Dictionary.AnagramsMembers` | Dictionary.cpp:69-93 | a string is in the answer if and only if the query has letters and it is the normal form of an inserted word that is an anagram of the query |
| `Dictionary.InsertThenAnagrams` | Dictionary.cpp:43-66 | after one more insert, the answer to every query is the old answer, followed by the new word's normal form exactly when it is an anagram of the query |
| `Dictionary.AnagramsRespectEquivalence` | Dictionary.cpp:74-80 | queries with the same letters up to case, punctuation and order get the same answer |
| `Dictionary.FiledIsAnagrams` | Dictionary.cpp:78-92 | the words filed under the query's key are exactly the answer owed to the query |
| `Dictionary.FiledEmpty` | Dictionary.cpp:82-92 | nothing is filed under a key that no inserted word has |
| `Dictionary.EmptyTableRepresentsNothing` | Dictionary.cpp:18-29 | a table of empty buckets represents the empty history |
| `Dictionary.PresentKeyAnswers` | Dictionary.cpp:84-90 | in a represented table, the node carrying the query's key holds exactly the answer owed to the query |
| `Dictionary.AbsentKeyAnswers` | Dictionary.cpp:82-92 | in a represented table, if the key's bucket has no node for the key, the answer owed is empty |
| `Dictionary.FindKey` | Dictionary.cpp:52-59 | the scan stops at the first node with the key, or at the end of the bucket when none has it |
| `Dictionary.AddToBucket` | Dictionary.cpp:52-65 | a bucket without the key gets a new node holding just the word at its end; otherwise only the first node with the key changes, by appending the word |
| `Dictionary.InsertInto` | Dictionary.cpp:43-66 | a word without letters leaves the table unchanged; otherwise no bucket other than the key's bucket changes |
| `Dictionary.FiledAfterInsert` | Dictionary.cpp:56-64 | one more insert files its normal form under its own key, at the end, and under no other key |
| `Dictionary.ReplaceBucketPreserves` | Dictionary.cpp:51-65 | changing only the key's bucket, keeping old keys in place and adding a node for the key, preserves the representation |
| `Dictionary.InsertNoLettersPreserves` | Dictionary.cpp:45-49 | inserting a word without letters keeps the unchanged table representing the longer history |
| `Dictionary.JoinBucket` | Dictionary.cpp:54-57 | appending the word to the existing node keeps the bucket invariant and the node's words equal to those filed under its key |
| `Dictionary.InsertJoinPreserves` | Dictionary.cpp:54-57 | the join case of insert preserves the table invariant and the representation |
| `Dictionary.NewNodeWellFormed` | Dictionary.cpp:62-64 | the node created for a word with letters has a non-empty key and one word, normalised and sorting to that key |
| `Dictionary.NewNodeBucketInvariant` | Dictionary.cpp:65 | appending a well-formed node whose key hashes to the bucket and is absent from it keeps keys placed, distinct and well formed |
| `Dictionary.NewNodeBucketHolds` | Dictionary.cpp:62-65 | the new node holds exactly the words filed under its key |
| `Dictionary.InsertNewNodePreserves` | Dictionary.cpp:61-65 | the new-node case of insert preserves the table invariant and the representation |
| `Dictionary.InsertPreservesRepresents` | Dictionary.cpp:43-66 | every insert preserves the table invariant and keeps the table representing the inserted words |
| `Dictionary.EmitAll` | Dictionary.cpp:86-89 | the callback receives every word of the node, each once, in stored order |
| `Dictionary.DictionaryImpl.Valid` | Dictionary.cpp:29 | the object invariant: the table has 50000 buckets, every node sits in the bucket its key hashes to with distinct, well-formed keys, and the nodes hold exactly the inserted words with letters, filed under their keys |
| `Dictionary.DictionaryImpl.constructor` | Dictionary.cpp:18-29 | a new dictionary has 50000 empty buckets, an empty history and satisfies the invariant |
| `Dictionary.DictionaryImpl.Insert` | Dictionary.cpp:43-67 | insert keeps the invariant, records the word in the history, and changes the table exactly as `InsertInto` says |
| `Dictionary.DictionaryImpl.Lookup` | Dictionary.cpp:69-93 | lookup changes nothing and emits nothing without a callback; otherwise it emits exactly the inserted anagrams of the query, in insertion order with duplicates |

## Left out

- The `Dictionary` wrapper (Dictionary.cpp:114-132) only allocates, frees and forwards to `DictionaryImpl`, so it is not modelled.
- Locales: `isalpha` and `tolower` are the ASCII "C"-locale versions. Non-ASCII characters are never letters. The undefined behaviour of these functions on negative `char` values is not modelled.
- Hashing.HashFunc: the accumulator is an unbounded integer, not the source's 32-bit `int`. `AccumulatorFitsInt32` shows the two agree for keys of up to 5000 letters. For longer keys the source can overflow, which is undefined behaviour, and the model does not capture that.
- The function-pointer callback becomes the returned sequence of emitted words. Whether the callback is null becomes the flag `hasCallback`.
- Dictionary.DictionaryImpl.Lookup: the contract does not say that a lookup without a callback reads nothing. Dafny method contracts have no way to state which state a method reads.
- The internals of `std::sort` are not modelled. Any algorithm producing a sorted permutation gives the same key, by `SortedUnique`.
- `erase` on the rewritten string becomes the returned length `len`. The caller takes the first `len` characters; the array is not shrunk.
- The 50000-bucket layout is kept as the modulus and the array length only. Memory use and running time are not modelled.
