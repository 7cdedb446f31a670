/**
 The anagram dictionary (`DictionaryImpl`). Words are filed under their
 canonical key, the sorted normal form, in one of `TABLE_SIZE` buckets
 chosen by `Hash`. Each bucket is a sequence of nodes, one node per key,
 holding the normalised words with that key in insertion order.

 The table's meaning is given by the history of inserted words:
 `Represents(t, h)` says that table `t` answers every lookup the way the
 reference function `Anagrams(h, query)` does.
 */
module Dictionary {
  import opened Normalization
  import opened Sorting
  import opened Hashing

  /** One entry of a bucket: a canonical key and the words filed under it, in insertion order. */
  datatype Node = Node(orderedWord: string, permutations: seq<string>)

  /** The canonical key of a word: its normal form with the letters sorted. */
  function OrderedWord(w: string): string
  {
    Sort(Normalize(w))
  }

  /** A key is empty exactly when the word has no letters. */
  lemma OrderedWordEmpty(w: string)
    ensures OrderedWord(w) == [] <==> Normalize(w) == []
  {
    SortSpec(Normalize(w));
  }

  /** Keys consist of lower-case letters only. */
  lemma OrderedWordIsLower(w: string)
    ensures forall i :: 0 <= i < |OrderedWord(w)| ==> IsLower(OrderedWord(w)[i])
  {
    SortSpec(Normalize(w));
    NormalizeSpec(w);
    forall i | 0 <= i < |OrderedWord(w)|
      ensures IsLower(OrderedWord(w)[i])
    {
      assert OrderedWord(w)[i] in multiset(Normalize(w));
    }
  }

  /** Two words share a key iff their normal forms are rearrangements of each other. */
  lemma SameKeyIffAnagram(a: string, b: string)
    ensures OrderedWord(a) == OrderedWord(b) <==> multiset(Normalize(a)) == multiset(Normalize(b))
  {
    SortEqualIffPermutation(Normalize(a), Normalize(b));
  }

  // ---------------------------------------------------------------------
  // Reference behaviour, in terms of the history of inserted words

  /**
   What a lookup of `query` must emit after the words of `history` were
   inserted: the normal form of every inserted word that is a rearrangement
   of the query's letters, in insertion order, duplicates included; nothing
   for a query without letters.
   */
  function Anagrams(history: seq<string>, query: string): seq<string>
  {
    if history == [] || Normalize(query) == [] then
      []
    else
      var w := history[|history| - 1];
      Anagrams(history[..|history| - 1], query)
        + (if multiset(Normalize(w)) == multiset(Normalize(query)) then [Normalize(w)] else [])
  }

  /** A lookup's answer has at most one entry per inserted word, and every entry is a non-empty rearrangement of the query's letters. */
  lemma {:induction false} AnagramsSpec(history: seq<string>, query: string)
    ensures |Anagrams(history, query)| <= |history|
    ensures forall i :: 0 <= i < |Anagrams(history, query)| ==>
      Anagrams(history, query)[i] != [] && multiset(Anagrams(history, query)[i]) == multiset(Normalize(query))
  {
    if history != [] && Normalize(query) != [] {
      var p := history[..|history| - 1];
      AnagramsSpec(p, query);
      var r := Anagrams(history, query);
      forall i | 0 <= i < |r|
        ensures r[i] != [] && multiset(r[i]) == multiset(Normalize(query))
      {
        if i >= |Anagrams(p, query)| {
          assert |Normalize(query)| == |multiset(Normalize(query))| == |multiset(r[i])| == |r[i]|;
        }
      }
    }
  }

  /** Inserting one more word adds it at the end of every lookup that should find it, and to no other. */
  lemma InsertThenAnagrams(history: seq<string>, w: string, query: string)
    ensures Anagrams(history + [w], query) ==
      Anagrams(history, query) +
      (if Normalize(query) != [] && multiset(Normalize(w)) == multiset(Normalize(query)) then [Normalize(w)] else [])
  {
    assert (history + [w])[..|history|] == history;
  }

  /** An anagram of the query is normalised from a word of `history` iff it is from an earlier word, or from the last one. */
  lemma WitnessLast(history: seq<string>, query: string, x: string)
    requires history != []
    ensures (exists v :: v in history && Normalize(v) == x && multiset(x) == multiset(Normalize(query))) <==>
      (exists v :: v in history[..|history| - 1] && Normalize(v) == x && multiset(x) == multiset(Normalize(query))) ||
      (Normalize(history[|history| - 1]) == x && multiset(x) == multiset(Normalize(query)))
  {
    var p := history[..|history| - 1];
    var w := history[|history| - 1];
    assert history == p + [w];
    if exists v :: v in history && Normalize(v) == x && multiset(x) == multiset(Normalize(query)) {
      var v :| v in history && Normalize(v) == x && multiset(x) == multiset(Normalize(query));
      if v != w {
        assert v in p;
      }
    }
    if exists v :: v in p && Normalize(v) == x && multiset(x) == multiset(Normalize(query)) {
      var v :| v in p && Normalize(v) == x && multiset(x) == multiset(Normalize(query));
      assert v in history;
    }
  }

  /** The result of `Anagrams` is exactly the normal forms of the inserted words that are anagrams of the query. */
  lemma {:induction false} AnagramsMembers(history: seq<string>, query: string, x: string)
    ensures x in Anagrams(history, query) <==>
      Normalize(query) != [] &&
      exists w :: w in history && Normalize(w) == x && multiset(x) == multiset(Normalize(query))
  {
    if history != [] && Normalize(query) != [] {
      AnagramsMembers(history[..|history| - 1], query, x);
      WitnessLast(history, query, x);
    }
  }

  /** Lookups that differ only in case, punctuation or letter order give the same answer. */
  lemma {:induction false} AnagramsRespectEquivalence(history: seq<string>, q1: string, q2: string)
    requires multiset(Normalize(q1)) == multiset(Normalize(q2))
    ensures Anagrams(history, q1) == Anagrams(history, q2)
  {
    if history != [] {
      AnagramsRespectEquivalence(history[..|history| - 1], q1, q2);
      assert |Normalize(q1)| == |multiset(Normalize(q1))| == |Normalize(q2)|;
    }
  }

  /** The words of `history` filed under `key`: the normal forms whose key it is, in insertion order. */
  function Filed(history: seq<string>, key: string): seq<string>
  {
    if history == [] then
      []
    else
      var w := history[|history| - 1];
      Filed(history[..|history| - 1], key) + (if OrderedWord(w) == key then [Normalize(w)] else [])
  }

  /** Filing by key and collecting anagrams agree: the key alone decides the answer of a lookup. */
  lemma {:induction false} FiledIsAnagrams(history: seq<string>, query: string)
    requires Normalize(query) != []
    ensures Filed(history, OrderedWord(query)) == Anagrams(history, query)
  {
    if history != [] {
      FiledIsAnagrams(history[..|history| - 1], query);
      SameKeyIffAnagram(history[|history| - 1], query);
    }
  }

  /** Nothing is filed under a key that no inserted word has. */
  lemma {:induction false} FiledEmpty(history: seq<string>, key: string)
    requires forall n :: 0 <= n < |history| ==> OrderedWord(history[n]) != key
    ensures Filed(history, key) == []
  {
    if history != [] {
      FiledEmpty(history[..|history| - 1], key);
    }
  }

  // ---------------------------------------------------------------------
  // The table as a value and its invariant

  /** A node's shape: a non-empty key, at least one word, and every word normalised and sorting to the key. */
  ghost predicate WellFormed(node: Node) {
    && node.orderedWord != []
    && node.permutations != []
    && forall i :: 0 <= i < |node.permutations| ==>
         Normalize(node.permutations[i]) == node.permutations[i] && Sort(node.permutations[i]) == node.orderedWord
  }

  /** Bucket `b` of the table: its nodes' keys hash to `b`, are pairwise distinct, and every node is well formed. */
  ghost predicate BucketInvariant(bucket: seq<Node>, b: nat) {
    && (forall i :: 0 <= i < |bucket| ==> Hash(bucket[i].orderedWord) == b && WellFormed(bucket[i]))
    && (forall i, j :: 0 <= i < j < |bucket| ==> bucket[i].orderedWord != bucket[j].orderedWord)
  }

  /** The invariant the source's table keeps, bucket by bucket. */
  ghost predicate TableInvariant(t: seq<seq<Node>>) {
    |t| == TABLE_SIZE && forall b :: 0 <= b < |t| ==> BucketInvariant(t[b], b)
  }

  /** Every node of the bucket holds exactly the words of `history` filed under its key. */
  ghost predicate BucketHolds(bucket: seq<Node>, history: seq<string>) {
    forall i :: 0 <= i < |bucket| ==> bucket[i].permutations == Filed(history, bucket[i].orderedWord)
  }

  /** The node keyed `key` is somewhere in the bucket `key` hashes to. */
  ghost predicate Stored(t: seq<seq<Node>>, key: string)
    requires |t| == TABLE_SIZE
  {
    exists i :: 0 <= i < |t[Hash(key)]| && t[Hash(key)][i].orderedWord == key
  }

  /** Every inserted word with letters has a node for its key. */
  ghost predicate Complete(t: seq<seq<Node>>, history: seq<string>)
    requires |t| == TABLE_SIZE
  {
    forall n :: 0 <= n < |history| && Normalize(history[n]) != [] ==> Stored(t, OrderedWord(history[n]))
  }

  /**
   Table `t` holds exactly the words of `history`: it keeps the table
   invariant, each node's words are those filed under its key, and every
   key of an inserted word with letters has its node.
   */
  ghost predicate Represents(t: seq<seq<Node>>, history: seq<string>) {
    && TableInvariant(t)
    && (forall b :: 0 <= b < |t| ==> BucketHolds(t[b], history))
    && Complete(t, history)
  }

  /** The empty table holds the empty history. */
  lemma EmptyTableRepresentsNothing(t: seq<seq<Node>>)
    requires |t| == TABLE_SIZE && forall b :: 0 <= b < |t| ==> t[b] == []
    ensures Represents(t, [])
  {
  }

  /** A represented table answers a lookup whose key has a node with that node's words. */
  lemma PresentKeyAnswers(t: seq<seq<Node>>, history: seq<string>, query: string, i: nat)
    requires Represents(t, history) && Normalize(query) != []
    requires i < |t[Hash(OrderedWord(query))]| && t[Hash(OrderedWord(query))][i].orderedWord == OrderedWord(query)
    ensures t[Hash(OrderedWord(query))][i].permutations == Anagrams(history, query)
  {
    FiledIsAnagrams(history, query);
  }

  /** A represented table with no node for the query's key answers with nothing, and nothing is owed. */
  lemma AbsentKeyAnswers(t: seq<seq<Node>>, history: seq<string>, query: string)
    requires Represents(t, history) && Normalize(query) != []
    requires forall i :: 0 <= i < |t[Hash(OrderedWord(query))]| ==> t[Hash(OrderedWord(query))][i].orderedWord != OrderedWord(query)
    ensures Anagrams(history, query) == []
  {
    var key := OrderedWord(query);
    forall n | 0 <= n < |history|
      ensures OrderedWord(history[n]) != key
    {
      OrderedWordEmpty(query);
      OrderedWordEmpty(history[n]);
    }
    FiledEmpty(history, key);
    FiledIsAnagrams(history, query);
  }

  // ---------------------------------------------------------------------
  // Insertion as a function on the table

  /** The index of the first node keyed `key`, the position of the source's scan; `|bucket|` when there is none. */
  function FindKey(bucket: seq<Node>, key: string): (i: nat)
    ensures i <= |bucket|
    ensures i < |bucket| ==> bucket[i].orderedWord == key
    ensures forall j :: 0 <= j < i ==> bucket[j].orderedWord != key
  {
    if bucket == [] || bucket[0].orderedWord == key then
      0
    else
      var i := 1 + FindKey(bucket[1..], key);
      assert forall j :: 1 <= j < i ==> bucket[j] == bucket[1..][j - 1];
      i
  }

  /** Node `i` is the first node of the bucket keyed `key`. */
  ghost predicate FirstWithKey(bucket: seq<Node>, key: string, i: int) {
    0 <= i < |bucket| && bucket[i].orderedWord == key && forall j :: 0 <= j < i ==> bucket[j].orderedWord != key
  }

  /**
   How `insert` changes the bucket of `key`: the word is appended to the
   words of the first node with that key, or, when there is none, a new
   node holding just the word is appended at the end of the bucket.
   */
  function AddToBucket(bucket: seq<Node>, key: string, word: string): (r: seq<Node>)
    ensures (forall i :: 0 <= i < |bucket| ==> bucket[i].orderedWord != key) ==>
      r == bucket + [Node(key, [word])]
    ensures forall i :: FirstWithKey(bucket, key, i) ==>
      r == bucket[i := Node(key, bucket[i].permutations + [word])]
  {
    var i := FindKey(bucket, key);
    if i == |bucket| then
      bucket + [Node(key, [word])]
    else
      bucket[i := Node(key, bucket[i].permutations + [word])]
  }

  /**
   The whole table after `insert(w)`: unchanged when `w` has no letters,
   otherwise only the bucket of its key changes.
   */
  function InsertInto(t: seq<seq<Node>>, w: string): (r: seq<seq<Node>>)
    requires |t| == TABLE_SIZE
    ensures |r| == |t|
    ensures Normalize(w) == [] ==> r == t
    ensures forall b :: 0 <= b < |t| && b != Hash(OrderedWord(w)) ==> r[b] == t[b]
  {
    if Normalize(w) == [] then
      t
    else
      var key := OrderedWord(w);
      t[Hash(key) := AddToBucket(t[Hash(key)], key, Normalize(w))]
  }

  /** Filing one more word extends the words filed under its own key, and no other. */
  lemma FiledAfterInsert(history: seq<string>, w: string, key: string)
    ensures Filed(history + [w], key) ==
      Filed(history, key) + (if OrderedWord(w) == key then [Normalize(w)] else [])
  {
    assert (history + [w])[..|history|] == history;
  }

  /** A bucket without the new word's key still holds the right words once the history grows by that word. */
  lemma BucketHoldsUnaffected(bucket: seq<Node>, history: seq<string>, w: string)
    requires BucketHolds(bucket, history)
    requires forall i :: 0 <= i < |bucket| ==> bucket[i].orderedWord != OrderedWord(w)
    ensures BucketHolds(bucket, history + [w])
  {
    forall i | 0 <= i < |bucket|
      ensures bucket[i].permutations == Filed(history + [w], bucket[i].orderedWord)
    {
      FiledAfterInsert(history, w, bucket[i].orderedWord);
    }
  }

  /** Replacing one bucket by one that keeps every old key at its old index keeps every stored key stored. */
  lemma StoredKept(t: seq<seq<Node>>, hb: nat, nb: seq<Node>, key: string)
    requires |t| == TABLE_SIZE && hb < TABLE_SIZE && Stored(t, key)
    requires |t[hb]| <= |nb| && forall m :: 0 <= m < |t[hb]| ==> nb[m].orderedWord == t[hb][m].orderedWord
    ensures Stored(t[hb := nb], key)
  {
    var m :| 0 <= m < |t[Hash(key)]| && t[Hash(key)][m].orderedWord == key;
    assert t[hb := nb][Hash(key)][m].orderedWord == key;
  }

  /**
   Replacing the bucket of `w`'s key by `nb` yields a table that represents
   the history grown by `w`, provided `nb` keeps the bucket invariant and
   holds the right words, keeps every old key at its index, and has a node
   for the key.
   */
  lemma ReplaceBucketPreserves(t: seq<seq<Node>>, history: seq<string>, w: string, nb: seq<Node>, i: nat)
    requires Represents(t, history) && Normalize(w) != []
    requires BucketInvariant(nb, Hash(OrderedWord(w))) && BucketHolds(nb, history + [w])
    requires |t[Hash(OrderedWord(w))]| <= |nb|
    requires forall m :: 0 <= m < |t[Hash(OrderedWord(w))]| ==> nb[m].orderedWord == t[Hash(OrderedWord(w))][m].orderedWord
    requires i < |nb| && nb[i].orderedWord == OrderedWord(w)
    ensures Represents(t[Hash(OrderedWord(w)) := nb], history + [w])
  {
    var key := OrderedWord(w);
    var hb := Hash(key);
    var r := t[hb := nb];
    var h' := history + [w];
    assert TableInvariant(r);
    forall b | 0 <= b < |r|
      ensures BucketHolds(r[b], h')
    {
      if b != hb {
        assert BucketInvariant(t[b], b);
        BucketHoldsUnaffected(t[b], history, w);
      }
    }
    forall n | 0 <= n < |h'| && Normalize(h'[n]) != []
      ensures Stored(r, OrderedWord(h'[n]))
    {
      if n < |history| {
        assert h'[n] == history[n];
        StoredKept(t, hb, nb, OrderedWord(history[n]));
      } else {
        assert r[hb][i].orderedWord == key;
      }
    }
  }

  /** A word without letters leaves the table as it is, and the table still represents the longer history. */
  lemma InsertNoLettersPreserves(t: seq<seq<Node>>, history: seq<string>, w: string)
    requires Represents(t, history) && Normalize(w) == []
    ensures Represents(t, history + [w])
  {
    var h' := history + [w];
    OrderedWordEmpty(w);
    forall b | 0 <= b < |t|
      ensures BucketHolds(t[b], h')
    {
      assert BucketInvariant(t[b], b);
      forall i | 0 <= i < |t[b]|
        ensures t[b][i].orderedWord != OrderedWord(w)
      {
        assert WellFormed(t[b][i]);
      }
      BucketHoldsUnaffected(t[b], history, w);
    }
    forall n | 0 <= n < |h'| && Normalize(h'[n]) != []
      ensures Stored(t, OrderedWord(h'[n]))
    {
      assert n < |history| && h'[n] == history[n];
    }
  }

  /** The bucket `nb` that results from filing `w` into the node at index `i`, which has `w`'s key, keeps the bucket invariant and holds the right words. */
  lemma JoinBucket(bucket: seq<Node>, hb: nat, history: seq<string>, w: string, i: nat)
    requires BucketInvariant(bucket, hb) && BucketHolds(bucket, history)
    requires i < |bucket| && bucket[i].orderedWord == OrderedWord(w)
    ensures BucketInvariant(bucket[i := Node(OrderedWord(w), bucket[i].permutations + [Normalize(w)])], hb)
    ensures BucketHolds(bucket[i := Node(OrderedWord(w), bucket[i].permutations + [Normalize(w)])], history + [w])
  {
    var key := OrderedWord(w);
    var norm := Normalize(w);
    var node := Node(key, bucket[i].permutations + [norm]);
    var nb := bucket[i := node];
    NormalizeIdempotent(w);
    assert WellFormed(bucket[i]);
    assert WellFormed(node) by {
      forall k | 0 <= k < |node.permutations|
        ensures Normalize(node.permutations[k]) == node.permutations[k] && Sort(node.permutations[k]) == key
      {
        if k < |bucket[i].permutations| {
          assert node.permutations[k] == bucket[i].permutations[k];
        }
      }
    }
    forall j | 0 <= j < |nb|
      ensures Hash(nb[j].orderedWord) == hb && WellFormed(nb[j])
    {
      if j != i {
        assert nb[j] == bucket[j];
      }
    }
    forall j, k | 0 <= j < k < |nb|
      ensures nb[j].orderedWord != nb[k].orderedWord
    {
      assert nb[j].orderedWord == bucket[j].orderedWord;
      assert nb[k].orderedWord == bucket[k].orderedWord;
    }
    forall j | 0 <= j < |nb|
      ensures nb[j].permutations == Filed(history + [w], nb[j].orderedWord)
    {
      FiledAfterInsert(history, w, nb[j].orderedWord);
    }
  }

  /** A word whose key already has a node at index `i` joins that node; the result represents the longer history. */
  lemma InsertJoinPreserves(t: seq<seq<Node>>, history: seq<string>, w: string, i: nat)
    requires Represents(t, history) && Normalize(w) != []
    requires i < |t[Hash(OrderedWord(w))]| && t[Hash(OrderedWord(w))][i].orderedWord == OrderedWord(w)
    ensures Represents(InsertInto(t, w), history + [w])
  {
    var key := OrderedWord(w);
    var hb := Hash(key);
    var bucket := t[hb];
    var nb := bucket[i := Node(key, bucket[i].permutations + [Normalize(w)])];
    assert BucketInvariant(bucket, hb);
    assert InsertInto(t, w) == t[hb := nb] by {
      forall j | 0 <= j < i
        ensures bucket[j].orderedWord != key
      {
      }
    }
    JoinBucket(bucket, hb, history, w, i);
    ReplaceBucketPreserves(t, history, w, nb, i);
  }

  /** The node `insert` creates for a word with letters is well formed. */
  lemma NewNodeWellFormed(w: string)
    requires Normalize(w) != []
    ensures WellFormed(Node(OrderedWord(w), [Normalize(w)]))
  {
    OrderedWordEmpty(w);
    NormalizeIdempotent(w);
  }

  /** Appending a well-formed node whose key hashes to the bucket and is new to it keeps the bucket invariant. */
  lemma NewNodeBucketInvariant(bucket: seq<Node>, b: nat, node: Node)
    requires BucketInvariant(bucket, b)
    requires Hash(node.orderedWord) == b && WellFormed(node)
    requires forall i :: 0 <= i < |bucket| ==> bucket[i].orderedWord != node.orderedWord
    ensures BucketInvariant(bucket + [node], b)
  {
    var nb := bucket + [node];
    forall i | 0 <= i < |nb|
      ensures Hash(nb[i].orderedWord) == b && WellFormed(nb[i])
    {
      if i < |bucket| {
        assert nb[i] == bucket[i];
      }
    }
    forall i, j | 0 <= i < j < |nb|
      ensures nb[i].orderedWord != nb[j].orderedWord
    {
      assert nb[i] == bucket[i];
      if j < |bucket| {
        assert nb[j] == bucket[j];
      }
    }
  }

  /** A new node for `w`'s key, under which nothing is filed yet, holds exactly the words filed under it afterwards. */
  lemma NewNodeBucketHolds(bucket: seq<Node>, history: seq<string>, w: string)
    requires BucketHolds(bucket, history) && Filed(history, OrderedWord(w)) == []
    requires forall i :: 0 <= i < |bucket| ==> bucket[i].orderedWord != OrderedWord(w)
    ensures BucketHolds(bucket + [Node(OrderedWord(w), [Normalize(w)])], history + [w])
  {
    var key := OrderedWord(w);
    var node := Node(key, [Normalize(w)]);
    var nb := bucket + [node];
    forall j | 0 <= j < |nb|
      ensures nb[j].permutations == Filed(history + [w], nb[j].orderedWord)
    {
      FiledAfterInsert(history, w, nb[j].orderedWord);
      if j < |bucket| {
        assert nb[j] == bucket[j];
        assert bucket[j].orderedWord != key;
        assert bucket[j].permutations == Filed(history, bucket[j].orderedWord);
      } else {
        assert nb[j] == node;
      }
    }
  }

  /** A word with a new key gets a new node at the end of its bucket; the result represents the longer history. */
  lemma InsertNewNodePreserves(t: seq<seq<Node>>, history: seq<string>, w: string)
    requires Represents(t, history) && Normalize(w) != []
    requires forall i :: 0 <= i < |t[Hash(OrderedWord(w))]| ==> t[Hash(OrderedWord(w))][i].orderedWord != OrderedWord(w)
    ensures Represents(InsertInto(t, w), history + [w])
  {
    var key := OrderedWord(w);
    var hb := Hash(key);
    var bucket := t[hb];
    var nb := bucket + [Node(key, [Normalize(w)])];
    assert InsertInto(t, w) == t[hb := nb];
    forall n | 0 <= n < |history|
      ensures OrderedWord(history[n]) != key
    {
      OrderedWordEmpty(history[n]);
      if Normalize(history[n]) != [] {
        assert Stored(t, OrderedWord(history[n]));
      }
    }
    FiledEmpty(history, key);
    assert BucketInvariant(bucket, hb);
    NewNodeWellFormed(w);
    NewNodeBucketInvariant(bucket, hb, Node(key, [Normalize(w)]));
    NewNodeBucketHolds(bucket, history, w);
    ReplaceBucketPreserves(t, history, w, nb, |bucket|);
  }

  /** Inserting into a represented table yields a table that represents the longer history. */
  lemma InsertPreservesRepresents(t: seq<seq<Node>>, history: seq<string>, w: string)
    requires Represents(t, history)
    ensures Represents(InsertInto(t, w), history + [w])
  {
    if Normalize(w) == [] {
      InsertNoLettersPreserves(t, history, w);
    } else {
      var key := OrderedWord(w);
      var bucket := t[Hash(key)];
      if i :| 0 <= i < |bucket| && bucket[i].orderedWord == key {
        InsertJoinPreserves(t, history, w, i);
      } else {
        InsertNewNodePreserves(t, history, w);
      }
    }
  }

  // ---------------------------------------------------------------------
  // The dictionary object

  /** The callback loop of `lookup`: hands every word of a node to the callback, in stored order. */
  method EmitAll(words: seq<string>) returns (emitted: seq<string>)
    ensures emitted == words
  {
    emitted := [];
    var j := 0;
    while j < |words|
      invariant 0 <= j <= |words|
      invariant emitted == words[..j]
    {
      assert words[..j + 1] == words[..j] + [words[j]];
      emitted := emitted + [words[j]];
      j := j + 1;
    }
    assert words[..|words|] == words;
  }

  /** `DictionaryImpl`: the bucket table, updated in place by `Insert` and only read by `Lookup`. */
  class DictionaryImpl {
    /** The buckets; bucket `b` holds the nodes whose key hashes to `b`. */
    const table: array<seq<Node>>
    /** Every word passed to `Insert`, in call order. */
    ghost var History: seq<string>

    /** The object invariant: fifty thousand buckets that represent the words inserted so far. */
    ghost predicate Valid()
      reads this, table
    {
      table.Length == TABLE_SIZE && Represents(table[..], History)
    }

    constructor ()
      ensures Valid() && fresh(table)
      ensures History == []
      ensures forall b :: 0 <= b < TABLE_SIZE ==> table[b] == []
    {
      table := new seq<Node>[TABLE_SIZE](_ => []);
      History := [];
      new;
      EmptyTableRepresentsNothing(table[..]);
    }

    /**
     `insert`: normalises a copy of `word`, sorts it into its key, and files
     the normalised word in the key's node, creating the node when the key
     is new. A word without letters changes nothing.
     */
    method Insert(word: string)
      requires Valid()
      modifies this, table
      ensures Valid()
      ensures History == old(History) + [word]
      ensures table[..] == InsertInto(old(table[..]), word)
    {
      var buf := new char[|word|](i requires 0 <= i < |word| => word[i]);
      assert buf[..] == word;
      var len := RemoveNonLetters(buf);
      var w := buf[..len];
      var orderedWord := Sort(w);
      ghost var t := table[..];
      InsertPreservesRepresents(t, History, word);
      History := History + [word];
      if w != [] {
        var key := HashFunc(orderedWord);
        var bucket := table[key];
        var i := 0;
        while i < |bucket|
          invariant 0 <= i <= |bucket|
          invariant forall j :: 0 <= j < i ==> bucket[j].orderedWord != orderedWord
        {
          if bucket[i].orderedWord == orderedWord {
            table[key] := bucket[i := Node(orderedWord, bucket[i].permutations + [w])];
            assert table[..] == t[key := table[key]];
            return;
          }
          i := i + 1;
        }
        table[key] := bucket + [Node(orderedWord, [w])];
        assert table[..] == t[key := table[key]];
      }
    }

    /**
     `lookup`: with no callback, or a query without letters, emits nothing.
     Otherwise finds the node of the query's key and emits its words in
     stored order; emits nothing when the key has no node.
     */
    method Lookup(letters: string, hasCallback: bool) returns (emitted: seq<string>)
      requires Valid()
      ensures emitted == if hasCallback then Anagrams(History, letters) else []
    {
      emitted := [];
      if !hasCallback {
        return;
      }
      var buf := new char[|letters|](i requires 0 <= i < |letters| => letters[i]);
      assert buf[..] == letters;
      var len := RemoveNonLetters(buf);
      var q := buf[..len];
      if q == [] {
        return;
      }
      var orderedWord := Sort(q);
      var key := HashFunc(orderedWord);
      var bucket := table[key];
      var i := 0;
      while i < |bucket| && bucket[i].orderedWord != orderedWord
        invariant 0 <= i <= |bucket|
        invariant forall j :: 0 <= j < i ==> bucket[j].orderedWord != orderedWord
      {
        i := i + 1;
      }
      if i == |bucket| {
        AbsentKeyAnswers(table[..], History, letters);
        return;
      }
      emitted := EmitAll(bucket[i].permutations);
      PresentKeyAnswers(table[..], History, letters, i);
    }
  }
}
