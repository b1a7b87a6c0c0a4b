/**
 * A fixed-capacity word-to-meaning dictionary: an array of `capacity`
 * doubly linked lists (buckets) of items, a key routed to its bucket by an
 * additive hash of its character codes, collisions resolved by chaining.
 *
 * The abstract state of a table is a sequence of buckets, each a sequence of
 * items in head-to-tail order; `InsertInto` and `LookupIn` give the meaning
 * of the two operations on that state, and the lemmas below state what the
 * operations promise each other.
 */
module HashTables {
  import opened LinkedList

  /** A word with its meaning. */
  datatype Item = Item(word: string, meaning: string)

  /** What `lookup` returns for a word it does not find. */
  const NotFound: string := "NOT FOUND"

  /** The initial value of the hash accumulator. */
  const HashSeed: int := 7

  /** The multiplier of every character code. */
  const HashFactor: int := 31

  // ---------------------------------------------------------------------------
  // Routing a key to its bucket
  // ---------------------------------------------------------------------------

  /** The sum of the character codes of `key`. */
  function CodeSum(key: string): (r: int)
    ensures r >= 0
    ensures key != [] ==> r >= key[0] as int
  {
    if key == [] then 0 else CodeSum(key[..|key| - 1]) + key[|key| - 1] as int
  }

  /** The accumulated hash of `key`: the seed plus 31 times each character code. */
  function HashValue(key: string): int
  {
    HashSeed + HashFactor * CodeSum(key)
  }

  /** The remainder of C++'s `%` on `int`, which truncates toward zero. */
  function CppRem(a: int, b: int): (r: int)
    requires b > 0
    ensures a >= 0 ==> r == a % b
    ensures a < 0 ==> -b < r <= 0
  {
    if a >= 0 then a % b else -((-a) % b)
  }

  /** The bucket that `key` is routed to in a table of `capacity` buckets. */
  function BucketIndex(key: string, capacity: int): (r: int)
    requires capacity > 0
    ensures 0 <= r < capacity
    ensures r == HashValue(key) % capacity
  {
    CppRem(HashValue(key), capacity)
  }

  lemma {:induction false} CodeSumAppend(a: string, b: string)
    ensures CodeSum(a + b) == CodeSum(a) + CodeSum(b)
  {
    if b != [] {
      assert (a + b)[..|a + b| - 1] == a + b[..|b| - 1];
      CodeSumAppend(a, b[..|b| - 1]);
    } else {
      assert a + b == a;
    }
  }

  /** The code sum does not depend on the order of the characters. */
  lemma {:induction false} CodeSumPermutation(a: string, b: string)
    requires multiset(a) == multiset(b)
    ensures CodeSum(a) == CodeSum(b)
    decreases |a|
  {
    if a == [] {
      assert |b| == |multiset(b)| == 0;
    } else {
      var init, last := a[..|a| - 1], a[|a| - 1];
      assert a == init + [last];
      assert last in multiset(b);
      var j :| 0 <= j < |b| && b[j] == last;
      var rest := b[..j] + b[j + 1..];
      assert b == b[..j] + [last] + b[j + 1..];
      assert multiset(a) == multiset(init) + multiset{last};
      assert multiset(b) == multiset(b[..j]) + multiset{last} + multiset(b[j + 1..]);
      assert multiset(rest) == multiset(b[..j]) + multiset(b[j + 1..]);
      assert multiset(init) == multiset(a) - multiset{last};
      assert multiset(rest) == multiset(b) - multiset{last};
      CodeSumPermutation(init, rest);
      CodeSumAppend(b[..j] + [last], b[j + 1..]);
      CodeSumAppend(b[..j], [last]);
      CodeSumAppend(b[..j], b[j + 1..]);
    }
  }

  /** Two keys made of the same characters are routed to the same bucket. */
  lemma AnagramsShareBucket(a: string, b: string, capacity: int)
    requires capacity > 0 && multiset(a) == multiset(b)
    ensures BucketIndex(a, capacity) == BucketIndex(b, capacity)
  {
    CodeSumPermutation(a, b);
  }

  // ---------------------------------------------------------------------------
  // Chains and the abstract table
  // ---------------------------------------------------------------------------

  /** Whether some item of `chain` has the word `word`. */
  predicate HasWord(chain: seq<Item>, word: string)
  {
    exists j | 0 <= j < |chain| :: chain[j].word == word
  }

  /** Scans `chain` head to tail for `word`: the first match's meaning, or `NotFound`. */
  function ChainLookup(chain: seq<Item>, word: string): string
  {
    if chain == [] then NotFound
    else if chain[0].word == word then chain[0].meaning
    else ChainLookup(chain[1..], word)
  }

  /** The scan returns the meaning of the earliest item with the word. */
  lemma {:induction false} ChainLookupFirstMatch(chain: seq<Item>, word: string, i: nat)
    requires i < |chain| && chain[i].word == word
    requires forall j | 0 <= j < i :: chain[j].word != word
    ensures ChainLookup(chain, word) == chain[i].meaning
  {
    if i > 0 {
      ChainLookupFirstMatch(chain[1..], word, i - 1);
    }
  }

  /** A scan of a chain that has no item with the word returns `NotFound`. */
  lemma {:induction false} ChainLookupMissing(chain: seq<Item>, word: string)
    requires !HasWord(chain, word)
    ensures ChainLookup(chain, word) == NotFound
  {
    if chain != [] {
      assert chain[0].word != word;
      assert !HasWord(chain[1..], word) by {
        forall j | 0 <= j < |chain| - 1 ensures chain[1..][j].word != word {
          assert chain[1..][j] == chain[j + 1];
        }
      }
      ChainLookupMissing(chain[1..], word);
    }
  }

  /** Appending an item changes the scan's answer only for its word, and only if the word was absent. */
  lemma {:induction false} ChainLookupAppend(chain: seq<Item>, item: Item, word: string)
    ensures ChainLookup(chain + [item], word)
         == if HasWord(chain, word) then ChainLookup(chain, word)
            else if item.word == word then item.meaning
            else NotFound
  {
    if chain == [] {
      assert !HasWord(chain, word);
      assert [item][1..] == [];
    } else {
      assert (chain + [item])[1..] == chain[1..] + [item];
      if chain[0].word != word {
        assert HasWord(chain, word) <==> HasWord(chain[1..], word) by {
          if HasWord(chain, word) {
            var j :| 0 <= j < |chain| && chain[j].word == word;
            assert chain[1..][j - 1] == chain[j];
          }
          if HasWord(chain[1..], word) {
            var j :| 0 <= j < |chain| - 1 && chain[1..][j].word == word;
            assert chain[j + 1] == chain[1..][j];
          }
        }
        ChainLookupAppend(chain[1..], item, word);
      } else {
        assert chain[0].word == word;
      }
    }
  }

  /** A table of `capacity` empty buckets. */
  function EmptyBuckets(capacity: nat): (b: seq<seq<Item>>)
    ensures |b| == capacity
    ensures forall i | 0 <= i < capacity :: b[i] == []
  {
    seq(capacity, _ => [])
  }

  /** Every item sits in the bucket its word is routed to. */
  ghost predicate WellPlaced(buckets: seq<seq<Item>>)
  {
    forall i, j | 0 <= i < |buckets| && 0 <= j < |buckets[i]| ::
      BucketIndex(buckets[i][j].word, |buckets|) == i
  }

  /** The table after inserting `word` with `meaning`. */
  function InsertInto(buckets: seq<seq<Item>>, word: string, meaning: string): (r: seq<seq<Item>>)
    requires |buckets| > 0
    ensures |r| == |buckets|
    ensures forall i | 0 <= i < |r| && i != BucketIndex(word, |buckets|) :: r[i] == buckets[i]
  {
    var index := BucketIndex(word, |buckets|);
    buckets[index := buckets[index] + [Item(word, meaning)]]
  }

  /** The answer of a lookup of `word`. */
  function LookupIn(buckets: seq<seq<Item>>, word: string): string
    requires |buckets| > 0
  {
    ChainLookup(buckets[BucketIndex(word, |buckets|)], word)
  }

  /** An empty table finds nothing. */
  lemma LookupEmpty(capacity: nat, word: string)
    requires capacity > 0
    ensures LookupIn(EmptyBuckets(capacity), word) == NotFound
  {
  }

  /** Insertion appends to the word's bucket and keeps every item already there. */
  lemma InsertAppends(buckets: seq<seq<Item>>, word: string, meaning: string)
    requires |buckets| > 0
    ensures InsertInto(buckets, word, meaning)[BucketIndex(word, |buckets|)]
         == buckets[BucketIndex(word, |buckets|)] + [Item(word, meaning)]
  {
  }

  /** Insertion keeps every item in the bucket its word is routed to. */
  lemma InsertKeepsPlacement(buckets: seq<seq<Item>>, word: string, meaning: string)
    requires |buckets| > 0 && WellPlaced(buckets)
    ensures WellPlaced(InsertInto(buckets, word, meaning))
  {
    var r: seq<seq<Item>> := InsertInto(buckets, word, meaning);
    var index := BucketIndex(word, |buckets|);
    forall i, j | 0 <= i < |r| && 0 <= j < |r[i]|
      ensures BucketIndex(r[i][j].word, |r|) == i
    {
      if i == index && j == |buckets[i]| {
        assert r[i][j] == Item(word, meaning);
      } else {
        assert r[i][j] == buckets[i][j];
      }
    }
  }

  /**
   * After inserting `word`, a lookup of `word` answers the new meaning if
   * the word was absent, and the earlier meaning if it was present: there is
   * no overwrite.
   */
  lemma LookupAfterInsert(buckets: seq<seq<Item>>, word: string, meaning: string)
    requires |buckets| > 0
    ensures LookupIn(InsertInto(buckets, word, meaning), word)
         == if HasWord(buckets[BucketIndex(word, |buckets|)], word) then LookupIn(buckets, word)
            else meaning
  {
    var index := BucketIndex(word, |buckets|);
    ChainLookupAppend(buckets[index], Item(word, meaning), word);
  }

  /** Inserting `word` does not change the lookup of any other key. */
  lemma LookupAfterInsertOther(buckets: seq<seq<Item>>, word: string, meaning: string, key: string)
    requires |buckets| > 0 && key != word
    ensures LookupIn(InsertInto(buckets, word, meaning), key) == LookupIn(buckets, key)
  {
    var index := BucketIndex(word, |buckets|);
    if BucketIndex(key, |buckets|) == index {
      ChainLookupAppend(buckets[index], Item(word, meaning), key);
      if !HasWord(buckets[index], key) {
        ChainLookupMissing(buckets[index], key);
      }
    }
  }

  /** Appending an item adds exactly its word to the words of a chain. */
  lemma HasWordAppend(chain: seq<Item>, item: Item, word: string)
    ensures HasWord(chain + [item], word) <==> HasWord(chain, word) || item.word == word
  {
    if HasWord(chain, word) {
      var j :| 0 <= j < |chain| && chain[j].word == word;
      assert (chain + [item])[j] == chain[j];
    }
    if item.word == word {
      assert (chain + [item])[|chain|] == item;
    }
  }

  /**
   * Two different absent keys inserted one after the other are both found,
   * whether or not they share a bucket.
   */
  lemma CollidingKeysBothFound(buckets: seq<seq<Item>>, w1: string, m1: string, w2: string, m2: string)
    requires |buckets| > 0 && w1 != w2
    requires !HasWord(buckets[BucketIndex(w1, |buckets|)], w1)
    requires !HasWord(buckets[BucketIndex(w2, |buckets|)], w2)
    ensures LookupIn(InsertInto(InsertInto(buckets, w1, m1), w2, m2), w1) == m1
    ensures LookupIn(InsertInto(InsertInto(buckets, w1, m1), w2, m2), w2) == m2
  {
    var once := InsertInto(buckets, w1, m1);
    LookupAfterInsert(buckets, w1, m1);
    LookupAfterInsertOther(once, w2, m2, w1);
    var index2 := BucketIndex(w2, |buckets|);
    if index2 == BucketIndex(w1, |buckets|) {
      HasWordAppend(buckets[index2], Item(w1, m1), w2);
    }
    LookupAfterInsert(once, w2, m2);
  }

  // ---------------------------------------------------------------------------
  // The table itself
  // ---------------------------------------------------------------------------

  class HashTable {
    var capacity: int
    var table: array<DoubleLinkedList<Item>>

    /** The items of each bucket, head to tail. */
    ghost var buckets: seq<seq<Item>>
    /** The bucket array, the lists and their nodes. */
    ghost var Repr: set<object>
    /** The bucket lists, which stay in place once the table is built. */
    ghost const chains: seq<DoubleLinkedList<Item>>

    ghost predicate Valid()
      reads this, Repr
    {
      && table in Repr
      && capacity > 0 && table.Length == capacity && |buckets| == capacity && |chains| == capacity
      && (forall i | 0 <= i < capacity :: table[i] == chains[i])
      && (forall i | 0 <= i < capacity :: chains[i] in Repr && chains[i].Repr <= Repr)
      && (forall i | 0 <= i < capacity :: chains[i].Valid() && chains[i].contents == buckets[i])
      && (forall i, j | 0 <= i < j < capacity ::
            chains[i] != chains[j] && chains[i].Repr !! chains[j].Repr)
      && WellPlaced(buckets)
    }

    /** A table of `2 * n` empty buckets. */
    constructor (n: int)
      requires n > 0
      ensures Valid() && fresh(Repr)
      ensures capacity == 2 * n && buckets == EmptyBuckets(2 * n)
    {
      var lists: seq<DoubleLinkedList<Item>> := [];
      while |lists| < n * 2
        invariant |lists| <= n * 2
        invariant forall i | 0 <= i < |lists| ::
          fresh(lists[i]) && lists[i].Valid() && lists[i].contents == [] && lists[i].Repr == {}
        invariant forall i, j | 0 <= i < j < |lists| :: lists[i] != lists[j]
      {
        var list := new DoubleLinkedList<Item>();
        lists := lists + [list];
      }
      capacity := n * 2;
      table := new DoubleLinkedList<Item>[n * 2](i requires 0 <= i < |lists| => lists[i]);
      buckets := EmptyBuckets(n * 2);
      chains := lists;
      Repr := {table} + set i | 0 <= i < |lists| :: lists[i] as object;
      new;
    }

    /** Routes `key` to its bucket. */
    method HashFunction(key: string) returns (index: int)
      requires capacity > 0
      ensures index == BucketIndex(key, capacity)
    {
      var hash := HashSeed;
      for i := 0 to |key|
        invariant hash == HashSeed + HashFactor * CodeSum(key[..i])
      {
        assert key[..i + 1][..i] == key[..i];
        hash := hash + (key[i] as int) * HashFactor;
      }
      assert key[..|key|] == key;
      index := CppRem(hash, capacity);
    }

    /** Appends the item `word`/`meaning` to the end of the word's bucket. */
    method Insert(word: string, meaning: string)
      requires Valid()
      modifies this, Repr
      ensures Valid() && capacity == old(capacity) && table == old(table)
      ensures buckets == InsertInto(old(buckets), word, meaning)
      ensures fresh(Repr - old(Repr))
    {
      var index := HashFunction(word);
      var item := Item(word, meaning);
      var list := table[index];
      ghost var R, B := Repr, buckets;
      InsertKeepsPlacement(B, word, meaning);
      list.PushBack(item);
      buckets, Repr := InsertInto(B, word, meaning), R + {list.listTail};
    }

    /** The meaning of the first item with `word` in its bucket, or `NotFound`. */
    method Lookup(word: string) returns (r: string)
      requires Valid()
      ensures r == LookupIn(buckets, word)
    {
      var index := HashFunction(word);
      var list := table[index];
      var found := !list.Empty();
      if !found {
        return NotFound;
      }
      var ptr := list.Begin();
      ghost var i := 0;
      while ptr != null
        invariant 0 <= i <= |list.nodes|
        invariant ptr == if i == |list.nodes| then null else list.nodes[i]
        invariant ChainLookup(list.contents, word) == ChainLookup(list.contents[i..], word)
        decreases |list.nodes| - i
      {
        var newWord := ptr.nodeValue.word;
        if newWord == word {
          return ptr.nodeValue.meaning;
        }
        assert list.contents[i..][1..] == list.contents[i + 1..];
        ptr := ptr.nextNode;
        i := i + 1;
      }
      return NotFound;
    }
  }

  // ---------------------------------------------------------------------------
  // Scenarios a caller of the table relies on
  // ---------------------------------------------------------------------------

  /** A table for five words finds an inserted word and misses another. */
  method FoundAndMissingScenario() returns (cat: string, dog: string)
    ensures cat == "a small domesticated animal" && dog == NotFound
  {
    var t := new HashTable(5);
    t.Insert("cat", "a small domesticated animal");
    cat := t.Lookup("cat");
    dog := t.Lookup("dog");
    LookupAfterInsert(EmptyBuckets(10), "cat", "a small domesticated animal");
    LookupAfterInsertOther(EmptyBuckets(10), "cat", "a small domesticated animal", "dog");
    LookupEmpty(10, "dog");
  }

  /** Re-inserting a word appends; lookup keeps answering the earliest meaning. */
  method DuplicateKeyScenario() returns (cat: string)
    ensures cat == "animal"
  {
    var t := new HashTable(5);
    t.Insert("cat", "animal");
    t.Insert("cat", "feline");
    cat := t.Lookup("cat");
    var once := InsertInto(EmptyBuckets(10), "cat", "animal");
    LookupAfterInsert(EmptyBuckets(10), "cat", "animal");
    LookupAfterInsert(once, "cat", "feline");
  }

  /** Two anagrams share a bucket and are still told apart by exact comparison. */
  method CollisionScenario() returns (act: string, cat: string, sameBucket: bool)
    ensures sameBucket && act == "to do something" && cat == "an animal"
  {
    var t := new HashTable(5);
    t.Insert("act", "to do something");
    t.Insert("cat", "an animal");
    act := t.Lookup("act");
    cat := t.Lookup("cat");
    var actIndex := t.HashFunction("act");
    var catIndex := t.HashFunction("cat");
    sameBucket := actIndex == catIndex;
    assert multiset("act") == multiset("cat");
    AnagramsShareBucket("act", "cat", 10);
    CollidingKeysBothFound(EmptyBuckets(10), "act", "to do something", "cat", "an animal");
  }
}
