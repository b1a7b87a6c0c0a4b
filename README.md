# HashTable — a verified Dafny model

This project models a small word-to-meaning dictionary written in C++. It has
two layers, and each one is a Dafny module:

- `LinkedList` (`linked_list.dfy`) models `DoubleLinkedList<Type>`. This is a
  generic doubly linked list with a head pointer, a tail pointer and a size
  counter.
  - It is a Dafny class over `DoubleNode` objects whose `previousNode` and
    `nextNode` links are updated in place.
  - Ghost state holds the abstract view: `contents` (the values, head to
    tail), `nodes` (the node objects in the same order) and `Repr` (the nodes
    the list owns).
  - `Valid()` ties the real fields to that view. It covers the head, tail and
    size, both link directions, and the null outer links of the head and
    tail.
  - Each operation is proved against that view. Forward and backward
    traversal are shown to visit exactly `listSize` nodes.
  - Underflow on an empty list is an explicit outcome. Peeks return
    `Result<T>` (`Ok(v)` or `Err(Underflow)`), and pops return `Outcome`
    (`Pass` or `Fail(Underflow)`).
- `HashTables` (`hash_table.dfy`) models `HashTable`. This is an array of
  `2 * n` such lists holding `Item(word, meaning)`, with separate chaining.
  - A key is routed to bucket `(7 + 31 * sum of character codes) % capacity`.
  - `insert` appends to the key's bucket. It never looks for an existing key.
  - `lookup` returns the meaning of the first matching item in the bucket, or
    the text `"NOT FOUND"`.
  - The abstract state is the sequence of buckets. `InsertInto` and
    `LookupIn` give the meaning of the two operations on it, and the methods
    `Insert` and `Lookup` are proved to match them.
  - Lemmas prove what the operations promise each other:
    - A key that was absent is found after insertion.
    - A key already present keeps its earlier meaning, because nothing is
      overwritten.
    - Inserting one key never changes the answer for another key.
    - Keys that are anagrams collide but are still told apart.
    - Every item stays in the bucket its word is routed to.

## Model

| member | source | states |
|---|---|---|
| `LinkedList.DoubleNode.constructor` | linked_list.h:443-452 | a node stores the given value, previous link and next link |
| `LinkedList.DoubleLinkedList.ForwardTraversal` | linked_list.h:162-170 | following `nextNode` from `listHead` visits the list's nodes in order and reaches null after exactly `listSize` steps |
| `LinkedList.DoubleLinkedList.BackwardTraversal` | linked_list.h:162-170 | following `previousNode` from `listTail` visits the same nodes in reverse and reaches null after exactly `listSize` steps |
| `LinkedList.DoubleLinkedList.constructor` | linked_list.h:182-189 | a new list is valid, empty, with null head and tail and size 0 |
| `LinkedList.DoubleLinkedList.Copy` | linked_list.h:191-205 | the copy is valid, built only from fresh nodes, and holds the same values in the same order |
| `LinkedList.DoubleLinkedList.Size` | linked_list.h:222-225 | the size is the number of values held |
| `LinkedList.DoubleLinkedList.Empty` | linked_list.h:229-232 | true exactly when the list holds no values |
| `LinkedList.DoubleLinkedList.Front` | linked_list.h:236-243 | `Underflow` on an empty list, otherwise the first value |
| `LinkedList.DoubleLinkedList.Back` | linked_list.h:247-254 | `Underflow` on an empty list, otherwise the last value |
| `LinkedList.DoubleLinkedList.Begin` | linked_list.h:258-261 | null exactly when empty; otherwise the first node, holding the first value, with no predecessor |
| `LinkedList.DoubleLinkedList.End` | linked_list.h:265-268 | null exactly when empty; otherwise the last node, holding the last value, with no successor |
| `LinkedList.DoubleLinkedList.Find` | linked_list.h:272-283 | null exactly when the value does not occur; otherwise the node at the first position holding it |
| `LinkedList.DoubleLinkedList.Count` | linked_list.h:287-300 | the number of occurrences of the value in the contents |
| `LinkedList.DoubleLinkedList.Swap` | linked_list.h:304-310 | the two lists exchange contents, nodes and ownership, and both stay valid |
| `LinkedList.DoubleLinkedList.PushFront` | linked_list.h:314-330 | contents become `[v] + old`, size grows by 1, the new node is the head, and on an empty list it is also the tail |
| `LinkedList.DoubleLinkedList.PushBack` | linked_list.h:334-350 | contents become `old + [v]`, size grows by 1, the new node is the tail, and on an empty list it is also the head |
| `LinkedList.DoubleLinkedList.PopFront` | linked_list.h:354-378 | on an empty list `Underflow` with nothing changed; otherwise contents become `old[1..]`, size drops by 1, the old head leaves the list, and a list left empty has a null tail |
| `LinkedList.DoubleLinkedList.PopBack` | linked_list.h:382-401 | on an empty list `Underflow` with nothing changed; otherwise the last value is dropped, size drops by 1, the old tail leaves the list, and a list left empty has a null head |
| `LinkedList.DoubleLinkedList.Unlink` | linked_list.h:413-431 | relinking around the `i`-th node removes exactly that node and its value, and keeps the list valid |
| `LinkedList.DoubleLinkedList.Visit` | linked_list.h:411-436 | one step of the erase scan: drops the current node exactly when it holds the value, and hands back its original successor |
| `LinkedList.DoubleLinkedList.Erase` | linked_list.h:405-439 | returns the old number of occurrences; afterwards the value no longer occurs, and the other values remain in their original order |
| `LinkedList.WithoutOccurrences` | linked_list.h:405-439 | erasing removes every copy of the value and keeps every other value exactly as often |
| `LinkedList.WithoutRemovesAll` | linked_list.h:405-439 | after erasing, the value no longer occurs |
| `LinkedList.WithoutLength` | linked_list.h:405-439 | erasing shortens the list by exactly the number of occurrences |
| `LinkedList.WithoutAppend` | linked_list.h:405-439 | erasing works piecewise over a concatenation, so survivors keep their relative order |
| `LinkedList.QueueOrderScenario` | linked_list.h:334-401 | values pushed at the back come out at the front in insertion order; an emptied list gives `Underflow` on peek and pop |
| `HashTables.CodeSum` | hash_table.h:119-122 | the sum of character codes is non-negative and at least the first code |
| `HashTables.CppRem` | hash_table.h:124 | C++'s truncating `%` equals the mathematical remainder for non-negative dividends and lies in `(-b, 0]` for negative ones |
| `HashTables.BucketIndex` | hash_table.h:115-127 | the routed index lies in `[0, capacity)` and equals `(7 + 31 * code sum) mod capacity` |
| `HashTables.CodeSumAppend` | hash_table.h:119-122 | the code sum of a concatenation is the sum of the code sums |
| `HashTables.CodeSumPermutation` | hash_table.h:119-122 | keys with the same characters have the same code sum |
| `HashTables.AnagramsShareBucket` | hash_table.h:115-127 | keys with the same characters are routed to the same bucket |
| `HashTables.ChainLookupFirstMatch` | hash_table.h:107-110 | the bucket scan answers the meaning of the earliest item with the word |
| `HashTables.ChainLookupMissing` | hash_table.h:107-112 | the bucket scan answers `"NOT FOUND"` when no item has the word |
| `HashTables.ChainLookupAppend` | hash_table.h:88-113 | appending an item changes a scan's answer only for the item's own word, and only if that word was absent |
| `HashTables.HasWordAppend` | hash_table.h:96 | after appending, a chain holds a word exactly when it held it before or the new item has it |
| `HashTables.EmptyBuckets` | hash_table.h:74-80 | a new table has `capacity` buckets, all empty |
| `HashTables.InsertInto` | hash_table.h:88-97 | insertion keeps the number of buckets and leaves every bucket but the word's own unchanged |
| `HashTables.InsertAppends` | hash_table.h:88-97 | insertion appends the item after every item already in the word's bucket |
| `HashTables.InsertKeepsPlacement` | hash_table.h:88-97 | after insertion every item still sits in the bucket its word is routed to |
| `HashTables.LookupEmpty` | hash_table.h:103-105 | an empty table answers `"NOT FOUND"` for every word |
| `HashTables.LookupAfterInsert` | hash_table.h:88-113 | after inserting a word, a lookup gives the new meaning if the word was absent and the earlier meaning if present (no overwrite) |
| `HashTables.LookupAfterInsertOther` | hash_table.h:88-113 | inserting a word does not change the lookup of any other key |
| `HashTables.CollidingKeysBothFound` | hash_table.h:88-113 | two different absent keys inserted in turn are both found with their meanings, whether or not they collide |
| `HashTables.HashTable.constructor` | hash_table.h:74-80 | the table is valid, has capacity `2 * n`, and every bucket is a fresh empty list |
| `HashTables.HashTable.HashFunction` | hash_table.h:115-127 | the accumulating loop computes exactly `BucketIndex(key, capacity)` |
| `HashTables.HashTable.Insert` | hash_table.h:88-97 | the table stays valid and its buckets become `InsertInto(old buckets, word, meaning)` |
| `HashTables.HashTable.Lookup` | hash_table.h:99-113 | the empty-bucket check and the pointer walk together return `LookupIn(buckets, word)` |
| `HashTables.FoundAndMissingScenario` | hash_table.h:88-113 | in a table built for 5 words, an inserted "cat" is found with its meaning and "dog" is `"NOT FOUND"` |
| `HashTables.DuplicateKeyScenario` | hash_table.h:88-113 | inserting "cat" twice keeps answering the first meaning |
| `HashTables.CollisionScenario` | hash_table.h:88-127 | the anagrams "act" and "cat" share a bucket and each is found with its own meaning |

## Left out

- Destructors and `delete` (linked_list.h:209-218, hash_table.h:82-86): Dafny has no deallocation. A removed node leaves the list's `Repr` and `nodes` instead.
- The use-after-free in erase: the source reads `node->next()` at linked_list.h:435 after `delete temp` at line 429, which is a use-after-free. The model follows the evidently intended behaviour: it continues with the successor the node had before it was unlinked. Deallocation cannot be expressed in Dafny, so this is not a Findings row.
- LinkedList.DoubleLinkedList.Erase: states `Repr <= old(Repr)` rather than naming exactly which nodes leave the list. The values that leave are stated exactly.
- The `Underflow` exception type from `exception.h`, which is not part of this model: it becomes the `Error` value `Underflow` inside `Result` and `Outcome`.
- The accessors `value()`, `previous()` and `next()` (linked_list.h:456-474): they return a field, so the model reads `nodeValue`, `previousNode` and `nextNode` directly. `nodeValue` is a `const`, because nothing writes it after construction.
- Aliasing through the node pointers returned by `begin`/`end`/`find`: a caller that writes through them is not modelled. The nodes stay owned by their list.
- LinkedList.DoubleLinkedList.Swap: requires the two lists to be the same list or to own disjoint nodes. Two valid distinct lists sharing a node cannot arise through this interface.
- HashTables.HashTable.HashFunction: character codes are taken as non-negative and the accumulator as an unbounded integer. Signed `char` codes and 32-bit overflow of `hash` (hash_table.h:121) are not modelled. With them a negative `hash` could give a negative index under C++'s truncating `%` (`CppRem` covers that case, but the model never reaches it).
- HashTables.HashTable.constructor: requires `n > 0`. The source does not check `n`: `n == 0` makes every later `% capacity` undefined, and a negative `n` makes the array allocation fail. The model does not clamp the capacity to 1, because the code does not.
- The bucket array is built from a loop of default-constructed lists. The lists are kept in the ghost constant `chains`, since the array elements never change after construction.
- `Item` has no `operator==`, so `find`/`count`/`erase` are never used on buckets. The list is modelled generically over `T(==)`.
- The commented-out `operator<<` (linked_list.h:175) and all printing.
- A stored meaning that is itself the text `"NOT FOUND"` cannot be told apart from absence. This is the source's behaviour and the model keeps it.
