/**
 * A generic doubly linked list: a chain of nodes, each holding one value, a
 * forward link and a back link, with the list keeping a head pointer, a tail
 * pointer and a size counter.
 *
 * The public view of a list is the ghost sequence `contents`; the ghost
 * sequence `nodes` names the node objects in head-to-tail order, and `Valid()`
 * ties the real fields (head, tail, size and every node's two links) to it.
 */
module LinkedList {

  /** The failure raised by `front`, `back`, `popFront` and `popBack` on an empty list. */
  datatype Error = Underflow

  /** The outcome of a peek: the value, or the failure. */
  datatype Result<T> = Ok(value: T) | Err(error: Error)

  /** The outcome of an operation that returns nothing but may fail. */
  datatype Outcome = Pass | Fail(error: Error)

  /** `s` with every occurrence of `v` removed, the others kept in order. */
  function Without<T(==)>(s: seq<T>, v: T): seq<T>
  {
    if s == [] then []
    else Without(s[..|s| - 1], v) + (if s[|s| - 1] == v then [] else [s[|s| - 1]])
  }

  /** Removing `v` leaves no `v` and every other value as often as before. */
  lemma {:induction false} WithoutOccurrences<T>(s: seq<T>, v: T)
    ensures multiset(Without(s, v)) == multiset(s)[v := 0]
  {
    if s != [] {
      var init, last := s[..|s| - 1], s[|s| - 1];
      WithoutOccurrences(init, v);
      assert s == init + [last];
    }
  }

  /** After the removal `v` no longer occurs. */
  lemma {:induction false} WithoutRemovesAll<T>(s: seq<T>, v: T)
    ensures v !in Without(s, v)
  {
    if s != [] {
      WithoutRemovesAll(s[..|s| - 1], v);
    }
  }

  /** Removing `v` shortens the sequence by exactly the number of occurrences of `v`. */
  lemma WithoutLength<T>(s: seq<T>, v: T)
    ensures |Without(s, v)| == |s| - multiset(s)[v]
  {
    WithoutOccurrences(s, v);
    assert |multiset(s)| == |multiset(s)[v := 0]| + multiset(s)[v];
  }

  /** Removal works piecewise, so the kept values stay in their original relative order. */
  lemma {:induction false} WithoutAppend<T>(a: seq<T>, b: seq<T>, v: T)
    ensures Without(a + b, v) == Without(a, v) + Without(b, v)
  {
    if b != [] {
      var init, last := b[..|b| - 1], b[|b| - 1];
      assert (a + b)[..|a + b| - 1] == a + init;
      WithoutAppend(a, init, v);
    } else {
      assert a + b == a;
    }
  }

  /** Extending the prefix by one value extends its removal by that value unless it is `v`. */
  lemma WithoutStep<T>(s: seq<T>, k: nat, v: T)
    requires k < |s|
    ensures Without(s[..k + 1], v) == Without(s[..k], v) + (if s[k] == v then [] else [s[k]])
  {
    assert s[..k + 1][..k] == s[..k];
  }

  /** `s` without its element at index `i`. */
  function RemoveAt<U>(s: seq<U>, i: nat): (r: seq<U>)
    requires i < |s|
    ensures |r| == |s| - 1
    ensures forall j | 0 <= j < |r| :: r[j] == if j < i then s[j] else s[j + 1]
  {
    s[..i] + s[i + 1..]
  }

  /**
   * One step of the erase scan: the element at `i` of the partly filtered
   * sequence `c` is the element at `k` of `original`, and either dropping it
   * (when it is `v`) or keeping it (otherwise) filters one more element.
   */
  lemma EraseStep<T>(original: seq<T>, k: nat, c: seq<T>, i: nat, v: T)
    requires i < |c| && k < |original|
    requires c[..i] == Without(original[..k], v) && c[i..] == original[k..]
    ensures c[i] == original[k]
    ensures c[i] == v ==>
      RemoveAt(c, i)[..i] == Without(original[..k + 1], v) && RemoveAt(c, i)[i..] == original[k + 1..]
    ensures c[i] != v ==>
      c[..i + 1] == Without(original[..k + 1], v) && c[i + 1..] == original[k + 1..]
  {
    assert c[i] == original[k] by {
      assert c[i..][0] == original[k..][0];
    }
    WithoutStep(original, k, v);
    assert original[..k + 1] == original[..k] + [original[k]];
    assert c[i + 1..] == original[k + 1..] by {
      assert c[i..][1..] == c[i + 1..];
    }
    if c[i] == v {
      assert RemoveAt(c, i)[..i] == c[..i];
      assert RemoveAt(c, i)[i..] == c[i + 1..];
    } else {
      assert c[..i + 1] == c[..i] + [c[i]];
    }
  }

  /** A node of the chain: its value and its two links. */
  class DoubleNode<T> {
    const nodeValue: T
    var previousNode: DoubleNode?<T>
    var nextNode: DoubleNode?<T>

    constructor (value: T, previous: DoubleNode?<T>, next: DoubleNode?<T>)
      ensures nodeValue == value && previousNode == previous && nextNode == next
    {
      nodeValue := value;
      previousNode := previous;
      nextNode := next;
    }
  }

  class DoubleLinkedList<T(==)> {
    var listHead: DoubleNode?<T>
    var listTail: DoubleNode?<T>
    var listSize: int

    /** The values, head to tail. */
    ghost var contents: seq<T>
    /** The nodes holding them, head to tail. */
    ghost var nodes: seq<DoubleNode<T>>
    /** The nodes this list owns. */
    ghost var Repr: set<DoubleNode<T>>

    /** The representation invariant. */
    ghost predicate Valid()
      reads this, Repr
    {
      Chain(listHead, listTail, listSize, contents, nodes, Repr)
    }

    /**
     * `nodes` is a chain of distinct nodes from `repr` running from `head` to
     * `tail`, linked both ways, holding `contents`, `size` of them.
     */
    static ghost predicate Chain(head: DoubleNode?<T>, tail: DoubleNode?<T>, size: int,
                                 contents: seq<T>, nodes: seq<DoubleNode<T>>,
                                 repr: set<DoubleNode<T>>)
      reads repr
    {
      && (forall i | 0 <= i < |nodes| :: nodes[i] in repr)
      && |nodes| == |contents| == size
      && (size == 0 ==> head == null && tail == null)
      && (size > 0 ==> head == nodes[0] && tail == nodes[size - 1])
      && (size > 0 ==> head.previousNode == null && tail.nextNode == null)
      && (forall i | 0 <= i < |nodes| :: nodes[i].nodeValue == contents[i])
      && (forall i | 0 <= i < |nodes| - 1 ::
            nodes[i].nextNode == nodes[i + 1] && nodes[i + 1].previousNode == nodes[i])
      && (forall i, j | 0 <= i < j < |nodes| :: nodes[i] != nodes[j])
    }

    /** The node reached from `n` by following `k` forward links. */
    ghost function Forward(n: DoubleNode?<T>, k: nat): DoubleNode?<T>
      reads this, Repr
    {
      if k == 0 || n == null || n !in Repr then n else Forward(n.nextNode, k - 1)
    }

    /** The node reached from `n` by following `k` back links. */
    ghost function Backward(n: DoubleNode?<T>, k: nat): DoubleNode?<T>
      reads this, Repr
    {
      if k == 0 || n == null || n !in Repr then n else Backward(n.previousNode, k - 1)
    }

    /**
     * Forward traversal from the head visits exactly the nodes of the list,
     * `listSize` of them, and then reaches null.
     */
    lemma {:induction false} ForwardTraversal(k: nat)
      requires Valid() && k <= listSize
      ensures Forward(listHead, k) == if k == listSize then null else nodes[k]
    {
      var i := 0;
      while i < k
        invariant 0 <= i <= k
        invariant Forward(listHead, k) == Forward(if i == listSize then null else nodes[i], k - i)
      {
        i := i + 1;
      }
    }

    /** Backward traversal from the tail visits the same nodes in reverse order. */
    lemma {:induction false} BackwardTraversal(k: nat)
      requires Valid() && k <= listSize
      ensures Backward(listTail, k) == if k == listSize then null else nodes[listSize - 1 - k]
    {
      var i := 0;
      while i < k
        invariant 0 <= i <= k
        invariant Backward(listTail, k)
               == Backward(if i == listSize then null else nodes[listSize - 1 - i], k - i)
      {
        i := i + 1;
      }
    }

    /** An empty list: no head, no tail, size 0. */
    constructor ()
      ensures Valid() && Repr == {}
      ensures contents == [] && listHead == null && listTail == null && listSize == 0
    {
      listHead, listTail, listSize := null, null, 0;
      contents, nodes, Repr := [], [], {};
    }

    /** A list of freshly allocated nodes holding the values of `list`, in the same order. */
    constructor Copy(list: DoubleLinkedList<T>)
      requires list.Valid()
      ensures Valid() && fresh(Repr)
      ensures contents == list.contents
    {
      listHead, listTail, listSize := null, null, 0;
      contents, nodes, Repr := [], [], {};
      new;
      var ptr := list.listHead;
      ghost var i := 0;
      while ptr != null
        invariant Valid() && fresh(Repr)
        invariant list.Valid()
        invariant 0 <= i <= |list.nodes|
        invariant ptr == if i == |list.nodes| then null else list.nodes[i]
        invariant contents == list.contents[..i]
        decreases |list.nodes| - i
      {
        assert list.contents[..i + 1] == list.contents[..i] + [ptr.nodeValue];
        PushBack(ptr.nodeValue);
        ptr := ptr.nextNode;
        i := i + 1;
      }
    }

    function Size(): (r: int)
      requires Valid()
      reads this, Repr
      ensures r == |contents| && r >= 0
    {
      listSize
    }

    function Empty(): (r: bool)
      requires Valid()
      reads this, Repr
      ensures r <==> contents == []
    {
      listSize == 0
    }

    /** The first value, or `Underflow` on an empty list. */
    function Front(): (r: Result<T>)
      requires Valid()
      reads this, Repr
      ensures contents == [] ==> r == Err(Underflow)
      ensures contents != [] ==> r == Ok(contents[0])
    {
      if Empty() then Err(Underflow) else Ok(Begin().nodeValue)
    }

    /** The last value, or `Underflow` on an empty list. */
    function Back(): (r: Result<T>)
      requires Valid()
      reads this, Repr
      ensures contents == [] ==> r == Err(Underflow)
      ensures contents != [] ==> r == Ok(contents[|contents| - 1])
    {
      if Empty() then Err(Underflow) else Ok(End().nodeValue)
    }

    /** The head node, null for an empty list. */
    function Begin(): (r: DoubleNode?<T>)
      requires Valid()
      reads this, Repr
      ensures r == null <==> contents == []
      ensures r != null ==> r == nodes[0] && r.nodeValue == contents[0] && r.previousNode == null
    {
      listHead
    }

    /** The tail node, null for an empty list. */
    function End(): (r: DoubleNode?<T>)
      requires Valid()
      reads this, Repr
      ensures r == null <==> contents == []
      ensures r != null ==>
        r == nodes[|nodes| - 1] && r.nodeValue == contents[|contents| - 1] && r.nextNode == null
    {
      listTail
    }

    /** The first node, scanning from the head, that holds `value`; null if there is none. */
    method Find(value: T) returns (node: DoubleNode?<T>)
      requires Valid()
      ensures node == null <==> value !in contents
      ensures node != null ==>
        exists i | 0 <= i < |nodes| :: nodes[i] == node && contents[i] == value && value !in contents[..i]
    {
      node := listHead;
      ghost var i := 0;
      while node != null
        invariant 0 <= i <= |nodes|
        invariant node == if i == |nodes| then null else nodes[i]
        invariant value !in contents[..i]
        decreases |nodes| - i
      {
        if node.nodeValue == value {
          return;
        }
        assert contents[..i + 1] == contents[..i] + [contents[i]];
        node := node.nextNode;
        i := i + 1;
      }
      assert contents[..i] == contents;
    }

    /** The number of nodes that hold `value`. */
    method Count(value: T) returns (listCount: int)
      requires Valid()
      ensures listCount == multiset(contents)[value]
    {
      listCount := 0;
      var node := listHead;
      ghost var i := 0;
      while node != null
        invariant 0 <= i <= |nodes|
        invariant node == if i == |nodes| then null else nodes[i]
        invariant listCount == multiset(contents[..i])[value]
        decreases |nodes| - i
      {
        assert contents[..i + 1] == contents[..i] + [contents[i]];
        if node.nodeValue == value {
          listCount := listCount + 1;
        }
        node := node.nextNode;
        i := i + 1;
      }
      assert contents[..i] == contents;
    }

    /** Exchanges head, tail and size with `list`, and with them the two lists' nodes and values. */
    method Swap(list: DoubleLinkedList<T>)
      requires Valid() && list.Valid()
      requires this == list || Repr !! list.Repr
      modifies this, list
      ensures Valid() && list.Valid()
      ensures contents == old(list.contents) && list.contents == old(contents)
      ensures nodes == old(list.nodes) && list.nodes == old(nodes)
      ensures Repr == old(list.Repr) && list.Repr == old(Repr)
    {
      if list != this {
        listHead, listTail, listSize, contents, nodes, Repr,
          list.listHead, list.listTail, list.listSize, list.contents, list.nodes, list.Repr :=
          list.listHead, list.listTail, list.listSize, list.contents, list.nodes, list.Repr,
          listHead, listTail, listSize, contents, nodes, Repr;
        assert Chain(listHead, listTail, listSize, contents, nodes, Repr) == old(list.Valid());
        assert Chain(list.listHead, list.listTail, list.listSize, list.contents, list.nodes, list.Repr) == old(Valid());
      }
    }

    /** Links a new node holding `value` in front of the head. */
    method PushFront(value: T)
      requires Valid()
      modifies this, Repr
      ensures Valid()
      ensures contents == [value] + old(contents) && listSize == old(listSize) + 1
      ensures fresh(listHead) && nodes == [listHead] + old(nodes)
      ensures old(listSize) == 0 ==> listTail == listHead
      ensures Repr == old(Repr) + {listHead}
    {
      ghost var C, N, R := contents, nodes, Repr;
      var newNode := new DoubleNode(value, null, Begin());
      if Empty() {
        listTail := newNode;
      } else {
        listHead.previousNode := newNode;
      }
      listHead := newNode;
      listSize := listSize + 1;
      contents, nodes, Repr := [value] + C, [newNode] + N, R + {newNode};
    }

    /** Links a new node holding `value` after the tail. */
    method PushBack(value: T)
      requires Valid()
      modifies this, Repr
      ensures Valid()
      ensures contents == old(contents) + [value] && listSize == old(listSize) + 1
      ensures fresh(listTail) && nodes == old(nodes) + [listTail]
      ensures old(listSize) == 0 ==> listHead == listTail
      ensures Repr == old(Repr) + {listTail}
    {
      ghost var C, N, R := contents, nodes, Repr;
      var newNode := new DoubleNode(value, End(), null);
      if Empty() {
        listHead := newNode;
      } else {
        listTail.nextNode := newNode;
      }
      listTail := newNode;
      listSize := listSize + 1;
      contents, nodes, Repr := C + [value], N + [newNode], R + {newNode};
    }

    /** Unlinks the head node; `Underflow` on an empty list, which is then left as it was. */
    method PopFront() returns (r: Outcome)
      requires Valid()
      modifies this, Repr
      ensures Valid()
      ensures old(contents) == [] ==> r == Fail(Underflow) && unchanged(this) && Repr == old(Repr)
      ensures old(contents) != [] ==>
        && r == Pass
        && contents == old(contents)[1..] && nodes == old(nodes)[1..]
        && listSize == old(listSize) - 1
        && (listSize == 0 ==> listTail == null)
        && Repr == old(Repr) - {old(listHead)}
    {
      if !Empty() {
        ghost var C, N, R := contents, nodes, Repr;
        assert listSize > 1 ==> listHead.nextNode == nodes[1];
        listSize := listSize - 1;
        var temp := listHead;
        listHead := listHead.nextNode;
        if listSize != 0 {
          listHead.previousNode := null;
        } else {
          listTail := null;
        }
        contents, nodes, Repr := C[1..], N[1..], R - {temp};
        r := Pass;
      } else {
        r := Fail(Underflow);
      }
    }

    /** Unlinks the tail node; `Underflow` on an empty list, which is then left as it was. */
    method PopBack() returns (r: Outcome)
      requires Valid()
      modifies this, Repr
      ensures Valid()
      ensures old(contents) == [] ==> r == Fail(Underflow) && unchanged(this) && Repr == old(Repr)
      ensures old(contents) != [] ==>
        && r == Pass
        && contents == old(contents)[..|old(contents)| - 1]
        && nodes == old(nodes)[..|old(nodes)| - 1]
        && listSize == old(listSize) - 1
        && (listSize == 0 ==> listHead == null)
        && Repr == old(Repr) - {old(listTail)}
    {
      if !Empty() {
        ghost var C, N, R := contents, nodes, Repr;
        assert listSize > 1 ==> listTail.previousNode == nodes[listSize - 2];
        listSize := listSize - 1;
        var temp := listTail;
        listTail := listTail.previousNode;
        if listSize != 0 {
          listTail.nextNode := null;
        } else {
          listHead := null;
        }
        contents, nodes, Repr := C[..listSize], N[..listSize], R - {temp};
        r := Pass;
      } else {
        r := Fail(Underflow);
      }
    }

    /**
     * Unlinks `node`, the `i`-th node: its predecessor (or the head pointer)
     * now leads to its successor, and its successor (or the tail pointer)
     * back to its predecessor. The node's own links are left as they were.
     */
    method Unlink(node: DoubleNode<T>, ghost i: nat)
      requires Valid() && i < |nodes| && nodes[i] == node
      modifies this, Repr - {node}
      ensures Valid() && unchanged(node)
      ensures contents == RemoveAt(old(contents), i)
      ensures nodes == RemoveAt(old(nodes), i)
      ensures Repr == old(Repr) - {node}
    {
      ghost var N, C, R := nodes, contents, Repr;
      var prev, next := node.previousNode, node.nextNode;
      assert prev == if i == 0 then null else N[i - 1];
      assert next == if i == |N| - 1 then null else N[i + 1];
      assert node == listHead <==> i == 0;
      assert node == listTail <==> i == |N| - 1;
      if node != listHead {
        prev.nextNode := next;
      } else {
        listHead := next;
      }
      if node != listTail {
        next.previousNode := prev;
      } else {
        listTail := prev;
      }
      listSize := listSize - 1;
      contents, nodes, Repr := RemoveAt(C, i), RemoveAt(N, i), R - {node};
      forall j | 0 <= j < |nodes| - 1
        ensures nodes[j].nextNode == nodes[j + 1] && nodes[j + 1].previousNode == nodes[j]
      {
        if j < i - 1 {
          assert old(N[j].nextNode) == N[j + 1] && old(N[j + 1].previousNode) == N[j];
        } else if j >= i {
          assert old(N[j + 1].nextNode) == N[j + 2] && old(N[j + 2].previousNode) == N[j + 1];
        }
      }
    }

    /**
     * Unlinks `node`, the `i`-th node, when it holds `value`, and returns the
     * node that followed it.
     */
    method Visit(node: DoubleNode<T>, ghost i: nat, value: T) returns (next: DoubleNode?<T>, dropped: bool)
      requires Valid() && i < |nodes| && nodes[i] == node
      modifies this, Repr
      ensures Valid() && Repr <= old(Repr)
      ensures dropped <==> old(contents[i]) == value
      ensures dropped ==> contents == RemoveAt(old(contents), i) && nodes == RemoveAt(old(nodes), i)
      ensures !dropped ==> contents == old(contents) && nodes == old(nodes)
      ensures next == if i + 1 == old(|nodes|) then null else old(nodes[i + 1])
    {
      next := node.nextNode;
      dropped := node.nodeValue == value;
      if dropped {
        Unlink(node, i);
      }
    }

    /**
     * Unlinks every node that holds `value` and returns how many there were;
     * the other values keep their relative order.
     */
    method Erase(value: T) returns (number: int)
      requires Valid()
      modifies this, Repr
      ensures Valid()
      ensures number == multiset(old(contents))[value]
      ensures contents == Without(old(contents), value) && value !in contents
      ensures Repr <= old(Repr)
    {
      ghost var original := contents;
      number := 0;
      var node := listHead;
      ghost var i := 0;
      ghost var k := 0;
      while node != null
        invariant Valid() && Repr <= old(Repr)
        invariant 0 <= i <= |nodes| && 0 <= k <= |original|
        invariant node == if i == |nodes| then null else nodes[i]
        invariant contents[..i] == Without(original[..k], value)
        invariant contents[i..] == original[k..]
        invariant number == k - i
        decreases |nodes| - i
      {
        EraseStep(original, k, contents, i, value);
        var next, dropped := Visit(node, i, value);
        if dropped {
          number := number + 1;
        } else {
          i := i + 1;
        }
        k := k + 1;
        node := next;
      }
      assert original[..k] == original;
      WithoutLength(original, value);
      WithoutRemovesAll(original, value);
    }
  }

  /**
   * Values pushed at the back come out at the front in the order they went
   * in, and an emptied list answers every peek and pop with `Underflow`.
   */
  method QueueOrderScenario<T(==)>(x: T, y: T)
    returns (first: Result<T>, second: Result<T>, last: Result<T>, emptyPop: Outcome)
    ensures first == Ok(x) && second == Ok(y)
    ensures last == Err(Underflow) && emptyPop == Fail(Underflow)
  {
    var list := new DoubleLinkedList<T>();
    list.PushBack(x);
    list.PushBack(y);
    first := list.Front();
    var _ := list.PopFront();
    second := list.Front();
    var _ := list.PopFront();
    last := list.Back();
    emptyPop := list.PopBack();
  }
}
