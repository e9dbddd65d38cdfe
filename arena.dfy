/**
 The doubly linked recency list of both cache variants (`lruNode` with its
 `left`/`right` pointers). Pointers are node ids into an arena, a map from
 id to node; `Nil` is Go's nil pointer. A ghost sequence of ids, head
 first, is the list the links are meant to spell out, and `Linked` says
 that they do.
 */
module Arena {
  import opened Recency

  /** A node reference: nil, or the id of a node in the arena. */
  datatype Link = Nil | Ptr(id: nat)

  /** `lruNode`: key, value and the links to the more recent (left) and less recent (right) neighbours. */
  datatype Node<V> = Node(key: string, val: V, left: Link, right: Link)

  /** `newNode`: a node for the pair that is not linked to anything yet. */
  function NewNode<V>(key: string, val: V): (n: Node<V>)
    ensures Entry(n.key, n.val) == Entry(key, val)
    ensures n.left == Nil && n.right == Nil
  {
    Node(key, val, Nil, Nil)
  }

  function First(s: seq<nat>): Link {
    if s == [] then Nil else Ptr(s[0])
  }

  function Last(s: seq<nat>): Link {
    if s == [] then Nil else Ptr(s[|s| - 1])
  }

  /** The left link the node at position `i` must carry. */
  function LeftOf(s: seq<nat>, i: nat): Link
    requires i < |s|
  {
    if i == 0 then Nil else Ptr(s[i - 1])
  }

  /** The right link the node at position `i` must carry. */
  function RightOf(s: seq<nat>, i: nat): Link
    requires i < |s|
  {
    if i == |s| - 1 then Nil else Ptr(s[i + 1])
  }

  ghost predicate Distinct(s: seq<nat>) {
    forall i, j :: 0 <= i < j < |s| ==> s[i] != s[j]
  }

  /**
   The ids `s` are nodes of the arena, `head` and `tail` point to
   the first and last of them (both nil when `s` is empty), and every
   node's left and right links point to its neighbours in `s`, so that
   head.left and tail.right are nil.
   */
  ghost predicate Linked<V>(s: seq<nat>, nodes: map<nat, Node<V>>, head: Link, tail: Link) {
    && (forall i {:trigger s[i] in nodes} :: 0 <= i < |s| ==> s[i] in nodes)
    && head == First(s)
    && tail == Last(s)
    && LinksMatch(s, nodes)
  }

  /** Every node of `s` links to its neighbours in `s`. */
  ghost predicate LinksMatch<V>(s: seq<nat>, nodes: map<nat, Node<V>>)
    requires forall i :: 0 <= i < |s| ==> s[i] in nodes
  {
    forall i {:trigger nodes[s[i]]} :: 0 <= i < |s| ==> nodes[s[i]].left == LeftOf(s, i) && nodes[s[i]].right == RightOf(s, i)
  }

  /**
   Following right links from two equal ids reaches the end of the list
   at the same time, so linked ids are pairwise distinct.
   */
  lemma LinkedDistinct<V>(s: seq<nat>, nodes: map<nat, Node<V>>, head: Link, tail: Link)
    requires Linked(s, nodes, head, tail)
    ensures Distinct(s)
  {
    forall i, j | 0 <= i < j < |s| ensures s[i] != s[j] {
      LinksApart(s, nodes, i, j);
    }
  }

  lemma {:induction false} LinksApart<V>(s: seq<nat>, nodes: map<nat, Node<V>>, i: nat, j: nat)
    requires (forall k :: 0 <= k < |s| ==> s[k] in nodes) && LinksMatch(s, nodes) && i < j < |s|
    ensures s[i] != s[j]
    decreases |s| - j
  {
    if s[i] == s[j] {
      assert nodes[s[i]].right == RightOf(s, i) && nodes[s[j]].right == RightOf(s, j);
      if j < |s| - 1 {
        LinksApart(s, nodes, i + 1, j + 1);
      }
    }
  }

  /** Two positions of a linked list hold different ids. */
  lemma Apart<V>(s: seq<nat>, nodes: map<nat, Node<V>>, i: nat, j: nat)
    requires Linked(s, nodes, First(s), Last(s)) && i < |s| && j < |s| && i != j
    ensures s[i] != s[j]
  {
    if i < j { LinksApart(s, nodes, i, j); } else { LinksApart(s, nodes, j, i); }
  }

  /** Node `x` has the same links in `nodes'` as in `nodes`. */
  ghost predicate SameLinks<V>(nodes: map<nat, Node<V>>, nodes': map<nat, Node<V>>, x: nat) {
    x in nodes && x in nodes' && nodes'[x].left == nodes[x].left && nodes'[x].right == nodes[x].right
  }

  /** Position of `x` in `s`. */
  function IndexOf(s: seq<nat>, x: nat): (i: nat)
    requires x in s
    ensures i < |s| && s[i] == x
  {
    if s[0] == x then 0 else 1 + IndexOf(s[1..], x)
  }

  /**
   The list after `x` is made the head: moved there when it is already in
   the list, linked in front of the old head otherwise.
   */
  function Promoted(s: seq<nat>, x: nat): (r: seq<nat>)
    ensures r != [] && r[0] == x
    ensures forall y :: y in r <==> y in s || y == x
  {
    if x in s then
      var r := MoveToFront(s, IndexOf(s, x));
      assert forall y :: y in r <==> y in multiset(r);
      r
    else [x] + s
  }

  /** The arena holds the same ids with the same keys and values; only links may differ. */
  ghost predicate SameData<V>(nodes: map<nat, Node<V>>, nodes': map<nat, Node<V>>) {
    && nodes'.Keys == nodes.Keys
    && forall x {:trigger nodes'[x]} :: x in nodes ==> nodes'[x].key == nodes[x].key && nodes'[x].val == nodes[x].val
  }

  /** The pairs stored along `s`, head first. */
  function EntriesOf<V>(s: seq<nat>, nodes: map<nat, Node<V>>): (es: seq<Entry<V>>)
    requires forall i :: 0 <= i < |s| ==> s[i] in nodes
    ensures |es| == |s|
    ensures forall i {:trigger es[i]} :: 0 <= i < |s| ==> es[i] == Entry(nodes[s[i]].key, nodes[s[i]].val)
  {
    seq(|s|, i requires 0 <= i < |s| => Entry(nodes[s[i]].key, nodes[s[i]].val))
  }

  // ---------------------------------------------------------------------
  // The list invariant at its ends
  // ---------------------------------------------------------------------

  /**
   head.left == nil and tail.right == nil; the list is empty exactly when
   head and tail are both nil; with one node, head == tail.
   */
  lemma LinkedEnds<V>(s: seq<nat>, nodes: map<nat, Node<V>>, head: Link, tail: Link)
    requires Linked(s, nodes, head, tail)
    ensures s == [] <==> head == Nil && tail == Nil
    ensures s != [] ==> head.Ptr? && tail.Ptr? && head.id in nodes && tail.id in nodes
    ensures s != [] ==> nodes[head.id].left == Nil && nodes[tail.id].right == Nil
    ensures |s| == 1 ==> head == tail
    ensures s != [] ==> tail == Ptr(s[|s| - 1]) && nodes[tail.id].left == LeftOf(s, |s| - 1)
  {
    if s != [] {
      assert nodes[s[0]].left == LeftOf(s, 0);
      assert nodes[s[|s| - 1]].right == RightOf(s, |s| - 1);
      assert nodes[s[|s| - 1]].left == LeftOf(s, |s| - 1);
    }
  }

  /** `x` is not an id of the arena. */
  ghost predicate Unused<V>(nodes: map<nat, Node<V>>, x: nat) {
    x !in nodes
  }

  /** Every id from `n` on is free: the allocator's invariant. */
  ghost predicate FreshFrom<V>(nodes: map<nat, Node<V>>, n: nat) {
    forall x {:trigger Unused(nodes, x)} :: n <= x ==> Unused(nodes, x)
  }

  /** Relinking and value updates keep the ids, and so the free ones. */
  lemma FreshFromKeys<V>(nodes: map<nat, Node<V>>, nodes': map<nat, Node<V>>, n: nat)
    requires FreshFrom(nodes, n) && nodes'.Keys == nodes.Keys
    ensures FreshFrom(nodes', n)
  {
    forall x | n <= x ensures Unused(nodes', x) {
      assert Unused(nodes, x);
    }
  }

  /** Taking the first free id leaves every later one free. */
  lemma FreshFromAlloc<V>(nodes: map<nat, Node<V>>, n: nat, node: Node<V>)
    requires FreshFrom(nodes, n)
    ensures n !in nodes && FreshFrom(nodes[n := node], n + 1)
  {
    assert Unused(nodes, n);
    var nodes' := nodes[n := node];
    forall x | n + 1 <= x ensures Unused(nodes', x) {
      assert Unused(nodes, x);
    }
  }

  /** Allocating a node outside the list leaves the list as it was. */
  lemma LinkedAlloc<V>(s: seq<nat>, nodes: map<nat, Node<V>>, head: Link, tail: Link, id: nat, n: Node<V>)
    requires Linked(s, nodes, head, tail) && id !in nodes
    ensures id !in s
    ensures Linked(s, nodes[id := n], head, tail)
    ensures EntriesOf(s, nodes[id := n]) == EntriesOf(s, nodes)
  {
    forall i | 0 <= i < |s| ensures s[i] != id {
      assert s[i] in nodes;
    }
  }

  // ---------------------------------------------------------------------
  // Relinking: the three list surgeries of the source
  // ---------------------------------------------------------------------

  /** Linking a detached node `x` in front of the head. */
  lemma PushFrontLinked<V>(s: seq<nat>, nodes: map<nat, Node<V>>, nodes': map<nat, Node<V>>, x: nat)
    requires Linked(s, nodes, First(s), Last(s))
    requires x !in s && x in nodes'
    requires nodes'[x].left == Nil && nodes'[x].right == First(s)
    requires s != [] ==> s[0] in nodes' && nodes'[s[0]].left == Ptr(x) && nodes'[s[0]].right == nodes[s[0]].right
    requires forall i :: 1 <= i < |s| ==> SameLinks(nodes, nodes', s[i])
    ensures Linked([x] + s, nodes', Ptr(x), if s == [] then Ptr(x) else Last(s))
  {
    var t := [x] + s;
    forall i | 0 <= i < |t| ensures t[i] in nodes' && nodes'[t[i]].left == LeftOf(t, i) && nodes'[t[i]].right == RightOf(t, i) {
      if i == 0 {
      } else if i == 1 {
        assert t[i] == s[0];
      } else {
        assert t[i] == s[i - 1] && SameLinks(nodes, nodes', s[i - 1]);
        assert nodes[s[i - 1]].left == LeftOf(s, i - 1);
        assert nodes[s[i - 1]].right == RightOf(s, i - 1);
      }
    }
  }

  /** Unlinking the tail: its left neighbour's right link becomes nil. */
  lemma DropLastLinked<V>(s: seq<nat>, nodes: map<nat, Node<V>>, nodes': map<nat, Node<V>>)
    requires Linked(s, nodes, First(s), Last(s)) && s != []
    requires |s| >= 2 ==> s[|s| - 2] in nodes' && nodes'[s[|s| - 2]].right == Nil
    requires |s| >= 2 ==> nodes'[s[|s| - 2]].left == nodes[s[|s| - 2]].left
    requires forall i :: 0 <= i < |s| - 2 ==> SameLinks(nodes, nodes', s[i])
    ensures Linked(s[..|s| - 1], nodes', First(s[..|s| - 1]), Last(s[..|s| - 1]))
  {
    var t := s[..|s| - 1];
    forall i | 0 <= i < |t| ensures t[i] in nodes' && nodes'[t[i]].left == LeftOf(t, i) && nodes'[t[i]].right == RightOf(t, i) {
      assert t[i] == s[i];
      assert nodes[s[i]].left == LeftOf(s, i);
      assert nodes[s[i]].right == RightOf(s, i);
    }
  }

  /** `Set` linking a detached node `x` in front of the head, as the arena update it performs. */
  lemma PushFrontUpdate<V>(s: seq<nat>, nodes: map<nat, Node<V>>, x: nat)
    requires Linked(s, nodes, First(s), Last(s)) && x in nodes && x !in s
    requires nodes[x].left == Nil && nodes[x].right == Nil
    ensures s != [] ==> Linked([x] + s, nodes[x := nodes[x].(right := Ptr(s[0]))][s[0] := nodes[s[0]].(left := Ptr(x))], Ptr(x), Last(s))
    ensures s == [] ==> Linked([x], nodes, Ptr(x), Ptr(x))
    ensures s != [] ==> SameData(nodes, nodes[x := nodes[x].(right := Ptr(s[0]))][s[0] := nodes[s[0]].(left := Ptr(x))])
  {
    if s == [] {
      PushFrontLinked(s, nodes, nodes, x);
    } else {
      var nodes' := nodes[x := nodes[x].(right := Ptr(s[0]))][s[0] := nodes[s[0]].(left := Ptr(x))];
      PushFrontOthers(s, nodes, x);
      PushFrontLinked(s, nodes, nodes', x);
      TwoLinkUpdatesSameData(nodes, x, nodes[x].(right := Ptr(s[0])), s[0], nodes[s[0]].(left := Ptr(x)));
    }
  }

  /** Linking `x` in front of the head changes the links of no node past the head. */
  lemma PushFrontOthers<V>(s: seq<nat>, nodes: map<nat, Node<V>>, x: nat)
    requires Linked(s, nodes, First(s), Last(s)) && x in nodes && x !in s && s != []
    ensures var nodes' := nodes[x := nodes[x].(right := Ptr(s[0]))][s[0] := nodes[s[0]].(left := Ptr(x))];
      nodes[s[0]].right == nodes'[s[0]].right && forall i :: 1 <= i < |s| ==> SameLinks(nodes, nodes', s[i])
  {
    var nodes' := nodes[x := nodes[x].(right := Ptr(s[0]))][s[0] := nodes[s[0]].(left := Ptr(x))];
    forall i | 1 <= i < |s| ensures SameLinks(nodes, nodes', s[i]) {
      Apart(s, nodes, i, 0);
    }
  }

  /** Replacing two nodes by copies with the same key and value keeps the data. */
  lemma TwoLinkUpdatesSameData<V>(nodes: map<nat, Node<V>>, a: nat, na: Node<V>, b: nat, nb: Node<V>)
    requires a in nodes && b in nodes && na.key == nodes[a].key && na.val == nodes[a].val
    requires b != a ==> nb.key == nodes[b].key && nb.val == nodes[b].val
    requires b == a ==> nb.key == na.key && nb.val == na.val
    ensures SameData(nodes, nodes[a := na][b := nb])
  {
  }

  /** `Set` evicting the tail of a list of two or more, as the arena update it performs. */
  lemma DropLastUpdate<V>(s: seq<nat>, nodes: map<nat, Node<V>>)
    requires Linked(s, nodes, First(s), Last(s)) && |s| >= 2
    ensures Linked(s[..|s| - 1], nodes[s[|s| - 2] := nodes[s[|s| - 2]].(right := Nil)], Ptr(s[0]), Ptr(s[|s| - 2]))
    ensures SameData(nodes, nodes[s[|s| - 2] := nodes[s[|s| - 2]].(right := Nil)])
  {
    var nodes' := nodes[s[|s| - 2] := nodes[s[|s| - 2]].(right := Nil)];
    DropLastOthers(s, nodes);
    DropLastLinked(s, nodes, nodes');
    TwoLinkUpdatesSameData(nodes, s[|s| - 2], nodes[s[|s| - 2]].(right := Nil), s[|s| - 2], nodes[s[|s| - 2]].(right := Nil));
    assert nodes' == nodes[s[|s| - 2] := nodes[s[|s| - 2]].(right := Nil)][s[|s| - 2] := nodes[s[|s| - 2]].(right := Nil)];
  }

  /** Unlinking the tail changes the links of no node before its left neighbour. */
  lemma DropLastOthers<V>(s: seq<nat>, nodes: map<nat, Node<V>>)
    requires Linked(s, nodes, First(s), Last(s)) && |s| >= 2
    ensures var nodes' := nodes[s[|s| - 2] := nodes[s[|s| - 2]].(right := Nil)];
      nodes[s[|s| - 2]].left == nodes'[s[|s| - 2]].left && forall i :: 0 <= i < |s| - 2 ==> SameLinks(nodes, nodes', s[i])
  {
    var nodes' := nodes[s[|s| - 2] := nodes[s[|s| - 2]].(right := Nil)];
    forall i | 0 <= i < |s| - 2 ensures SameLinks(nodes, nodes', s[i]) {
      Apart(s, nodes, i, |s| - 2);
    }
  }

  /**
   Splicing the node at position `p` (not the head) out of the list and
   linking it in front of the head: its former neighbours are linked to
   each other, the tail moves left if the node was the tail, and only
   those four nodes change links.
   */
  lemma MoveToFrontLinked<V>(s: seq<nat>, nodes: map<nat, Node<V>>, nodes': map<nat, Node<V>>, p: nat)
    requires Linked(s, nodes, First(s), Last(s)) && 0 < p < |s|
    requires forall i :: 0 <= i < |s| ==> s[i] in nodes'
    requires nodes'[s[p]].left == Nil && nodes'[s[p]].right == Ptr(s[0])
    requires nodes'[s[0]].left == Ptr(s[p])
    requires p > 1 ==> nodes'[s[0]].right == nodes[s[0]].right
    requires nodes'[s[p - 1]].right == RightOf(s, p)
    requires p > 1 ==> nodes'[s[p - 1]].left == nodes[s[p - 1]].left
    requires p + 1 < |s| ==> nodes'[s[p + 1]].left == Ptr(s[p - 1]) && nodes'[s[p + 1]].right == nodes[s[p + 1]].right
    requires forall i :: 0 < i < |s| && i != p - 1 && i != p && i != p + 1 ==> SameLinks(nodes, nodes', s[i])
    ensures Linked(MoveToFront(s, p), nodes', Ptr(s[p]), if p == |s| - 1 then Ptr(s[p - 1]) else Last(s))
  {
    var t := MoveToFront(s, p);
    MoveToFrontListed(s, nodes', p);
    MoveToFrontLinks(s, nodes, nodes', p);
    MoveToFrontLast(s, p);
  }

  lemma MoveToFrontLast(s: seq<nat>, p: nat)
    requires 0 < p < |s|
    ensures Last(MoveToFront(s, p)) == if p == |s| - 1 then Ptr(s[p - 1]) else Last(s)
  {
    var t := MoveToFront(s, p);
    if p == |s| - 1 { assert t[|t| - 1] == s[p - 1]; } else { assert t[|t| - 1] == s[|s| - 1]; }
  }

  lemma MoveToFrontListed<V>(s: seq<nat>, nodes': map<nat, Node<V>>, p: nat)
    requires p < |s| && forall i :: 0 <= i < |s| ==> s[i] in nodes'
    ensures var t := MoveToFront(s, p); forall i :: 0 <= i < |t| ==> t[i] in nodes'
  {
    var t := MoveToFront(s, p);
    forall i | 0 <= i < |t| ensures t[i] in nodes' {
      var a := if i == 0 then p else if i <= p then i - 1 else i;
      assert t[i] == s[a];
    }
  }

  /** The links after the move match the moved sequence, position by position. */
  lemma MoveToFrontLinks<V>(s: seq<nat>, nodes: map<nat, Node<V>>, nodes': map<nat, Node<V>>, p: nat)
    requires Linked(s, nodes, First(s), Last(s)) && 0 < p < |s|
    requires forall i :: 0 <= i < |s| ==> s[i] in nodes'
    requires nodes'[s[p]].left == Nil && nodes'[s[p]].right == Ptr(s[0])
    requires nodes'[s[0]].left == Ptr(s[p])
    requires p > 1 ==> nodes'[s[0]].right == nodes[s[0]].right
    requires nodes'[s[p - 1]].right == RightOf(s, p)
    requires p > 1 ==> nodes'[s[p - 1]].left == nodes[s[p - 1]].left
    requires p + 1 < |s| ==> nodes'[s[p + 1]].left == Ptr(s[p - 1]) && nodes'[s[p + 1]].right == nodes[s[p + 1]].right
    requires forall i :: 0 < i < |s| && i != p - 1 && i != p && i != p + 1 ==> SameLinks(nodes, nodes', s[i])
    requires var t := MoveToFront(s, p); forall i :: 0 <= i < |t| ==> t[i] in nodes'
    ensures LinksMatch(MoveToFront(s, p), nodes')
  {
    var t := MoveToFront(s, p);
    forall i | 0 <= i < |t| ensures nodes'[t[i]].left == LeftOf(t, i) && nodes'[t[i]].right == RightOf(t, i) {
      if i == 0 {
        assert t[0] == s[p] && t[1] == s[0];
      } else if i <= p {
        MovedBefore(s, nodes, nodes', p, i);
      } else {
        MovedAfter(s, nodes, nodes', p, i);
      }
    }
  }

  /** The links of a node that was in front of the moved one. */
  lemma MovedBefore<V>(s: seq<nat>, nodes: map<nat, Node<V>>, nodes': map<nat, Node<V>>, p: nat, i: nat)
    requires Linked(s, nodes, First(s), Last(s)) && 0 < p < |s| && 1 <= i <= p
    requires forall i :: 0 <= i < |s| ==> s[i] in nodes'
    requires nodes'[s[0]].left == Ptr(s[p])
    requires p > 1 ==> nodes'[s[0]].right == nodes[s[0]].right
    requires nodes'[s[p - 1]].right == RightOf(s, p)
    requires p > 1 ==> nodes'[s[p - 1]].left == nodes[s[p - 1]].left
    requires forall i :: 0 < i < |s| && i != p - 1 && i != p && i != p + 1 ==> SameLinks(nodes, nodes', s[i])
    ensures var t := MoveToFront(s, p);
      nodes'[t[i]].left == LeftOf(t, i) && nodes'[t[i]].right == RightOf(t, i)
  {
    var t := MoveToFront(s, p);
    assert t[i] == s[i - 1];
    assert nodes[s[i - 1]].left == LeftOf(s, i - 1);
    assert nodes[s[i - 1]].right == RightOf(s, i - 1);
    if i == p {
      if p + 1 < |s| { assert t[i + 1] == s[p + 1]; }
    } else {
      assert t[i + 1] == s[i];
    }
    if i == 1 { assert t[0] == s[p]; } else { assert t[i - 1] == s[i - 2]; }
  }

  /** The links of a node that was behind the moved one. */
  lemma MovedAfter<V>(s: seq<nat>, nodes: map<nat, Node<V>>, nodes': map<nat, Node<V>>, p: nat, i: nat)
    requires Linked(s, nodes, First(s), Last(s)) && 0 < p < i < |s|
    requires forall i :: 0 <= i < |s| ==> s[i] in nodes'
    requires p + 1 < |s| ==> nodes'[s[p + 1]].left == Ptr(s[p - 1]) && nodes'[s[p + 1]].right == nodes[s[p + 1]].right
    requires forall i :: 0 < i < |s| && i != p - 1 && i != p && i != p + 1 ==> SameLinks(nodes, nodes', s[i])
    ensures var t := MoveToFront(s, p);
      nodes'[t[i]].left == LeftOf(t, i) && nodes'[t[i]].right == RightOf(t, i)
  {
    var t := MoveToFront(s, p);
    assert t[i] == s[i];
    assert nodes[s[i]].left == LeftOf(s, i);
    assert nodes[s[i]].right == RightOf(s, i);
    if i == p + 1 {
      assert t[i - 1] == s[p - 1];
    } else {
      assert t[i - 1] == s[i - 1];
    }
    if i < |s| - 1 { assert t[i + 1] == s[i + 1]; }
  }

  /**
   What `pushToStart` needs of the arena to relink `id` in front of `head`:
   both are nodes, they differ, and the neighbours of `id` are two distinct
   nodes other than `id`, the right one not being `head`.
   */
  ghost predicate CanRelink<V>(nodes: map<nat, Node<V>>, id: nat, head: nat) {
    && id in nodes && head in nodes && id != head
    && (nodes[id].left.Ptr? ==> nodes[id].left.id in nodes && nodes[id].left.id != id)
    && (nodes[id].right.Ptr? ==> nodes[id].right.id in nodes && nodes[id].right.id != id && nodes[id].right.id != head)
    && (nodes[id].left.Ptr? && nodes[id].right.Ptr? ==> nodes[id].left.id != nodes[id].right.id)
  }

  /**
   `nodes'` is the arena after `pushToStart` relinks node `id` in front of
   `head`: its left neighbour's right link and its right neighbour's left
   link skip over it, it gets a nil left link and `head` as its right
   link, `head` gets it as its left link, and every other node is as it was.
   */
  ghost predicate Relinked<V>(nodes: map<nat, Node<V>>, nodes': map<nat, Node<V>>, id: nat, head: nat)
    requires CanRelink(nodes, id, head)
  {
    var n := nodes[id];
    && nodes'.Keys == nodes.Keys
    && (forall x {:trigger nodes'[x]} :: x in nodes && x != id && x != head && n.left != Ptr(x) && n.right != Ptr(x) ==> nodes'[x] == nodes[x])
    && nodes'[id] == n.(left := Nil, right := Ptr(head))
    && nodes'[head] == nodes[head].(left := Ptr(id), right := if n.left == Ptr(head) then n.right else nodes[head].right)
    && (n.left.Ptr? && n.left.id != head ==> nodes'[n.left.id] == nodes[n.left.id].(right := n.right))
    && (n.right.Ptr? ==> nodes'[n.right.id] == nodes[n.right.id].(left := n.left))
  }

  /**
   `nodes'` is the arena after node `id` is spliced out of its list: its
   left neighbour's right link and its right neighbour's left link skip
   over it, and every other node is as it was.
   */
  ghost predicate Unlinked<V>(nodes: map<nat, Node<V>>, nodes': map<nat, Node<V>>, id: nat)
    requires id in nodes
  {
    var n := nodes[id];
    && nodes'.Keys == nodes.Keys
    && (forall x {:trigger nodes'[x]} :: x in nodes && n.left != Ptr(x) && n.right != Ptr(x) ==> nodes'[x] == nodes[x])
    && (n.left.Ptr? ==> n.left.id in nodes && nodes'[n.left.id] == nodes[n.left.id].(right := n.right))
    && (n.right.Ptr? ==> n.right.id in nodes && nodes'[n.right.id] == nodes[n.right.id].(left := n.left))
  }

  /** Splicing out and then linking in front of the head is the relinking `pushToStart` performs. */
  lemma UnlinkedThenPushed<V>(nodes: map<nat, Node<V>>, mid: map<nat, Node<V>>, id: nat, head: nat)
    requires CanRelink(nodes, id, head) && Unlinked(nodes, mid, id)
    ensures id in mid && head in mid
    ensures Relinked(nodes, mid[id := mid[id].(left := Nil, right := Ptr(head))][head := mid[head].(left := Ptr(id))], id, head)
  {
  }

  /** Relinking only writes links: keys and values stay. */
  lemma RelinkedSameData<V>(nodes: map<nat, Node<V>>, nodes': map<nat, Node<V>>, id: nat, head: nat)
    requires CanRelink(nodes, id, head) && Relinked(nodes, nodes', id, head)
    ensures SameData(nodes, nodes')
  {
    var n := nodes[id];
    forall x | x in nodes ensures nodes'[x].key == nodes[x].key && nodes'[x].val == nodes[x].val {
      if x == id || x == head || n.left == Ptr(x) || n.right == Ptr(x) {
      } else {
        assert nodes'[x] == nodes[x];
      }
    }
  }

  /** The links around a listed node that is not the head. */
  lemma ListedNeighbours<V>(s: seq<nat>, nodes: map<nat, Node<V>>, p: nat)
    requires Linked(s, nodes, First(s), Last(s)) && 0 < p < |s|
    ensures CanRelink(nodes, s[p], s[0])
    ensures nodes[s[p]].left == Ptr(s[p - 1]) && nodes[s[p]].right == RightOf(s, p)
    ensures nodes[s[0]].right == RightOf(s, 0)
    ensures p > 1 ==> nodes[s[p - 1]].left == Ptr(s[p - 2])
    ensures p + 1 < |s| ==> nodes[s[p + 1]].right == RightOf(s, p + 1)
  {
    ListedLinks(s, nodes, p);
    ListedApart(s, nodes, p);
  }

  lemma ListedLinks<V>(s: seq<nat>, nodes: map<nat, Node<V>>, p: nat)
    requires Linked(s, nodes, First(s), Last(s)) && 0 < p < |s|
    ensures nodes[s[p]].left == Ptr(s[p - 1]) && nodes[s[p]].right == RightOf(s, p)
    ensures nodes[s[0]].right == RightOf(s, 0)
    ensures p > 1 ==> nodes[s[p - 1]].left == Ptr(s[p - 2])
    ensures p + 1 < |s| ==> nodes[s[p + 1]].right == RightOf(s, p + 1)
  {
    assert nodes[s[p]].left == LeftOf(s, p);
    assert nodes[s[0]].right == RightOf(s, 0);
    assert nodes[s[p - 1]].left == LeftOf(s, p - 1);
    if p + 1 < |s| {
      assert nodes[s[p + 1]].right == RightOf(s, p + 1);
    }
  }

  lemma ListedApart<V>(s: seq<nat>, nodes: map<nat, Node<V>>, p: nat)
    requires Linked(s, nodes, First(s), Last(s)) && 0 < p < |s|
    requires nodes[s[p]].left == Ptr(s[p - 1]) && nodes[s[p]].right == RightOf(s, p)
    ensures CanRelink(nodes, s[p], s[0])
  {
    assert s[0] in nodes && s[p] in nodes && s[p - 1] in nodes;
    Apart(s, nodes, p, 0);
    Apart(s, nodes, p, p - 1);
    if p + 1 < |s| {
      assert nodes[s[p]].right == Ptr(s[p + 1]) && s[p + 1] in nodes;
      Apart(s, nodes, p + 1, 0);
      Apart(s, nodes, p + 1, p - 1);
      Apart(s, nodes, p + 1, p);
    } else {
      assert nodes[s[p]].right == Nil;
    }
  }

  /** Nodes away from the moved one and the head keep their links. */
  lemma ListedOthers<V>(s: seq<nat>, nodes: map<nat, Node<V>>, nodes': map<nat, Node<V>>, p: nat)
    requires Linked(s, nodes, First(s), Last(s)) && 0 < p < |s|
    requires CanRelink(nodes, s[p], s[0]) && Relinked(nodes, nodes', s[p], s[0])
    requires nodes[s[p]].left == Ptr(s[p - 1]) && nodes[s[p]].right == RightOf(s, p)
    ensures forall i :: 0 < i < |s| && i != p - 1 && i != p && i != p + 1 ==> SameLinks(nodes, nodes', s[i])
  {
    forall i | 0 < i < |s| && i != p - 1 && i != p && i != p + 1 ensures SameLinks(nodes, nodes', s[i]) {
      ListedOther(s, nodes, p, i);
      KeptByRelink(nodes, nodes', s[p], s[0], s[i]);
    }
  }

  /** A position away from `p`, its neighbours and the head holds none of their ids. */
  lemma ListedOther<V>(s: seq<nat>, nodes: map<nat, Node<V>>, p: nat, i: nat)
    requires Linked(s, nodes, First(s), Last(s)) && 0 < p < |s|
    requires nodes[s[p]].left == Ptr(s[p - 1]) && nodes[s[p]].right == RightOf(s, p)
    requires 0 < i < |s| && i != p - 1 && i != p && i != p + 1
    ensures s[i] in nodes && s[i] != s[p] && s[i] != s[0]
    ensures nodes[s[p]].left != Ptr(s[i]) && nodes[s[p]].right != Ptr(s[i])
  {
    Apart(s, nodes, i, 0);
    Apart(s, nodes, i, p);
    Apart(s, nodes, i, p - 1);
    if p + 1 < |s| { Apart(s, nodes, i, p + 1); }
  }

  /** A node that is neither the relinked one, nor the head, nor a neighbour of the relinked one is untouched. */
  lemma KeptByRelink<V>(nodes: map<nat, Node<V>>, nodes': map<nat, Node<V>>, id: nat, head: nat, x: nat)
    requires CanRelink(nodes, id, head) && Relinked(nodes, nodes', id, head) && x in nodes
    requires x != id && x != head && nodes[id].left != Ptr(x) && nodes[id].right != Ptr(x)
    ensures SameLinks(nodes, nodes', x)
  {
    assert nodes'[x] == nodes[x];
  }

  /** Relinking a listed node that is not the head. */
  lemma RelinkListed<V>(s: seq<nat>, nodes: map<nat, Node<V>>, nodes': map<nat, Node<V>>, p: nat)
    requires Linked(s, nodes, First(s), Last(s)) && 0 < p < |s|
    requires CanRelink(nodes, s[p], s[0]) && Relinked(nodes, nodes', s[p], s[0])
    ensures nodes[s[p]].left == Ptr(s[p - 1])
    ensures Linked(MoveToFront(s, p), nodes', Ptr(s[p]), if p == |s| - 1 then Ptr(s[p - 1]) else Last(s))
  {
    ListedNeighbours(s, nodes, p);
    ListedOthers(s, nodes, nodes', p);
    MoveToFrontLinked(s, nodes, nodes', p);
  }

  /** Relinking a detached node. */
  lemma RelinkDetached<V>(s: seq<nat>, nodes: map<nat, Node<V>>, nodes': map<nat, Node<V>>, id: nat)
    requires Linked(s, nodes, First(s), Last(s)) && s != [] && id in nodes && id !in s
    requires nodes[id].left == Nil && nodes[id].right == Nil
    requires CanRelink(nodes, id, s[0]) && Relinked(nodes, nodes', id, s[0])
    ensures Linked([id] + s, nodes', Ptr(id), Last(s))
  {
    assert nodes[s[0]].left == LeftOf(s, 0) && nodes[s[0]].right == RightOf(s, 0);
    forall i | 1 <= i < |s| ensures SameLinks(nodes, nodes', s[i]) {
      Apart(s, nodes, i, 0);
    }
    PushFrontLinked(s, nodes, nodes', id);
  }

  /** A listed node other than the head, or a detached node, can be relinked in front of the head. */
  lemma RelinkReady<V>(s: seq<nat>, nodes: map<nat, Node<V>>, head: Link, tail: Link, id: nat)
    requires Linked(s, nodes, head, tail) && s != [] && id in nodes && head != Ptr(id)
    requires id in s || (nodes[id].left == Nil && nodes[id].right == Nil)
    ensures head == Ptr(s[0]) && tail == Last(s)
    ensures CanRelink(nodes, id, s[0])
    ensures tail == Ptr(id) ==> nodes[id].left.Ptr?
  {
    if id in s {
      ListedNeighbours(s, nodes, IndexOf(s, id));
    }
  }

  /**
   Relinking a listed node, or a detached one, in front of the head yields
   a well-linked list in the promoted order; the tail moves to the node's
   left neighbour when the node was the tail; keys and values stay.
   */
  lemma RelinkLinked<V>(s: seq<nat>, nodes: map<nat, Node<V>>, nodes': map<nat, Node<V>>, id: nat)
    requires Linked(s, nodes, First(s), Last(s)) && s != [] && id in nodes && id != s[0]
    requires id in s || (nodes[id].left == Nil && nodes[id].right == Nil)
    requires CanRelink(nodes, id, s[0]) && Relinked(nodes, nodes', id, s[0])
    ensures Linked(Promoted(s, id), nodes', Ptr(id), if Last(s) == Ptr(id) then nodes[id].left else Last(s))
    ensures SameData(nodes, nodes')
  {
    if id in s {
      var p := IndexOf(s, id);
      RelinkListed(s, nodes, nodes', p);
    } else {
      RelinkDetached(s, nodes, nodes', id);
    }
    RelinkedSameData(nodes, nodes', id, s[0]);
  }

  // ---------------------------------------------------------------------
  // The stored pairs along a relinked list
  // ---------------------------------------------------------------------

  /** Only keys and values matter: relinking or adding nodes off `s` leaves the pairs alone. */
  lemma EntriesOfFrame<V>(s: seq<nat>, nodes: map<nat, Node<V>>, nodes': map<nat, Node<V>>)
    requires forall i :: 0 <= i < |s| ==> s[i] in nodes && s[i] in nodes'
    requires forall i :: 0 <= i < |s| ==> nodes'[s[i]].key == nodes[s[i]].key && nodes'[s[i]].val == nodes[s[i]].val
    ensures EntriesOf(s, nodes') == EntriesOf(s, nodes)
  {
  }

  lemma EntriesOfCons<V>(x: nat, s: seq<nat>, nodes: map<nat, Node<V>>)
    requires x in nodes && forall i :: 0 <= i < |s| ==> s[i] in nodes
    ensures EntriesOf([x] + s, nodes) == [Entry(nodes[x].key, nodes[x].val)] + EntriesOf(s, nodes)
  {
    var t := [x] + s;
    assert forall i :: 0 < i < |t| ==> t[i] == s[i - 1];
  }

  lemma EntriesOfPrefix<V>(s: seq<nat>, n: nat, nodes: map<nat, Node<V>>)
    requires n <= |s| && forall i :: 0 <= i < |s| ==> s[i] in nodes
    ensures EntriesOf(s[..n], nodes) == EntriesOf(s, nodes)[..n]
  {
  }

  lemma EntriesOfMoveToFront<V>(s: seq<nat>, p: nat, nodes: map<nat, Node<V>>)
    requires p < |s| && forall i :: 0 <= i < |s| ==> s[i] in nodes
    ensures EntriesOf(MoveToFront(s, p), nodes) == MoveToFront(EntriesOf(s, nodes), p)
  {
    var t := MoveToFront(s, p);
    var l := EntriesOf(t, nodes);
    var r := MoveToFront(EntriesOf(s, nodes), p);
    forall i | 0 <= i < |t| ensures l[i] == r[i] {
      if i == 0 {} else if i <= p { assert t[i] == s[i - 1]; } else { assert t[i] == s[i]; }
    }
  }

  /** Writing a value into the node at position `p` writes it into the `p`-th pair. */
  lemma EntriesOfSetValue<V>(s: seq<nat>, p: nat, nodes: map<nat, Node<V>>, v: V)
    requires p < |s| && Distinct(s) && forall i :: 0 <= i < |s| ==> s[i] in nodes
    ensures EntriesOf(s, nodes[s[p] := nodes[s[p]].(val := v)]) == EntriesOf(s, nodes)[p := Entry(nodes[s[p]].key, v)]
  {
    var nodes' := nodes[s[p] := nodes[s[p]].(val := v)];
    var l := EntriesOf(s, nodes');
    var r := EntriesOf(s, nodes)[p := Entry(nodes[s[p]].key, v)];
    forall i | 0 <= i < |s| ensures l[i] == r[i] {
      if i != p { assert s[i] != s[p]; }
    }
  }
}
