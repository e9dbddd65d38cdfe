/**
 The direct-lock LRU cache (`Cachery/lru.go` with `Cachery/helper.go`):
 a key-to-node map beside a doubly linked list from most recently used
 (head) to least recently used (tail), with one tail eviction whenever a
 new key takes the map past its capacity. Locking is left out: every
 method runs as one sequential step.
 */
module Cachery {
  import opened Recency
  import opened Arena

  const DefaultCapacity := 10

  /** `WithCapacity(cap)`, the configuration hook that overwrites the capacity. */
  datatype Modifier = WithCapacity(cap: int)

  /** The capacity once the modifiers have run in order, starting from `initial`. */
  function Configure(initial: int, mods: seq<Modifier>): (c: int)
    ensures mods == [] ==> c == initial
    ensures mods != [] ==> c == mods[|mods| - 1].cap
    decreases |mods|
  {
    if mods == [] then initial else Configure(mods[0].cap, mods[1..])
  }

  /**
   The links spell out `order`, and every mapped node is a listed node
   carrying its key.
   */
  ghost predicate Wellformed<V>(order: seq<nat>, nodes: map<nat, Node<V>>, head: Link, tail: Link,
                                vals: map<string, nat>)
  {
    && Linked(order, nodes, head, tail)
    && (forall k :: k in vals ==> vals[k] in nodes && nodes[vals[k]].key == k && vals[k] in order)
  }

  /** Relinking a node in front of the head keeps the cache well formed. */
  lemma RelinkWellformed<V>(s: seq<nat>, nodes: map<nat, Node<V>>, nodes': map<nat, Node<V>>, head: Link, tail: Link,
                            vals: map<string, nat>, id: nat)
    requires Wellformed(s, nodes, head, tail, vals) && s != [] && id in nodes && head == Ptr(s[0]) && id != s[0]
    requires id in s || (nodes[id].left == Nil && nodes[id].right == Nil)
    requires CanRelink(nodes, id, s[0]) && Relinked(nodes, nodes', id, s[0])
    ensures Wellformed(Promoted(s, id), nodes', Ptr(id), if tail == Ptr(id) then nodes[id].left else tail, vals)
    ensures SameData(nodes, nodes')
    ensures EntriesOf(Promoted(s, id), nodes') == EntriesOf(Promoted(s, id), nodes)
  {
    RelinkLinked(s, nodes, nodes', id);
    EntriesOfFrame(Promoted(s, id), nodes, nodes');
  }

  /** Linking a fresh node for a new key in front of the list keeps the cache well formed once the key maps to it. */
  lemma LinkFrontWellformed<V>(s: seq<nat>, nodes: map<nat, Node<V>>, nodes': map<nat, Node<V>>, head': Link, tail': Link,
                               vals: map<string, nat>, key: string, id: nat)
    requires Wellformed(s, nodes, First(s), Last(s), vals)
    requires id in nodes && nodes[id].key == key && id !in s
    requires Linked([id] + s, nodes', head', tail') && SameData(nodes, nodes')
    ensures Wellformed([id] + s, nodes', head', tail', vals[key := id])
  {
    var vals' := vals[key := id];
    forall k | k in vals' ensures vals'[k] in nodes' && nodes'[vals'[k]].key == k && vals'[k] in [id] + s {
      if k != key {
        assert vals'[k] == vals[k] && vals[k] in s;
      }
    }
  }

  /** Evicting the tail, and the map entry of the tail's key, keeps the cache well formed. */
  lemma EvictWellformed<V>(s: seq<nat>, nodes: map<nat, Node<V>>, nodes': map<nat, Node<V>>, head': Link, tail': Link,
                           vals: map<string, nat>)
    requires Wellformed(s, nodes, First(s), Last(s), vals) && s != []
    requires Linked(s[..|s| - 1], nodes', head', tail') && SameData(nodes, nodes')
    ensures Wellformed(s[..|s| - 1], nodes', head', tail', vals - {nodes[s[|s| - 1]].key})
  {
    var vals' := vals - {nodes[s[|s| - 1]].key};
    forall k | k in vals' ensures vals'[k] in nodes' && nodes'[vals'[k]].key == k && vals'[k] in s[..|s| - 1] {
      var x := vals[k];
      assert vals'[k] == x && x in nodes && nodes[x].key == k;
      var j :| 0 <= j < |s| && s[j] == x;
      assert j != |s| - 1;
      assert s[..|s| - 1][j] == x;
      assert nodes'[x].key == nodes[x].key;
    }
  }

  /** Writing a value into a node changes neither the links nor the keys. */
  lemma ValueWriteWellformed<V>(s: seq<nat>, nodes: map<nat, Node<V>>, head: Link, tail: Link,
                                vals: map<string, nat>, x: nat, v: V)
    requires Wellformed(s, nodes, head, tail, vals) && x in nodes
    ensures Wellformed(s, nodes[x := nodes[x].(val := v)], head, tail, vals)
    ensures nodes[x := nodes[x].(val := v)].Keys == nodes.Keys
  {
    var nodes' := nodes[x := nodes[x].(val := v)];
    assert LinksMatch(s, nodes') by {
      forall i | 0 <= i < |s| ensures nodes'[s[i]].left == LeftOf(s, i) && nodes'[s[i]].right == RightOf(s, i) {
        assert nodes[s[i]].left == LeftOf(s, i) && nodes[s[i]].right == RightOf(s, i);
      }
    }
  }

  /**
   Overwriting the key at position `p`, which no earlier entry carries,
   and moving it to the front is what `Put` does to a present key; keys
   stay unique and the key set stays the same.
   */
  lemma OverwriteIsPut<V>(es: seq<Entry<V>>, p: nat, k: string, v: V, cap: int)
    requires UniqueKeys(es) && p < |es| && es[p].key == k
    ensures Put(es, k, v, cap) == MoveToFront(es[p := Entry(k, v)], p)
    ensures UniqueKeys(Put(es, k, v, cap)) && KeySet(Put(es, k, v, cap)) == KeySet(es)
  {
    FindAt(es, p);
    KeySetMember(es, k);
    PutUniqueBounded(es, k, v, cap);
    PutKeySet(es, k, v, cap);
  }

  /**
   A new key goes through `Insert`, whose outcome is what `Put` does to an
   absent key; keys stay unique, the map's keys mirror the list's, and a
   cache within a non-negative capacity stays within it.
   */
  lemma InsertIsPut<V>(es: seq<Entry<V>>, k: string, v: V, cap: int, keys: set<string>, keys': set<string>, n: nat)
    requires UniqueKeys(es) && keys == KeySet(es) && k !in keys && n == |keys|
    requires var w := [Entry(k, v)] + es;
      keys' == if n + 1 > cap then keys + {k} - {w[|w| - 1].key} else keys + {k}
    ensures var w := [Entry(k, v)] + es;
      Put(es, k, v, cap) == if n + 1 > cap then w[..|w| - 1] else w
    ensures UniqueKeys(Put(es, k, v, cap)) && keys' == KeySet(Put(es, k, v, cap))
    ensures 0 <= cap && n <= cap ==> |keys'| <= cap
  {
    KeySetMember(es, k);
    UniqueKeySetSize(es);
    PutUniqueBounded(es, k, v, cap);
    PutKeySet(es, k, v, cap);
    UniqueKeySetSize(Put(es, k, v, cap));
    if es == [] && n + 1 > cap {
      assert ([Entry(k, v)] + es)[..0] == [];
      assert keys' == {};
    }
  }

  class Lru<V> {
    var cacheCapacity: int
    var vals: map<string, nat>
    var nodes: map<nat, Node<V>>
    var head: Link
    var tail: Link
    /** The arena's allocator: every id in use is below it. */
    var nextId: nat
    /** The node ids from head to tail. */
    ghost var order: seq<nat>

    /**
     The links spell out `order`, every mapped node is a listed node
     carrying its key, and every id from the allocator on is free. This
     much holds even for the code as written.
     */
    ghost predicate Valid()
      reads this
    {
      Wellformed(order, nodes, head, tail, vals) && FreshFrom(nodes, nextId)
    }

    /** The pairs along the list, head first. */
    ghost function Entries(): seq<Entry<V>>
      reads this
      requires Valid()
    {
      EntriesOf(order, nodes)
    }

    /** One node per key: the map's keys are exactly the list's keys, each listed once. */
    ghost predicate Consistent()
      reads this
    {
      Valid() && UniqueKeys(Entries()) && vals.Keys == KeySet(Entries())
    }

    /** The map holds no more keys than the capacity. */
    ghost predicate Bounded()
      reads this
    {
      0 <= cacheCapacity && |vals| <= cacheCapacity
    }

    /** `NewLRU`: an empty map, nil head and tail, the default capacity unless a modifier overrides it. */
    constructor (mods: seq<Modifier>)
      ensures Consistent() && Bounded() == (0 <= cacheCapacity)
      ensures vals == map[] && head == Nil && tail == Nil && Entries() == []
      ensures cacheCapacity == Configure(DefaultCapacity, mods)
      ensures nextId == 0
    {
      cacheCapacity := DefaultCapacity;
      vals := map[];
      nodes := map[];
      head, tail := Nil, Nil;
      nextId := 0;
      order := [];
      new;
      for i := 0 to |mods|
        invariant Configure(cacheCapacity, mods[i..]) == Configure(DefaultCapacity, mods)
        invariant vals == map[] && nodes == map[] && head == Nil && tail == Nil
        invariant nextId == 0 && order == []
      {
        assert mods[i..][1..] == mods[i + 1..];
        cacheCapacity := mods[i].cap;
      }
      assert Entries() == [];
    }

    /** Allocates a node in the arena (Go's `&lruNode{...}`); nothing links to it yet. */
    method Alloc(n: Node<V>) returns (id: nat)
      requires Valid()
      modifies this
      ensures Valid()
      ensures id == old(nextId) && nextId == old(nextId) + 1
      ensures id !in old(nodes) && id !in order && nodes == old(nodes)[id := n]
      ensures vals == old(vals) && order == old(order) && head == old(head) && tail == old(tail)
      ensures cacheCapacity == old(cacheCapacity)
      ensures Entries() == old(Entries())
    {
      id := nextId;
      FreshFromAlloc(nodes, id, n);
      LinkedAlloc(order, nodes, head, tail, id, n);
      nodes := nodes[id := n];
      nextId := nextId + 1;
    }

    /**
     `pushToStart`: makes `id` the head. A listed node is spliced out (its
     neighbours linked to each other, the tail moved left if it was the
     tail) and relinked in front of the head; a detached node is linked in
     front of the head; the head itself stays where it is. Keys and values
     do not change.
     */
    method PushToStart(id: nat)
      requires Valid() && id in nodes && order != []
      requires id in order || (nodes[id].left == Nil && nodes[id].right == Nil)
      modifies this
      ensures Valid()
      ensures order == Promoted(old(order), id) && head == Ptr(id)
      ensures SameData(old(nodes), nodes)
      ensures vals == old(vals) && nextId == old(nextId) && cacheCapacity == old(cacheCapacity)
      ensures Entries() == EntriesOf(Promoted(old(order), id), old(nodes))
    {
      ghost var s := order;
      ghost var before := nodes;
      if head == Ptr(id) {
        assert MoveToFront(s, 0) == s;
        EntriesOfFrame(order, before, nodes);
        return;
      }
      Promote(id);
    }

    /** `pushToStart` for a node other than the head. */
    method Promote(id: nat)
      requires Valid() && id in nodes && order != [] && head != Ptr(id)
      requires id in order || (nodes[id].left == Nil && nodes[id].right == Nil)
      modifies this
      ensures Valid()
      ensures order == Promoted(old(order), id) && head == Ptr(id)
      ensures SameData(old(nodes), nodes)
      ensures vals == old(vals) && nextId == old(nextId) && cacheCapacity == old(cacheCapacity)
      ensures Entries() == EntriesOf(Promoted(old(order), id), old(nodes))
    {
      ghost var s, before := order, nodes;
      ghost var head0, tail0 := head, tail;
      RelinkReady(s, before, head, tail, id);
      Splice(id);
      RelinkWellformed(s, before, nodes, head0, tail0, vals, id);
      FreshFromKeys(before, nodes, nextId);
      assert tail == if tail0 == Ptr(id) then before[id].left else tail0;
      order := Promoted(s, id);
    }

    /**
     The relinking of `pushToStart` for a node that is not the head: it is
     spliced out of the list, then linked in front of the head.
     */
    method Splice(id: nat)
      requires head.Ptr? && CanRelink(nodes, id, head.id)
      modifies this
      ensures Relinked(old(nodes), nodes, id, old(head).id) && head == Ptr(id)
      ensures tail == if old(tail) == Ptr(id) then (if old(nodes[id].left) == Nil then Ptr(id) else old(nodes[id].left))
                      else if old(tail) == Nil then Ptr(id) else old(tail)
      ensures vals == old(vals) && order == old(order) && nextId == old(nextId) && cacheCapacity == old(cacheCapacity)
    {
      ghost var before := nodes;
      Unlink(id);
      UnlinkedThenPushed(before, nodes, id, head.id);
      LinkAtHead(id);
    }

    /**
     The first half of `pushToStart` for a node that is not the head: its
     neighbours are linked to each other, and the tail moves left if it
     was the node.
     */
    method Unlink(id: nat)
      requires id in nodes
      requires nodes[id].left.Ptr? ==> nodes[id].left.id in nodes && nodes[id].left.id != id
      requires nodes[id].right.Ptr? ==> nodes[id].right.id in nodes && nodes[id].right.id != id
      requires nodes[id].left.Ptr? && nodes[id].right.Ptr? ==> nodes[id].left.id != nodes[id].right.id
      modifies this
      ensures Unlinked(old(nodes), nodes, id)
      ensures tail == if old(tail) == Ptr(id) then old(nodes[id].left) else old(tail)
      ensures head == old(head) && vals == old(vals) && order == old(order)
      ensures nextId == old(nextId) && cacheCapacity == old(cacheCapacity)
    {
      var node := nodes[id];
      if node.left != Nil {
        nodes := nodes[node.left.id := nodes[node.left.id].(right := node.right)];
      }
      if node.right != Nil {
        nodes := nodes[node.right.id := nodes[node.right.id].(left := node.left)];
      }
      if tail == Ptr(id) {
        tail := node.left;
      }
    }

    /**
     The second half of `pushToStart`: the node gets a nil left link and
     the head as its right link, the head gets it as its left link, it
     becomes the head, and the tail if there was none.
     */
    method LinkAtHead(id: nat)
      requires id in nodes && head.Ptr? && head.id in nodes && head.id != id
      modifies this
      ensures nodes == old(nodes[id := nodes[id].(left := Nil, right := head)][head.id := nodes[head.id].(left := Ptr(id))])
      ensures head == Ptr(id) && tail == if old(tail) == Nil then Ptr(id) else old(tail)
      ensures vals == old(vals) && order == old(order) && nextId == old(nextId) && cacheCapacity == old(cacheCapacity)
    {
      nodes := nodes[id := nodes[id].(left := Nil, right := head)];
      nodes := nodes[head.id := nodes[head.id].(left := Ptr(id))];
      head := Ptr(id);
      if tail == Nil {
        tail := Ptr(id);
      }
    }

    /** `Get`: a present key's stored value, its node promoted to the head; an absent key changes nothing. */
    method Get(key: string) returns (val: Option<V>, ok: bool)
      requires Valid()
      modifies this
      ensures Valid()
      ensures ok <==> key in old(vals)
      ensures !ok ==> val == None && order == old(order) && nodes == old(nodes) && head == old(head) && tail == old(tail)
      ensures ok ==> val == Some(old(nodes[vals[key]].val)) && order == Promoted(old(order), old(vals[key]))
      ensures ok ==> head == Ptr(old(vals[key]))
      ensures vals == old(vals) && nextId == old(nextId) && cacheCapacity == old(cacheCapacity)
      ensures SameData(old(nodes), nodes)
      ensures old(Consistent()) ==> Consistent()
      ensures old(Consistent()) ==> val == Lookup(old(Entries()), key) && Entries() == Touch(old(Entries()), key)
    {
      ghost var es := Entries();
      if key in vals {
        var node := vals[key];
        PushToStart(node);
        val, ok := Some(nodes[node].val), true;
        if old(Consistent()) {
          var p := IndexOf(old(order), node);
          FindAt(es, p);
          EntriesOfMoveToFront(old(order), p, old(nodes));
          KeySetMoveToFront(es, p);
          UniqueMoveToFront(es, p);
        }
      } else {
        val, ok := None, false;
        if old(Consistent()) {
          KeySetMember(es, key);
        }
      }
    }

    /**
     Linking the fresh node `id` of a new key in front of the head: it
     becomes head and tail of an empty list, or the old head's left
     neighbour otherwise.
     */
    method LinkFront(id: nat)
      requires Linked(order, nodes, head, tail) && id in nodes && id !in order
      requires nodes[id].left == Nil && nodes[id].right == Nil
      modifies this
      ensures order == [id] + old(order) && Linked(order, nodes, head, tail) && head == Ptr(id)
      ensures SameData(old(nodes), nodes)
      ensures vals == old(vals) && nextId == old(nextId) && cacheCapacity == old(cacheCapacity)
    {
      ghost var s := order;
      LinkedEnds(s, nodes, head, tail);
      PushFrontUpdate(s, nodes, id);
      if head == Nil {
        head := Ptr(id);
        tail := Ptr(id);
      } else {
        nodes := nodes[id := nodes[id].(right := head)];
        nodes := nodes[head.id := nodes[head.id].(left := Ptr(id))];
        head := Ptr(id);
      }
      order := [id] + s;
    }

    /**
     Evicting the least recently used entry: the tail's key leaves the map,
     the tail's left neighbour becomes the tail (with a nil right link), and
     a list that had one node is left empty. An empty list is left alone.
     */
    method EvictTail()
      requires Valid()
      modifies this
      ensures Valid()
      ensures old(order) == [] ==> order == [] && vals == old(vals) && nodes == old(nodes)
      ensures old(order) != [] ==> order == old(order)[..|old(order)| - 1]
      ensures old(order) != [] ==> vals == old(vals) - {old(nodes[order[|order| - 1]].key)}
      ensures old(order) != [] ==> Entries() == old(Entries())[..|old(order)| - 1]
      ensures SameData(old(nodes), nodes)
      ensures nextId == old(nextId) && cacheCapacity == old(cacheCapacity)
    {
      ghost var s, before, vals0 := order, nodes, vals;
      LinkedEnds(s, nodes, head, tail);
      if tail != Nil {
        vals := vals - {nodes[tail.id].key};
        tail := nodes[tail.id].left;
        if tail != Nil {
          DropLastUpdate(s, nodes);
          nodes := nodes[tail.id := nodes[tail.id].(right := Nil)];
        } else {
          head := Nil;
        }
        order := s[..|s| - 1];
        EvictWellformed(s, before, nodes, head, tail, vals0);
        FreshFromKeys(before, nodes, nextId);
        EntriesOfPrefix(s, |s| - 1, before);
        EntriesOfFrame(order, before, nodes);
      }
    }

    /**
     The new-key path of `Set`: the key maps to the fresh node `id`, which
     is linked in front of the head; when the map then holds more keys
     than the capacity, the tail is evicted along with its key.
     */
    method Insert(key: string, val: V, id: nat)
      requires Valid() && key !in vals && id in nodes && id !in order && nodes[id] == NewNode(key, val)
      modifies this
      ensures Valid()
      ensures var es := [Entry(key, val)] + old(Entries());
        Entries() == if |old(vals)| + 1 > cacheCapacity then es[..|es| - 1] else es
      ensures var es := [Entry(key, val)] + old(Entries());
        vals.Keys == if |old(vals)| + 1 > cacheCapacity then old(vals).Keys + {key} - {es[|es| - 1].key} else old(vals).Keys + {key}
      ensures nextId == old(nextId) && cacheCapacity == old(cacheCapacity)
    {
      ghost var s, before, vals0 := order, nodes, vals;
      ghost var es := [Entry(key, val)] + Entries();
      vals := vals[key := id];
      LinkFront(id);
      LinkFrontWellformed(s, before, nodes, head, tail, vals0, key, id);
      FreshFromKeys(before, nodes, nextId);
      EntriesOfCons(id, s, before);
      EntriesOfFrame(order, before, nodes);
      assert Entries() == es;
      assert vals.Keys == vals0.Keys + {key};
      if |vals| > cacheCapacity {
        ghost var k := nodes[order[|order| - 1]].key;
        assert k == es[|es| - 1].key;
        EvictTail();
        assert vals.Keys == vals0.Keys + {key} - {k};
      }
    }


    /**
     `Set`, with the present-key path writing the value into the key's own
     node and moving that node to the head. A new key gets a fresh node at
     the head, and the tail is evicted when the map is then over capacity.
     The cache's entries follow `Put`, the map keeps mirroring the list,
     and a cache within its capacity stays within it.
     */
    method Set(key: string, val: V)
      requires Valid()
      modifies this
      ensures Valid()
      ensures old(Consistent()) ==> Consistent() && Entries() == Put(old(Entries()), key, val, cacheCapacity)
      ensures old(Consistent() && Bounded()) ==> Bounded()
      ensures key in old(vals) ==> vals == old(vals)
      ensures cacheCapacity == old(cacheCapacity)
    {
      ghost var es0 := Entries();
      ghost var keys0 := vals.Keys;
      var id := Alloc(NewNode(key, val));
      if key in vals {
        ghost var p := IndexOf(order, vals[key]);
        Overwrite(key, val);
        if old(Consistent()) {
          assert es0[p].key == key;
          OverwriteIsPut(es0, p, key, val, cacheCapacity);
        }
        return;
      }
      Insert(key, val, id);
      if old(Consistent()) {
        InsertIsPut(es0, key, val, cacheCapacity, keys0, vals.Keys, |keys0|);
        assert |vals| == |vals.Keys|;
      }
    }

    /**
     The present-key path of `Set` as corrected: the key's node takes the
     new value and moves to the head; the map does not change.
     */
    method Overwrite(key: string, val: V)
      requires Valid() && key in vals
      modifies this
      ensures Valid()
      ensures var p := IndexOf(old(order), old(vals[key]));
        p < |old(Entries())| && old(Entries())[p].key == key &&
        Entries() == MoveToFront(old(Entries())[p := Entry(key, val)], p)
      ensures vals == old(vals) && nextId == old(nextId) && cacheCapacity == old(cacheCapacity)
    {
      var existing := vals[key];
      ghost var s, before := order, nodes;
      ghost var p := IndexOf(s, existing);
      LinkedDistinct(s, nodes, head, tail);
      EntriesOfSetValue(s, p, nodes, val);
      ValueWriteWellformed(s, nodes, head, tail, vals, existing, val);
      FreshFromKeys(nodes, nodes[existing := nodes[existing].(val := val)], nextId);
      nodes := nodes[existing := nodes[existing].(val := val)];
      ghost var written := nodes;
      PushToStart(existing);
      EntriesOfMoveToFront(s, p, written);
    }

    /**
     `Set` as written: on a present key the value goes into the key's node
     but the fresh node is the one moved to the head, so the list gains a
     second node for the key while the map keeps pointing at the old one.
     */
    method SetAsWritten(key: string, val: V)
      requires Valid()
      modifies this
      ensures Valid()
      ensures key in old(vals) ==> vals == old(vals)
      ensures key in old(vals) ==> var p := IndexOf(old(order), old(vals[key]));
        p < |old(Entries())| && Entries() == [Entry(key, val)] + old(Entries())[p := Entry(key, val)]
      ensures key !in old(vals) ==> var es := [Entry(key, val)] + old(Entries());
        Entries() == if |old(vals)| + 1 > cacheCapacity then es[..|es| - 1] else es
      ensures key !in old(vals) ==> var es := [Entry(key, val)] + old(Entries());
        vals.Keys == if |old(vals)| + 1 > cacheCapacity then old(vals).Keys + {key} - {es[|es| - 1].key} else old(vals).Keys + {key}
      ensures cacheCapacity == old(cacheCapacity)
    {
      var id := Alloc(NewNode(key, val));
      if key in vals {
        OverwriteAsWritten(key, val, id);
        return;
      }
      Insert(key, val, id);
    }

    /**
     The present-key path of `Set` as written: the key's node takes the new
     value, and the fresh node `id` is linked in front of the head.
     */
    method OverwriteAsWritten(key: string, val: V, id: nat)
      requires Valid() && key in vals && id in nodes && id !in order && nodes[id] == NewNode(key, val)
      modifies this
      ensures Valid()
      ensures var p := IndexOf(old(order), old(vals[key]));
        p < |old(Entries())| && Entries() == [Entry(key, val)] + old(Entries())[p := Entry(key, val)]
      ensures vals == old(vals) && nextId == old(nextId) && cacheCapacity == old(cacheCapacity)
    {
      var existing := vals[key];
      ghost var s := order;
      ghost var p := IndexOf(s, existing);
      LinkedDistinct(s, nodes, head, tail);
      EntriesOfSetValue(s, p, nodes, val);
      ValueWriteWellformed(s, nodes, head, tail, vals, existing, val);
      FreshFromKeys(nodes, nodes[existing := nodes[existing].(val := val)], nextId);
      nodes := nodes[existing := nodes[existing].(val := val)];
      ghost var written := nodes;
      PushToStart(id);
      EntriesOfCons(id, s, written);
    }

    /** `Stop`: the map is cleared and the list dropped. */
    method Stop()
      requires Valid()
      modifies this
      ensures Consistent() && Entries() == []
      ensures vals == map[] && head == Nil && tail == Nil
      ensures nodes == old(nodes) && nextId == old(nextId) && cacheCapacity == old(cacheCapacity)
    {
      vals := map[];
      head, tail := Nil, Nil;
      order := [];
    }
  }
}
