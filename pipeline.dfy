/**
 The channel-pipeline LRU cache (`lru_cache.go`): a key-to-value map beside
 a doubly linked list of nodes from most recently used (head) to least
 recently used (tail), with a node counter `len` and a `limit`. The
 goroutines that serve the channels are left out; the bodies of the
 closures `insertToStart`, `deleteFromEnd` and `removeAndInsertAtStart` run
 as ordinary methods, in the order in which the channels hand work to them.
 */
module Pipeline {
  import opened Recency
  import opened Arena

  const DefaultLimit := 15

  /**
   How many nodes the list holds at most: `limit`, or one when `limit` is
   zero, because a node linked into an empty list never asks for an
   eviction.
   */
  function Room(limit: nat): nat {
    if limit == 0 then 1 else limit
  }

  /**
   The map holds exactly the listed keys, each listed once, and maps each
   to the value stored in its node.
   */
  ghost predicate Mirrors<V>(vals: map<string, V>, es: seq<Entry<V>>) {
    && UniqueKeys(es)
    && vals.Keys == KeySet(es)
    && forall i :: 0 <= i < |es| ==> es[i].key in vals && vals[es[i].key] == es[i].val
  }

  /**
   The list after `removeAndInsertAtStart(k)`: the scan skips the head, so
   the first entry with key `k` after the head moves to the front; the
   list stays as it is when there is none.
   */
  function Bump<V>(es: seq<Entry<V>>, k: string): seq<Entry<V>> {
    if es == [] then es
    else match Find(es[1..], k)
      case None => es
      case Some(i) => MoveToFront(es, i + 1)
  }

  /** With unique keys, skipping the head does not matter: `Bump` is the read `Touch`. */
  lemma BumpIsTouch<V>(es: seq<Entry<V>>, k: string)
    requires UniqueKeys(es)
    ensures Bump(es, k) == Touch(es, k)
  {
    if es != [] {
      if es[0].key == k {
        assert Find(es, k) == Some(0);
        assert Find(es[1..], k) == None;
        assert MoveToFront(es, 0) == es;
      } else {
        assert es == [es[0]] + es[1..];
      }
    }
  }

  /** `Bump` moves the first entry after the head that has the key, at position `p`. */
  lemma BumpFinds<V>(es: seq<Entry<V>>, k: string, p: nat)
    requires 0 < p < |es| && es[p].key == k
    requires forall j :: 1 <= j < p ==> es[j].key != k
    ensures Bump(es, k) == MoveToFront(es, p)
  {
    assert es[1..][p - 1].key == k;
    FindAt(es[1..], p - 1);
  }

  /** With no entry after the head holding the key, `Bump` leaves the list alone. */
  lemma BumpMisses<V>(es: seq<Entry<V>>, k: string)
    requires forall j :: 1 <= j < |es| ==> es[j].key != k
    ensures Bump(es, k) == es
  {
    if es != [] {
      assert forall j :: 0 <= j < |es[1..]| ==> es[1..][j] == es[j + 1];
    }
  }

  /** What the map answers for a key is what the list holds for it. */
  lemma MirrorsLookup<V>(vals: map<string, V>, es: seq<Entry<V>>, k: string)
    requires Mirrors(vals, es)
    ensures Lookup(es, k) == if k in vals then Some(vals[k]) else None
  {
    KeySetMember(es, k);
  }

  /** A new key mapped to `v` and linked at the head keeps map and list in step. */
  lemma MirrorsCons<V>(vals: map<string, V>, es: seq<Entry<V>>, k: string, v: V)
    requires Mirrors(vals, es) && k !in vals
    ensures Mirrors(vals[k := v], [Entry(k, v)] + es)
  {
    var r := [Entry(k, v)] + es;
    KeySetCons(Entry(k, v), es);
    forall i, j | 0 <= i < j < |r| ensures r[i].key != r[j].key {
      if i == 0 {
        assert r[j] == es[j - 1] && es[j - 1].key in KeySet(es);
      }
    }
    forall i | 0 <= i < |r| ensures r[i].key in vals[k := v] && vals[k := v][r[i].key] == r[i].val {
      if i > 0 {
        assert r[i] == es[i - 1] && es[i - 1].key in KeySet(es);
      }
    }
  }

  /** Dropping the tail and its key from the map keeps map and list in step. */
  lemma MirrorsDropLast<V>(vals: map<string, V>, es: seq<Entry<V>>)
    requires Mirrors(vals, es) && es != []
    ensures Mirrors(vals - {es[|es| - 1].key}, es[..|es| - 1])
  {
    KeySetDropLast(es);
    var r := es[..|es| - 1];
    forall i | 0 <= i < |r| ensures r[i].key in vals - {es[|es| - 1].key} && (vals - {es[|es| - 1].key})[r[i].key] == r[i].val {
      assert r[i] == es[i];
    }
  }

  /** A push, with or without the tail eviction, keeps map and list in step. */
  lemma MirrorsPush<V>(vals: map<string, V>, es: seq<Entry<V>>, k: string, v: V, evict: bool)
    requires Mirrors(vals, es) && k !in vals
    ensures var w := [Entry(k, v)] + es;
      Mirrors(if evict then vals[k := v] - {w[|w| - 1].key} else vals[k := v],
              if evict then w[..|w| - 1] else w)
  {
    MirrorsCons(vals, es, k, v);
    if evict {
      MirrorsDropLast(vals[k := v], [Entry(k, v)] + es);
    }
  }

  /** Moving an entry to the head keeps map and list in step. */
  lemma MirrorsBump<V>(vals: map<string, V>, es: seq<Entry<V>>, k: string)
    requires Mirrors(vals, es)
    ensures Mirrors(vals, Bump(es, k))
  {
    BumpIsTouch(es, k);
    TouchKeeps(es, k);
    var r := Bump(es, k);
    forall i | 0 <= i < |r| ensures r[i].key in vals && vals[r[i].key] == r[i].val {
      assert r[i] in multiset(r);
      var j :| 0 <= j < |es| && es[j] == r[i];
    }
  }

  /**
   An insertion of a new key followed, when asked for, by one eviction of
   the tail is `Admit`, exactly when the eviction is asked for on a
   non-empty list of at least `limit` entries.
   */
  lemma InsertIsAdmit<V>(es: seq<Entry<V>>, k: string, v: V, limit: int, evict: bool)
    requires UniqueKeys(es) && k !in KeySet(es)
    requires evict == (es != [] && |es| >= limit)
    ensures var w := [Entry(k, v)] + es;
      Admit(es, k, v, limit) == if evict then w[..|w| - 1] else w
  {
    AdmitNew(es, k, v, limit);
    var w := [Entry(k, v)] + es;
    if evict {
      assert w[..|w| - 1] == [Entry(k, v)] + es[..|es| - 1];
    }
  }

  /** `Admit` never takes a list within `Room(limit)` beyond it. */
  lemma AdmitRoom<V>(es: seq<Entry<V>>, k: string, v: V, limit: nat)
    requires UniqueKeys(es) && |es| <= Room(limit)
    ensures |Admit(es, k, v, limit)| <= Room(limit)
  {
    if k in KeySet(es) {
      AdmitExisting(es, k, v, limit);
    } else {
      AdmitNew(es, k, v, limit);
    }
  }

  /**
   As written, `len` counts insertions; the number of listed nodes follows
   it up to `Room(limit)`, so the eviction test on `len` asks for an
   eviction exactly when the list is full.
   */
  lemma TrackedEvicts(n: nat, len: nat, limit: nat, evict: bool)
    requires n == if len <= Room(limit) then len else Room(limit)
    requires evict == (n != 0 && len >= limit)
    ensures evict == (n != 0 && n >= limit)
    ensures var m := if evict then n else n + 1;
      m == if len + 1 <= Room(limit) then len + 1 else Room(limit)
  {
  }

  class Lru<V> {
    var len: nat
    var limit: nat
    var vals: map<string, V>
    var nodes: map<nat, Node<V>>
    var head: Link
    var tail: Link
    /** The arena's allocator: every id in use is below it. */
    var nextId: nat
    /** The node ids from head to tail. */
    ghost var order: seq<nat>

    /** The links spell out `order`, and every id from the allocator on is free. */
    ghost predicate Valid()
      reads this
    {
      Linked(order, nodes, head, tail) && FreshFrom(nodes, nextId)
    }

    /** The pairs along the list, head first. */
    ghost function Entries(): seq<Entry<V>>
      reads this
      requires Valid()
    {
      EntriesOf(order, nodes)
    }

    /** Map and list agree: the same keys, each listed once, with the same values. */
    ghost predicate Consistent()
      reads this
    {
      Valid() && Mirrors(vals, Entries())
    }

    /** `len` is the number of listed nodes. */
    ghost predicate Counted()
      reads this
    {
      Valid() && len == |order|
    }

    /** `len` counts insertions, and the list holds that many nodes up to `Room(limit)`. */
    ghost predicate Tracked()
      reads this
    {
      Valid() && |order| == if len <= Room(limit) then len else Room(limit)
    }

    /** `NewLRU`: limit `DefaultLimit`, an empty map, nil head and tail, `len` zero. */
    constructor ()
      ensures Consistent() && Counted() && Tracked()
      ensures limit == DefaultLimit && len == 0
      ensures vals == map[] && head == Nil && tail == Nil && Entries() == []
    {
      len := 0;
      limit := DefaultLimit;
      vals := map[];
      nodes := map[];
      head, tail := Nil, Nil;
      nextId := 0;
      order := [];
      new;
      assert Entries() == [];
    }

    /** `newNode` and Go's allocation: a detached node in the arena; nothing links to it yet. */
    method Alloc(n: Node<V>) returns (id: nat)
      requires Valid()
      modifies this
      ensures Valid()
      ensures id !in old(nodes) && id !in order && nodes == old(nodes)[id := n]
      ensures vals == old(vals) && order == old(order) && head == old(head) && tail == old(tail)
      ensures len == old(len) && limit == old(limit) && nextId == old(nextId) + 1
      ensures Entries() == old(Entries())
    {
      id := nextId;
      FreshFromAlloc(nodes, id, n);
      LinkedAlloc(order, nodes, head, tail, id, n);
      nodes := nodes[id := n];
      nextId := nextId + 1;
    }

    /**
     `insertToStart`: the node becomes head and tail of an empty list, or
     the old head's left neighbour otherwise, where an eviction is asked
     for when `len` has reached `limit`. `len` goes up by one either way.
     */
    method InsertToStart(id: nat) returns (evict: bool)
      requires Valid() && id in nodes && id !in order
      requires nodes[id].left == Nil && nodes[id].right == Nil
      modifies this
      ensures Valid()
      ensures order == [id] + old(order) && head == Ptr(id)
      ensures old(head) == Nil ==> tail == Ptr(id)
      ensures old(head) != Nil ==> tail == old(tail) && nodes[id].right == old(head) && nodes[old(head).id].left == Ptr(id)
      ensures evict == (old(head) != Nil && old(len) >= limit)
      ensures len == old(len) + 1
      ensures Entries() == [Entry(old(nodes[id].key), old(nodes[id].val))] + old(Entries())
      ensures vals == old(vals) && limit == old(limit) && nextId == old(nextId)
    {
      ghost var s, before := order, nodes;
      LinkedEnds(s, nodes, head, tail);
      PushFrontUpdate(s, nodes, id);
      if head == Nil {
        head := Ptr(id);
        tail := Ptr(id);
        evict := false;
      } else {
        evict := len >= limit;
        nodes := nodes[id := nodes[id].(right := head)];
        nodes := nodes[head.id := nodes[head.id].(left := Ptr(id))];
        head := Ptr(id);
      }
      len := len + 1;
      order := [id] + s;
      FreshFromKeys(before, nodes, nextId);
      EntriesOfCons(id, s, before);
      EntriesOfFrame(order, before, nodes);
    }

    /**
     `deleteFromEnd` as written: the tail's key leaves the map, and the
     tail's left neighbour becomes the tail with a nil right link. It
     dereferences that neighbour unchecked, so the list needs two nodes.
     `len` is left as it was, so it stops counting the nodes.
     */
    method DeleteFromEndAsWritten()
      requires Valid() && |order| >= 2
      modifies this
      ensures Valid()
      ensures order == old(order)[..|old(order)| - 1]
      ensures vals == old(vals) - {old(nodes[order[|order| - 1]].key)}
      ensures Entries() == old(Entries())[..|old(order)| - 1]
      ensures tail == Ptr(old(order)[|old(order)| - 2]) && nodes[tail.id].right == Nil
      ensures head == old(head) && len == old(len) && limit == old(limit) && nextId == old(nextId)
      ensures old(Counted()) ==> !Counted()
    {
      ghost var s, before := order, nodes;
      LinkedEnds(s, nodes, head, tail);
      vals := vals - {nodes[tail.id].key};
      tail := nodes[tail.id].left;
      DropLastUpdate(s, nodes);
      nodes := nodes[tail.id := nodes[tail.id].(right := Nil)];
      order := s[..|s| - 1];
      FreshFromKeys(before, nodes, nextId);
      EntriesOfPrefix(s, |s| - 1, before);
      EntriesOfFrame(order, before, nodes);
    }

    /** `deleteFromEnd` with the missing `len--`: `len` keeps counting the nodes. */
    method DeleteFromEnd()
      requires Valid() && |order| >= 2 && len >= 1
      modifies this
      ensures Valid()
      ensures order == old(order)[..|old(order)| - 1]
      ensures vals == old(vals) - {old(nodes[order[|order| - 1]].key)}
      ensures Entries() == old(Entries())[..|old(order)| - 1]
      ensures tail == Ptr(old(order)[|old(order)| - 2]) && nodes[tail.id].right == Nil
      ensures head == old(head) && len == old(len) - 1 && limit == old(limit) && nextId == old(nextId)
      ensures old(Counted()) ==> Counted()
    {
      DeleteFromEndAsWritten();
      len := len - 1;
    }

    /**
     `removeAndInsertAtStart`: walks from the head to the first node with
     the key that has a left neighbour, splices it out (its right
     neighbour, or the tail, takes its left neighbour) and links it in
     front of the head. A missing key, or a key only at the head, changes
     nothing.
     */
    method RemoveAndInsertAtStart(key: string)
      requires Valid()
      modifies this
      ensures Valid()
      ensures Entries() == Bump(old(Entries()), key)
      ensures |order| == |old(order)|
      ensures vals == old(vals) && len == old(len) && limit == old(limit) && nextId == old(nextId)
    {
      ghost var es := Entries();
      var curr, p := Scan(key);
      assert forall j :: 1 <= j < p ==> es[j].key != key;
      if curr != Nil {
        BumpFinds(es, key, p);
        MoveListed(curr.id, p);
      } else {
        BumpMisses(es, key);
      }
    }

    /**
     The walk of `removeAndInsertAtStart`, from the head along the right
     links: it stops at the first node with the key and a left neighbour,
     at position `p`, or runs off the tail.
     */
    method Scan(key: string) returns (curr: Link, ghost p: nat)
      requires Linked(order, nodes, head, tail)
      ensures p <= |order| && forall j :: 1 <= j < p ==> nodes[order[j]].key != key
      ensures curr == Nil ==> p == |order|
      ensures curr != Nil ==> 1 <= p < |order| && curr == Ptr(order[p]) && nodes[order[p]].key == key
    {
      ghost var s := order;
      curr, p := head, 0;
      while curr != Nil
        invariant 0 <= p <= |s|
        invariant p < |s| ==> curr == Ptr(s[p])
        invariant p == |s| ==> curr == Nil
        invariant forall j :: 1 <= j < p ==> nodes[s[j]].key != key
        decreases |s| - p
      {
        assert nodes[s[p]].left == LeftOf(s, p) && nodes[s[p]].right == RightOf(s, p);
        if nodes[curr.id].key == key && nodes[curr.id].left != Nil {
          return;
        }
        assert p == 0 || nodes[s[p]].key != key;
        curr := nodes[curr.id].right;
        p := p + 1;
      }
    }

    /**
     The relinking step of `removeAndInsertAtStart` for the node `id` at
     position `p`, which is not the head.
     */
    method MoveListed(id: nat, ghost p: nat)
      requires Valid() && 0 < p < |order| && order[p] == id
      modifies this
      ensures Valid()
      ensures order == MoveToFront(old(order), p)
      ensures Entries() == MoveToFront(old(Entries()), p)
      ensures vals == old(vals) && len == old(len) && limit == old(limit) && nextId == old(nextId)
    {
      ghost var s, before := order, nodes;
      ListedNeighbours(s, nodes, p);
      MoveUp(id);
      RelinkListed(s, before, nodes, p);
      RelinkedSameData(before, nodes, s[p], s[0]);
      FreshFromKeys(before, nodes, nextId);
      order := MoveToFront(s, p);
      EntriesOfMoveToFront(s, p, before);
      EntriesOfFrame(order, before, nodes);
    }

    /**
     The pointer writes of `removeAndInsertAtStart` for a node with a left
     neighbour: the node is spliced out, then linked in front of the head.
     */
    method MoveUp(id: nat)
      requires head.Ptr? && CanRelink(nodes, id, head.id) && nodes[id].left.Ptr?
      modifies this
      ensures Relinked(old(nodes), nodes, id, old(head).id) && head == Ptr(id)
      ensures tail == if old(nodes[id].right) == Nil then old(nodes[id].left) else old(tail)
      ensures vals == old(vals) && order == old(order) && len == old(len) && limit == old(limit) && nextId == old(nextId)
    {
      ghost var before := nodes;
      Detach(id);
      UnlinkedThenPushed(before, nodes, id, head.id);
      LinkUp(id);
    }

    /**
     The splice: the right neighbour takes the node's left neighbour as its
     left link, or the tail does when there is no right neighbour, and the
     left neighbour takes the node's right neighbour as its right link.
     */
    method Detach(id: nat)
      requires id in nodes && nodes[id].left.Ptr? && nodes[id].left.id in nodes && nodes[id].left.id != id
      requires nodes[id].right.Ptr? ==> nodes[id].right.id in nodes && nodes[id].right.id != id
      requires nodes[id].right.Ptr? ==> nodes[id].left.id != nodes[id].right.id
      modifies this
      ensures Unlinked(old(nodes), nodes, id)
      ensures tail == if old(nodes[id].right) == Nil then old(nodes[id].left) else old(tail)
      ensures head == old(head) && vals == old(vals) && order == old(order)
      ensures len == old(len) && limit == old(limit) && nextId == old(nextId)
    {
      var n := nodes[id];
      if n.right != Nil {
        nodes := nodes[n.right.id := nodes[n.right.id].(left := n.left)];
      } else {
        tail := n.left;
      }
      nodes := nodes[n.left.id := nodes[n.left.id].(right := n.right)];
    }

    /** The node gets a nil left link and the head as its right link; the head gets it as its left link and it becomes the head. */
    method LinkUp(id: nat)
      requires id in nodes && head.Ptr? && head.id in nodes && head.id != id
      modifies this
      ensures nodes == old(nodes[id := nodes[id].(left := Nil, right := head)][head.id := nodes[head.id].(left := Ptr(id))])
      ensures head == Ptr(id) && tail == old(tail)
      ensures vals == old(vals) && order == old(order) && len == old(len) && limit == old(limit) && nextId == old(nextId)
    {
      nodes := nodes[id := nodes[id].(left := Nil, right := head)];
      nodes := nodes[head.id := nodes[head.id].(left := Ptr(id))];
      head := Ptr(id);
    }

    /**
     `Get` with its flag corrected: the mapped value and whether the key is
     present; a present key is handed to `removeAndInsertAtStart`.
     */
    method Get(key: string) returns (ok: bool, v: Option<V>)
      requires Valid()
      modifies this
      ensures Valid()
      ensures ok <==> key in old(vals)
      ensures v == if key in old(vals) then Some(old(vals)[key]) else None
      ensures Entries() == if key in old(vals) then Bump(old(Entries()), key) else old(Entries())
      ensures |order| == |old(order)|
      ensures vals == old(vals) && len == old(len) && limit == old(limit)
      ensures old(Consistent()) ==> Consistent() && v == Lookup(old(Entries()), key)
      ensures old(Consistent()) ==> Entries() == Touch(old(Entries()), key)
    {
      ghost var es := Entries();
      ok := key in vals;
      v := if ok then Some(vals[key]) else None;
      if ok {
        RemoveAndInsertAtStart(key);
      }
      if old(Consistent()) {
        MirrorsLookup(vals, es, key);
        MirrorsBump(vals, es, key);
        BumpIsTouch(es, key);
        if !ok {
          KeySetMember(es, key);
        }
      }
    }

    /** `Get` as written: the same value and repositioning, but the flag is always true. */
    method GetAsWritten(key: string) returns (ok: bool, v: Option<V>)
      requires Valid()
      modifies this
      ensures Valid()
      ensures ok
      ensures v == if key in old(vals) then Some(old(vals)[key]) else None
      ensures Entries() == if key in old(vals) then Bump(old(Entries()), key) else old(Entries())
      ensures |order| == |old(order)|
      ensures vals == old(vals) && len == old(len) && limit == old(limit)
    {
      var _, found := Get(key);
      ok, v := true, found;
    }

    /**
     A new key's trip through the pipeline, with the corrected
     `deleteFromEnd`: `Set` maps the key to its value and sends a fresh
     node to `insertToStart`, whose eviction request, if any, is served by
     `deleteFromEnd`.
     */
    method Push(key: string, val: V) returns (evict: bool)
      requires Valid() && key !in vals
      modifies this
      ensures Valid()
      ensures evict == (old(order) != [] && old(len) >= limit)
      ensures var w := [Entry(key, val)] + old(Entries());
        Entries() == if evict then w[..|w| - 1] else w
      ensures var w := [Entry(key, val)] + old(Entries());
        vals == if evict then old(vals)[key := val] - {w[|w| - 1].key} else old(vals)[key := val]
      ensures len == if evict then old(len) else old(len) + 1
      ensures |order| == if evict then |old(order)| else |old(order)| + 1
      ensures limit == old(limit)
    {
      LinkedEnds(order, nodes, head, tail);
      ghost var w := [Entry(key, val)] + Entries();
      vals := vals[key := val];
      var id := Alloc(NewNode(key, val));
      evict := InsertToStart(id);
      assert Entries() == w;
      if evict {
        ghost var last := nodes[order[|order| - 1]].key;
        assert last == w[|w| - 1].key;
        DeleteFromEnd();
      }
    }

    /** A new key's trip through the pipeline as written: `len` keeps growing after an eviction. */
    method PushAsWritten(key: string, val: V) returns (evict: bool)
      requires Valid() && key !in vals
      modifies this
      ensures Valid()
      ensures evict == (old(order) != [] && old(len) >= limit)
      ensures var w := [Entry(key, val)] + old(Entries());
        Entries() == if evict then w[..|w| - 1] else w
      ensures var w := [Entry(key, val)] + old(Entries());
        vals == if evict then old(vals)[key := val] - {w[|w| - 1].key} else old(vals)[key := val]
      ensures len == old(len) + 1
      ensures |order| == if evict then |old(order)| else |old(order)| + 1
      ensures limit == old(limit)
    {
      LinkedEnds(order, nodes, head, tail);
      ghost var w := [Entry(key, val)] + Entries();
      vals := vals[key := val];
      var id := Alloc(NewNode(key, val));
      evict := InsertToStart(id);
      assert Entries() == w;
      if evict {
        ghost var last := nodes[order[|order| - 1]].key;
        assert last == w[|w| - 1].key;
        DeleteFromEndAsWritten();
      }
    }

    /**
     `Set` with the corrected `deleteFromEnd`: a present key is left as it
     is; a new key goes through `Push`. With map and list in step and
     `len` counting the nodes, the entries follow `Admit`, and a list
     within `Room(limit)` stays within it.
     */
    method Set(key: string, val: V)
      requires Valid()
      modifies this
      ensures Valid()
      ensures key in old(vals) ==> vals == old(vals) && order == old(order) && len == old(len) && Entries() == old(Entries())
      ensures old(Consistent()) ==> Consistent()
      ensures old(Counted()) ==> Counted()
      ensures old(Consistent() && Counted()) ==> Entries() == Admit(old(Entries()), key, val, limit)
      ensures old(Consistent() && Counted() && |order| <= Room(limit)) ==> |order| <= Room(limit)
      ensures limit == old(limit)
    {
      if key in vals {
        return;
      }
      ghost var es, vals0 := Entries(), vals;
      var evict := Push(key, val);
      if old(Consistent()) {
        MirrorsPush(vals0, es, key, val, evict);
        if old(Counted()) {
          InsertIsAdmit(es, key, val, limit, evict);
          if |es| <= Room(limit) {
            AdmitRoom(es, key, val, limit);
          }
        }
      }
    }

    /**
     `Set` as written: the same, through `PushAsWritten`. `len` then counts
     insertions rather than nodes, yet the eviction test on it still fires
     exactly when the list is full, so the entries still follow `Admit`.
     */
    method SetAsWritten(key: string, val: V)
      requires Valid()
      modifies this
      ensures Valid()
      ensures key in old(vals) ==> vals == old(vals) && order == old(order) && len == old(len) && Entries() == old(Entries())
      ensures key !in old(vals) ==> len == old(len) + 1
      ensures old(Consistent()) ==> Consistent()
      ensures old(Tracked()) ==> Tracked()
      ensures old(Consistent() && Tracked()) ==> Entries() == Admit(old(Entries()), key, val, limit)
      ensures limit == old(limit)
    {
      if key in vals {
        return;
      }
      ghost var es, vals0, len0 := Entries(), vals, len;
      ghost var tracked := Tracked();
      var evict := PushAsWritten(key, val);
      if tracked {
        TrackedEvicts(|es|, len0, limit, evict);
        assert Tracked();
      }
      if old(Consistent()) {
        MirrorsPush(vals0, es, key, val, evict);
        if tracked {
          InsertIsAdmit(es, key, val, limit, evict);
        }
      }
    }
  }
}
