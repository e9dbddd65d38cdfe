/**
 The recency list as a value: the cached entries from most recently used
 (index 0, the head) to least recently used (the last index, the tail).
 Both cache variants are specified against the functions of this module.
 */
module Recency {

  datatype Option<T> = None | Some(value: T)

  /** One cached key-value pair, as seen when walking the list. */
  datatype Entry<V> = Entry(key: string, val: V)

  /** Moves the element at index `p` to the front, keeping the others in order. */
  function MoveToFront<T>(s: seq<T>, p: nat): (r: seq<T>)
    requires p < |s|
    ensures |r| == |s| && r[0] == s[p]
    ensures forall i :: 0 < i <= p ==> r[i] == s[i - 1]
    ensures forall i {:trigger r[i]} :: p < i < |s| ==> r[i] == s[i]
    ensures multiset(r) == multiset(s)
  {
    var r := seq(|s|, i requires 0 <= i < |s| => if i == 0 then s[p] else if i <= p then s[i - 1] else s[i]);
    assert r == [s[p]] + s[..p] + s[p + 1..];
    assert s == s[..p] + [s[p]] + s[p + 1..];
    r
  }

  /** No key occurs twice in the list. */
  predicate UniqueKeys<V>(es: seq<Entry<V>>) {
    forall i, j :: 0 <= i < j < |es| ==> es[i].key != es[j].key
  }

  /** The keys present in the list. */
  function KeySet<V>(es: seq<Entry<V>>): set<string> {
    set i | 0 <= i < |es| :: es[i].key
  }

  /** The position of the first (most recent) entry with key `k`, if any. */
  function Find<V>(es: seq<Entry<V>>, k: string): (r: Option<nat>)
    ensures r.Some? ==> r.value < |es| && es[r.value].key == k
    ensures r.Some? ==> forall j :: 0 <= j < r.value ==> es[j].key != k
    ensures r.None? ==> forall j :: 0 <= j < |es| ==> es[j].key != k
  {
    if es == [] then None
    else if es[0].key == k then Some(0)
    else match Find(es[1..], k)
      case None => None
      case Some(i) => Some(i + 1)
  }

  /** The value the list holds for `k`. */
  function Lookup<V>(es: seq<Entry<V>>, k: string): Option<V> {
    match Find(es, k)
    case None => None
    case Some(i) => Some(es[i].val)
  }

  /** A read of `k`: its entry becomes the most recently used one. */
  function Touch<V>(es: seq<Entry<V>>, k: string): seq<Entry<V>> {
    match Find(es, k)
    case None => es
    case Some(i) => MoveToFront(es, i)
  }

  /** One eviction at most: the tail goes when the list is over `cap`. */
  function Trim<V>(es: seq<Entry<V>>, cap: int): seq<Entry<V>> {
    if |es| > cap && es != [] then es[..|es| - 1] else es
  }

  /**
   A write in the direct-lock cache: an existing key gets the new value and
   moves to the head; a new key is linked at the head, and the tail is
   evicted when the list then holds more than `cap` entries.
   */
  function Put<V>(es: seq<Entry<V>>, k: string, v: V, cap: int): seq<Entry<V>> {
    match Find(es, k)
    case Some(i) => MoveToFront(es[i := Entry(k, v)], i)
    case None => Trim([Entry(k, v)] + es, cap)
  }

  /**
   A write in the channel-pipeline cache, once its inserter and evictor
   have run: an existing key is left as it is; a new key is linked at the
   head, and when the list already held `limit` or more entries (and was
   not empty) the tail is evicted.
   */
  function Admit<V>(es: seq<Entry<V>>, k: string, v: V, limit: int): seq<Entry<V>> {
    match Find(es, k)
    case Some(_) => es
    case None =>
      if es != [] && |es| >= limit then [Entry(k, v)] + es[..|es| - 1]
      else [Entry(k, v)] + es
  }

  // ---------------------------------------------------------------------
  // Basic facts about Find and KeySet
  // ---------------------------------------------------------------------

  /** The first entry with a key is the one `Find` reports. */
  lemma FindAt<V>(es: seq<Entry<V>>, p: nat)
    requires p < |es|
    requires forall j :: 0 <= j < p ==> es[j].key != es[p].key
    ensures Find(es, es[p].key) == Some(p)
  {
  }

  lemma KeySetMember<V>(es: seq<Entry<V>>, k: string)
    ensures k in KeySet(es) <==> Find(es, k).Some?
  {
    if Find(es, k).Some? {
      assert es[Find(es, k).value].key in KeySet(es);
    }
  }

  /** With unique keys the number of keys is the length of the list. */
  lemma {:induction false} UniqueKeySetSize<V>(es: seq<Entry<V>>)
    requires UniqueKeys(es)
    ensures |KeySet(es)| == |es|
  {
    if es != [] {
      UniqueKeySetSize(es[1..]);
      assert KeySet(es) == {es[0].key} + KeySet(es[1..]) by {
        forall k | k in KeySet(es) ensures k in {es[0].key} + KeySet(es[1..]) {
          var i :| 0 <= i < |es| && es[i].key == k;
          if i > 0 { assert es[1..][i - 1].key == k; }
        }
        forall k | k in KeySet(es[1..]) ensures k in KeySet(es) {
          var i :| 0 <= i < |es[1..]| && es[1..][i].key == k;
          assert es[i + 1].key == k;
        }
      }
      assert es[0].key !in KeySet(es[1..]) by {
        forall i | 0 <= i < |es[1..]| ensures es[1..][i].key != es[0].key {
          assert es[1..][i] == es[i + 1];
        }
      }
    }
  }

  lemma KeySetCons<V>(e: Entry<V>, es: seq<Entry<V>>)
    ensures KeySet([e] + es) == {e.key} + KeySet(es)
  {
    var r := [e] + es;
    forall k | k in KeySet(r) ensures k in {e.key} + KeySet(es) {
      var i :| 0 <= i < |r| && r[i].key == k;
      if i > 0 { assert es[i - 1].key == k; }
    }
    forall k | k in KeySet(es) ensures k in KeySet(r) {
      var i :| 0 <= i < |es| && es[i].key == k;
      assert r[i + 1].key == k;
    }
    assert r[0].key == e.key;
  }

  lemma KeySetDropLast<V>(es: seq<Entry<V>>)
    requires es != [] && UniqueKeys(es)
    ensures KeySet(es[..|es| - 1]) == KeySet(es) - {es[|es| - 1].key}
  {
    var r := es[..|es| - 1];
    forall k | k in KeySet(es) - {es[|es| - 1].key} ensures k in KeySet(r) {
      var i :| 0 <= i < |es| && es[i].key == k;
      assert r[i].key == k;
    }
    forall k | k in KeySet(r) ensures k in KeySet(es) - {es[|es| - 1].key} {
      var i :| 0 <= i < |r| && r[i].key == k;
      assert es[i].key == k;
    }
  }

  lemma KeySetMoveToFront<V>(es: seq<Entry<V>>, p: nat)
    requires p < |es|
    ensures KeySet(MoveToFront(es, p)) == KeySet(es)
  {
    var r := MoveToFront(es, p);
    forall k | k in KeySet(r) ensures k in KeySet(es) {
      var i :| 0 <= i < |r| && r[i].key == k;
      if i == 0 { assert es[p].key == k; }
      else if i <= p { assert es[i - 1].key == k; }
      else { assert es[i].key == k; }
    }
    forall k | k in KeySet(es) ensures k in KeySet(r) {
      var i :| 0 <= i < |es| && es[i].key == k;
      if i < p { assert r[i + 1].key == k; }
      else if i == p { assert r[0].key == k; }
      else { assert r[i].key == k; }
    }
  }

  lemma UniqueMoveToFront<V>(es: seq<Entry<V>>, p: nat)
    requires p < |es| && UniqueKeys(es)
    ensures UniqueKeys(MoveToFront(es, p))
  {
    var r := MoveToFront(es, p);
    // position of r[i] in es
    forall i, j | 0 <= i < j < |r| ensures r[i].key != r[j].key {
      var a := if i == 0 then p else if i <= p then i - 1 else i;
      var b := if j == 0 then p else if j <= p then j - 1 else j;
      assert r[i] == es[a] && r[j] == es[b] && a != b;
    }
  }

  // ---------------------------------------------------------------------
  // Reads: Touch
  // ---------------------------------------------------------------------

  /** A read leaves the stored keys, length and multiset of entries alone. */
  lemma TouchKeeps<V>(es: seq<Entry<V>>, k: string)
    ensures |Touch(es, k)| == |es|
    ensures multiset(Touch(es, k)) == multiset(es)
    ensures KeySet(Touch(es, k)) == KeySet(es)
    ensures UniqueKeys(es) ==> UniqueKeys(Touch(es, k))
  {
    match Find(es, k)
    case None =>
    case Some(i) =>
      KeySetMoveToFront(es, i);
      if UniqueKeys(es) { UniqueMoveToFront(es, i); }
  }

  /** A read of a present key makes it the head; of an absent key, changes nothing. */
  lemma TouchPromotes<V>(es: seq<Entry<V>>, k: string)
    ensures k in KeySet(es) ==> Touch(es, k) != [] && Touch(es, k)[0].key == k
    ensures k !in KeySet(es) ==> Touch(es, k) == es
    ensures es != [] && es[0].key == k ==> Touch(es, k) == es
  {
    KeySetMember(es, k);
    if es != [] && es[0].key == k {
      assert Find(es, k) == Some(0);
      assert MoveToFront(es, 0) == es;
    }
  }

  /** A read never changes the value any key maps to. */
  lemma LookupAfterTouch<V>(es: seq<Entry<V>>, k: string, k': string)
    ensures Lookup(Touch(es, k), k') == Lookup(es, k')
  {
    match Find(es, k)
    case None =>
    case Some(i) =>
      var r := MoveToFront(es, i);
      if k' == k {
        FindAt(r, 0);
      } else {
        match Find(es, k')
        case None =>
          assert forall j :: 0 <= j < |r| ==> r[j].key != k' by {
            forall j | 0 <= j < |r| ensures r[j].key != k' {
              if j == 0 {} else if j <= i { assert r[j] == es[j - 1]; } else { assert r[j] == es[j]; }
            }
          }
        case Some(m) =>
          var q := if m < i then m + 1 else m;
          assert r[q] == es[m];
          forall j | 0 <= j < q ensures r[j].key != k' {
            if j == 0 {} else if j <= i { assert r[j] == es[j - 1]; } else { assert r[j] == es[j]; }
          }
          FindAt(r, q);
      }
  }

  // ---------------------------------------------------------------------
  // Writes in the direct-lock cache: Put
  // ---------------------------------------------------------------------

  /** Read-your-write: right after a write, the key maps to the written value. */
  lemma PutThenLookup<V>(es: seq<Entry<V>>, k: string, v: V, cap: int)
    requires cap >= 1
    ensures Lookup(Put(es, k, v, cap), k) == Some(v)
  {
    var r := Put(es, k, v, cap);
    assert r[0] == Entry(k, v);
    FindAt(r, 0);
  }

  /**
   Overwriting a present key keeps the key set and the length (the key
   counts once toward capacity), and the key moves to the head.
   */
  lemma PutExisting<V>(es: seq<Entry<V>>, k: string, v: V, cap: int)
    requires k in KeySet(es)
    ensures |Put(es, k, v, cap)| == |es|
    ensures KeySet(Put(es, k, v, cap)) == KeySet(es)
    ensures Put(es, k, v, cap)[0] == Entry(k, v)
  {
    KeySetMember(es, k);
    var i := Find(es, k).value;
    var u := es[i := Entry(k, v)];
    KeySetMoveToFront(u, i);
    assert KeySet(u) == KeySet(es) by {
      forall x | x in KeySet(u) ensures x in KeySet(es) {
        var j :| 0 <= j < |u| && u[j].key == x;
        assert es[j].key == x;
      }
      forall x | x in KeySet(es) ensures x in KeySet(u) {
        var j :| 0 <= j < |es| && es[j].key == x;
        assert u[j].key == x;
      }
    }
  }

  /** A new key is admitted without eviction while the list stays within capacity. */
  lemma PutBelowCapacity<V>(es: seq<Entry<V>>, k: string, v: V, cap: int)
    requires k !in KeySet(es) && |es| < cap
    ensures Put(es, k, v, cap) == [Entry(k, v)] + es
  {
    KeySetMember(es, k);
  }

  /**
   A new key into a full list evicts exactly the least recently used entry,
   the old tail; with unique keys its key is no longer found, and every
   other entry keeps its value.
   */
  lemma PutEvictsLeastRecent<V>(es: seq<Entry<V>>, k: string, v: V, cap: int)
    requires k !in KeySet(es) && es != [] && |es| >= cap
    requires UniqueKeys(es)
    ensures Put(es, k, v, cap) == [Entry(k, v)] + es[..|es| - 1]
    ensures Lookup(Put(es, k, v, cap), es[|es| - 1].key) == None
    ensures forall j :: 0 <= j < |es| - 1 ==> Lookup(Put(es, k, v, cap), es[j].key) == Some(es[j].val)
  {
    KeySetMember(es, k);
    var r := Put(es, k, v, cap);
    assert forall j :: 0 <= j < |es| ==> es[j].key != k;
    var last := es[|es| - 1].key;
    assert forall j :: 0 <= j < |r| ==> r[j].key != last by {
      forall j | 0 <= j < |r| ensures r[j].key != last {
        if j > 0 { assert r[j] == es[j - 1]; }
      }
    }
    forall j | 0 <= j < |es| - 1 ensures Lookup(r, es[j].key) == Some(es[j].val) {
      assert r[j + 1] == es[j];
      forall i | 0 <= i < j + 1 ensures r[i].key != r[j + 1].key {
        if i > 0 { assert r[i] == es[i - 1]; }
      }
      FindAt(r, j + 1);
    }
  }

  /** Writes keep the keys unique, and keep the list within a non-negative capacity. */
  lemma {:induction false} PutUniqueBounded<V>(es: seq<Entry<V>>, k: string, v: V, cap: int)
    requires UniqueKeys(es)
    ensures UniqueKeys(Put(es, k, v, cap))
    ensures 0 <= cap && |es| <= cap ==> |Put(es, k, v, cap)| <= cap
  {
    match Find(es, k)
    case Some(i) =>
      var u := es[i := Entry(k, v)];
      assert UniqueKeys(u) by {
        forall a, b | 0 <= a < b < |u| ensures u[a].key != u[b].key {
          assert u[a].key == es[a].key && u[b].key == es[b].key;
        }
      }
      UniqueMoveToFront(u, i);
    case None =>
      var w := [Entry(k, v)] + es;
      assert UniqueKeys(w) by {
        forall a, b | 0 <= a < b < |w| ensures w[a].key != w[b].key {
          assert w[b] == es[b - 1];
          if a > 0 { assert w[a] == es[a - 1]; }
        }
      }
      assert UniqueKeys(Trim(w, cap)) by {
        var t := Trim(w, cap);
        forall a, b | 0 <= a < b < |t| ensures t[a].key != t[b].key {
          assert t[a] == w[a] && t[b] == w[b];
        }
      }
  }

  /** The key set after a write, as the lookup table must mirror it. */
  lemma PutKeySet<V>(es: seq<Entry<V>>, k: string, v: V, cap: int)
    requires UniqueKeys(es)
    ensures k in KeySet(es) ==> KeySet(Put(es, k, v, cap)) == KeySet(es)
    ensures k !in KeySet(es) && |es| < cap ==> KeySet(Put(es, k, v, cap)) == KeySet(es) + {k}
    ensures k !in KeySet(es) && es == [] && cap <= 0 ==> KeySet(Put(es, k, v, cap)) == {}
    ensures k !in KeySet(es) && es != [] && |es| >= cap ==>
      KeySet(Put(es, k, v, cap)) == KeySet(es) + {k} - {es[|es| - 1].key}
  {
    KeySetMember(es, k);
    if k in KeySet(es) {
      PutExisting(es, k, v, cap);
    } else {
      var w := [Entry(k, v)] + es;
      KeySetCons(Entry(k, v), es);
      PutUniqueBounded([], k, v, cap);
      assert UniqueKeys(w) by {
        forall a, b | 0 <= a < b < |w| ensures w[a].key != w[b].key {
          assert w[b] == es[b - 1];
          if a > 0 { assert w[a] == es[a - 1]; }
        }
      }
      if |w| > cap {
        KeySetDropLast(w);
        if es == [] {
          assert KeySet(w[..0]) == {};
        } else {
          assert w[|w| - 1] == es[|es| - 1];
          assert es[|es| - 1].key != k by {
            assert forall j :: 0 <= j < |es| ==> es[j].key != k;
          }
        }
      }
    }
  }

  // ---------------------------------------------------------------------
  // Writes in the channel-pipeline cache: Admit
  // ---------------------------------------------------------------------

  /** A present key is left alone: its value is not replaced and nothing moves. */
  lemma AdmitExisting<V>(es: seq<Entry<V>>, k: string, v: V, limit: int)
    requires k in KeySet(es)
    ensures Admit(es, k, v, limit) == es
  {
    KeySetMember(es, k);
  }

  /**
   A new key is linked at the head; once the list has reached `limit`
   the least recently used entry is evicted, so the list never holds more
   than `limit` entries (or one, when `limit` is zero), keys stay unique
   and the new key reads back.
   */
  lemma AdmitNew<V>(es: seq<Entry<V>>, k: string, v: V, limit: int)
    requires k !in KeySet(es) && UniqueKeys(es)
    ensures Admit(es, k, v, limit)[0] == Entry(k, v)
    ensures Lookup(Admit(es, k, v, limit), k) == Some(v)
    ensures UniqueKeys(Admit(es, k, v, limit))
    ensures es != [] && |es| >= limit ==> Admit(es, k, v, limit) == [Entry(k, v)] + es[..|es| - 1]
    ensures es == [] || |es| < limit ==> Admit(es, k, v, limit) == [Entry(k, v)] + es
    ensures 1 <= limit && |es| <= limit ==> |Admit(es, k, v, limit)| <= limit
    ensures |es| <= 1 && limit <= 1 ==> |Admit(es, k, v, limit)| == 1
  {
    KeySetMember(es, k);
    var r := Admit(es, k, v, limit);
    FindAt(r, 0);
    assert forall j :: 0 <= j < |es| ==> es[j].key != k;
    forall a, b | 0 <= a < b < |r| ensures r[a].key != r[b].key {
      assert r[b] == es[b - 1];
      if a > 0 { assert r[a] == es[a - 1]; }
    }
  }
}
