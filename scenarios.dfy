/**
 Call sequences from the direct-lock cache's own test suite
 (`Cachery/lru_test.go`), and the call sequence that shows the overwrite
 path of `Set` as written breaking the capacity bound.
 */
module Scenarios {
  import opened Recency
  import opened Arena
  import opened Cachery

  /** A write followed by a read of the same key returns the written value. */
  method WriteThenRead<V>(c: Lru<V>, k: string, v: V) returns (r: Option<V>, ok: bool)
    requires c.Consistent() && c.cacheCapacity >= 1
    modifies c
    ensures c.Consistent() && c.cacheCapacity == old(c.cacheCapacity)
    ensures ok && r == Some(v)
  {
    c.Set(k, v);
    PutThenLookup(old(c.Entries()), k, v, c.cacheCapacity);
    KeySetMember(c.Entries(), k);
    r, ok := c.Get(k);
  }

  /** `TestSetGet`: on a default cache, set a key and read it back, then overwrite it and read it back. */
  method SetGetScenario<V>(k: string, v1: V, v2: V) returns (r1: Option<V>, ok1: bool, r2: Option<V>, ok2: bool)
    ensures ok1 && r1 == Some(v1)
    ensures ok2 && r2 == Some(v2)
  {
    var c := new Lru<V>([]);
    r1, ok1 := WriteThenRead(c, k, v1);
    r2, ok2 := WriteThenRead(c, k, v2);
  }

  /** Two fresh writes into an empty cache of capacity 3: newest first. */
  lemma TwoWrites<V>(a: string, b: string, va: V, vb: V)
    requires a != b
    ensures Put(Put([], a, va, 3), b, vb, 3) == [Entry(b, vb), Entry(a, va)]
  {
    var e0: seq<Entry<V>> := [];
    PutBelowCapacity(e0, a, va, 3);
    KeySetCons(Entry(a, va), e0);
    PutBelowCapacity([Entry(a, va)], b, vb, 3);
  }

  /** Reading the older of two entries swaps them. */
  lemma ReadOlder<V>(a: string, b: string, va: V, vb: V)
    requires a != b
    ensures Touch([Entry(b, vb), Entry(a, va)], a) == [Entry(a, va), Entry(b, vb)]
  {
    var e := [Entry(b, vb), Entry(a, va)];
    FindAt(e, 1);
    var t := MoveToFront(e, 1);
    assert t[0] == Entry(a, va) && t[1] == Entry(b, vb);
  }

  /** Two more fresh writes at capacity 3: the second evicts the tail. */
  lemma WritesPastCapacity<V>(a: string, b: string, c: string, d: string, va: V, vb: V, vc: V, vd: V)
    requires a != b && a != c && a != d && b != c && b != d && c != d
    ensures Put(Put([Entry(a, va), Entry(b, vb)], c, vc, 3), d, vd, 3)
         == [Entry(d, vd), Entry(c, vc), Entry(a, va)]
  {
    var t := [Entry(a, va), Entry(b, vb)];
    KeySetCons(Entry(b, vb), []);
    KeySetCons(Entry(a, va), [Entry(b, vb)]);
    PutBelowCapacity(t, c, vc, 3);
    var e3 := [Entry(c, vc)] + t;
    KeySetCons(Entry(c, vc), t);
    PutEvictsLeastRecent(e3, d, vd, 3);
    assert e3[..2] == [Entry(c, vc), Entry(a, va)];
  }

  /**
   The entries `TestReplace` leaves behind, for any four distinct keys:
   with capacity 3, write `a` and `b`, read `a`, write `c` and `d`. The
   read saved `a`, so `d` evicts `b`.
   */
  lemma ReplaceTrace<V>(a: string, b: string, c: string, d: string, va: V, vb: V, vc: V, vd: V)
    requires a != b && a != c && a != d && b != c && b != d && c != d
    ensures Put(Put(Touch(Put(Put([], a, va, 3), b, vb, 3), a), c, vc, 3), d, vd, 3)
         == [Entry(d, vd), Entry(c, vc), Entry(a, va)]
  {
    TwoWrites(a, b, va, vb);
    ReadOlder(a, b, va, vb);
    WritesPastCapacity(a, b, c, d, va, vb, vc, vd);
  }

  /** What three entries with distinct keys hold. */
  lemma ThreeEntries<V>(a: string, b: string, c: string, va: V, vb: V, vc: V)
    requires a != b && a != c && b != c
    ensures var es := [Entry(a, va), Entry(b, vb), Entry(c, vc)];
      KeySet(es) == {a, b, c} && Lookup(es, b) == Some(vb) && Lookup(es, c) == Some(vc)
  {
    var es := [Entry(a, va), Entry(b, vb), Entry(c, vc)];
    KeySetCons(Entry(c, vc), []);
    KeySetCons(Entry(b, vb), [Entry(c, vc)]);
    KeySetCons(Entry(a, va), [Entry(b, vb), Entry(c, vc)]);
    FindAt(es, 1);
    FindAt(es, 2);
  }

  /** Keys pairwise apart, as "1" to "4" in `TestReplace`. */
  predicate FourKeys(k1: string, k2: string, k3: string, k4: string) {
    k1 != k2 && k1 != k3 && k1 != k4 && k2 != k3 && k2 != k4 && k3 != k4
  }

  /** The first two writes of `TestReplace` and the read of the older key. */
  method FillAndRead(c: Lru<int>, k1: string, k2: string)
    requires k1 != k2
    requires c.Consistent() && c.Entries() == [] && c.cacheCapacity == 3
    modifies c
    ensures c.Consistent() && c.Entries() == [Entry(k1, 23), Entry(k2, 43)] && c.cacheCapacity == 3
  {
    c.Set(k1, 23);
    c.Set(k2, 43);
    TwoWrites(k1, k2, 23, 43);
    var _, _ := c.Get(k1);
    ReadOlder(k1, k2, 23, 43);
  }

  /** The last two writes of `TestReplace`: the fourth key evicts the second. */
  method WriteTwoMore(c: Lru<int>, k1: string, k2: string, k3: string, k4: string)
    requires FourKeys(k1, k2, k3, k4)
    requires c.Consistent() && c.Entries() == [Entry(k1, 23), Entry(k2, 43)] && c.cacheCapacity == 3
    modifies c
    ensures c.Consistent() && c.Entries() == [Entry(k4, 5), Entry(k3, 90), Entry(k1, 23)]
  {
    c.Set(k3, 90);
    c.Set(k4, 5);
    WritesPastCapacity(k1, k2, k3, k4, 23, 43, 90, 5);
  }

  /** The reads that close `TestReplace`. */
  method ReadBack(c: Lru<int>, k1: string, k2: string, k3: string, k4: string)
      returns (one: Option<int>, ok1: bool, two: Option<int>, ok2: bool, three: Option<int>, ok3: bool)
    requires FourKeys(k1, k2, k3, k4)
    requires c.Consistent() && c.Entries() == [Entry(k4, 5), Entry(k3, 90), Entry(k1, 23)]
    modifies c
    ensures ok1 && one == Some(23)
    ensures !ok2 && two == None
    ensures ok3 && three == Some(90)
  {
    ghost var es := c.Entries();
    ThreeEntries(k4, k3, k1, 5, 90, 23);
    assert k2 !in KeySet(es);
    assert k2 !in c.vals;
    one, ok1 := c.Get(k1);
    two, ok2 := c.Get(k2);
    LookupAfterTouch(es, k1, k3);
    TouchPromotes(Touch(es, k1), k2);
    three, ok3 := c.Get(k3);
  }

  /**
   `TestReplace`, for any four distinct keys (the test uses "1" to "4"):
   capacity 3; set the first two; get the first; set the other two. Then
   the first and third are present with their values and the second was
   evicted.
   */
  method ReplaceScenario(k1: string, k2: string, k3: string, k4: string)
      returns (one: Option<int>, ok1: bool, two: Option<int>, ok2: bool, three: Option<int>, ok3: bool)
    requires FourKeys(k1, k2, k3, k4)
    ensures ok1 && one == Some(23)
    ensures !ok2 && two == None
    ensures ok3 && three == Some(90)
  {
    var c := new Lru<int>([WithCapacity(3)]);
    FillAndRead(c, k1, k2);
    WriteTwoMore(c, k1, k2, k3, k4);
    one, ok1, two, ok2, three, ok3 := ReadBack(c, k1, k2, k3, k4);
  }

  /** The first two writes of the overflow: `a` twice leaves two nodes for `a`. */
  method WriteTwice(lru: Lru<int>, a: string)
    requires lru.Valid() && lru.vals == map[] && lru.Entries() == [] && lru.cacheCapacity == 1
    modifies lru
    ensures lru.Valid() && lru.vals.Keys == {a} && lru.Entries() == [Entry(a, 2), Entry(a, 2)]
    ensures lru.cacheCapacity == 1
  {
    lru.SetAsWritten(a, 1);
    assert lru.Entries() == [Entry(a, 1)];
    lru.SetAsWritten(a, 2);
  }

  /** The third write of the overflow: `b` evicts the unmapped node for `a`. */
  method WriteThird(lru: Lru<int>, a: string, b: string)
    requires a != b
    requires lru.Valid() && lru.vals.Keys == {a} && lru.Entries() == [Entry(a, 2), Entry(a, 2)]
    requires lru.cacheCapacity == 1
    modifies lru
    ensures lru.Valid() && lru.vals.Keys == {b} && lru.Entries() == [Entry(b, 3), Entry(a, 2)]
    ensures lru.cacheCapacity == 1
  {
    assert |lru.vals| == 1 by { assert |lru.vals| == |lru.vals.Keys|; }
    ghost var es := [Entry(b, 3)] + lru.Entries();
    assert es[|es| - 1].key == a;
    lru.SetAsWritten(b, 3);
    assert lru.vals.Keys == {a} + {b} - {a};
  }

  /** The last write of the overflow: `c` evicts the remaining node for `a`, a key already unmapped. */
  method WriteFourth(lru: Lru<int>, a: string, b: string, c: string)
    requires a != b && a != c && b != c
    requires lru.Valid() && lru.vals.Keys == {b} && lru.Entries() == [Entry(b, 3), Entry(a, 2)]
    requires lru.cacheCapacity == 1
    modifies lru
    ensures lru.vals.Keys == {b, c} && lru.cacheCapacity == 1
  {
    assert |lru.vals| == 1 by { assert |lru.vals| == |lru.vals.Keys|; }
    ghost var es := [Entry(c, 4)] + lru.Entries();
    assert es[|es| - 1].key == a;
    lru.SetAsWritten(c, 4);
    assert lru.vals.Keys == {b} + {c} - {a};
  }

  /**
   Capacity 1 under `Set` as written: write `a` twice, then `b`, then `c`.
   The second write of `a` leaves a second node for `a` in the list, the
   write of `b` evicts that node instead of `a`'s mapped one, and the
   write of `c` evicts the other node for `a`, whose key is gone from the
   map already: the map ends with two keys.
   */
  method OverflowAsWritten(a: string, b: string, c: string) returns (size: nat, cap: int)
    requires a != b && a != c && b != c
    ensures cap == 1 && size == 2 && size > cap
  {
    var lru := new Lru<int>([WithCapacity(1)]);
    WriteTwice(lru, a);
    WriteThird(lru, a, b);
    WriteFourth(lru, a, b, c);
    size, cap := |lru.vals|, lru.cacheCapacity;
    assert |lru.vals| == |lru.vals.Keys|;
  }

  /** The same writes under the corrected `Set` keep at most one key. */
  method NoOverflow(a: string, b: string, c: string) returns (size: nat, cap: int)
    ensures cap == 1 && size <= cap
  {
    var lru := new Lru<int>([WithCapacity(1)]);
    lru.Set(a, 1);
    lru.Set(a, 2);
    lru.Set(b, 3);
    lru.Set(c, 4);
    size, cap := |lru.vals|, lru.cacheCapacity;
  }
}
