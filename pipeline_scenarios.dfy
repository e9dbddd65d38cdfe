/**
 Call sequences on the channel-pipeline cache (`lru_cache.go`): a write
 read back on a fresh cache, and the miss that `Get` as written reports
 as a hit.
 */
module PipelineScenarios {
  import opened Recency
  import opened Pipeline

  /** On a fresh cache, a written key reads back and any other key misses. */
  method WriteThenRead<V>(k: string, other: string, v: V) returns (ok: bool, r: Option<V>, okOther: bool, rOther: Option<V>)
    requires other != k
    ensures ok && r == Some(v)
    ensures !okOther && rOther == None
  {
    var c := new Lru<V>();
    c.Set(k, v);
    AdmitNew([], k, v, c.limit);
    assert c.Entries() == [Entry(k, v)];
    assert KeySet(c.Entries()) == {k};
    ok, r := c.Get(k);
    okOther, rOther := c.Get(other);
  }

  /** `Get` as written answers a read of a key never written with `ok` set and no value. */
  method MissAsWritten<V>(k: string) returns (ok: bool, v: Option<V>)
    ensures ok && v == None
  {
    var c := new Lru<V>();
    ok, v := c.GetAsWritten(k);
  }

  /** The corrected `Get` answers the same read with a miss. */
  method Miss<V>(k: string) returns (ok: bool, v: Option<V>)
    ensures !ok && v == None
  {
    var c := new Lru<V>();
    ok, v := c.Get(k);
  }
}
