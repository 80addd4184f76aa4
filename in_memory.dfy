/** The in-memory backend: a table from connection name to record, held in
    one map field that add, edit and delete update in place. */
module InMemory {
  import opened Model

  /** The values of `m` counted once per key: what a snapshot of all the
      stored records must contain, in some order. */
  ghost function Bag<K, V>(m: map<K, V>): multiset<V>
    decreases |m|
  {
    if m == map[] then multiset{}
    else
      var k := Pick(m);
      assert (m - {k}).Keys == m.Keys - {k};
      Bag(m - {k}) + multiset{m[k]}
  }

  /** Some key of a non-empty map. */
  ghost function Pick<K, V>(m: map<K, V>): (k: K)
    requires m != map[]
    ensures k in m
  {
    var k :| k in m; k
  }

  /** Taking out any key removes exactly that key's value from the bag,
      whichever key the definition of Bag happens to pick first. */
  lemma {:induction false} BagRemove<K, V>(m: map<K, V>, k: K)
    requires k in m
    ensures Bag(m) == Bag(m - {k}) + multiset{m[k]}
    decreases |m|
  {
    var j := Pick(m);
    if j != k {
      var mj, mk := m - {j}, m - {k};
      var rest := mj - {k};
      assert rest == mk - {j};
      assert k in mj && mj[k] == m[k];
      assert j in mk && mk[j] == m[j];
      BagRemove(mj, k);
      BagRemove(mk, j);
      SwapLast(Bag(m), Bag(mj), Bag(mk), Bag(rest), m[j], m[k]);
    }
  }

  /** Multiset arithmetic behind BagRemove: two ways of adding the same two
      values to a common rest agree. */
  lemma SwapLast<V>(all: multiset<V>, withoutX: multiset<V>, withoutY: multiset<V>, rest: multiset<V>, x: V, y: V)
    requires all == withoutX + multiset{x}
    requires withoutX == rest + multiset{y}
    requires withoutY == rest + multiset{x}
    ensures all == withoutY + multiset{y}
  {
  }

  /** The bag holds one value per key. */
  lemma {:induction false} BagSize<K, V>(m: map<K, V>)
    ensures |Bag(m)| == |m|
    decreases |m|
  {
    if |m| != 0 {
      var k :| k in m;
      BagRemove(m, k);
      BagSize(m - {k});
    }
  }

  /** A value is in the bag exactly when some key maps to it. */
  lemma {:induction false} BagHoldsValues<K, V>(m: map<K, V>, v: V)
    ensures v in Bag(m) <==> v in m.Values
    decreases |m|
  {
    if m != map[] {
      var k := Pick(m);
      BagHoldsValues(m - {k}, v);
      ValuesRemove(m, k);
    }
  }

  /** The values of a map are those left after removing a key, plus that
      key's value. */
  lemma ValuesRemove<K, V>(m: map<K, V>, k: K)
    requires k in m
    ensures m.Values == (m - {k}).Values + {m[k]}
  {
    forall w | w in m.Values ensures w in (m - {k}).Values + {m[k]} {
      var j :| j in m && m[j] == w;
      if j != k { assert j in m - {k}; }
    }
  }

  /** Storing `v` under `k` replaces whatever `k` held before and keeps
      every other key's value. */
  lemma BagPut<K, V>(m: map<K, V>, k: K, v: V)
    ensures Bag(m[k := v]) == Bag(m - {k}) + multiset{v}
    ensures k in m ==> Bag(m[k := v]) == Bag(m) - multiset{m[k]} + multiset{v}
  {
    BagRemove(m[k := v], k);
    assert m[k := v] - {k} == m - {k};
    if k in m {
      BagRemove(m, k);
    }
  }

  /** Storing under a key that is not yet present adds one value. */
  lemma BagInsert<K, V>(m: map<K, V>, k: K, v: V)
    requires k !in m
    ensures Bag(m[k := v]) == Bag(m) + multiset{v}
  {
    BagPut(m, k, v);
    assert m - {k} == m;
  }

  /** Three distinct keys give a bag of exactly their three values. */
  lemma ThreeKeyBag<K, V>(k1: K, v1: V, k2: K, v2: V, k3: K, v3: V)
    requires k1 != k2 && k1 != k3 && k2 != k3
    ensures Bag(map[k1 := v1, k2 := v2, k3 := v3]) == multiset{v1, v2, v3}
  {
    var m0: map<K, V> := map[];
    assert Bag(m0) == multiset{} by { assert |m0| == 0; }
    BagInsert(m0, k1, v1);
    BagInsert(m0[k1 := v1], k2, v2);
    BagInsert(m0[k1 := v1][k2 := v2], k3, v3);
    assert m0[k1 := v1][k2 := v2][k3 := v3] == map[k1 := v1, k2 := v2, k3 := v3];
  }

  class InMemoryConnectionConfigConnector {
    var connectionConfigMap: map<string, ConnectionConfig>

    constructor ()
      ensures connectionConfigMap == map[]
    {
      connectionConfigMap := map[];
    }

    /** The record stored under `configName`, or None when there is none. */
    method GetConnectionConfig(configName: string) returns (r: Option<ConnectionConfig>)
      ensures r.Some? <==> configName in connectionConfigMap
      ensures r.Some? ==> r.value == connectionConfigMap[configName]
    {
      if configName in connectionConfigMap {
        r := Some(connectionConfigMap[configName]);
      } else {
        r := None;
      }
    }

    /** A fresh list holding every stored record once per key, in no
        particular order; the table itself is left as it was. */
    method GetConnectionConfigs() returns (r: seq<ConnectionConfig>)
      ensures multiset(r) == Bag(connectionConfigMap)
      ensures |r| == |connectionConfigMap|
      ensures forall c :: c in r <==> c in connectionConfigMap.Values
    {
      r := [];
      var rest := connectionConfigMap;
      while rest != map[]
        invariant multiset(r) + Bag(rest) == Bag(connectionConfigMap)
        decreases |rest|
      {
        assert rest.Keys != {};
        var k :| k in rest;
        BagRemove(rest, k);
        r := r + [rest[k]];
        rest := rest - {k};
      }
      assert Bag(rest) == multiset{};
      BagSize(connectionConfigMap);
      forall c ensures c in r <==> c in connectionConfigMap.Values {
        BagHoldsValues(connectionConfigMap, c);
        assert c in r <==> c in multiset(r);
      }
    }

    /** Stores `connectionConfig` under its name, overwriting any record
        already there, and returns the record it replaced. */
    method AddConnectionConfig(connectionConfig: ConnectionConfig) returns (previous: Option<ConnectionConfig>)
      modifies this
      ensures connectionConfigMap == old(connectionConfigMap)[connectionConfig.name := connectionConfig]
      ensures previous.Some? <==> connectionConfig.name in old(connectionConfigMap)
      ensures previous.Some? ==> previous.value == old(connectionConfigMap)[connectionConfig.name]
      ensures forall n :: n != connectionConfig.name ==>
        (n in connectionConfigMap <==> n in old(connectionConfigMap)) &&
        (n in connectionConfigMap ==> connectionConfigMap[n] == old(connectionConfigMap)[n])
    {
      var name := connectionConfig.name;
      previous := if name in connectionConfigMap then Some(connectionConfigMap[name]) else None;
      connectionConfigMap := connectionConfigMap[name := connectionConfig];
    }

    /** Removes the entry for `configName`; an absent name changes nothing. */
    method DeleteConnectionConfig(configName: string)
      modifies this
      ensures connectionConfigMap == old(connectionConfigMap) - {configName}
      ensures configName !in old(connectionConfigMap) ==> connectionConfigMap == old(connectionConfigMap)
      ensures forall n :: n != configName ==>
        (n in connectionConfigMap <==> n in old(connectionConfigMap)) &&
        (n in connectionConfigMap ==> connectionConfigMap[n] == old(connectionConfigMap)[n])
    {
      connectionConfigMap := connectionConfigMap - {configName};
    }

    /** The same put as AddConnectionConfig: it overwrites the entry for the
        record's name, inserting it when the name is absent, and returns the
        record it replaced. */
    method EditConnectionConfig(connectionConfig: ConnectionConfig) returns (previous: Option<ConnectionConfig>)
      modifies this
      ensures connectionConfigMap == old(connectionConfigMap)[connectionConfig.name := connectionConfig]
      ensures previous.Some? <==> connectionConfig.name in old(connectionConfigMap)
      ensures previous.Some? ==> previous.value == old(connectionConfigMap)[connectionConfig.name]
      ensures forall n :: n != connectionConfig.name ==>
        (n in connectionConfigMap <==> n in old(connectionConfigMap)) &&
        (n in connectionConfigMap ==> connectionConfigMap[n] == old(connectionConfigMap)[n])
    {
      var name := connectionConfig.name;
      previous := if name in connectionConfigMap then Some(connectionConfigMap[name]) else None;
      connectionConfigMap := connectionConfigMap[name := connectionConfig];
    }
  }

  /** Adding three records with distinct names, each can then be looked up
      by its name and comes back equal. */
  method AddThenGetByName(c1: ConnectionConfig, c2: ConnectionConfig, c3: ConnectionConfig)
    returns (g1: Option<ConnectionConfig>, g2: Option<ConnectionConfig>, g3: Option<ConnectionConfig>)
    requires c1.name != c2.name && c1.name != c3.name && c2.name != c3.name
    ensures g1 == Some(c1) && g2 == Some(c2) && g3 == Some(c3)
  {
    var store := new InMemoryConnectionConfigConnector();
    var _ := store.AddConnectionConfig(c1);
    var _ := store.AddConnectionConfig(c2);
    var _ := store.AddConnectionConfig(c3);
    g1 := store.GetConnectionConfig(c1.name);
    g2 := store.GetConnectionConfig(c2.name);
    g3 := store.GetConnectionConfig(c3.name);
  }

  /** Adding three records with distinct names, the snapshot holds exactly
      those three, in any order. */
  method AddThenGetAll(c1: ConnectionConfig, c2: ConnectionConfig, c3: ConnectionConfig)
    returns (all: seq<ConnectionConfig>)
    requires c1.name != c2.name && c1.name != c3.name && c2.name != c3.name
    ensures multiset(all) == multiset{c1, c2, c3}
  {
    var store := new InMemoryConnectionConfigConnector();
    var _ := store.AddConnectionConfig(c1);
    var _ := store.AddConnectionConfig(c2);
    var _ := store.AddConnectionConfig(c3);
    all := store.GetConnectionConfigs();
    ThreeKeyBag(c1.name, c1, c2.name, c2, c3.name, c3);
  }

  /** Adding a record and then deleting its name leaves an empty snapshot. */
  method AddThenDelete(c: ConnectionConfig) returns (all: seq<ConnectionConfig>, found: Option<ConnectionConfig>)
    ensures all == []
    ensures found == None
  {
    var store := new InMemoryConnectionConfigConnector();
    var _ := store.AddConnectionConfig(c);
    store.DeleteConnectionConfig(c.name);
    all := store.GetConnectionConfigs();
    found := store.GetConnectionConfig(c.name);
  }

  /** Editing the record stored under a name hands back the record it
      replaced and makes the lookup of that name return the edited one. */
  method AddThenEdit(c: ConnectionConfig, edited: ConnectionConfig)
    returns (replaced: Option<ConnectionConfig>, found: Option<ConnectionConfig>)
    requires edited.name == c.name
    ensures replaced == Some(c)
    ensures found == Some(edited)
  {
    var store := new InMemoryConnectionConfigConnector();
    var _ := store.AddConnectionConfig(c);
    replaced := store.EditConnectionConfig(edited);
    found := store.GetConnectionConfig(c.name);
  }
}
