/**
 * One client's session: a data store partitioned by product instance, plus
 * the bookkeeping the registry keeps on it (token, last access, list element).
 */
module SessionStore {
  import opened Optional
  import opened LinkedList

  /** `map[string]SessionData`: partition name to data key to value. */
  type Partitions<V> = map<string, map<string, V>>

  /** The value stored under `key` in `partition`, if any. */
  function Lookup<V>(data: Partitions<V>, partition: string, key: string): (r: Option<V>)
    ensures r == None <==> partition !in data || key !in data[partition]
    ensures r != None ==> r == Some(data[partition][key])
  {
    if partition !in data then None
    else if key in data[partition] then Some(data[partition][key])
    else None
  }

  /** The store after `key` is bound to `value` in `partition`, creating the partition if needed. */
  function Put<V>(data: Partitions<V>, partition: string, key: string, value: V): (r: Partitions<V>)
    ensures r.Keys == data.Keys + {partition}
    ensures key in r[partition] && r[partition][key] == value
    ensures forall q :: q in data && q != partition ==> r[q] == data[q]
    ensures forall k :: k in r[partition] && k != key ==> partition in data && k in data[partition] && r[partition][k] == data[partition][k]
  {
    if partition !in data then data[partition := map[key := value]]
    else data[partition := data[partition][key := value]]
  }

  /** A write is read back; every other partition and key reads as before. */
  lemma LookupPut<V>(data: Partitions<V>, partition: string, key: string, value: V, q: string, k: string)
    ensures Lookup(Put(data, partition, key, value), q, k)
         == if q == partition && k == key then Some(value) else Lookup(data, q, k)
  {
  }

  /** A write into a partition that does not exist yet creates it holding that one entry. */
  lemma PutNewPartition<V>(data: Partitions<V>, partition: string, key: string, value: V)
    requires partition !in data
    ensures var r := Put(data, partition, key, value);
      r.Keys == data.Keys + {partition} && r[partition] == map[key := value]
      && forall q :: q in data ==> r[q] == data[q]
  {
  }

  class Session<V> {
    /** The partition that `Get` and `Set` work on, chosen per request. */
    var productInstance: string
    /** The session token. */
    const id: string
    var values: Partitions<V>
    /** The last access, as an instant (see `Expiry`). */
    var time: nat
    /** The element `SessionSet.Set` pushed for this session. */
    const element: Element

    constructor (id: string, now: nat, element: Element)
      ensures this.id == id && this.element == element
      ensures productInstance == "" && values == map[] && time == now
    {
      this.id := id;
      this.element := element;
      productInstance := "";
      values := map[];
      time := now;
    }

    /** The value stored under `key` in the current partition; `None` where Go returns `nil`. */
    function Get(key: string): (r: Option<V>)
      reads this
      ensures r == None <==> productInstance !in values || key !in values[productInstance]
      ensures r != None ==> r == Some(values[productInstance][key])
    {
      Lookup(values, productInstance, key)
    }

    /** Stores `value` under `key` in the current partition, creating the partition on first write. */
    method Set(key: string, value: V)
      modifies this`values
      ensures values == Put(old(values), productInstance, key, value)
      ensures Get(key) == Some(value)
      ensures forall k :: k != key ==> Get(k) == old(Get(k))
      ensures forall q :: q != productInstance && q in old(values) ==> q in values && values[q] == old(values[q])
    {
      if productInstance !in values {
        values := values[productInstance := map[key := value]];
        return;
      }
      var data := values[productInstance];
      data := data[key := value];
      values := values[productInstance := data];
    }
  }
}
