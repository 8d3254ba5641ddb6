/**
 * The `players` object of server.js: records keyed by socket id. A
 * JavaScript object visits its (non-numeric) keys in `for...in` in
 * insertion order; assigning to an existing key keeps its place, `delete`
 * drops it and leaves the other keys in their relative order, and a key
 * assigned again afterwards goes last.
 */
module PlayerRegistry {
  import opened Protocol
  import opened Sequences

  datatype Registry = Registry(order: seq<SocketId>, records: map<SocketId, Player>) {
    /** `order` lists every key exactly once. */
    ghost predicate Valid() {
      Distinct(order) && forall id :: id in order <==> id in records
    }
  }

  /** `let players = {}`. */
  const Empty: Registry := Registry([], map[])

  /** `players[id] = p`. */
  function Put(r: Registry, id: SocketId, p: Player): (r': Registry)
    requires r.Valid()
    ensures r'.Valid()
    ensures id in r'.records && r'.records[id] == p
    ensures forall k :: k != id ==> (k in r'.records <==> k in r.records)
    ensures forall k :: k != id && k in r.records ==> r'.records[k] == r.records[k]
    ensures r.order <= r'.order
    ensures |r'.order| == if id in r.records then |r.order| else |r.order| + 1
  {
    Registry(if id in r.records then r.order else r.order + [id], r.records[id := p])
  }

  /** `delete players[id]`. */
  function Delete(r: Registry, id: SocketId): (r': Registry)
    requires r.Valid()
    ensures r'.Valid()
    ensures id !in r'.records
    ensures forall k :: k != id ==> (k in r'.records <==> k in r.records)
    ensures forall k :: k in r'.records ==> r'.records[k] == r.records[k]
    ensures SubsequenceOf(r'.order, r.order)
  {
    RemoveAllIsSubsequence(r.order, {id});
    Registry(RemoveAll(r.order, {id}), r.records - {id})
  }

  /** Deleting a key that was just added restores the registry, order included. */
  lemma DeleteUndoesPut(r: Registry, id: SocketId, p: Player)
    requires r.Valid() && id !in r.records
    ensures Delete(Put(r, id, p), id) == r
  {
    RemoveAllAbsent(r.order, {id});
    assert (r.order + [id])[..|r.order|] == r.order;
    assert r.records[id := p] - {id} == r.records;
  }

  /** Two writes to one key: the second wins and the key keeps the first write's place. */
  lemma PutLastWriteWins(r: Registry, id: SocketId, p: Player, q: Player)
    requires r.Valid()
    ensures Put(Put(r, id, p), id, q) == Put(r, id, q)
  {
    assert r.records[id := p][id := q] == r.records[id := q];
  }
}
