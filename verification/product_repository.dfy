/** The product repository as an immutable map from id to entity. */
module ProductRepository {
  import opened Sorting
  import opened ProductModel

  type Store = map<int, Product>

  /** Every entity is stored under its own id. */
  predicate WellKeyed(store: Store) {
    forall id :: id in store ==> store[id].id == id
  }

  /** save: an upsert keyed by the entity's id. */
  function Save(store: Store, product: Product): (s: Store)
    ensures WellKeyed(store) ==> WellKeyed(s)
    ensures s.Keys == store.Keys + {product.id}
    ensures s[product.id] == product
    ensures forall id :: id in store && id != product.id ==> s[id] == store[id]
  {
    store[product.id := product]
  }

  /** Strictly ascending ids, as an ORDER BY id over unique ids yields. */
  predicate InIdOrder(ps: seq<Product>) {
    forall i, j :: 0 <= i < j < |ps| ==> ps[i].id < ps[j].id
  }

  /** The stored entities of the given keys, in key order, skipping keys not stored. */
  function LookupAll(store: Store, keys: seq<int>): (ps: seq<Product>)
    ensures |ps| <= |keys|
    ensures |ps| == |keys| <==> forall i :: 0 <= i < |keys| ==> keys[i] in store
    ensures |ps| == |keys| ==> forall i :: 0 <= i < |keys| ==> ps[i] == store[keys[i]]
    decreases |keys|
  {
    if |keys| == 0 then []
    else if keys[0] in store then [store[keys[0]]] + LookupAll(store, keys[1..])
    else LookupAll(store, keys[1..])
  }

  lemma TailMembers(keys: seq<int>)
    requires |keys| > 0
    ensures forall x :: x in keys[1..] ==> x in keys
    ensures StrictlyIncreasing(keys) ==> StrictlyIncreasing(keys[1..])
    ensures StrictlyIncreasing(keys) ==> forall x :: x in keys[1..] ==> keys[0] < x
  {
    var tail := keys[1..];
    forall x | x in tail ensures x in keys && (StrictlyIncreasing(keys) ==> keys[0] < x) {
      var j :| 0 <= j < |tail| && tail[j] == x;
      assert keys[j + 1] == x;
    }
    if StrictlyIncreasing(keys) {
      forall i, j | 0 <= i < j < |tail| ensures tail[i] < tail[j] {
        assert tail[i] == keys[i + 1] && tail[j] == keys[j + 1];
      }
    }
  }

  /** Each entity found is the stored entity of one of the keys. */
  lemma {:induction false} LookupAllFindsStored(store: Store, keys: seq<int>)
    requires WellKeyed(store)
    ensures forall i :: 0 <= i < |LookupAll(store, keys)| ==>
      var p := LookupAll(store, keys)[i]; p.id in keys && p.id in store && store[p.id] == p
    decreases |keys|
  {
    if |keys| > 0 {
      var tail := keys[1..];
      LookupAllFindsStored(store, tail);
      TailMembers(keys);
      var rest := LookupAll(store, tail);
      var ps := LookupAll(store, keys);
      assert ps == if keys[0] in store then [store[keys[0]]] + rest else rest;
      assert forall i :: 0 <= i < |rest| ==> rest[i].id in tail && rest[i].id in store && store[rest[i].id] == rest[i];
      forall i | 0 <= i < |ps|
        ensures ps[i].id in keys && ps[i].id in store && store[ps[i].id] == ps[i]
      {
        var p := ps[i];
        if keys[0] in store && i == 0 {
          var k := keys[0];
          assert p == store[k];
          assert k in keys;
        } else {
          var j := if keys[0] in store then i - 1 else i;
          assert p == rest[j];
          var k := p.id;
          assert k in tail;
          assert k in keys;
        }
      }
    }
  }

  /** Each stored key is found. */
  lemma {:induction false} LookupAllMissesNothing(store: Store, keys: seq<int>)
    ensures forall k :: k in keys && k in store ==> store[k] in LookupAll(store, keys)
    decreases |keys|
  {
    if |keys| > 0 {
      LookupAllMissesNothing(store, keys[1..]);
      assert keys == [keys[0]] + keys[1..];
    }
  }

  /** Ascending keys give entities in ascending id order. */
  lemma {:induction false} LookupAllInIdOrder(store: Store, keys: seq<int>)
    requires WellKeyed(store) && StrictlyIncreasing(keys)
    ensures InIdOrder(LookupAll(store, keys))
    decreases |keys|
  {
    if |keys| > 0 {
      TailMembers(keys);
      LookupAllInIdOrder(store, keys[1..]);
      LookupAllFindsStored(store, keys[1..]);
      var rest := LookupAll(store, keys[1..]);
      if keys[0] in store {
        var ps := [store[keys[0]]] + rest;
        forall i, j | 0 <= i < j < |ps| ensures ps[i].id < ps[j].id {
          assert ps[j] == rest[j - 1];
          if i > 0 {
            assert ps[i] == rest[i - 1];
          } else {
            var k := rest[j - 1].id;
            assert k in keys[1..];
            assert keys[0] < k;
          }
        }
      }
    }
  }

  /** findAllByIdInOrderById: every stored entity whose id is among the
      requested ids, once each, in ascending id order. */
  function FindAllByIdInOrderById(store: Store, ids: seq<int>): (ps: seq<Product>)
    requires WellKeyed(store)
    ensures InIdOrder(ps)
    ensures forall i :: 0 <= i < |ps| ==> ps[i].id in ids && ps[i].id in store && store[ps[i].id] == ps[i]
    ensures forall id :: id in ids && id in store ==> store[id] in ps
  {
    var unique := DedupSorted(SortBy(ids, Identity));
    SortPreservesMembership(ids, Identity);
    assert forall x :: x in unique <==> x in ids;
    LookupAllFindsStored(store, unique);
    LookupAllMissesNothing(store, unique);
    LookupAllInIdOrder(store, unique);
    LookupAll(store, unique)
  }

  /** The lookup returns as many entities as there are requested ids exactly
      when the ids are pairwise different and all of them are stored. A
      repeated id therefore always makes the counts differ. */
  lemma FindAllCountMatchesIff(store: Store, ids: seq<int>)
    requires WellKeyed(store)
    ensures |FindAllByIdInOrderById(store, ids)| == |ids|
        <==> Distinct(ids) && forall i :: 0 <= i < |ids| ==> ids[i] in store
  {
    var sorted := SortBy(ids, Identity);
    var unique := DedupSorted(sorted);
    assert FindAllByIdInOrderById(store, ids) == LookupAll(store, unique);
    SortPreservesMembership(ids, Identity);
    DistinctIsPermutationInvariant(sorted, ids);
    SortedDistinctIffStrict(sorted);
    assert |unique| == |ids| <==> Distinct(ids);
    UniqueKeysStored(store, ids, unique);
  }

  lemma UniqueKeysStored(store: Store, ids: seq<int>, unique: seq<int>)
    requires forall x :: x in unique <==> x in ids
    ensures (forall i :: 0 <= i < |unique| ==> unique[i] in store)
        <==> (forall i :: 0 <= i < |ids| ==> ids[i] in store)
  {
    if forall i :: 0 <= i < |ids| ==> ids[i] in store {
      forall i | 0 <= i < |unique| ensures unique[i] in store {
        var x := unique[i];
        assert x in unique;
        assert x in ids;
        var k :| 0 <= k < |ids| && ids[k] == x;
      }
    }
    if forall i :: 0 <= i < |unique| ==> unique[i] in store {
      forall i | 0 <= i < |ids| ensures ids[i] in store {
        var x := ids[i];
        assert x in ids;
        assert x in unique;
        var k :| 0 <= k < |unique| && unique[k] == x;
      }
    }
  }
}
