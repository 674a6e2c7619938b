/** The world: the entity allocator, the type-keyed registry of component stores and the
    multi-store fetch, plus the tag index it owns. */
module World {
  import opened Wrappers
  import opened Vecs
  import opened EntityId
  import opened Component
  import Tags

  /** `ComponentStorageKind`: which backing store a component type is registered with. */
  datatype StorageKind = Sparse | HashMap

  /** A registered store after downcasting: a `SparseSet`, or a `HashMapSet`, whose
      per-entity behaviour lies outside this model. */
  datatype AnyStore<T> = SparseStore(store: SparseSet<T>) | HashMapStore {
    function Kind(): StorageKind
    {
      if SparseStore? then Sparse else HashMap
    }
  }

  /** Why a world operation panics. */
  datatype WorldError = NotLive(entity: Entity) | OverlappingKeys

  /** The rows `World::iter` yields: those of a `SparseSet`, or rows of a `HashMapSet` that
      this model does not describe. */
  datatype IterRows<T> = Rows(rows: seq<(Entity, T)>) | OpaqueRows

  /** `Some((a?, b?, ...))`: every slot's value, or nothing at all if any slot is empty. */
  function AllOrNone<X>(slots: seq<Option<X>>): (r: Option<seq<X>>)
    ensures r.Some? <==> forall i :: 0 <= i < |slots| ==> slots[i].Some?
    ensures r.Some? ==> |r.value| == |slots| && forall i :: 0 <= i < |slots| ==> r.value[i] == slots[i].value
  {
    if slots == [] then Some([])
    else match slots[0]
      case None => None
      case Some(x) =>
        match AllOrNone(slots[1..])
        case None => None
        case Some(rest) => Some([x] + rest)
  }

  /** `World<K, T>`: `K` stands for `TypeId`, and every store holds values of `T`. */
  class World<K(==), T> {
    const tags: Tags.EntityTags
    var stores: map<K, AnyStore<T>>
    var entities: set<Entity>
    var deadEntities: set<Entity>
    var nextEntityId: nat
    /** The capacity given to every `SparseSet` the world creates. */
    const size: nat
    /** The registered `SparseSet`s and their `sparse` arrays. */
    ghost var Repr: set<object>

    /** Live and dead IDs are disjoint and were all issued below the counter; every
        registered `SparseSet` is valid, and different types own different stores. */
    ghost predicate Valid()
      reads this, Repr
    {
      && entities !! deadEntities
      && (forall id :: id in entities ==> id < nextEntityId)
      && (forall id :: id in deadEntities ==> id < nextEntityId)
      && tags !in Repr
      && (forall k :: k in stores && stores[k].SparseStore? ==>
            stores[k].store in Repr && stores[k].store.sparse in Repr && stores[k].store.Valid())
      && (forall k1, k2 ::
            (k1 in stores && k2 in stores && k1 != k2 && stores[k1].SparseStore? && stores[k2].SparseStore?) ==>
              stores[k1].store != stores[k2].store && stores[k1].store.sparse != stores[k2].store.sparse)
    }

    /** `World::new(size)`. */
    constructor (size: nat)
      ensures Valid() && fresh(tags)
      ensures this.size == size && stores == map[] && entities == {} && deadEntities == {}
      ensures nextEntityId == 0 && tags.tags == map[] && Repr == {}
    {
      this.size := size;
      stores := map[];
      entities := {};
      deadEntities := {};
      nextEntityId := 0;
      tags := new Tags.EntityTags();
      Repr := {};
    }

    /** `spawn`: reuses some dead ID if there is one, otherwise issues the counter and
        advances it. The ID returned was not live. */
    method Spawn() returns (e: Entity)
      requires Valid()
      modifies this
      ensures Valid()
      ensures e !in old(entities)
      ensures entities == old(entities) + {e}
      ensures old(deadEntities) != {} ==>
                e in old(deadEntities) && deadEntities == old(deadEntities) - {e}
                && nextEntityId == old(nextEntityId)
      ensures old(deadEntities) == {} ==>
                e == old(nextEntityId) && deadEntities == {} && nextEntityId == old(nextEntityId) + 1
      ensures stores == old(stores) && Repr == old(Repr)
    {
      if deadEntities != {} {
        var deadId :| deadId in deadEntities;
        deadEntities := deadEntities - {deadId};
        entities := entities + {deadId};
        e := deadId;
      } else {
        entities := entities + {nextEntityId};
        e := nextEntityId;
        nextEntityId := nextEntityId + 1;
      }
    }

    /** `despawn`: moves a live entity to the dead set and strips it of every tag; panics on
        an entity that is not live. Component stores are not touched. */
    method Despawn(e: Entity) returns (r: Outcome<WorldError>)
      requires Valid()
      modifies this, tags
      ensures Valid()
      ensures r.Pass? <==> e in old(entities)
      ensures r.Fail? ==> r.error == NotLive(e) && unchanged(this) && unchanged(tags)
      ensures r.Pass? ==> && entities == old(entities) - {e}
                          && deadEntities == old(deadEntities) + {e}
                          && tags.tags == Tags.WithoutEntity(old(tags.tags), e)
      ensures stores == old(stores) && nextEntityId == old(nextEntityId) && Repr == old(Repr)
    {
      if e in entities {
        entities := entities - {e};
        deadEntities := deadEntities + {e};
        tags.RemoveAllTags(e);
        r := Pass;
      } else {
        r := Fail(NotLive(e));
      }
    }

    /** `add<T>`: registers a new empty `SparseSet` for `k`; a type already registered is
        reported with `false` and nothing changes. */
    method Add(k: K) returns (added: bool)
      requires Valid()
      modifies this
      ensures Valid()
      ensures added <==> k !in old(stores)
      ensures !added ==> stores == old(stores)
      ensures added ==> && stores.Keys == old(stores).Keys + {k}
                        && (forall k' :: k' in old(stores) ==> stores[k'] == old(stores)[k'])
                        && stores[k].SparseStore? && fresh(stores[k].store) && fresh(stores[k].store.sparse)
                        && stores[k].store.Contents() == map[] && stores[k].store.Capacity() == size
                        && Repr == old(Repr) + {stores[k].store, stores[k].store.sparse}
      ensures !added ==> Repr == old(Repr)
      ensures Get(k).Some?
      ensures entities == old(entities) && deadEntities == old(deadEntities)
      ensures nextEntityId == old(nextEntityId)
    {
      var store := new SparseSet<T>(size);
      if k in stores {
        return false;
      }
      stores := stores[k := SparseStore(store)];
      Repr := Repr + {store, store.sparse};
      added := true;
    }

    /** `add_with_storage<T>(kind)`: like `add`, with the backing store chosen by `kind`. */
    method AddWithStorage(k: K, kind: StorageKind) returns (added: bool)
      requires Valid()
      modifies this
      ensures Valid()
      ensures added <==> k !in old(stores)
      ensures !added ==> stores == old(stores)
      ensures added ==> && stores.Keys == old(stores).Keys + {k}
                        && (forall k' :: k' in old(stores) ==> stores[k'] == old(stores)[k'])
                        && stores[k].Kind() == kind
                        && (kind == Sparse ==> && fresh(stores[k].store) && fresh(stores[k].store.sparse)
                                               && stores[k].store.Contents() == map[]
                                               && stores[k].store.Capacity() == size
                                               && Repr == old(Repr) + {stores[k].store, stores[k].store.sparse})
      ensures (!added || kind == HashMap) ==> Repr == old(Repr)
      ensures Get(k).Some?
      ensures entities == old(entities) && deadEntities == old(deadEntities)
      ensures nextEntityId == old(nextEntityId)
    {
      if k in stores {
        return false;
      }
      match kind {
        case Sparse =>
          var store := new SparseSet<T>(size);
          stores := stores[k := SparseStore(store)];
          Repr := Repr + {store, store.sparse};
        case HashMap =>
          stores := stores[k := HashMapStore];
      }
      added := true;
    }

    /** `get` / `get_mut`: the store registered for `k`, whichever its kind; nothing for an
        unregistered type. */
    function Get(k: K): (r: Option<AnyStore<T>>)
      reads this
      ensures r.Some? <==> k in stores
      ensures r.Some? ==> r.value == stores[k]
    {
      if k in stores then Some(stores[k]) else None
    }

    /** `get_sparse` / `get_sparse_mut`: the store for `k` if it is registered as a
        `SparseSet`. */
    function GetSparse(k: K): (r: Option<SparseSet<T>>)
      requires Valid()
      reads this, Repr
      ensures r.Some? <==> k in stores && stores[k].Kind() == Sparse
      ensures r.Some? ==> r.value == stores[k].store && r.value.Valid()
    {
      if k in stores && stores[k].SparseStore? then Some(stores[k].store) else None
    }

    /** `get_hashmap` / `get_hashmap_mut`: the store for `k` if it is registered as a
        `HashMapSet`. */
    function GetHashmap(k: K): (r: Option<AnyStore<T>>)
      reads this
      ensures r.Some? <==> k in stores && stores[k].Kind() == HashMap
      ensures r.Some? ==> r.value == HashMapStore
    {
      if k in stores && stores[k].HashMapStore? then Some(HashMapStore) else None
    }

    /** `iter<T>`: the rows of the store for `k`, as `SparseSet::iter` gives them; an
        unregistered type yields no rows. */
    function Iter(k: K): (r: IterRows<T>)
      requires Valid()
      reads this, Repr
      ensures k !in stores ==> r == Rows([])
      ensures GetSparse(k).Some? ==> r == Rows(GetSparse(k).value.Iter())
      ensures GetHashmap(k).Some? ==> r == OpaqueRows
    {
      if k !in stores then Rows([])
      else match stores[k]
        case SparseStore(s) => Rows(s.Iter())
        case HashMapStore => OpaqueRows
    }

    /** `iter_mut<T>`, used as `for (e, v) in world.iter_mut() { *v = f(e, *v) }`: rewrites
        every row of the store for `k`; an unregistered type changes nothing. */
    method IterMut(k: K, f: (Entity, T) -> T)
      requires Valid()
      modifies if k in stores && stores[k].SparseStore? then {stores[k].store} else {}
      ensures Valid()
      ensures GetSparse(k).Some? ==>
                var s := GetSparse(k).value;
                && s.Contents().Keys == old(s.Contents()).Keys
                && forall e :: e in old(s.Contents()) ==> s.Contents()[e] == f(e, old(s.Contents())[e])
    {
      if k in stores {
        match stores[k] {
          case SparseStore(s) =>
            s.IterMutApply(f);
          case HashMapStore =>
        }
      }
    }

    /** `get_two_mut` .. `get_six_mut`: resolves all keys in one disjoint lookup, then
        downcasts each slot to a `SparseSet`. Overlapping keys make the lookup panic. The
        stores handed out are pairwise different objects. */
    method GetManyMut(keys: seq<K>) returns (r: Result<seq<Option<SparseSet<T>>>, WorldError>)
      requires Valid()
      requires 2 <= |keys| <= 6
      ensures r.Err? <==> !Distinct(keys)
      ensures r.Err? ==> r.error == OverlappingKeys
      ensures r.Ok? ==> |r.value| == |keys| && forall i :: 0 <= i < |keys| ==> r.value[i] == GetSparse(keys[i])
      ensures r.Ok? ==> forall i, j :: 0 <= i < j < |keys| && r.value[i].Some? && r.value[j].Some? ==>
                          r.value[i].value != r.value[j].value
    {
      if !Distinct(keys) {
        return Err(OverlappingKeys);
      }
      // get_disjoint_mut
      var slots: seq<Option<AnyStore<T>>> := [];
      var i := 0;
      while i < |keys|
        invariant 0 <= i <= |keys| && |slots| == i
        invariant forall j :: 0 <= j < i ==> slots[j] == Get(keys[j])
      {
        slots := slots + [if keys[i] in stores then Some(stores[keys[i]]) else None];
        i := i + 1;
      }
      // downcast each slot to a SparseSet, in key order
      var out: seq<Option<SparseSet<T>>> := [];
      i := 0;
      while i < |slots|
        invariant 0 <= i <= |slots| && |out| == i
        invariant forall j :: 0 <= j < i ==> out[j] == GetSparse(keys[j])
      {
        var next := match slots[i]
          case Some(SparseStore(s)) => Some(s)
          case _ => None;
        out := out + [next];
        i := i + 1;
      }
      return Ok(out);
    }

    /** `FetchMut::fetch` for one to six types: one type is fetched with `get_mut` and may be
        of either kind; several types are fetched with `get_N_mut` and are returned all
        together, or not at all when any of them is unregistered or not a `SparseSet`. */
    method Fetch(keys: seq<K>) returns (r: Result<Option<seq<AnyStore<T>>>, WorldError>)
      requires Valid()
      requires 1 <= |keys| <= 6
      ensures |keys| == 1 ==> r.Ok?
      ensures |keys| >= 2 ==> (r.Err? <==> !Distinct(keys))
      ensures r.Ok? ==> (r.value.Some? <==>
                forall i :: 0 <= i < |keys| ==> keys[i] in stores && (|keys| >= 2 ==> stores[keys[i]].Kind() == Sparse))
      ensures r.Ok? && r.value.Some? ==>
                |r.value.value| == |keys| && forall i :: 0 <= i < |keys| ==> r.value.value[i] == stores[keys[i]]
    {
      if |keys| == 1 {
        var s := Get(keys[0]);
        return Ok(if s.Some? then Some([s.value]) else None);
      }
      var slots := GetManyMut(keys);
      if slots.Err? {
        return Err(slots.error);
      }
      var all := AllOrNone(slots.value);
      if all.None? {
        return Ok(None);
      }
      var fetched := seq(|all.value|, i requires 0 <= i < |all.value| => SparseStore(all.value[i]));
      return Ok(Some(fetched));
    }
  }

  /** Registers a type, then gives entity 3 a component in the freshly registered store
      through `get_mut`: the world stays valid and the store holds exactly that row. */
  method FillAfterAddScenario() returns (world: World<int, int>)
    ensures world.Valid()
    ensures world.GetSparse(0).Some? && world.GetSparse(0).value.Contents() == map[3 := 10]
  {
    world := new World<int, int>(10);
    var added := world.Add(0);
    var store := world.stores[0].store;
    var r := store.AddEntity(10, 3);
    assert r == Pass && store.Contents() == map[3 := 10];
  }

  /** Spawn A, spawn B, despawn A, spawn C: C reuses A's ID and differs from B. */
  method EntityIdReuse() returns (a: Entity, b: Entity, c: Entity)
    ensures c == a && c != b
  {
    var world := new World<string, int>(5);
    a := world.Spawn();
    b := world.Spawn();
    var despawned := world.Despawn(a);
    c := world.Spawn();
  }

  /** Registers two `SparseSet` types and one `HashMapSet` type; registering a type a second
      time reports `false`. */
  method RegisterScenario() returns (world: World<int, int>, again: bool)
    ensures world.Valid() && !again
    ensures world.stores.Keys == {0, 1, 2}
    ensures world.stores[0].Kind() == Sparse && world.stores[1].Kind() == Sparse
    ensures world.stores[2] == HashMapStore
  {
    world := new World<int, int>(5);
    var added := world.Add(0);
    assert world.stores.Keys == {0} && world.stores[0].Kind() == Sparse;
    added := world.Add(1);
    assert world.stores.Keys == {0, 1} && world.stores[1].Kind() == Sparse;
    added := world.AddWithStorage(2, HashMap);
    assert world.stores.Keys == {0, 1, 2} && world.stores[2] == HashMapStore;
    again := world.Add(0);
  }

  /** Two `SparseSet` types are fetched together; adding a `HashMapSet` type to the request
      makes the whole fetch absent, while fetched alone it is present. */
  method FetchScenario() returns (two: Result<Option<seq<AnyStore<int>>>, WorldError>,
                                  mixed: Result<Option<seq<AnyStore<int>>>, WorldError>,
                                  single: Result<Option<seq<AnyStore<int>>>, WorldError>)
    ensures two.Ok? && two.value.Some? && |two.value.value| == 2
    ensures mixed == Ok(None)
    ensures single == Ok(Some([HashMapStore]))
  {
    var world, _ := RegisterScenario();
    two := world.Fetch([0, 1]);
    mixed := world.Fetch([0, 2]);
    assert [0, 2][1] == 2;
    single := world.Fetch([2]);
    assert single.Ok? && single.value.Some? && |single.value.value| == 1;
    assert single.value.value[0] == world.stores[2] == HashMapStore;
    assert single.value.value == [HashMapStore];
  }
}
