/** The sparse-set component store: `SparseSet<T>` with its `sparse` index, its `dense`
    values and its parallel `entities` column. */
module Component {
  import opened Wrappers
  import opened Vecs
  import opened EntityId

  /** Why a store operation panics: the entity lies outside the `sparse` index, or
      `add_entity` found the entity already present. */
  datatype StoreError = OutOfBounds | AlreadyPresent

  // ---------------------------------------------------------------------------
  // The store's contents as a map, read off the dense rows

  /** The entity-to-value map that the rows `(ents[i], vals[i])` describe. */
  ghost function RowMap<T>(ents: seq<Entity>, vals: seq<T>): map<Entity, T>
    requires |ents| == |vals|
  {
    if ents == [] then map[]
    else RowMap(ents[..|ents| - 1], vals[..|vals| - 1])[ents[|ents| - 1] := vals[|vals| - 1]]
  }

  /** An entity has a value exactly when it owns some row. */
  lemma {:induction false} RowMapKeys<T>(ents: seq<Entity>, vals: seq<T>)
    requires |ents| == |vals|
    ensures forall e :: e in RowMap(ents, vals) <==> e in ents
  {
    if ents != [] {
      var n := |ents|;
      RowMapKeys(ents[..n - 1], vals[..n - 1]);
      assert ents == ents[..n - 1] + [ents[n - 1]];
    }
  }

  /** With no entity owning two rows, each row's value is its entity's value. */
  lemma {:induction false} RowMapAt<T>(ents: seq<Entity>, vals: seq<T>)
    requires |ents| == |vals| && Distinct(ents)
    ensures forall i :: 0 <= i < |ents| ==> ents[i] in RowMap(ents, vals) && RowMap(ents, vals)[ents[i]] == vals[i]
  {
    RowMapKeys(ents, vals);
    if ents != [] {
      var n := |ents|;
      RowMapAt(ents[..n - 1], vals[..n - 1]);
      forall i | 0 <= i < n - 1
        ensures RowMap(ents, vals)[ents[i]] == vals[i]
      {
        assert ents[i] == ents[..n - 1][i] && ents[i] != ents[n - 1];
      }
    }
  }

  /** One entry per row. */
  lemma {:induction false} RowMapSize<T>(ents: seq<Entity>, vals: seq<T>)
    requires |ents| == |vals| && Distinct(ents)
    ensures |RowMap(ents, vals)| == |ents|
  {
    if ents != [] {
      var n := |ents|;
      RowMapSize(ents[..n - 1], vals[..n - 1]);
      RowMapKeys(ents[..n - 1], vals[..n - 1]);
      assert ents[n - 1] !in ents[..n - 1];
    }
  }

  /** Appending a row for a new entity adds exactly that entry. */
  lemma RowMapAppend<T>(ents: seq<Entity>, vals: seq<T>, e: Entity, v: T)
    requires |ents| == |vals|
    ensures RowMap(ents + [e], vals + [v]) == RowMap(ents, vals)[e := v]
  {
    assert (ents + [e])[..|ents|] == ents;
    assert (vals + [v])[..|vals|] == vals;
  }

  /** Swap-removing row `i` forgets exactly the entity that owned it; in particular the
      entity moved from the last row keeps its value. */
  lemma RowMapSwapRemove<T>(ents: seq<Entity>, vals: seq<T>, i: nat)
    requires |ents| == |vals| && Distinct(ents) && i < |ents|
    ensures RowMap(SwapRemove(ents, i), SwapRemove(vals, i)) == RowMap(ents, vals) - {ents[i]}
  {
    var ents', vals' := SwapRemove(ents, i), SwapRemove(vals, i);
    var n := |ents|;
    SwapRemoveAt(ents, i);
    SwapRemoveAt(vals, i);
    SwapRemoveDistinct(ents, i);
    RowMapKeys(ents, vals);
    RowMapKeys(ents', vals');
    RowMapAt(ents, vals);
    RowMapAt(ents', vals');
    var m, m' := RowMap(ents, vals), RowMap(ents', vals');
    forall e | e in m'
      ensures e in m - {ents[i]} && m'[e] == m[e]
    {
      var j :| 0 <= j < n - 1 && ents'[j] == e;
      if j == i {
        assert ents'[j] == ents[n - 1] && vals'[j] == vals[n - 1];
      } else {
        assert ents'[j] == ents[j] && vals'[j] == vals[j];
      }
    }
    assert m'.Keys == (m - {ents[i]}).Keys;
  }

  /** The rows after `iter_mut` has applied `f` to every value. */
  function MapRows<T>(f: (Entity, T) -> T, ents: seq<Entity>, vals: seq<T>): (r: seq<T>)
    requires |ents| == |vals|
    ensures |r| == |vals|
  {
    seq(|vals|, i requires 0 <= i < |vals| => f(ents[i], vals[i]))
  }

  /** Rewriting every row through `f` rewrites every entity's value through `f`, and no
      entity gains or loses a value. */
  lemma {:induction false} RowMapMapRows<T>(f: (Entity, T) -> T, ents: seq<Entity>, vals: seq<T>)
    requires |ents| == |vals|
    ensures RowMap(ents, MapRows(f, ents, vals)).Keys == RowMap(ents, vals).Keys
    ensures forall e :: e in RowMap(ents, vals) ==> RowMap(ents, MapRows(f, ents, vals))[e] == f(e, RowMap(ents, vals)[e])
  {
    if ents != [] {
      var n := |ents|;
      assert MapRows(f, ents, vals)[..n - 1] == MapRows(f, ents[..n - 1], vals[..n - 1]);
      RowMapMapRows(f, ents[..n - 1], vals[..n - 1]);
    }
  }

  // ---------------------------------------------------------------------------
  // The sparse index

  /** Row `i` belongs to `ents[i]`, whose slot in `sp` holds `i`, and every filled slot of
      `sp` names a row owned by that slot's entity. */
  ghost predicate IndexValid(sp: seq<Option<nat>>, ents: seq<Entity>)
  {
    && (forall i :: 0 <= i < |ents| ==> ents[i] < |sp| && sp[ents[i]] == Some(i))
    && (forall e :: 0 <= e < |sp| && sp[e].Some? ==> sp[e].value < |ents| && ents[sp[e].value] == e)
  }

  lemma IndexValidDistinct(sp: seq<Option<nat>>, ents: seq<Entity>)
    requires IndexValid(sp, ents)
    ensures Distinct(ents)
  {
    forall i, j | 0 <= i < j < |ents|
      ensures ents[i] != ents[j]
    {
      assert sp[ents[i]] == Some(i) && sp[ents[j]] == Some(j);
    }
  }

  /** `add_entity` keeps the index consistent: an entity with an empty slot gets the new
      last row. */
  lemma IndexAfterAdd(sp: seq<Option<nat>>, ents: seq<Entity>, e: Entity)
    requires IndexValid(sp, ents) && e < |sp| && sp[e] == None
    ensures IndexValid(sp[e := Some(|ents|)], ents + [e])
  {
    var sp', ents' := sp[e := Some(|ents|)], ents + [e];
    forall i | 0 <= i < |ents'|
      ensures ents'[i] < |sp'| && sp'[ents'[i]] == Some(i)
    {
      if i < |ents| {
        assert ents'[i] == ents[i] && ents[i] != e;
      }
    }
  }

  /** The index after `remove_entity(e)`: `e`'s slot is emptied and, unless `e` owned the
      last row, the entity moved out of the last row is pointed at `e`'s old row. */
  function IndexAfterRemove(sp: seq<Option<nat>>, ents: seq<Entity>, e: Entity): seq<Option<nat>>
    requires IndexValid(sp, ents) && e < |sp| && sp[e].Some?
  {
    var idx, last := sp[e].value, |ents| - 1;
    if idx != last then sp[e := None][ents[last] := Some(idx)] else sp[e := None]
  }

  /** Swap-remove with the re-pointing step keeps the index consistent. This is the obligation
      that the re-pointing of the moved entity discharges. */
  lemma IndexRemoveValid(sp: seq<Option<nat>>, ents: seq<Entity>, e: Entity)
    requires IndexValid(sp, ents) && e < |sp| && sp[e].Some?
    ensures IndexValid(IndexAfterRemove(sp, ents, e), SwapRemove(ents, sp[e].value))
  {
    var idx, last := sp[e].value, |ents| - 1;
    var sp', ents' := IndexAfterRemove(sp, ents, e), SwapRemove(ents, idx);
    IndexValidDistinct(sp, ents);
    SwapRemoveAt(ents, idx);
    forall i | 0 <= i < |ents'|
      ensures ents'[i] < |sp'| && sp'[ents'[i]] == Some(i)
    {
      if i == idx {
        assert ents'[i] == ents[last] && ents[last] != e;
      } else {
        assert ents'[i] == ents[i] && ents[i] != e && ents[i] != ents[last];
      }
    }
    forall x | 0 <= x < |sp'| && sp'[x].Some?
      ensures sp'[x].value < |ents'| && ents'[sp'[x].value] == x
    {
      if x == e {
        assert false;
      } else if idx != last && x == ents[last] {
        assert sp'[x] == Some(idx);
      } else {
        assert sp'[x] == sp[x];
        var j := sp[x].value;
        assert ents[j] == x && j != idx;
      }
    }
  }

  // ---------------------------------------------------------------------------
  // SparseSet

  class SparseSet<T> {
    /** `sparse[e]` is the row of entity `e`, if any; its length is the fixed capacity. */
    const sparse: array<Option<nat>>
    var dense: seq<T>
    var entities: seq<Entity>
    /** Set by every change of membership; the repository never clears it itself. */
    var dirty: bool

    /** The two columns have one entry per row, and the index and the rows point at each
        other. */
    ghost predicate Valid()
      reads this, sparse
    {
      |dense| == |entities| && IndexValid(sparse[..], entities)
    }

    /** Each entity owns at most one row. */
    lemma ValidDistinct()
      requires Valid()
      ensures Distinct(entities)
    {
      IndexValidDistinct(sparse[..], entities);
    }

    function Capacity(): nat
    {
      sparse.Length
    }

    /** The component value of each entity that has one. */
    ghost function Contents(): map<Entity, T>
      reads this
      requires |dense| == |entities|
    {
      RowMap(entities, dense)
    }

    /** `SparseSet::new(capacity)`. */
    constructor (capacity: nat)
      ensures Valid() && fresh(sparse)
      ensures Capacity() == capacity && dense == [] && entities == [] && dirty
      ensures Contents() == map[]
    {
      sparse := new Option<nat>[capacity](_ => None);
      dense := [];
      entities := [];
      dirty := true;
    }

    /** `get`: the entity's value through the `sparse` index; an entity outside the index
        panics. */
    function Get(e: Entity): (r: Result<Option<T>, StoreError>)
      requires Valid()
      reads this, sparse
      ensures r.Err? <==> e >= Capacity()
      ensures r.Err? ==> r.error == OutOfBounds
      ensures r.Ok? ==> (r.value.Some? <==> e in Contents())
      ensures r.Ok? && r.value.Some? ==> r.value.value == Contents()[e]
    {
      ValidDistinct();
      RowMapKeys(entities, dense);
      RowMapAt(entities, dense);
      if e >= sparse.Length then Err(OutOfBounds)
      else match sparse[e]
        case Some(idx) => Ok(Some(dense[idx]))
        case None => Ok(None)
    }

    /** `has`: whether the entity has a value; an entity outside the index panics. */
    function Has(e: Entity): (r: Result<bool, StoreError>)
      requires Valid()
      reads this, sparse
      ensures r.Err? <==> e >= Capacity()
      ensures r.Ok? ==> (r.value <==> e in Contents())
    {
      RowMapKeys(entities, dense);
      if e >= sparse.Length then Err(OutOfBounds) else Ok(sparse[e].Some?)
    }

    /** `len`: the number of rows, which is the number of entities holding a value. */
    function Len(): (r: nat)
      requires Valid()
      reads this, sparse
      ensures r == |Contents()|
    {
      ValidDistinct();
      RowMapSize(entities, dense);
      |dense|
    }

    /** `iter`: the rows zipped with their owners, in dense order. Each entity with a value
        occurs exactly once, paired with its value. */
    function Iter(): (r: seq<(Entity, T)>)
      requires Valid()
      reads this, sparse
      ensures |r| == |entities| == |Contents()|
      ensures forall i :: 0 <= i < |r| ==> r[i] == (entities[i], dense[i])
      ensures forall i :: 0 <= i < |r| ==> r[i].0 in Contents() && Contents()[r[i].0] == r[i].1
      ensures forall i, j :: 0 <= i < j < |r| ==> r[i].0 != r[j].0
      ensures forall e :: e in Contents() ==> exists i :: 0 <= i < |r| && r[i].0 == e
    {
      ValidDistinct();
      RowMapKeys(entities, dense);
      RowMapAt(entities, dense);
      RowMapSize(entities, dense);
      Zip(entities, dense)
    }

    /** `entities`: the owners of the rows, in dense order. */
    function Entities(): (r: seq<Entity>)
      requires Valid()
      reads this, sparse
      ensures Distinct(r)
      ensures forall e :: e in r <==> e in Contents()
      ensures |r| == |Iter()| && forall i :: 0 <= i < |r| ==> r[i] == Iter()[i].0
    {
      ValidDistinct();
      RowMapKeys(entities, dense);
      entities
    }

    /** `add_entity`: appends `(e, data)` as the last row and points `sparse[e]` at it.
        Panics if `e` is outside the index or already has a value. */
    method AddEntity(data: T, e: Entity) returns (r: Outcome<StoreError>)
      requires Valid()
      modifies this, sparse
      ensures Valid()
      ensures r == if e >= Capacity() then Fail(OutOfBounds)
                   else if e in old(Contents()) then Fail(AlreadyPresent)
                   else Pass
      ensures r.Fail? ==> unchanged(this) && unchanged(sparse)
      ensures r.Pass? ==> && dense == old(dense) + [data]
                          && entities == old(entities) + [e]
                          && sparse[..] == old(sparse[..])[e := Some(old(|dense|))]
                          && dirty
      ensures r.Pass? ==> Contents() == old(Contents())[e := data]
    {
      RowMapKeys(entities, dense);
      if e >= sparse.Length {
        return Fail(OutOfBounds);
      }
      if sparse[e] != None {
        return Fail(AlreadyPresent);
      }
      assert e !in entities;
      IndexAfterAdd(sparse[..], entities, e);
      RowMapAppend(entities, dense, e, data);
      sparse[e] := Some(|dense|);
      dense := dense + [data];
      entities := entities + [e];
      dirty := true;
      r := Pass;
    }

    /** `remove_entity`: swap-removes the entity's row, re-points the entity moved from the
        last row, and returns the removed value. An absent entity gives `None` and changes
        nothing; an entity outside the index panics. */
    method RemoveEntity(e: Entity) returns (r: Result<Option<T>, StoreError>)
      requires Valid()
      modifies this, sparse
      ensures Valid()
      ensures r.Err? <==> e >= Capacity()
      ensures r.Err? ==> r.error == OutOfBounds
      ensures r.Ok? ==> (r.value.Some? <==> e in old(Contents())) && (r.value.Some? <==> old(sparse[e]).Some?)
      ensures r.Ok? && r.value.Some? ==> r.value.value == old(Contents())[e]
      ensures !(r.Ok? && r.value.Some?) ==> unchanged(this) && unchanged(sparse)
      ensures r.Ok? && r.value.Some? ==>
                && var idx := old(sparse[e]).value;
                && entities == SwapRemove(old(entities), idx)
                && dense == SwapRemove(old(dense), idx)
                && sparse[..] == IndexAfterRemove(old(sparse[..]), old(entities), e)
                && dirty
      ensures r.Ok? && r.value.Some? ==> Contents() == old(Contents()) - {e}
    {
      ValidDistinct();
      RowMapKeys(entities, dense);
      RowMapAt(entities, dense);
      if e >= sparse.Length {
        return Err(OutOfBounds);
      }
      match sparse[e] {
        case None =>
          return Ok(None);
        case Some(idx) =>
          ghost var sp0, ents0 := sparse[..], entities;
          IndexRemoveValid(sp0, ents0, e);
          RowMapSwapRemove(entities, dense, idx);
          SwapRemoveAt(entities, idx);
          sparse[e] := None;
          assert sparse[..] == sp0[e := None];
          var last := |dense| - 1;
          entities := SwapRemove(entities, idx);
          var removed := dense[idx];
          dense := SwapRemove(dense, idx);
          if idx != last {
            var moved := entities[idx];
            assert moved == ents0[last];
            sparse[moved] := Some(idx);
            assert sparse[..] == sp0[e := None][moved := Some(idx)];
          }
          dirty := true;
          return Ok(Some(removed));
      }
    }

    /** `*get_mut(e) = v`: overwrites the entity's value in its row; an absent entity
        changes nothing, and an entity outside the index panics. */
    method AssignThroughGetMut(e: Entity, v: T) returns (r: Result<bool, StoreError>)
      requires Valid()
      modifies this`dense
      ensures Valid()
      ensures r.Err? <==> e >= Capacity()
      ensures r.Ok? ==> (r.value <==> e in old(Contents())) && (r.value <==> sparse[e].Some?)
      ensures r.Ok? && r.value ==> dense == old(dense)[sparse[e].value := v]
      ensures !(r.Ok? && r.value) ==> dense == old(dense)
      ensures r.Ok? && r.value ==> Contents() == old(Contents())[e := v]
    {
      ValidDistinct();
      RowMapKeys(entities, dense);
      if e >= sparse.Length {
        return Err(OutOfBounds);
      }
      match sparse[e] {
        case None =>
          return Ok(false);
        case Some(idx) =>
          ghost var m := Contents();
          RowMapAt(entities, dense);
          dense := dense[idx := v];
          RowMapAt(entities, dense);
          RowMapKeys(entities, dense);
          assert Contents() == m[e := v] by {
            forall x | x in Contents() ensures x in m[e := v] && Contents()[x] == m[e := v][x] {
              var i :| 0 <= i < |entities| && entities[i] == x;
            }
          }
          return Ok(true);
      }
    }

    /** `for (e, data) in iter_mut() { *data = f(e, *data) }`: rewrites every row in place
        and leaves the index and the owners alone. */
    method IterMutApply(f: (Entity, T) -> T)
      requires Valid()
      modifies this`dense
      ensures Valid()
      ensures dense == MapRows(f, old(entities), old(dense))
      ensures Contents().Keys == old(Contents()).Keys
      ensures forall e :: e in old(Contents()) ==> Contents()[e] == f(e, old(Contents())[e])
    {
      var i := 0;
      while i < |dense|
        invariant 0 <= i <= |dense| == |old(dense)| == |entities|
        invariant forall j :: 0 <= j < i ==> dense[j] == f(entities[j], old(dense)[j])
        invariant forall j :: i <= j < |dense| ==> dense[j] == old(dense)[j]
      {
        dense := dense[i := f(entities[i], dense[i])];
        i := i + 1;
      }
      RowMapMapRows(f, entities, old(dense));
    }
  }

  /** The add/remove test: removing the middle of three rows moves entity 2 into row 1,
      where it still finds its value; removing it again afterwards empties its slot. */
  method AddRemoveScenario() returns (removed: Result<Option<nat>, StoreError>, moved: Result<Option<nat>, StoreError>,
                                      removedMoved: Result<Option<nat>, StoreError>, gone: Result<Option<nat>, StoreError>)
    ensures removed == Ok(Some(2)) && moved == Ok(Some(3))
    ensures removedMoved == Ok(Some(3)) && gone == Ok(None)
  {
    var c := new SparseSet<nat>(3);
    var added := c.AddEntity(1, 0);
    added := c.AddEntity(2, 1);
    added := c.AddEntity(3, 2);
    removed := c.RemoveEntity(1);
    moved := c.Get(2);
    removedMoved := c.RemoveEntity(2);
    gone := c.Get(2);
  }

  /** The mutation test: writing through `get_mut` changes only the targeted entity. */
  method MutationScenario() returns (first: Result<Option<nat>, StoreError>, second: Result<Option<nat>, StoreError>)
    ensures first == Ok(Some(6)) && second == Ok(Some(5))
  {
    var c := new SparseSet<nat>(5);
    var added := c.AddEntity(10, 0);
    added := c.AddEntity(5, 1);
    var found := c.AssignThroughGetMut(0, 6);
    first := c.Get(0);
    second := c.Get(1);
  }

  /** The iteration test: after `iter_mut` sets every value to 5, `iter` sees only 5s. */
  method IterScenario() returns (rows: seq<(Entity, nat)>)
    ensures |rows| == 5
    ensures forall i :: 0 <= i < |rows| ==> rows[i].1 == 5
  {
    var c := new SparseSet<nat>(5);
    var i := 0;
    while i < 5
      invariant 0 <= i <= 5
      invariant c.Valid() && c.Capacity() == 5 && fresh(c.sparse)
      invariant forall e :: i <= e < 5 ==> e !in c.Contents()
      invariant |c.entities| == i
    {
      ghost var before := c.Contents();
      var added := c.AddEntity(i, i);
      assert added == Pass && c.Contents() == before[i := i];
      i := i + 1;
    }
    c.IterMutApply((e, d) => 5);
    rows := c.Iter();
  }
}
