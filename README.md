# sparse_ecs in Dafny

A verified model of the core of `sparse_ecs`, a sparse-set entity-component store written in Rust:

- **Entity handles** (`entity.dfy`, module `EntityId`). An entity is a plain integer. The module covers Szudzik's pairing function `combine_key`, proved injective and order-dependent, and the decimal `from_str` parse, proved to invert decimal printing.
- **The sparse-set component store** (`component.dfy`, module `Component`). `SparseSet<T>` is a class with three fields:
  - a fixed-capacity `sparse` index (an `array<Option<nat>>`);
  - the `dense` values;
  - the parallel `entities` column.

  Its invariant `Valid()` says the index and the rows point at each other. The abstract contents, an entity-to-value map, are read off the rows (`RowMap`). Its methods are proved against both:
  - `add_entity`;
  - `remove_entity`, the O(1) swap-remove with re-pointing of the moved row;
  - assignment through `get_mut`;
  - `iter_mut`.

  The read-only `get`, `has`, `len`, `iter` and `entities` are functions.
- **The tag index** (`tags.dfy`, module `Tags`). `TagList` is a value holding a set of entities. `EntityTags` is a class over a `map<string, TagList>`. Each mutating method equals a pure map transformer (`WithTag`, `WithTags`, `WithoutTag`, `WithoutEntity`), and the transformers' properties are stated in their contracts and in lemmas.
- **The world** (`world.dfy`, module `World`). It holds three things:
  - the entity allocator: live set, dead set and `next_entity_id`;
  - the registry from an abstract type key `K` (standing for `TypeId`) to a tagged union `SparseStore(store) | HashMapStore`, so a downcast becomes a variant match;
  - the multi-store fetch (`get_two_mut` .. `get_six_mut`, `FetchMut::fetch`).
- `vecs.dfy` holds `Vec::swap_remove` and the zip used by `iter`. `wrappers.dfy` holds `Option`, `Result` and `Outcome`.

A Rust panic is modelled as an error result and leaves the state unchanged. The panics are:
- an index out of the `sparse` bounds;
- `add_entity` on a present entity;
- `despawn` of a non-live entity;
- `expect_one`;
- overlapping keys given to `HashMap::get_disjoint_mut`.

The model follows the code:
- the stores keep no `added`/`removed` logs and have no `set` operation;
- `despawn` does not touch component stores, although its doc comment (src/world.rs:58) says it does;
- `spawn` reuses an arbitrary dead ID;
- a fetch of two or more types is absent when any requested type is registered with the hash-map backend, as well as when one is unregistered.

## Model

| member | source | states |
|---|---|---|
| EntityId.CombineKey | src/component.rs:19-23 | the key of (a, b) lies in [m², (m+1)²) for m = max(a, b), so the key determines the larger component |
| EntityId.CombineKeyInjective | src/component.rs:18-23 | equal keys imply equal pairs: the combined key is unique per ordered pair |
| EntityId.CombineKeyAsymmetric | src/component.rs:19-23 | for a ≠ b, combine(a, b) ≠ combine(b, a) |
| EntityId.CombineKeyRegression | src/component.rs:322-329 | combine(combine(1, 2), 1) ≠ combine(1, 2) |
| EntityId.FromStr | src/component.rs:26-33 | parsed values are at most usize::MAX; empty input and a leading '-' fail; every failure carries the one message |
| EntityId.ToDecimal | src/component.rs:26-33 | the rendering used for the round trip is a non-empty digit string without leading zeros |
| EntityId.DecimalValueOfToDecimal | src/component.rs:26-33 | the digits of n denote n |
| EntityId.FromStrRoundTrip | src/component.rs:26-33 | from_str(decimal(n)) = Ok(n) and from_str("+" + decimal(n)) = Ok(n) for every n ≤ usize::MAX |
| EntityId.FromStrRejectsOverflow | src/component.rs:26-33 | the decimal form of a number above usize::MAX is rejected, not wrapped |
| EntityId.FromStrLeadingZeros | src/component.rs:26-33 | "007" parses to 7 and a lone "+" is rejected |
| Vecs.SwapRemove | src/component.rs:76-78 | swap_remove shortens the vector by one |
| Vecs.SwapRemoveAt | src/component.rs:76-83 | positions other than i keep their element; position i receives the last element unless i was last |
| Vecs.SwapRemoveMultiset | src/component.rs:76-78 | swap_remove drops exactly one occurrence of the removed element |
| Vecs.SwapRemoveDistinct | src/component.rs:76-83 | on a duplicate-free vector the result is duplicate-free and holds every element except the removed one |
| Vecs.Zip | src/component.rs:116-122 | the zip of two equal-length columns pairs them position by position |
| Component.RowMapKeys | src/component.rs:35-45 | an entity has a value exactly when it owns a row |
| Component.RowMapAt | src/component.rs:35-45 | with distinct owners, each row's value is its owner's value |
| Component.RowMapSize | src/component.rs:112-114 | with distinct owners, the number of rows is the number of entities holding values |
| Component.RowMapAppend | src/component.rs:65-67 | appending a row adds exactly that entity's entry |
| Component.RowMapSwapRemove | src/component.rs:72-86 | swap-removing row i forgets exactly its owner, and the moved entity keeps its value |
| Component.MapRows | src/component.rs:124-130 | rewriting the rows keeps their number |
| Component.RowMapMapRows | src/component.rs:124-130 | rewriting every row through f rewrites every entity's value through f, with no entity gained or lost |
| Component.IndexValidDistinct | src/component.rs:35-45 | a consistent index implies no entity owns two rows |
| Component.IndexAfterAdd | src/component.rs:64-67 | pointing an empty slot at a new last row keeps index and rows consistent |
| Component.IndexRemoveValid | src/component.rs:75-83 | clearing the slot and re-pointing the moved entity keeps index and rows consistent after swap-remove |
| Component.SparseSet.ValidDistinct | src/component.rs:35-45 | a valid store has distinct owners |
| Component.SparseSet.constructor | src/component.rs:52-59 | a new store is valid and empty, has the given capacity and is dirty |
| Component.SparseSet.Get | src/component.rs:92-97 | out of bounds panics; otherwise Some(v) exactly when the entity's value in the contents is v, None when it has none |
| Component.SparseSet.Has | src/component.rs:107-109 | out of bounds panics; otherwise true exactly when the entity has a value |
| Component.SparseSet.Len | src/component.rs:112-114 | len is the number of entities holding a value |
| Component.SparseSet.Iter | src/component.rs:116-122 | the pairs (entities[i], dense[i]) in dense order; every entity with a value occurs exactly once, paired with its value |
| Component.SparseSet.Entities | src/component.rs:132-134 | the duplicate-free owners in dense order, exactly the entities holding values |
| Component.SparseSet.AddEntity | src/component.rs:61-69 | out of bounds or already present panics with nothing changed; otherwise the pair is the new last row, the slot points at it, contents gain exactly e ↦ data, the store stays valid and is dirty |
| Component.SparseSet.RemoveEntity | src/component.rs:71-89 | out of bounds panics; an absent entity gives None and changes nothing; a present one returns its value, both columns are swap-removed, the index is re-pointed, contents lose exactly e, the store stays valid |
| Component.SparseSet.AssignThroughGetMut | src/component.rs:98-104 | out of bounds panics; a present entity's row, and only it, takes the new value; an absent entity changes nothing |
| Component.SparseSet.IterMutApply | src/component.rs:124-130 | every value is rewritten in place; the index and the owners stay; each entity's new value is f of its old one |
| Component.AddRemoveScenario | src/component.rs:294-307 | remove(1) gives 2; the moved entity 2 still gets 3; removing 2 gives 3, and then get(2) is None |
| Component.MutationScenario | src/component.rs:309-321 | writing through get_mut(0) changes entity 0 only |
| Component.IterScenario | src/component.rs:280-292 | after iter_mut sets all values to 5, iter yields five rows, all 5 |
| Tags.SingletonMembers | src/tags.rs:24-34 | a set of size one is the singleton of any of its members |
| Tags.TagList.AddEntity | src/tags.rs:12-14 | the entity becomes a member and no other membership changes |
| Tags.TagList.RemoveEntity | src/tags.rs:16-18 | the entity stops being a member and no other membership changes |
| Tags.TagList.ContainsAfterUpdate | src/tags.rs:12-22 | `contains` after `add_entity(e)` holds for exactly e and the old members; after `remove_entity(e)` for exactly the old members other than e |
| Tags.TagList.ExpectOne | src/tags.rs:24-34 | Ok(e) exactly when the set is {e}; otherwise an error carrying the cardinality |
| Tags.WithTag | src/tags.rs:50-52 | the tag exists afterwards, holds its old members plus e, and other tags are untouched |
| Tags.WithoutTag | src/tags.rs:60-64 | only t loses e; the tag keys are unchanged, so an unknown tag is a no-op and an emptied tag is kept; other tags are untouched |
| Tags.WithTagIdempotent | src/tags.rs:12-14 | adding the same tag to the same entity twice is the same as once |
| Tags.WithTagCount | src/tags.rs:78-80 | count grows by one exactly when the entity was not yet tagged |
| Tags.WithTagsMembers | src/tags.rs:54-58 | after add_tags, the tags in the list hold their old members plus e, tags not in the list are untouched, and the tag keys grow by the list |
| Tags.WithTagThenWithout | src/tags.rs:60-64 | add then remove of a new member restores the tag's set and keeps the tag key |
| Tags.WithoutEntityMembers | src/tags.rs:66-70 | after remove_all_tags no tag holds e, all other memberships are unchanged, and no tag disappears |
| Tags.EntityTags.constructor | src/tags.rs:44-48 | a new index has no tags |
| Tags.EntityTags.AddTag | src/tags.rs:50-52 | the index becomes WithTag of the old index |
| Tags.EntityTags.AddTags | src/tags.rs:54-58 | the loop of add_tag calls yields WithTags of the old index |
| Tags.EntityTags.RemoveTag | src/tags.rs:60-64 | the index becomes WithoutTag of the old one: no-op on an unknown tag, key kept |
| Tags.EntityTags.RemoveAllTags | src/tags.rs:66-70 | the loop of remove_tag over all keys yields WithoutEntity of the old index |
| Tags.EntityTags.GetEntitiesWithTag | src/tags.rs:72-76 | None exactly for an unknown tag; otherwise a duplicate-free list of exactly the tag's members |
| Tags.EntityTags.Count | src/tags.rs:78-80 | 0 for an unknown tag, otherwise the size of its set |
| Tags.EntityTags.ExpectOne | src/tags.rs:82-88 | Ok(e) exactly when the tag exists and its set is {e}; an unknown tag panics |
| Tags.EntityTags.WantOne | src/tags.rs:90-100 | Some(e) exactly when the tag's set is {e}, otherwise None; agrees with expect_one wherever that succeeds |
| Tags.PlayerScenario | src/tags.rs:82-100 | one "player" gives expect_one = 7; with two, expect_one panics and want_one is None |
| World.AllOrNone | src/world.rs:217-223 | Some exactly when every slot is Some, holding the slots' values in order; never a partial result |
| World.World.constructor | src/world.rs:31-40 | a new world has no stores, no live or dead entities, counter 0, no tags |
| World.World.Spawn | src/world.rs:42-56 | a non-empty dead set yields one of its IDs, moved to live, with the counter unchanged; otherwise the counter is issued and advanced; the ID was not live; live and dead stay disjoint and below the counter |
| World.World.Despawn | src/world.rs:58-68 | a non-live entity panics with nothing changed; a live one moves from live to dead and loses every tag; stores and counter untouched |
| World.World.Add | src/world.rs:70-82 | false with nothing changed for a registered type; otherwise exactly one new empty SparseSet of the world's capacity is registered, it and its index are fresh and are exactly what the world's footprint gains, and get becomes Some |
| World.World.AddWithStorage | src/world.rs:84-100 | as add, with the registered store of the requested kind; a hash-map registration leaves the world's footprint unchanged |
| World.World.Get | src/world.rs:145-171 | Some(store) exactly when the type is registered, of either kind |
| World.World.GetSparse | src/world.rs:114-129 | Some exactly when the type is registered as a SparseSet, and that store is valid |
| World.World.GetHashmap | src/world.rs:131-143 | Some exactly when the type is registered as a HashMapSet |
| World.World.Iter | src/world.rs:102-105 | an unregistered type yields no rows; a SparseSet yields its iter |
| World.World.IterMut | src/world.rs:107-112 | every value of a registered SparseSet is rewritten through f; the world stays valid |
| World.World.GetManyMut | src/world.rs:176-202 | overlapping keys panic; otherwise slot i is the SparseSet registered for key i, or None, and the stores handed out are pairwise different objects |
| World.World.Fetch | src/world.rs:205-281 | one type: present exactly when registered, either kind; two to six: overlapping keys panic, else present exactly when every type is registered as a SparseSet, and then slot i is type i's store |
| World.FillAfterAddScenario | src/world.rs:70-82 | registering a type and then adding a row to its new store through get_mut keeps the world valid, and the store holds exactly that row |
| World.EntityIdReuse | src/world.rs:404-431 | spawn A, spawn B, despawn A, spawn C gives C = A and C ≠ B |
| World.RegisterScenario | src/world.rs:70-100 | two SparseSet types and one HashMapSet type end up registered with their kinds, and registering a type a second time reports false |
| World.FetchScenario | src/world.rs:210-223 | two SparseSet types fetch together; mixing in a HashMapSet type makes the fetch absent; fetched alone it is present |

## Left out

- src/resource.rs is not part of this model. It is lock-guarded singleton storage, built on `parking_lot` read/write locks and cross-thread access.
- The proc-macro crate (`sparse_ecs_macros`), `src/lib.rs` (module declarations) and the `examples/` programs (floating-point demo systems and printing) are not modelled.
- `HashMapSet` and the `ComponentStore` trait are not part of this model; their source is not available. A hash-map-backed registration is an opaque `HashMapStore` with no per-entity behaviour.
- World.World.Iter: for a type registered with the hash-map backend it returns `OpaqueRows`, weaker than the source, which iterates that store's rows. For a SparseSet-backed type it assumes that iterating through the `ComponentStore<T>` trait object (src/world.rs:104) yields `SparseSet::iter`'s rows. `World.World.IterMut` likewise assumes that `iter_mut` through `get_mut`'s trait object (src/world.rs:108-111) is `SparseSet::iter_mut`, so its contract leaves the store's `dirty` flag open. The trait's impl for `SparseSet` is not part of this model.
- World.World.Fetch: a fetched hash-map store is returned as the opaque variant, with no operations on it.
- `TypeId` and `Box<dyn Any>` are not modelled. Type keys are an abstract `K`, and every store of one world holds the same component type `T`. A downcast is a match on the store-kind variant.
- Lifetimes and the borrow checker are not modelled. Disjointness appears only in two places: the overlapping-keys panic and the pairwise-different stores that `GetManyMut` returns.
- Component.SparseSet.AssignThroughGetMut models `get_mut` only as an assignment through the returned reference. A reference held across other calls is not modelled.
- The `ComponentIter`/`ComponentIterMut` iterator structs and the `IntoIterator` impls are not modelled separately. They produce the same sequences as `Iter` and `IterMutApply`.
- The macros `ecs_and!`, `ecs_and_mut!` and `ecs_has!` are sugar over `get`, `get_mut` and `has`, and are not modelled. So is the `joining` test that uses them.
- EntityId.CombineKey: `usize` overflow of `a * a + a + b` is not modelled; arithmetic is unbounded.
- World.World.Spawn: overflow of `next_entity_id` is not modelled.
- `from_str` assumes a 64-bit `usize` (maximum 2^64 - 1).
- Hash-set and hash-map iteration order is not modelled. `spawn` may reuse any dead ID. `get_entities_with_tag` lists members in an unspecified order. `remove_all_tags` visits tags in any order, and the order does not matter to the result.
- The `dirty` flag is a public field. The model sets it where the source does. Clearing it is left to callers, as in the source.
- Panic messages are not modelled, except the one error string of `from_str`. Each panic is identified by an error constructor.
- TagList: the in-place `HashSet` update inside the tag map is modelled as replacing the map entry's value. Each `TagList` is owned by exactly one map entry, so no aliasing is lost.
