/** The tag index: `TagList` (a set of entities under one tag) and `EntityTags` (the map
    from tag to `TagList`). */
module Tags {
  import opened Wrappers
  import opened Vecs
  import opened EntityId

  /** Why `expect_one` panics: the tag was never created, or it has `count` members, not 1. */
  datatype TagError = UnknownTag | NotExactlyOne(count: nat)

  lemma SingletonMembers(s: set<Entity>, x: Entity)
    requires |s| == 1 && x in s
    ensures s == {x}
  {
    var rest := s - {x};
    assert s == rest + {x} && x !in rest;
    assert |rest| == 0;
  }

  /** `TagList`: the entities carrying one tag, as a set. */
  datatype TagList = TagList(members: set<Entity>) {

    /** `add_entity`; adding a member again changes nothing. */
    function AddEntity(e: Entity): (r: TagList)
      ensures e in r.members && r.members - {e} == members - {e}
    {
      TagList(members + {e})
    }

    /** `remove_entity`; removing a non-member changes nothing. */
    function RemoveEntity(e: Entity): (r: TagList)
      ensures e !in r.members && r.members + {e} == members + {e}
    {
      TagList(members - {e})
    }

    /** `contains`: whether `e` carries the tag. */
    predicate Contains(e: Entity)
    {
      e in members
    }

    /** `contains` tracks `add_entity` and `remove_entity`: after adding `e` exactly `e` and
        the old members are contained, after removing `e` exactly the old members but `e`. */
    lemma ContainsAfterUpdate(e: Entity, x: Entity)
      ensures AddEntity(e).Contains(x) <==> x == e || Contains(x)
      ensures RemoveEntity(e).Contains(x) <==> x != e && Contains(x)
    {
    }

    /** `TagList::expect_one`: the one member, panicking unless there is exactly one. */
    function ExpectOne(): (r: Result<Entity, TagError>)
      ensures r.Ok? <==> |members| == 1
      ensures r.Ok? ==> members == {r.value}
      ensures r.Err? ==> r.error == NotExactlyOne(|members|)
    {
      if |members| == 1 then
        var e :| e in members;
        SingletonMembers(members, e);
        Ok(e)
      else Err(NotExactlyOne(|members|))
    }
  }

  type TagMap = map<string, TagList>

  /** The `TagList` stored for `t`, or the empty default that `entry().or_default()` makes. */
  function Lookup(m: TagMap, t: string): TagList
  {
    if t in m then m[t] else TagList({})
  }

  /** The effect of `add_tag(t, e)`. */
  function WithTag(m: TagMap, t: string, e: Entity): (r: TagMap)
    ensures r.Keys == m.Keys + {t}
    ensures Lookup(r, t).members == Lookup(m, t).members + {e}
    ensures forall t' :: t' in m && t' != t ==> r[t'] == m[t']
  {
    m[t := Lookup(m, t).AddEntity(e)]
  }

  /** The effect of `add_tags(ts, e)`: `add_tag` for each tag, in order. */
  function WithTags(m: TagMap, ts: seq<string>, e: Entity): TagMap
    decreases |ts|
  {
    if ts == [] then m else WithTags(WithTag(m, ts[0], e), ts[1..], e)
  }

  /** The effect of `remove_tag(t, e)`: only `t` loses `e`, and no tag appears or disappears,
      so an unknown tag is left alone and a tag whose set becomes empty is kept. */
  function WithoutTag(m: TagMap, t: string, e: Entity): (r: TagMap)
    ensures r.Keys == m.Keys
    ensures t in m ==> r[t].members == m[t].members - {e}
    ensures forall t' :: t' in m && t' != t ==> r[t'] == m[t']
  {
    if t in m then m[t := m[t].RemoveEntity(e)] else m
  }

  /** The effect of `remove_all_tags(e)`. */
  function WithoutEntity(m: TagMap, e: Entity): TagMap
  {
    map t | t in m :: m[t].RemoveEntity(e)
  }

  /** Adding a tag twice is adding it once. */
  lemma WithTagIdempotent(m: TagMap, t: string, e: Entity)
    ensures WithTag(WithTag(m, t, e), t, e) == WithTag(m, t, e)
  {
    var m1 := WithTag(m, t, e);
    assert Lookup(m1, t).members + {e} == Lookup(m1, t).members;
  }

  /** `count` after `add_tag` grows by one exactly when the entity was not yet a member. */
  lemma WithTagCount(m: TagMap, t: string, e: Entity)
    ensures |Lookup(WithTag(m, t, e), t).members| ==
            |Lookup(m, t).members| + (if e in Lookup(m, t).members then 0 else 1)
  {
    var s := Lookup(m, t).members;
    if e in s {
      assert s + {e} == s;
    } else {
      assert |s + {e}| == |s| + 1;
    }
  }

  /** A tag `add_tags` created or grew holds its old members plus `e`, exactly when it is
      among `ts`; tags not in `ts` are untouched. */
  lemma {:induction false} WithTagsMembers(m: TagMap, ts: seq<string>, e: Entity)
    decreases |ts|
    ensures WithTags(m, ts, e).Keys == m.Keys + (set t | t in ts)
    ensures forall t :: t in ts ==> Lookup(WithTags(m, ts, e), t).members == Lookup(m, t).members + {e}
    ensures forall t :: t in m && t !in ts ==> WithTags(m, ts, e)[t] == m[t]
  {
    if ts != [] {
      var m1 := WithTag(m, ts[0], e);
      WithTagsMembers(m1, ts[1..], e);
      assert forall t :: t in ts <==> t == ts[0] || t in ts[1..];
      forall t | t in ts
        ensures Lookup(WithTags(m, ts, e), t).members == Lookup(m, t).members + {e}
      {
        if t != ts[0] && t !in ts[1..] { assert false; }
      }
    }
  }

  /** Removing a tag from an entity that `add_tag` just gave it restores the index, except
      that a tag created by the add stays, now empty. */
  lemma WithTagThenWithout(m: TagMap, t: string, e: Entity)
    requires e !in Lookup(m, t).members
    ensures WithoutTag(WithTag(m, t, e), t, e) == m[t := Lookup(m, t)]
  {
    assert Lookup(m, t).members + {e} - {e} == Lookup(m, t).members;
  }

  /** After `remove_all_tags(e)` no tag holds `e`, every other membership is as before, and
      no tag disappears. */
  lemma WithoutEntityMembers(m: TagMap, e: Entity)
    ensures WithoutEntity(m, e).Keys == m.Keys
    ensures forall t :: t in m ==> e !in WithoutEntity(m, e)[t].members
    ensures forall t, x :: t in m && x != e ==> (x in WithoutEntity(m, e)[t].members <==> x in m[t].members)
  {
  }

  /** `get_entities_with_tag`: absent for a tag never created, otherwise a duplicate-free
      listing of exactly the tag's members (in an order this model leaves open). */
  ghost predicate ListsMembers(m: TagMap, t: string, r: Option<seq<Entity>>)
  {
    && (r.None? <==> t !in m)
    && (r.Some? ==> Distinct(r.value) && |r.value| == |m[t].members|
                    && forall x :: x in r.value <==> x in m[t].members)
  }

  /** The state of the tag index: one `TagList` per created tag. */
  class EntityTags {
    var tags: TagMap

    /** `EntityTags::new`. */
    constructor ()
      ensures tags == map[]
    {
      tags := map[];
    }

    /** `add_tag`: makes `e` a member of `t`, creating `t` if needed. */
    method AddTag(t: string, e: Entity)
      modifies this
      ensures tags == WithTag(old(tags), t, e)
    {
      tags := tags[t := Lookup(tags, t).AddEntity(e)];
    }

    /** `add_tags`: `add_tag(t, e)` for every `t` of `ts`, in order. */
    method AddTags(ts: seq<string>, e: Entity)
      modifies this
      ensures tags == WithTags(old(tags), ts, e)
    {
      var i := 0;
      while i < |ts|
        invariant 0 <= i <= |ts|
        invariant WithTags(old(tags), ts, e) == WithTags(tags, ts[i..], e)
      {
        assert ts[i..][1..] == ts[i + 1..];
        AddTag(ts[i], e);
        i := i + 1;
      }
    }

    /** `remove_tag`: drops `e` from `t`; an unknown tag is left alone and a tag whose set
        becomes empty is kept. */
    method RemoveTag(t: string, e: Entity)
      modifies this
      ensures tags == WithoutTag(old(tags), t, e)
    {
      if t in tags {
        tags := tags[t := tags[t].RemoveEntity(e)];
      }
    }

    /** `remove_all_tags`: `remove_tag(t, e)` for every tag `t` that exists. */
    method RemoveAllTags(e: Entity)
      modifies this
      ensures tags == WithoutEntity(old(tags), e)
    {
      var keys := tags.Keys;
      while keys != {}
        invariant tags.Keys == old(tags).Keys && keys <= tags.Keys
        invariant forall t :: t in tags && t !in keys ==> tags[t] == old(tags)[t].RemoveEntity(e)
        invariant forall t :: t in keys ==> tags[t] == old(tags)[t]
        decreases keys
      {
        var t :| t in keys;
        RemoveTag(t, e);
        keys := keys - {t};
      }
    }

    /** `get_entities_with_tag`: collects the tag's members into a list. */
    method GetEntitiesWithTag(t: string) returns (r: Option<seq<Entity>>)
      ensures ListsMembers(tags, t, r)
    {
      if t !in tags {
        return None;
      }
      var rest := tags[t].members;
      var out := [];
      while rest != {}
        invariant rest <= tags[t].members
        invariant forall x :: x in out <==> x in tags[t].members && x !in rest
        invariant Distinct(out)
        invariant |out| + |rest| == |tags[t].members|
        decreases rest
      {
        var x :| x in rest;
        out := out + [x];
        rest := rest - {x};
      }
      return Some(out);
    }

    /** `count`: 0 for an unknown tag, otherwise the size of its set. */
    function Count(t: string): (r: nat)
      reads this
      ensures t !in tags ==> r == 0
      ensures t in tags ==> r == |tags[t].members|
    {
      if t in tags then |tags[t].members| else 0
    }

    /** `EntityTags::expect_one`: the tag's one member; panics for an unknown tag or when the
        tag does not have exactly one member. */
    function ExpectOne(t: string): (r: Result<Entity, TagError>)
      reads this
      ensures r.Ok? <==> t in tags && |tags[t].members| == 1
      ensures r.Ok? ==> tags[t].members == {r.value}
      ensures t !in tags ==> r == Err(UnknownTag)
    {
      if t in tags then tags[t].ExpectOne() else Err(UnknownTag)
    }

    /** `want_one`: the tag's one member, or `None` (never a panic) when there is not
        exactly one. */
    function WantOne(t: string): (r: Option<Entity>)
      reads this
      ensures r.Some? <==> Count(t) == 1
      ensures r.Some? ==> tags[t].members == {r.value}
      ensures r.Some? <==> ExpectOne(t).Ok?
      ensures r.Some? ==> r.value == ExpectOne(t).value
    {
      if t in tags && |tags[t].members| == 1 then
        var e :| e in tags[t].members;
        SingletonMembers(tags[t].members, e);
        Some(e)
      else None
    }
  }

  /** The "player" scenario: one tagged entity is found by `expect_one`; once a second
      entity carries the tag, `expect_one` panics and `want_one` gives nothing. */
  method PlayerScenario() returns (first: Result<Entity, TagError>, second: Result<Entity, TagError>,
                                   wanted: Option<Entity>)
    ensures first == Ok(7)
    ensures second == Err(NotExactlyOne(2))
    ensures wanted == None
  {
    var tags := new EntityTags();
    tags.AddTag("player", 7);
    first := tags.ExpectOne("player");
    tags.AddTag("player", 8);
    assert tags.tags["player"].members == {7, 8};
    second := tags.ExpectOne("player");
    wanted := tags.WantOne("player");
  }
}
