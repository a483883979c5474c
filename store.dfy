/** The store of loaded collisions (Collision.collisions and
    Collision.addFromJSON) and the filter that selects collisions by year, type
    and victim sex and groups them by intersection (filterData). Both revisions
    of the page share this code. */
module Store {
  import opened Wrappers
  import opened Sequences
  import opened Records

  /** The records built from `data`, in order. */
  function ConvertAll<J, D>(data: seq<J>, construct: J -> Collision<D>): seq<Collision<D>>
  {
    seq(|data|, i requires 0 <= i < |data| => construct(data[i]))
  }

  /** Collision.collisions: every loaded record, in load order. It is
      undefined (None) until the first load. */
  class CollisionStore<D> {
    var collisions: Option<seq<Collision<D>>>

    constructor ()
      ensures collisions == None
    {
      collisions := None;
    }

    function Loaded(): seq<Collision<D>>
      reads this
    {
      collisions.GetOr([])
    }

    /** Collision.addFromJSON: defines the store when it is undefined, then
        appends one record per element of `data`, in order, after the ones
        already there. `construct` is the revision's Collision constructor. */
    method AddFromJson<J>(data: seq<J>, construct: J -> Collision<D>)
      modifies this
      ensures collisions.Some?
      ensures collisions.value == old(Loaded()) + ConvertAll(data, construct)
      ensures |collisions.value| == |old(Loaded())| + |data|
      ensures collisions.value[..|old(Loaded())|] == old(Loaded())
    {
      ghost var before := Loaded();
      if collisions.None? {
        collisions := Some([]);
      }
      assert ConvertAll(data[..0], construct) == [] && before + [] == before;
      var i := 0;
      while i < |data|
        invariant 0 <= i <= |data|
        invariant collisions == Some(before + ConvertAll(data[..i], construct))
      {
        assert ConvertAll(data[..i + 1], construct) == ConvertAll(data[..i], construct) + [construct(data[i])];
        collisions := Some(collisions.value + [construct(data[i])]);
        assert collisions.value == before + (ConvertAll(data[..i], construct) + [construct(data[i])]);
        i := i + 1;
      }
      assert data[..i] == data;
    }
  }

  predicate HasVictimOfSex<D>(c: Collision<D>, sexes: seq<string>)
  {
    exists v :: 0 <= v < |c.victims| && c.victims[v].sex in sexes
  }

  /** The test filterData applies to one collision. */
  predicate Passes<D>(c: Collision<D>, years: seq<int>, sexes: seq<string>, types: seq<string>)
  {
    c.year in years && c.collisionType in types && HasVictimOfSex(c, sexes)
  }

  /** The collisions that pass the filter, in store order. */
  function Selected<D>(cs: seq<Collision<D>>, years: seq<int>, sexes: seq<string>, types: seq<string>)
    : (r: seq<Collision<D>>)
    ensures |r| <= |cs|
    ensures forall k :: 0 <= k < |r| ==> Passes(r[k], years, sexes, types)
  {
    if cs == [] then []
    else
      var c := cs[|cs| - 1];
      Selected(cs[..|cs| - 1], years, sexes, types) + (if Passes(c, years, sexes, types) then [c] else [])
  }

  function Intersections<D>(cs: seq<Collision<D>>): seq<string>
  {
    seq(|cs|, k requires 0 <= k < |cs| => cs[k].intersection)
  }

  /** The collisions of `cs` at intersection `name`, in the order of `cs`. */
  function AtIntersection<D>(cs: seq<Collision<D>>, name: string): (r: seq<Collision<D>>)
    ensures |r| <= |cs|
    ensures forall k :: 0 <= k < |r| ==> r[k].intersection == name
  {
    if cs == [] then []
    else
      var c := cs[|cs| - 1];
      AtIntersection(cs[..|cs| - 1], name) + (if c.intersection == name then [c] else [])
  }

  /** What filterData returns for the selected collisions: one group per
      intersection, groups in order of the intersection's first appearance. */
  function GroupByIntersection<D>(cs: seq<Collision<D>>): seq<seq<Collision<D>>>
  {
    var names := Distinct(Intersections(cs));
    seq(|names|, i requires 0 <= i < |names| => AtIntersection(cs, names[i]))
  }

  function GroupSizes<D>(groups: seq<seq<Collision<D>>>): seq<nat>
  {
    seq(|groups|, i requires 0 <= i < |groups| => |groups[i]|)
  }

  lemma SelectedAppend<D>(cs: seq<Collision<D>>, c: Collision<D>, years: seq<int>, sexes: seq<string>, types: seq<string>)
    ensures Selected(cs + [c], years, sexes, types) ==
      Selected(cs, years, sexes, types) + (if Passes(c, years, sexes, types) then [c] else [])
  {
    assert (cs + [c])[..|cs|] == cs;
  }

  lemma SelectedStep<D>(cs: seq<Collision<D>>, i: nat, years: seq<int>, sexes: seq<string>, types: seq<string>)
    requires i < |cs|
    ensures Selected(cs[..i + 1], years, sexes, types) ==
      Selected(cs[..i], years, sexes, types) + (if Passes(cs[i], years, sexes, types) then [cs[i]] else [])
  {
    assert cs[..i + 1] == cs[..i] + [cs[i]];
    SelectedAppend(cs[..i], cs[i], years, sexes, types);
  }

  lemma AtIntersectionAppend<D>(cs: seq<Collision<D>>, c: Collision<D>, name: string)
    ensures AtIntersection(cs + [c], name) ==
      AtIntersection(cs, name) + (if c.intersection == name then [c] else [])
  {
    assert (cs + [c])[..|cs|] == cs;
  }

  lemma {:induction false} AtIntersectionMember<D>(cs: seq<Collision<D>>, name: string, c: Collision<D>)
    ensures c in AtIntersection(cs, name) <==> c in cs && c.intersection == name
    decreases |cs|
  {
    if cs != [] {
      var n := |cs| - 1;
      AtIntersectionMember(cs[..n], name, c);
      assert cs == cs[..n] + [cs[n]];
    }
  }

  lemma {:induction false} AtUnseenIntersection<D>(cs: seq<Collision<D>>, name: string)
    requires name !in Intersections(cs)
    ensures AtIntersection(cs, name) == []
    decreases |cs|
  {
    if cs != [] {
      var n := |cs| - 1;
      assert Intersections(cs)[n] == cs[n].intersection;
      assert Intersections(cs[..n]) == Intersections(cs)[..n];
      AtUnseenIntersection(cs[..n], name);
    }
  }

  /** Adding one collision adds it to the group of its own intersection and
      to no other. */
  lemma GroupByAppendPointwise<D>(cs: seq<Collision<D>>, c: Collision<D>)
    ensures var names := Distinct(Intersections(cs));
      && |GroupByIntersection(cs + [c])| >= |names|
      && forall i :: 0 <= i < |names| ==>
        GroupByIntersection(cs + [c])[i] ==
          GroupByIntersection(cs)[i] + (if names[i] == c.intersection then [c] else [])
  {
    var names := Distinct(Intersections(cs));
    assert Intersections(cs + [c]) == Intersections(cs) + [c.intersection];
    DistinctAppend(Intersections(cs), c.intersection);
    forall i | 0 <= i < |names|
      ensures GroupByIntersection(cs + [c])[i] ==
        GroupByIntersection(cs)[i] + (if names[i] == c.intersection then [c] else [])
    {
      AtIntersectionAppend(cs, c, names[i]);
    }
  }

  /** A collision at an intersection already seen joins that group. */
  lemma GroupByAppendSeen<D>(cs: seq<Collision<D>>, c: Collision<D>)
    requires c.intersection in Distinct(Intersections(cs))
    ensures var at := FirstIndex(Distinct(Intersections(cs)), c.intersection);
      GroupByIntersection(cs + [c]) ==
        GroupByIntersection(cs)[at := GroupByIntersection(cs)[at] + [c]]
  {
    var names := Distinct(Intersections(cs));
    var groups := GroupByIntersection(cs);
    var after := GroupByIntersection(cs + [c]);
    var at := FirstIndex(names, c.intersection);
    assert Intersections(cs + [c]) == Intersections(cs) + [c.intersection];
    DistinctAppend(Intersections(cs), c.intersection);
    DistinctIsDeduplication(Intersections(cs));
    GroupByAppendPointwise(cs, c);
    assert |after| == |groups|;
    var expected := groups[at := groups[at] + [c]];
    forall i | 0 <= i < |names| ensures after[i] == expected[i] {
      if i > at {
        assert names[at] != names[i];
      }
    }
    assert after == expected;
  }

  /** A collision at a new intersection opens a group at the end. */
  lemma GroupByAppendNew<D>(cs: seq<Collision<D>>, c: Collision<D>)
    requires c.intersection !in Distinct(Intersections(cs))
    ensures GroupByIntersection(cs + [c]) == GroupByIntersection(cs) + [[c]]
  {
    var names := Distinct(Intersections(cs));
    var groups := GroupByIntersection(cs);
    var after := GroupByIntersection(cs + [c]);
    var n := c.intersection;
    assert Intersections(cs + [c]) == Intersections(cs) + [n];
    DistinctAppend(Intersections(cs), n);
    DistinctMember(Intersections(cs), n);
    AtUnseenIntersection(cs, n);
    AtIntersectionAppend(cs, c, n);
    GroupByAppendPointwise(cs, c);
    var names' := names + [n];
    assert Distinct(Intersections(cs + [c])) == names';
    assert |after| == |names'|;
    assert after[|names|] == AtIntersection(cs + [c], n);
    var expected := groups + [[c]];
    forall i | 0 <= i < |names'| ensures after[i] == expected[i] {
      if i < |names| {
        assert names[i] in names;
      }
    }
    assert after == expected;
  }

  /** A collision is selected exactly when it is in the store and passes all
      three tests; so a collision without victims is never selected. */
  lemma {:induction false} SelectedMember<D>(
    cs: seq<Collision<D>>, years: seq<int>, sexes: seq<string>, types: seq<string>, c: Collision<D>)
    ensures c in Selected(cs, years, sexes, types) <==>
      c in cs && c.year in years && c.collisionType in types &&
      exists v :: 0 <= v < |c.victims| && c.victims[v].sex in sexes
    ensures c.victims == [] ==> c !in Selected(cs, years, sexes, types)
    decreases |cs|
  {
    if cs != [] {
      var n := |cs| - 1;
      SelectedMember(cs[..n], years, sexes, types, c);
      assert cs == cs[..n] + [cs[n]];
    }
  }

  /** Every group is non-empty, holds only collisions of one intersection, and
      no two groups share an intersection. */
  lemma GroupsAreNonEmptyAndHomogeneous<D>(cs: seq<Collision<D>>)
    ensures forall i :: 0 <= i < |GroupByIntersection(cs)| ==>
      GroupByIntersection(cs)[i] != [] &&
      forall k :: 0 <= k < |GroupByIntersection(cs)[i]| ==>
        GroupByIntersection(cs)[i][k].intersection == GroupByIntersection(cs)[i][0].intersection
    ensures forall i, j :: 0 <= i < j < |GroupByIntersection(cs)| ==>
      GroupByIntersection(cs)[i][0].intersection != GroupByIntersection(cs)[j][0].intersection
  {
    var names := Distinct(Intersections(cs));
    var groups: seq<seq<Collision<D>>> := GroupByIntersection(cs);
    DistinctIsDeduplication(Intersections(cs));
    forall i | 0 <= i < |groups|
      ensures groups[i] != [] && groups[i][0].intersection == names[i]
    {
      DistinctMember(Intersections(cs), names[i]);
      var k :| 0 <= k < |cs| && Intersections(cs)[k] == names[i];
      AtIntersectionMember(cs, names[i], cs[k]);
    }
  }

  /** Groups come in the order in which their intersection first appears in
      the selected collisions. */
  lemma GroupsInFirstAppearanceOrder<D>(cs: seq<Collision<D>>)
    ensures forall i, j :: 0 <= i < j < |GroupByIntersection(cs)| ==>
      GroupByIntersection(cs)[i] != [] && GroupByIntersection(cs)[j] != [] &&
      GroupByIntersection(cs)[i][0].intersection in Intersections(cs) &&
      GroupByIntersection(cs)[j][0].intersection in Intersections(cs) &&
      FirstIndex(Intersections(cs), GroupByIntersection(cs)[i][0].intersection) <
      FirstIndex(Intersections(cs), GroupByIntersection(cs)[j][0].intersection)
  {
    var names := Distinct(Intersections(cs));
    var groups: seq<seq<Collision<D>>> := GroupByIntersection(cs);
    DistinctKeepsFirstSeenOrder(Intersections(cs));
    forall i | 0 <= i < |groups|
      ensures groups[i] != [] && groups[i][0].intersection == names[i]
    {
      DistinctMember(Intersections(cs), names[i]);
      var k :| 0 <= k < |cs| && Intersections(cs)[k] == names[i];
      AtIntersectionMember(cs, names[i], cs[k]);
    }
  }

  /** Every selected collision is in the group of its intersection. */
  lemma EachCollisionInItsGroup<D>(cs: seq<Collision<D>>)
    ensures forall k :: 0 <= k < |cs| ==>
      cs[k].intersection in Distinct(Intersections(cs)) &&
      cs[k] in GroupByIntersection(cs)[FirstIndex(Distinct(Intersections(cs)), cs[k].intersection)]
  {
    var names := Distinct(Intersections(cs));
    forall k | 0 <= k < |cs|
      ensures cs[k].intersection in names &&
        cs[k] in GroupByIntersection(cs)[FirstIndex(names, cs[k].intersection)]
    {
      assert Intersections(cs)[k] == cs[k].intersection;
      DistinctMember(Intersections(cs), cs[k].intersection);
      AtIntersectionMember(cs, cs[k].intersection, cs[k]);
    }
  }

  lemma GroupSizesOfExtended<D>(groups: seq<seq<Collision<D>>>, at: nat, c: Collision<D>)
    requires at < |groups|
    ensures GroupSizes(groups[at := groups[at] + [c]]) ==
      GroupSizes(groups)[at := GroupSizes(groups)[at] + 1]
  {
  }

  lemma GroupSizesOfAppended<D>(groups: seq<seq<Collision<D>>>, g: seq<Collision<D>>)
    ensures GroupSizes(groups + [g]) == GroupSizes(groups) + [|g|]
  {
  }

  /** The group sizes add up to the number of selected collisions; with
      EachCollisionInItsGroup, each collision appears exactly once. */
  lemma {:induction false} GroupSizesAddUp<D>(cs: seq<Collision<D>>)
    ensures Sum(GroupSizes(GroupByIntersection(cs))) == |cs|
    decreases |cs|
  {
    if cs == [] {
      assert GroupSizes(GroupByIntersection(cs)) == [];
    } else {
      var n := |cs| - 1;
      var p := cs[..n];
      var c := cs[n];
      assert cs == p + [c];
      GroupSizesAddUp(p);
      var before := GroupSizes(GroupByIntersection(p));
      var pnames := Distinct(Intersections(p));
      var groups := GroupByIntersection(p);
      if c.intersection in pnames {
        var at := FirstIndex(pnames, c.intersection);
        GroupByAppendSeen(p, c);
        GroupSizesOfExtended(groups, at, c);
        SumIncrement(before, at);
      } else {
        GroupByAppendNew(p, c);
        GroupSizesOfAppended(groups, [c]);
        assert (before + [1])[..|before|] == before;
      }
    }
  }

  /** resultMap maps each intersection seen so far to the position of its
      group in results. */
  ghost predicate IndexesGroups(resultMap: map<string, nat>, names: seq<string>)
  {
    && (forall name :: name in resultMap <==> name in names)
    && (forall name :: name in resultMap ==> resultMap[name] < |names| && names[resultMap[name]] == name)
  }

  /** The victim loop of filterData: whether some victim's sex is allowed. */
  method FindVictimOfSex<D>(c: Collision<D>, sexes: seq<string>) returns (found: bool)
    ensures found == HasVictimOfSex(c, sexes)
  {
    found := false;
    var v := 0;
    while v < |c.victims|
      invariant 0 <= v <= |c.victims|
      invariant forall k :: 0 <= k < v ==> c.victims[k].sex !in sexes
    {
      if c.victims[v].sex in sexes {
        found := true;
        break;
      }
      v := v + 1;
    }
  }

  /** The intersections after one more collision: unchanged when its
      intersection was seen, extended by it otherwise. */
  lemma NamesAfterAppend<D>(kept: seq<Collision<D>>, c: Collision<D>)
    ensures NoDuplicates(Distinct(Intersections(kept)))
    ensures c.intersection in Distinct(Intersections(kept)) ==>
      Distinct(Intersections(kept + [c])) == Distinct(Intersections(kept))
    ensures c.intersection !in Distinct(Intersections(kept)) ==>
      Distinct(Intersections(kept + [c])) == Distinct(Intersections(kept)) + [c.intersection]
  {
    DistinctIsDeduplication(Intersections(kept));
    assert Intersections(kept + [c]) == Intersections(kept) + [c.intersection];
    DistinctAppend(Intersections(kept), c.intersection);
  }

  lemma IndexesGroupsSeen(resultMap: map<string, nat>, names: seq<string>, name: string)
    requires IndexesGroups(resultMap, names) && NoDuplicates(names)
    requires name in names
    ensures name in resultMap && resultMap[name] == FirstIndex(names, name)
  {
  }

  lemma IndexesGroupsNew(resultMap: map<string, nat>, names: seq<string>, name: string)
    requires IndexesGroups(resultMap, names)
    requires name !in names
    ensures name !in resultMap
    ensures IndexesGroups(resultMap[name := |names|], names + [name])
  {
    var names' := names + [name];
    forall other | other in resultMap
      ensures resultMap[other] < |names'| && names'[resultMap[other]] == other
    {
    }
  }

  /** addToResults: append `c` to the group of its intersection, opening a new
      group at the end when the intersection has none yet. */
  method AddToResults<D>(
    resultMap: map<string, nat>, results: seq<seq<Collision<D>>>, ghost kept: seq<Collision<D>>, c: Collision<D>)
    returns (resultMap': map<string, nat>, results': seq<seq<Collision<D>>>)
    requires results == GroupByIntersection(kept)
    requires IndexesGroups(resultMap, Distinct(Intersections(kept)))
    ensures results' == GroupByIntersection(kept + [c])
    ensures IndexesGroups(resultMap', Distinct(Intersections(kept + [c])))
  {
    ghost var names := Distinct(Intersections(kept));
    NamesAfterAppend(kept, c);
    resultMap', results' := resultMap, results;
    if c.intersection in names {
      IndexesGroupsSeen(resultMap, names, c.intersection);
      GroupByAppendSeen(kept, c);
    } else {
      IndexesGroupsNew(resultMap, names, c.intersection);
      GroupByAppendNew(kept, c);
    }
    if c.intersection !in resultMap' {
      resultMap' := resultMap'[c.intersection := |results'|];
      results' := results' + [[]];
    }
    var at := resultMap'[c.intersection];
    results' := results'[at := results'[at] + [c]];
  }

  /** filterData over the store's collisions. An undefined store makes the
      loop's `Collision.collisions.length` throw. */
  method FilterData<D>(store: Option<seq<Collision<D>>>, years: seq<int>, sexes: seq<string>, types: seq<string>)
    returns (r: Result<seq<seq<Collision<D>>>>)
    ensures store.None? ==> r.Failure?
    ensures store.Some? ==> r == Success(GroupByIntersection(Selected(store.value, years, sexes, types)))
  {
    if store.None? {
      return Failure("TypeError");
    }
    var collisions := store.value;
    var resultMap: map<string, nat> := map[];
    var results: seq<seq<Collision<D>>> := [];
    ghost var kept: seq<Collision<D>> := [];
    var i := 0;
    while i < |collisions|
      invariant 0 <= i <= |collisions|
      invariant kept == Selected(collisions[..i], years, sexes, types)
      invariant results == GroupByIntersection(kept)
      invariant IndexesGroups(resultMap, Distinct(Intersections(kept)))
    {
      var collision := collisions[i];
      SelectedStep(collisions, i, years, sexes, types);
      if collision.year in years && collision.collisionType in types {
        var foundSex := FindVictimOfSex(collision, sexes);
        if foundSex {
          resultMap, results := AddToResults(resultMap, results, kept, collision);
          kept := kept + [collision];
        }
      }
      i := i + 1;
    }
    assert collisions[..i] == collisions;
    r := Success(results);
  }
}
