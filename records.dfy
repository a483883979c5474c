/** The collision records the map page loads, as both revisions of the page
    (main.js and ui/main.js) define them, with the victim tests, the victim
    counts and the colour and size of a map marker. */
module Records {
  import opened Wrappers
  import opened Sequences

  /** A point on the map. */
  datatype LatLng = LatLng(lat: real, lng: real)

  /** One person involved in a collision. `injury` is the degree-of-injury code
      of the SWITRS data (1 fatal, 2 severe, 3 other visible, 4 complaint of
      pain, 0 none); an age of 150 or more stands for an unrecorded age. */
  datatype Victim = Victim(injury: int, age: int, sex: string)

  /** One collision. `D` is the type of its date: a point in time (milliseconds)
      in ui/main.js, the date value of the JSON record in main.js. */
  datatype Collision<D> = Collision(
    intersection: string,
    date: D,
    year: int,
    sex: string,
    collisionType: string,
    location: LatLng,
    victims: seq<Victim>)

  predicate IsMale(v: Victim) { v.sex == "M" }
  predicate IsFemale(v: Victim) { v.sex == "F" }
  predicate IsFatality(v: Victim) { v.injury == 1 }
  predicate IsSevereInjury(v: Victim) { v.injury == 2 }

  /** countVictims: how many victims of `c` pass `test`. */
  method CountVictims<D>(c: Collision<D>, test: Victim -> bool) returns (count: nat)
    ensures count == Count(c.victims, test)
    ensures count <= |c.victims|
  {
    count := 0;
    var v := 0;
    while v < |c.victims|
      invariant 0 <= v <= |c.victims|
      invariant count == Count(c.victims[..v], test)
    {
      assert c.victims[..v + 1] == c.victims[..v] + [c.victims[v]];
      CountAppend(c.victims[..v], c.victims[v], test);
      if test(c.victims[v]) {
        count := count + 1;
      }
      v := v + 1;
    }
    assert c.victims[..v] == c.victims;
    CountIsNumberOfPassingIndices(c.victims, test);
  }

  function Fatalities<D>(c: Collision<D>): nat
  {
    Count(c.victims, IsFatality)
  }

  function SevereInjuries<D>(c: Collision<D>): nat
  {
    Count(c.victims, IsSevereInjury)
  }

  method NumberOfFatalities<D>(c: Collision<D>) returns (n: nat)
    ensures n == Fatalities(c)
  {
    n := CountVictims(c, IsFatality);
  }

  method NumberOfSevereInjuries<D>(c: Collision<D>) returns (n: nat)
    ensures n == SevereInjuries(c)
  {
    n := CountVictims(c, IsSevereInjury);
  }

  /** The fatality count is bounded by the victims and is positive exactly
      when some victim has injury code 1. */
  lemma FatalitiesMeaning<D>(c: Collision<D>)
    ensures Fatalities(c) <= |c.victims|
    ensures Fatalities(c) > 0 <==> exists k :: 0 <= k < |c.victims| && c.victims[k].injury == 1
  {
    CountIsNumberOfPassingIndices(c.victims, IsFatality);
    CountPositiveIffSomePasses(c.victims, IsFatality);
  }

  /** The severe-injury count is bounded by the victims and is positive exactly
      when some victim has injury code 2. */
  lemma SevereInjuriesMeaning<D>(c: Collision<D>)
    ensures SevereInjuries(c) <= |c.victims|
    ensures SevereInjuries(c) > 0 <==> exists k :: 0 <= k < |c.victims| && c.victims[k].injury == 2
  {
    CountIsNumberOfPassingIndices(c.victims, IsSevereInjury);
    CountPositiveIffSomePasses(c.victims, IsSevereInjury);
  }

  const FatalColor := "red"
  const SevereInjuryColor := "purple"
  const NonInjuryColor := "gold"

  predicate AnyFatal<D>(group: seq<Collision<D>>)
  {
    exists j :: 0 <= j < |group| && Fatalities(group[j]) > 0
  }

  predicate AnySevere<D>(group: seq<Collision<D>>)
  {
    exists j :: 0 <= j < |group| && SevereInjuries(group[j]) > 0
  }

  /** The colour of a group's marker: the most severe outcome in the group. */
  function ColourOf<D>(group: seq<Collision<D>>): string
  {
    if AnyFatal(group) then FatalColor
    else if AnySevere(group) then SevereInjuryColor
    else NonInjuryColor
  }

  lemma ColourOfAppend<D>(group: seq<Collision<D>>, c: Collision<D>)
    ensures AnyFatal(group + [c]) <==> AnyFatal(group) || Fatalities(c) > 0
    ensures AnySevere(group + [c]) <==> AnySevere(group) || SevereInjuries(c) > 0
  {
    var g := group + [c];
    assert g[|group|] == c;
    if AnyFatal(group) {
      var j :| 0 <= j < |group| && Fatalities(group[j]) > 0;
      assert g[j] == group[j];
    }
    if AnySevere(group) {
      var j :| 0 <= j < |group| && SevereInjuries(group[j]) > 0;
      assert g[j] == group[j];
    }
    if AnyFatal(g) {
      var j :| 0 <= j < |g| && Fatalities(g[j]) > 0;
      if j < |group| { assert g[j] == group[j]; }
    }
    if AnySevere(g) {
      var j :| 0 <= j < |g| && SevereInjuries(g[j]) > 0;
      if j < |group| { assert g[j] == group[j]; }
    }
  }

  /** The colour loop of addCollisionGroupsToMap. */
  method MarkerColour<D>(group: seq<Collision<D>>) returns (color: string)
    ensures color == ColourOf(group)
  {
    color := NonInjuryColor;
    var j := 0;
    while j < |group|
      invariant 0 <= j <= |group|
      invariant color == ColourOf(group[..j])
    {
      assert group[..j + 1] == group[..j] + [group[j]];
      ColourOfAppend(group[..j], group[j]);
      var fatalities := NumberOfFatalities(group[j]);
      if fatalities > 0 {
        color := FatalColor;
      } else {
        var severe := NumberOfSevereInjuries(group[j]);
        if severe > 0 && color != FatalColor {
          color := SevereInjuryColor;
        }
      }
      j := j + 1;
    }
    assert group[..j] == group;
  }

  /** The colour says which outcomes occur in the group: red iff some victim
      died, purple iff none died and some was severely injured, gold otherwise. */
  lemma ColourMeaning<D>(group: seq<Collision<D>>)
    ensures ColourOf(group) == FatalColor <==>
      exists j, k :: 0 <= j < |group| && 0 <= k < |group[j].victims| && group[j].victims[k].injury == 1
    ensures ColourOf(group) == SevereInjuryColor <==>
      (forall j, k :: 0 <= j < |group| && 0 <= k < |group[j].victims| ==> group[j].victims[k].injury != 1) &&
      (exists j, k :: 0 <= j < |group| && 0 <= k < |group[j].victims| && group[j].victims[k].injury == 2)
    ensures ColourOf(group) == NonInjuryColor <==>
      forall j, k :: 0 <= j < |group| && 0 <= k < |group[j].victims| ==>
        group[j].victims[k].injury != 1 && group[j].victims[k].injury != 2
  {
    forall j | 0 <= j < |group|
      ensures Fatalities(group[j]) > 0 <==>
        exists k :: 0 <= k < |group[j].victims| && group[j].victims[k].injury == 1
      ensures SevereInjuries(group[j]) > 0 <==>
        exists k :: 0 <= k < |group[j].victims| && group[j].victims[k].injury == 2
    {
      FatalitiesMeaning(group[j]);
      SevereInjuriesMeaning(group[j]);
    }
  }

  lemma OutcomesOfSameMembers<D>(group: seq<Collision<D>>, other: seq<Collision<D>>)
    requires multiset(group) == multiset(other)
    ensures AnyFatal(group) ==> AnyFatal(other)
    ensures AnySevere(group) ==> AnySevere(other)
  {
    if AnyFatal(group) {
      var j :| 0 <= j < |group| && Fatalities(group[j]) > 0;
      assert group[j] in multiset(other);
      var k :| 0 <= k < |other| && other[k] == group[j];
    }
    if AnySevere(group) {
      var j :| 0 <= j < |group| && SevereInjuries(group[j]) > 0;
      assert group[j] in multiset(other);
      var k :| 0 <= k < |other| && other[k] == group[j];
    }
  }

  /** The colour does not depend on the order of the group. */
  lemma ColourIgnoresOrder<D>(group: seq<Collision<D>>, other: seq<Collision<D>>)
    requires multiset(group) == multiset(other)
    ensures ColourOf(group) == ColourOf(other)
  {
    OutcomesOfSameMembers(group, other);
    OutcomesOfSameMembers(other, group);
  }

  /** What addCollisionGroupsToMap draws for one group: a circle centred on the
      first collision's location, of the given radius and colour. */
  datatype Marker<D> = Marker(center: LatLng, radius: nat, color: string, group: seq<Collision<D>>)

  /** The size and colour decisions of addCollisionGroupsToMap, one marker per
      group in order; an empty group makes `group[0].location` throw. */
  method MarkersFor<D>(groups: seq<seq<Collision<D>>>) returns (r: Result<seq<Marker<D>>>)
    ensures r.Failure? <==> exists i :: 0 <= i < |groups| && groups[i] == []
    ensures r.Success? ==> |r.value| == |groups|
    ensures r.Success? ==> forall i :: 0 <= i < |groups| ==>
      && r.value[i].center == groups[i][0].location
      && r.value[i].group == groups[i]
      && r.value[i].color == ColourOf(groups[i])
      && (r.value[i].radius == 40 <==> |groups[i]| > 1)
      && (r.value[i].radius == 20 <==> |groups[i]| <= 1)
  {
    var markers: seq<Marker<D>> := [];
    var i := 0;
    while i < |groups|
      invariant 0 <= i <= |groups|
      invariant forall k :: 0 <= k < i ==> groups[k] != []
      invariant |markers| == i
      invariant forall k :: 0 <= k < i ==>
        markers[k].center == groups[k][0].location &&
        markers[k].group == groups[k] &&
        markers[k].color == ColourOf(groups[k]) &&
        markers[k].radius == (if |groups[k]| > 1 then 40 else 20)
    {
      var group := groups[i];
      var size := if |group| > 1 then 40 else 20;
      var color := MarkerColour(group);
      if group == [] {
        return Failure("TypeError");
      }
      markers := markers + [Marker(group[0].location, size, color, group)];
      i := i + 1;
    }
    r := Success(markers);
  }
}
