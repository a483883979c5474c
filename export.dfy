/** The exporter that turns the registered SWITRS collisions into the page's
    JSON: the code-to-number encoders, the bicycle and pedestrian selection,
    the victim records, the "2500" time fix-up, the list of distinct marker
    locations, and the per-year lists of exported collisions. */
module ExportJson {
  import opened Wrappers
  import opened Sequences
  import opened Decimal
  import opened Switrs

  /** collision_type_as_number: 0 for a pedestrian ('B'), 1 for a bicycle
      ('G'), 2 for any other code. */
  function CollisionTypeAsNumber(c: CollisionRecord): (n: nat)
    ensures n < 3
    ensures n == 0 <==> c.Get(MotorVehicleWith) == "B"
    ensures n == 1 <==> c.Get(MotorVehicleWith) == "G"
  {
    if c.Get(MotorVehicleWith) == "B" then 0
    else if c.Get(MotorVehicleWith) == "G" then 1
    else 2
  }

  /** The type number agrees with the code's name in the collision_with
      table: 0 exactly for "pedestrian", 1 exactly for "bicycle". */
  lemma TypeNumberMatchesName(c: CollisionRecord)
    ensures CollisionTypeAsNumber(c) == 0 <==> CollisionWith(c) == Success("pedestrian")
    ensures CollisionTypeAsNumber(c) == 1 <==> CollisionWith(c) == Success("bicycle")
  {
    var code := c.Get(MotorVehicleWith);
    if CollisionWith(c) == Success("pedestrian") && code != "B" {
      CollisionWithNamesDistinct(code, "B");
    }
    if CollisionWith(c) == Success("bicycle") && code != "G" {
      CollisionWithNamesDistinct(code, "G");
    }
  }

  /** victim_sex_as_number: 0 for "F", 1 for "M", 2 for any other code. */
  function VictimSexAsNumber(v: VictimRecord): (n: nat)
    ensures n < 3
    ensures n == 0 <==> v.Get(VictimField.Sex) == "F"
    ensures n == 1 <==> v.Get(VictimField.Sex) == "M"
  {
    if v.Get(VictimField.Sex) == "F" then 0
    else if v.Get(VictimField.Sex) == "M" then 1
    else 2
  }

  predicate IsBikeOrPedestrian(c: CollisionRecord)
  {
    c.Get(MotorVehicleWith) == "G" || c.Get(MotorVehicleWith) == "B"
  }

  /** find_all_bike_and_pedestrian_collision over the registered collisions,
      given in the registry's order. */
  function BikeAndPedestrian(cs: seq<CollisionRecord>): (r: seq<CollisionRecord>)
    ensures |r| == Count(cs, IsBikeOrPedestrian)
    ensures forall k :: 0 <= k < |r| ==> IsBikeOrPedestrian(r[k]) && CollisionTypeAsNumber(r[k]) < 2
  {
    if cs == [] then []
    else
      var rest := BikeAndPedestrian(cs[..|cs| - 1]);
      if IsBikeOrPedestrian(cs[|cs| - 1]) then rest + [cs[|cs| - 1]] else rest
  }

  /** A collision is selected iff it is registered and its code is 'G' or 'B'. */
  lemma {:induction false} BikeAndPedestrianMember(cs: seq<CollisionRecord>, c: CollisionRecord)
    ensures c in BikeAndPedestrian(cs) <==> c in cs && IsBikeOrPedestrian(c)
    decreases |cs|
  {
    if cs != [] {
      var m := |cs| - 1;
      BikeAndPedestrianMember(cs[..m], c);
      assert cs == cs[..m] + [cs[m]];
    }
  }

  /** The time fix-up: "2500" becomes "0000", any other time is kept. */
  function FixTime(time: string): (r: string)
    ensures time == "2500" ==> r == "0000"
    ensures time != "2500" ==> r == time
  {
    if time == "2500" then "0000" else time
  }

  /** One exported victim: age and injury as numbers, sex as its code number. */
  datatype JsonVictim = JsonVictim(age: int, sex: nat, injury: int)

  /** The victim record of the export; int() of an age or injury that is not
      an integer raises ValueError. */
  function ExportVictim(v: VictimRecord): (r: Result<JsonVictim>)
    ensures r.Success? <==> ParseInt(v.Get(VictimField.Age)).Some? && ParseInt(v.Get(DegreeOfInjury)).Some?
    ensures r.Success? ==>
      && Some(r.value.age) == ParseInt(v.Get(VictimField.Age))
      && Some(r.value.injury) == ParseInt(v.Get(DegreeOfInjury))
      && r.value.sex == VictimSexAsNumber(v)
  {
    match ParseInt(v.Get(VictimField.Age))
    case None => Failure("ValueError")
    case Some(age) =>
      match ParseInt(v.Get(DegreeOfInjury))
      case None => Failure("ValueError")
      case Some(injury) => Success(JsonVictim(age, VictimSexAsNumber(v), injury))
  }

  /** The victims list of an exported collision: one record per victim, in
      the collision's order; the first victim that cannot be read stops the
      export with ValueError. */
  method ExportVictims(vs: seq<VictimRecord>) returns (r: Result<seq<JsonVictim>>)
    ensures r.Success? <==> forall k :: 0 <= k < |vs| ==> ExportVictim(vs[k]).Success?
    ensures r.Success? ==> |r.value| == |vs| && forall k :: 0 <= k < |vs| ==> ExportVictim(vs[k]) == Success(r.value[k])
  {
    var victims: seq<JsonVictim> := [];
    var k := 0;
    while k < |vs|
      invariant 0 <= k <= |vs|
      invariant |victims| == k
      invariant forall i :: 0 <= i < k ==> ExportVictim(vs[i]) == Success(victims[i])
    {
      var exported := ExportVictim(vs[k]);
      if exported.Failure? {
        return Failure(exported.error);
      }
      victims := victims + [exported.value];
      k := k + 1;
    }
    return Success(victims);
  }

  /** The `markers` list of the export: each distinct location once, in order
      of first use. */
  class Markers<L(==)> {
    var markers: seq<L>
    /** Every location looked up so far, in order. */
    ghost var lookedUp: seq<L>

    ghost predicate Valid()
      reads this
    {
      markers == Distinct(lookedUp)
    }

    constructor ()
      ensures Valid() && markers == [] && lookedUp == []
    {
      markers := [];
      lookedUp := [];
    }

    /** get_marker_index_for_collision: the index of the first marker equal to
        `location`, appending it first when there is none. */
    method IndexFor(location: L) returns (index: nat)
      requires Valid()
      modifies this
      ensures Valid() && lookedUp == old(lookedUp) + [location]
      ensures location in old(markers) ==> markers == old(markers) && index == FirstIndex(markers, location)
      ensures location !in old(markers) ==> markers == old(markers) + [location] && index == |old(markers)|
      ensures index < |markers| && markers[index] == location
      ensures old(markers) <= markers
      ensures NoDuplicates(markers)
    {
      DistinctAppend(lookedUp, location);
      DistinctIsDeduplication(lookedUp + [location]);
      lookedUp := lookedUp + [location];
      var i := 0;
      while i < |markers|
        invariant 0 <= i <= |markers|
        invariant forall j :: 0 <= j < i ==> markers[j] != location
      {
        if markers[i] == location {
          return i;
        }
        i := i + 1;
      }
      markers := markers + [location];
      index := |markers| - 1;
    }
  }

  /** A date as strptime reads it: its year, and the seconds since the epoch
      that timegm gives for it. */
  datatype Moment = Moment(year: int, epochSeconds: int)

  /** One collision of the page's JSON data. */
  datatype JsonCollision = JsonCollision(collisionType: nat, intersection: string, marker: nat, time: int, victims: seq<JsonVictim>)

  /** The per-year lists of the export (a defaultdict of lists): each entry
      appended to the list of its year. */
  function ByYear(entries: seq<(int, JsonCollision)>): map<int, seq<JsonCollision>>
  {
    if entries == [] then map[]
    else
      var lists := ByYear(entries[..|entries| - 1]);
      var (year, collision) := entries[|entries| - 1];
      lists[year := (if year in lists then lists[year] else []) + [collision]]
  }

  /** The collisions of the entries that belong to `year`, in order. */
  function OfYear(entries: seq<(int, JsonCollision)>, year: int): seq<JsonCollision>
  {
    if entries == [] then []
    else
      var rest := OfYear(entries[..|entries| - 1], year);
      if entries[|entries| - 1].0 == year then rest + [entries[|entries| - 1].1] else rest
  }

  /** A year has a list iff some entry belongs to it, and its list holds the
      entries of that year in order. */
  lemma {:induction false} ByYearMeaning(entries: seq<(int, JsonCollision)>, year: int)
    ensures year in ByYear(entries) <==> exists k :: 0 <= k < |entries| && entries[k].0 == year
    ensures year in ByYear(entries) ==> ByYear(entries)[year] == OfYear(entries, year)
    ensures year !in ByYear(entries) ==> OfYear(entries, year) == []
    decreases |entries|
  {
    if entries != [] {
      var m := |entries| - 1;
      var p := entries[..m];
      ByYearMeaning(p, year);
      if exists k :: 0 <= k < |p| && p[k].0 == year {
        var k :| 0 <= k < |p| && p[k].0 == year;
        assert entries[k].0 == year;
      }
      if exists k :: 0 <= k < |entries| && entries[k].0 == year {
        var k :| 0 <= k < |entries| && entries[k].0 == year;
        if k < m {
          assert p[k].0 == year;
        }
      }
    }
  }

  lemma ByYearAppend(entries: seq<(int, JsonCollision)>, year: int, c: JsonCollision)
    ensures ByYear(entries + [(year, c)]) ==
      ByYear(entries)[year := (if year in ByYear(entries) then ByYear(entries)[year] else []) + [c]]
  {
    assert (entries + [(year, c)])[..|entries|] == entries;
  }

  /** Whether `c` can be exported: every victim reads, strptime reads its date
      and time (after the fix-up) through `parseMoment`, and float() reads its
      location through `locationOf`. */
  predicate Exportable<L>(
    c: CollisionRecord, parseMoment: string -> Option<Moment>, locationOf: CollisionRecord -> Option<L>)
  {
    && (forall k :: 0 <= k < |c.victims| ==> ExportVictim(c.victims[k]).Success?)
    && parseMoment(c.Get(Date) + FixTime(c.Get(Time))).Some?
    && locationOf(c).Some?
  }

  /** `entry` is the export of `c`, paired with the year of its date, against
      the marker list `markers`. */
  predicate ExportOf<L(==)>(
    c: CollisionRecord, entry: (int, JsonCollision), markers: seq<L>,
    parseMoment: string -> Option<Moment>,
    intersectionString: CollisionRecord -> string,
    locationOf: CollisionRecord -> Option<L>)
  {
    && Exportable(c, parseMoment, locationOf)
    && var moment := parseMoment(c.Get(Date) + FixTime(c.Get(Time))).value;
    && entry.0 == moment.year
    && entry.1.time == moment.epochSeconds
    && entry.1.collisionType == CollisionTypeAsNumber(c)
    && entry.1.intersection == intersectionString(c)
    && entry.1.marker < |markers|
    && markers[entry.1.marker] == locationOf(c).value
    && |entry.1.victims| == |c.victims|
    && forall k :: 0 <= k < |c.victims| ==> ExportVictim(c.victims[k]) == Success(entry.1.victims[k])
  }

  /** The export of one selected collision, in the order the exporter does
      it: the victim records, the time fix-up, the date read by strptime from
      the date and time text (`parseMoment`, None where strptime raises
      ValueError), then the type number, the intersection text
      (`intersectionString`) and the marker index of its location
      (`locationOf`, None where float() raises ValueError). The result pairs
      the date's year with the exported record. */
  method ExportCollision<L(==)>(
    c: CollisionRecord, markers: Markers<L>,
    parseMoment: string -> Option<Moment>,
    intersectionString: CollisionRecord -> string,
    locationOf: CollisionRecord -> Option<L>)
    returns (r: Result<(int, JsonCollision)>)
    requires markers.Valid()
    modifies markers
    ensures markers.Valid() && old(markers.markers) <= markers.markers
    ensures r.Success? <==> Exportable(c, parseMoment, locationOf)
    ensures r.Failure? ==> markers.markers == old(markers.markers) && markers.lookedUp == old(markers.lookedUp)
    ensures r.Success? ==>
      && ExportOf(c, r.value, markers.markers, parseMoment, intersectionString, locationOf)
      && markers.lookedUp == old(markers.lookedUp) + [locationOf(c).value]
  {
    var victims := ExportVictims(c.victims);
    if victims.Failure? {
      return Failure(victims.error);
    }
    var time := FixTime(c.Get(Time));
    var date := parseMoment(c.Get(Date) + time);
    if date.None? {
      return Failure("ValueError");
    }
    var collisionType := CollisionTypeAsNumber(c);
    var intersection := intersectionString(c);
    var location := locationOf(c);
    if location.None? {
      return Failure("ValueError");
    }
    var marker := markers.IndexFor(location.value);
    var exported := JsonCollision(collisionType, intersection, marker, date.value.epochSeconds, victims.value);
    return Success((date.value.year, exported));
  }

  /** `entries` are the exports of `selected`, position by position, against
      the marker list `markers`. */
  predicate ExportsOf<L(==)>(
    selected: seq<CollisionRecord>, entries: seq<(int, JsonCollision)>, markers: seq<L>,
    parseMoment: string -> Option<Moment>,
    intersectionString: CollisionRecord -> string,
    locationOf: CollisionRecord -> Option<L>)
  {
    && |entries| == |selected|
    && forall k :: 0 <= k < |entries| ==>
      ExportOf(selected[k], entries[k], markers, parseMoment, intersectionString, locationOf)
  }

  lemma ExportOfGrowingMarkers<L>(
    c: CollisionRecord, entry: (int, JsonCollision), markers: seq<L>, grown: seq<L>,
    parseMoment: string -> Option<Moment>,
    intersectionString: CollisionRecord -> string,
    locationOf: CollisionRecord -> Option<L>)
    requires ExportOf(c, entry, markers, parseMoment, intersectionString, locationOf)
    requires markers <= grown
    ensures ExportOf(c, entry, grown, parseMoment, intersectionString, locationOf)
  {
    assert grown[..|markers|] == markers;
  }

  /** Appending to the marker list keeps every earlier export's marker index
      pointing at its location. */
  lemma ExportsOfGrowingMarkers<L>(
    selected: seq<CollisionRecord>, entries: seq<(int, JsonCollision)>, markers: seq<L>, grown: seq<L>,
    parseMoment: string -> Option<Moment>,
    intersectionString: CollisionRecord -> string,
    locationOf: CollisionRecord -> Option<L>)
    requires ExportsOf(selected, entries, markers, parseMoment, intersectionString, locationOf)
    requires markers <= grown
    ensures ExportsOf(selected, entries, grown, parseMoment, intersectionString, locationOf)
  {
    forall k | 0 <= k < |entries|
      ensures ExportOf(selected[k], entries[k], grown, parseMoment, intersectionString, locationOf)
    {
      ExportOfGrowingMarkers(selected[k], entries[k], markers, grown, parseMoment, intersectionString, locationOf);
    }
  }

  lemma ExportsOfNext<L>(
    selected: seq<CollisionRecord>, i: nat, entries: seq<(int, JsonCollision)>, markers: seq<L>,
    parseMoment: string -> Option<Moment>,
    intersectionString: CollisionRecord -> string,
    locationOf: CollisionRecord -> Option<L>,
    entry: (int, JsonCollision))
    requires i < |selected|
    requires ExportsOf(selected[..i], entries, markers, parseMoment, intersectionString, locationOf)
    requires ExportOf(selected[i], entry, markers, parseMoment, intersectionString, locationOf)
    ensures ExportsOf(selected[..i + 1], entries + [entry], markers, parseMoment, intersectionString, locationOf)
  {
    assert selected[..i + 1] == selected[..i] + [selected[i]];
  }

  /** Every collision of `cs` can be exported. */
  predicate AllExportable<L>(
    cs: seq<CollisionRecord>, parseMoment: string -> Option<Moment>, locationOf: CollisionRecord -> Option<L>)
  {
    forall k :: 0 <= k < |cs| ==> Exportable(cs[k], parseMoment, locationOf)
  }

  /** Every collision of `cs` has a location that can be read. */
  predicate LocationsKnown<L>(cs: seq<CollisionRecord>, locationOf: CollisionRecord -> Option<L>)
  {
    forall k :: 0 <= k < |cs| ==> locationOf(cs[k]).Some?
  }

  /** The locations of collisions whose location can be read, in order. */
  function Locations<L>(cs: seq<CollisionRecord>, locationOf: CollisionRecord -> Option<L>): (ls: seq<L>)
    requires LocationsKnown(cs, locationOf)
    ensures |ls| == |cs| && forall k :: 0 <= k < |cs| ==> Some(ls[k]) == locationOf(cs[k])
  {
    seq(|cs|, k requires 0 <= k < |cs| => locationOf(cs[k]).value)
  }

  lemma LocationsNext<L>(cs: seq<CollisionRecord>, i: nat, locationOf: CollisionRecord -> Option<L>)
    requires i < |cs| && LocationsKnown(cs[..i], locationOf) && locationOf(cs[i]).Some?
    ensures LocationsKnown(cs[..i + 1], locationOf)
    ensures Locations(cs[..i + 1], locationOf) == Locations(cs[..i], locationOf) + [locationOf(cs[i]).value]
  {
  }

  lemma ExportsAreExportable<L>(
    selected: seq<CollisionRecord>, entries: seq<(int, JsonCollision)>, markers: seq<L>,
    parseMoment: string -> Option<Moment>,
    intersectionString: CollisionRecord -> string,
    locationOf: CollisionRecord -> Option<L>)
    requires ExportsOf(selected, entries, markers, parseMoment, intersectionString, locationOf)
    ensures AllExportable(selected, parseMoment, locationOf) && LocationsKnown(selected, locationOf)
  {
  }

  lemma NotAllExportable<L>(
    selected: seq<CollisionRecord>, i: nat,
    parseMoment: string -> Option<Moment>, locationOf: CollisionRecord -> Option<L>)
    requires i < |selected| && !Exportable(selected[i], parseMoment, locationOf)
    ensures !AllExportable(selected, parseMoment, locationOf)
  {
  }

  /** The first `i` collisions of `selected` were exported as `entries`
      against the marker list `markers`, and their locations were looked up,
      in order, after `start`. */
  ghost predicate ExportedSoFar<L>(
    selected: seq<CollisionRecord>, i: nat, entries: seq<(int, JsonCollision)>,
    markers: seq<L>, lookedUp: seq<L>, start: seq<L>,
    parseMoment: string -> Option<Moment>,
    intersectionString: CollisionRecord -> string,
    locationOf: CollisionRecord -> Option<L>)
  {
    && i <= |selected|
    && ExportsOf(selected[..i], entries, markers, parseMoment, intersectionString, locationOf)
    && LocationsKnown(selected[..i], locationOf)
    && lookedUp == start + Locations(selected[..i], locationOf)
  }

  lemma ExportedAll<L>(
    selected: seq<CollisionRecord>, entries: seq<(int, JsonCollision)>,
    markers: seq<L>, lookedUp: seq<L>, start: seq<L>,
    parseMoment: string -> Option<Moment>,
    intersectionString: CollisionRecord -> string,
    locationOf: CollisionRecord -> Option<L>)
    requires ExportedSoFar(selected, |selected|, entries, markers, lookedUp, start,
      parseMoment, intersectionString, locationOf)
    ensures ExportsOf(selected, entries, markers, parseMoment, intersectionString, locationOf)
    ensures AllExportable(selected, parseMoment, locationOf) && LocationsKnown(selected, locationOf)
    ensures lookedUp == start + Locations(selected, locationOf)
  {
    assert selected[..|selected|] == selected;
    ExportsAreExportable(selected, entries, markers, parseMoment, intersectionString, locationOf);
  }

  /** The exporter's main loop: every bicycle or pedestrian collision of the
      registry exported and appended to the list of its year. The first
      collision that cannot be exported stops the run with its error, so the
      run fails exactly when some selected collision cannot be exported. On
      success `entries` lists the exports with their years, one per selected
      collision in order, the per-year lists are exactly those entries, and
      the marker list is the distinct locations of the selected collisions in
      order of first use, after those the list held before. */
  method ExportAll<L(==)>(
    registered: seq<CollisionRecord>, markers: Markers<L>,
    parseMoment: string -> Option<Moment>,
    intersectionString: CollisionRecord -> string,
    locationOf: CollisionRecord -> Option<L>)
    returns (r: Result<map<int, seq<JsonCollision>>>, ghost entries: seq<(int, JsonCollision)>)
    requires markers.Valid()
    modifies markers
    ensures markers.Valid() && old(markers.markers) <= markers.markers
    ensures r.Failure? <==> !AllExportable(BikeAndPedestrian(registered), parseMoment, locationOf)
    ensures r.Success? ==>
      && r.value == ByYear(entries)
      && ExportsOf(BikeAndPedestrian(registered), entries, markers.markers, parseMoment, intersectionString, locationOf)
      && LocationsKnown(BikeAndPedestrian(registered), locationOf)
      && markers.lookedUp == old(markers.lookedUp) + Locations(BikeAndPedestrian(registered), locationOf)
      && markers.markers == Distinct(old(markers.lookedUp) + Locations(BikeAndPedestrian(registered), locationOf))
  {
    var selected := BikeAndPedestrian(registered);
    var collisions: map<int, seq<JsonCollision>> := map[];
    entries := [];
    var i := 0;
    while i < |selected|
      invariant 0 <= i <= |selected|
      invariant markers.Valid() && old(markers.markers) <= markers.markers
      invariant collisions == ByYear(entries)
      invariant ExportedSoFar(selected, i, entries, markers.markers, markers.lookedUp, old(markers.lookedUp),
        parseMoment, intersectionString, locationOf)
    {
      var exported := ExportNext(selected, i, entries, old(markers.lookedUp), markers,
        parseMoment, intersectionString, locationOf);
      if exported.Failure? {
        return Failure(exported.error), entries;
      }
      var (year, collision) := exported.value;
      ByYearAppend(entries, year, collision);
      collisions := collisions[year := (if year in collisions then collisions[year] else []) + [collision]];
      entries := entries + [(year, collision)];
      i := i + 1;
    }
    ExportedAll(selected, entries, markers.markers, markers.lookedUp, old(markers.lookedUp),
      parseMoment, intersectionString, locationOf);
    return Success(collisions), entries;
  }

  /** One turn of the main loop: the export of `selected[i]`, after the
      collisions before it were exported as `entries` and their locations
      looked up after `start`. On success what the loop knows about those
      collisions holds for one more. */
  method ExportNext<L(==)>(
    selected: seq<CollisionRecord>, i: nat, ghost entries: seq<(int, JsonCollision)>, ghost start: seq<L>,
    markers: Markers<L>,
    parseMoment: string -> Option<Moment>,
    intersectionString: CollisionRecord -> string,
    locationOf: CollisionRecord -> Option<L>)
    returns (r: Result<(int, JsonCollision)>)
    requires i < |selected| && markers.Valid()
    requires ExportedSoFar(selected, i, entries, markers.markers, markers.lookedUp, start,
      parseMoment, intersectionString, locationOf)
    modifies markers
    ensures markers.Valid() && old(markers.markers) <= markers.markers
    ensures r.Failure? ==> !AllExportable(selected, parseMoment, locationOf)
    ensures r.Success? ==>
      ExportedSoFar(selected, i + 1, entries + [r.value], markers.markers, markers.lookedUp, start,
        parseMoment, intersectionString, locationOf)
  {
    ghost var markersBefore := markers.markers;
    r := ExportCollision(selected[i], markers, parseMoment, intersectionString, locationOf);
    if r.Failure? {
      NotAllExportable(selected, i, parseMoment, locationOf);
      return;
    }
    ExportsOfGrowingMarkers(selected[..i], entries, markersBefore, markers.markers,
      parseMoment, intersectionString, locationOf);
    ExportsOfNext(selected, i, entries, markers.markers, parseMoment, intersectionString, locationOf, r.value);
    LocationsNext(selected, i, locationOf);
  }
}
