/** The SWITRS loader: rows of the collision, party and victim tables read
    into records by fixed column positions, the registry of collisions by id,
    and the text of a collision's "motor vehicle involved with" code. */
module Switrs {
  import opened Wrappers

  /** The attributes a collision row is read into, in the order they are assigned. */
  datatype CollisionField =
    Id | Year | ProcessDate | Jurisdiction | Date | Time | OfficerId | ReportingDistrict
    | DayOfWeek | ChpShift | Population | CountyCityLocation | SpecialCondition | BeatType
    | ChpBeatType | CityDivisionLapd | ChpBeatClass | BeatNumber | PrimaryRoad | SecondaryRoad
    | Distance | Direction | Intersection | Weather1 | Weather2 | StateHighway | CaltransCounty
    | CaltransDistruct | StateRoute | RouteSuffix | PostmilePrefix | Postmile | LocationType
    | RampIntersection | SideOfHighway | TowAway | CollisionSeverity | KilledCount
    | InjuredCount | PartyCount | PrimaryCollisionFactor | PcfViolationCode
    | PcfViolationCategory | PcfViolation | PcfViolationSubsection | HitAndRun | CollisionType
    | MotorVehicleWith | PedestrianAction | RoadSurface | RoadCondition1 | RoadCondition2
    | Lighting | ControlDevice | ChpRoadType | PedestrianCollision | BicycleCollision
    | MotorcycleCollision | TruckCollision | NotPrivateProperty | AlcoholInvolved
    | StatewideVehicleTypeAtFault | ChpVehicleTypeAtFault | SevereInjuryCount
    | OtherVisibleInjuryCount | ComplaintOfPainInjuryCount | PedestrianKilledCount
    | PedestrianInjuredCount | BicyclistKilledCount | BicyclistInjuredCount
    | MotorcyclistKilledCount | MotorcyclistInjuredCount | PrimaryRamp | SecondaryRamp
    | Latitude | Longitude

  /** The position of the row each collision attribute is read from. */
  function CollisionColumn(f: CollisionField): (column: nat)
    ensures column < 76 && column != 68
  {
    match f
    case Id => 0
    case Year => 1
    case ProcessDate => 2
    case Jurisdiction => 3
    case Date => 4
    case Time => 5
    case OfficerId => 6
    case ReportingDistrict => 7
    case DayOfWeek => 8
    case ChpShift => 9
    case Population => 10
    case CountyCityLocation => 11
    case SpecialCondition => 12
    case BeatType => 13
    case ChpBeatType => 14
    case CityDivisionLapd => 15
    case ChpBeatClass => 16
    case BeatNumber => 17
    case PrimaryRoad => 18
    case SecondaryRoad => 19
    case Distance => 20
    case Direction => 21
    case Intersection => 22
    case Weather1 => 23
    case Weather2 => 24
    case StateHighway => 25
    case CaltransCounty => 26
    case CaltransDistruct => 27
    case StateRoute => 28
    case RouteSuffix => 29
    case PostmilePrefix => 30
    case Postmile => 31
    case LocationType => 32
    case RampIntersection => 33
    case SideOfHighway => 34
    case TowAway => 35
    case CollisionSeverity => 36
    case KilledCount => 37
    case InjuredCount => 38
    case PartyCount => 39
    case PrimaryCollisionFactor => 40
    case PcfViolationCode => 41
    case PcfViolationCategory => 42
    case PcfViolation => 43
    case PcfViolationSubsection => 44
    case HitAndRun => 45
    case CollisionType => 46
    case MotorVehicleWith => 47
    case PedestrianAction => 48
    case RoadSurface => 49
    case RoadCondition1 => 50
    case RoadCondition2 => 51
    case Lighting => 52
    case ControlDevice => 53
    case ChpRoadType => 54
    case PedestrianCollision => 55
    case BicycleCollision => 56
    case MotorcycleCollision => 57
    case TruckCollision => 58
    case NotPrivateProperty => 59
    case AlcoholInvolved => 60
    case StatewideVehicleTypeAtFault => 61
    case ChpVehicleTypeAtFault => 62
    case SevereInjuryCount => 63
    case OtherVisibleInjuryCount => 64
    case ComplaintOfPainInjuryCount => 65
    case PedestrianKilledCount => 66
    case PedestrianInjuredCount => 66
    case BicyclistKilledCount => 67
    case BicyclistInjuredCount => 69
    case MotorcyclistKilledCount => 70
    case MotorcyclistInjuredCount => 71
    case PrimaryRamp => 72
    case SecondaryRamp => 73
    case Latitude => 74
    case Longitude => 75
  }

  /** The attributes of a party row. */
  datatype PartyField =
    CollisionId | Number | PartyType | AtFault | Sex | Age | Sobriety | Impairment
    | DirectionOfTravel | SafetyEquipment1 | SafetyEquipment2 | FinancialResponsibility
    | SpecialInformation1 | SpecialInformation2 | SpecialInformation3 | OafViolationCode
    | OafViolationCategory | OafViolationSection | OafViolationSuffix | OtherAssociatedFactor
    | OtherAssociatedFactor2 | NumberKilled | NumberInjured | MovementPrecedingCollision
    | VehicleYear | VehicleMake | StatewideVehicleType | ChpVehicleTypeTowing
    | ChpVehicleTypeTowed | Race

  /** The position of the row each party attribute is read from. */
  function PartyColumn(f: PartyField): (column: nat)
    ensures column < 30
  {
    match f
    case CollisionId => 0
    case Number => 1
    case PartyType => 2
    case AtFault => 3
    case Sex => 4
    case Age => 5
    case Sobriety => 6
    case Impairment => 7
    case DirectionOfTravel => 8
    case SafetyEquipment1 => 9
    case SafetyEquipment2 => 10
    case FinancialResponsibility => 11
    case SpecialInformation1 => 12
    case SpecialInformation2 => 13
    case SpecialInformation3 => 14
    case OafViolationCode => 15
    case OafViolationCategory => 16
    case OafViolationSection => 17
    case OafViolationSuffix => 18
    case OtherAssociatedFactor => 19
    case OtherAssociatedFactor2 => 20
    case NumberKilled => 21
    case NumberInjured => 22
    case MovementPrecedingCollision => 23
    case VehicleYear => 24
    case VehicleMake => 25
    case StatewideVehicleType => 26
    case ChpVehicleTypeTowing => 27
    case ChpVehicleTypeTowed => 28
    case Race => 29
  }

  /** The attributes of a victim row. */
  datatype VictimField =
    CollisionId | PartyId | Role | Sex | Age | DegreeOfInjury | SeatingPosition
    | SafetyEquipment1 | SafetyEquipment2 | Ejected

  /** The position of the row each victim attribute is read from. */
  function VictimColumn(f: VictimField): (column: nat)
    ensures column < 10
  {
    match f
    case CollisionId => 0
    case PartyId => 1
    case Role => 2
    case Sex => 3
    case Age => 4
    case DegreeOfInjury => 5
    case SeatingPosition => 6
    case SafetyEquipment1 => 7
    case SafetyEquipment2 => 8
    case Ejected => 9
  }

  /** A collision row long enough for every attribute read from it. */
  type CollisionRow = row: seq<string> | |row| >= 76 witness seq(76, _ => "")
  type PartyRow = row: seq<string> | |row| >= 30 witness seq(30, _ => "")
  type VictimRow = row: seq<string> | |row| >= 10 witness seq(10, _ => "")

  /** A party: its attributes are read from `row`, the row object itself (the `array` attribute). */
  datatype PartyRecord = PartyRecord(row: PartyRow)
  {
    function Get(f: PartyField): string
    {
      row[PartyColumn(f)]
    }
  }

  /** A victim: its attributes are read from `row`, the row object itself (the `array` attribute). */
  datatype VictimRecord = VictimRecord(row: VictimRow)
  {
    function Get(f: VictimField): string
    {
      row[VictimColumn(f)]
    }
  }

  /** A collision: its attributes are read from `row`, its own copy of the row (the `array` attribute),
      and it gathers its parties and victims. */
  datatype CollisionRecord = CollisionRecord(row: CollisionRow, parties: seq<PartyRecord>, victims: seq<VictimRecord>)
  {
    function Get(f: CollisionField): string
    {
      row[CollisionColumn(f)]
    }

    function Id(): string
    {
      Get(CollisionField.Id)
    }
  }

  /** Collision(csvarray) without its registration: an IndexError when the row
      is shorter than the last column read, otherwise a record over a copy of
      the row with no parties and no victims yet. */
  function CollisionFromRow(row: seq<string>): (r: Result<CollisionRecord>)
    ensures r.Failure? <==> |row| < 1 + CollisionColumn(Longitude)
    ensures r.Success? ==>
      && r.value.row == row
      && r.value.parties == [] && r.value.victims == []
      && forall f :: r.value.Get(f) == row[CollisionColumn(f)]
  {
    if |row| < 76 then Failure("IndexError") else Success(CollisionRecord(row, [], []))
  }

  /** Party(csvarray): an IndexError for a row of fewer than 30 fields. */
  function PartyFromRow(row: seq<string>): (r: Result<PartyRecord>)
    ensures r.Failure? <==> |row| < 1 + PartyColumn(Race)
    ensures r.Success? ==> r.value.row == row && forall f :: r.value.Get(f) == row[PartyColumn(f)]
  {
    if |row| < 30 then Failure("IndexError") else Success(PartyRecord(row))
  }

  /** Victim(csvarray): an IndexError for a row of fewer than 10 fields. */
  function VictimFromRow(row: seq<string>): (r: Result<VictimRecord>)
    ensures r.Failure? <==> |row| < 1 + VictimColumn(Ejected)
    ensures r.Success? ==> r.value.row == row && forall f :: r.value.Get(f) == row[VictimColumn(f)]
  {
    if |row| < 10 then Failure("IndexError") else Success(VictimRecord(row))
  }

  /** Both pedestrian counts read column 66. */
  lemma PedestrianCountsShareColumn()
    ensures CollisionColumn(PedestrianKilledCount) == 66
    ensures CollisionColumn(PedestrianInjuredCount) == 66
  {
  }

  /** The bicyclist counts read columns 67 and 69, skipping 68. */
  lemma BicyclistCountsSkipColumn()
    ensures CollisionColumn(BicyclistKilledCount) == 67
    ensures CollisionColumn(BicyclistInjuredCount) == 69
  {
  }

  /** Column 68 is read by no attribute: a row that differs from another only
      there gives a collision with the same attributes. */
  lemma Column68Unread(row: CollisionRow, other: string)
    ensures forall f :: CollisionRecord(row, [], []).Get(f) == CollisionRecord(row[68 := other], [], []).Get(f)
  {
    var changed := CollisionRecord(row[68 := other], [], []);
    forall f ensures CollisionRecord(row, [], []).Get(f) == changed.Get(f) {
      var column := CollisionColumn(f);
      assert changed.Get(f) == changed.row[column];
    }
  }

  /** The names of the "motor vehicle involved with" codes. */
  const CollisionWithNames: map<string, string> := map[
    "A" := "Non-collision",
    "B" := "pedestrian",
    "C" := "other motor vehicle",
    "D" := "motor vehicle on other roadway",
    "E" := "parked motor vehicle",
    "F" := "train",
    "G" := "bicycle",
    "H" := "animal",
    "I" := "fixed object",
    "J" := "other object",
    "-" := "not stated"]

  /** Collision.collision_with: the name of the collision's code, a KeyError
      for any code outside the table. */
  function CollisionWith(c: CollisionRecord): (r: Result<string>)
    ensures r.Success? <==> c.Get(MotorVehicleWith) in CollisionWithNames
    ensures c.Get(MotorVehicleWith) == "B" ==> r == Success("pedestrian")
    ensures c.Get(MotorVehicleWith) == "G" ==> r == Success("bicycle")
  {
    var code := c.Get(MotorVehicleWith);
    if code in CollisionWithNames then Success(CollisionWithNames[code]) else Failure("KeyError")
  }

  /** Every code has a name of its own. */
  lemma CollisionWithNamesDistinct(a: string, b: string)
    requires a in CollisionWithNames && b in CollisionWithNames && a != b
    ensures CollisionWithNames[a] != CollisionWithNames[b]
  {
  }

  /** Collision.__str__: the two roads, the code's name and the location; it
      fails exactly when collision_with does. */
  function Describe(c: CollisionRecord): (r: Result<string>)
    ensures r.Success? <==> CollisionWith(c).Success?
    ensures r.Success? ==>
      r.value == c.Get(PrimaryRoad) + " and " + c.Get(SecondaryRoad) + " car/" + CollisionWith(c).value
        + " at " + c.Get(Latitude) + ", " + c.Get(Longitude)
  {
    match CollisionWith(c)
    case Failure(e) => Failure(e)
    case Success(with) =>
      Success(c.Get(PrimaryRoad) + " and " + c.Get(SecondaryRoad) + " car/" + with +
        " at " + c.Get(Latitude) + ", " + c.Get(Longitude))
  }

  /** Collision.collisions, the class-level dictionary of collisions by id. */
  class CollisionRegistry {
    var collisions: map<string, CollisionRecord>

    constructor ()
      ensures collisions == map[]
    {
      collisions := map[];
    }

    /** Collision(csvarray): builds the record and registers it under its id,
        replacing any collision registered under that id before. A row too
        short to read raises before registration and changes nothing. */
    method Register(row: seq<string>) returns (r: Result<CollisionRecord>)
      modifies this
      ensures r == CollisionFromRow(row)
      ensures r.Failure? ==> collisions == old(collisions)
      ensures r.Success? ==> collisions == old(collisions)[r.value.Id() := r.value]
    {
      r := CollisionFromRow(row);
      if r.Success? {
        collisions := collisions[r.value.Id() := r.value];
      }
    }

    /** `for row in rows: Collision(row)`: every row registered in turn, and on
        success the records read. The first row too short raises there and
        keeps the collisions registered from the rows before it. */
    method RegisterRows(rows: seq<seq<string>>) returns (r: Result<seq<CollisionRecord>>)
      modifies this
      ensures r.Success? <==> forall k :: 0 <= k < |rows| ==> CollisionFromRow(rows[k]).Success?
      ensures r.Success? ==> r.value == RecordsOf(rows) && collisions == RegisterAll(old(collisions), r.value)
      ensures r.Failure? ==>
        exists n :: 0 <= n < |rows| && CollisionFromRow(rows[n]).Failure? && AllReadable(rows[..n]) &&
          collisions == RegisterAll(old(collisions), RecordsOf(rows[..n]))
    {
      var read: seq<CollisionRecord> := [];
      var i := 0;
      while i < |rows|
        invariant 0 <= i <= |rows|
        invariant AllReadable(rows[..i]) && read == RecordsOf(rows[..i])
        invariant collisions == RegisterAll(old(collisions), read)
      {
        var c := Register(rows[i]);
        if c.Failure? {
          return Failure(c.error);
        }
        RecordsOfNext(rows, i);
        RegisterAllNext(old(collisions), read, c.value);
        read := read + [c.value];
        i := i + 1;
      }
      assert rows[..i] == rows;
      return Success(read);
    }
    /** The parties loop, or the victims loop, of read_all_data_from_database:
        each member appended in turn to the parties or victims of the
        collision registered under its collision id. A member whose collision
        is not registered raises KeyError there, keeping the appends before it. */
    method AttachMembers(ms: seq<Member>) returns (r: Result<()>)
      modifies this
      ensures r.Success? <==> AttachAll(old(collisions), ms).Some?
      ensures r.Success? ==> collisions == AttachAll(old(collisions), ms).value
      ensures r.Failure? ==>
        exists n :: 0 <= n < |ms| && AttachAll(old(collisions), ms[..n]) == Some(collisions) &&
          ms[n].CollisionId() !in collisions
    {
      var i := 0;
      while i < |ms|
        invariant 0 <= i <= |ms|
        invariant AttachAll(old(collisions), ms[..i]) == Some(collisions)
      {
        var id := ms[i].CollisionId();
        if id !in collisions {
          AttachAllStuck(old(collisions), ms, i, collisions);
          return Failure("KeyError");
        }
        collisions := collisions[id := Attach(collisions[id], ms[i])];
        assert ms[..i + 1][..i] == ms[..i];
        i := i + 1;
      }
      assert ms[..i] == ms;
      return Success(());
    }
  }

  /** Every row is long enough to read a collision from. */
  predicate AllReadable(rows: seq<seq<string>>)
  {
    forall k :: 0 <= k < |rows| ==> CollisionFromRow(rows[k]).Success?
  }

  /** The collisions read from readable rows, in row order. */
  function RecordsOf(rows: seq<seq<string>>): (cs: seq<CollisionRecord>)
    requires AllReadable(rows)
    ensures |cs| == |rows| && forall k :: 0 <= k < |rows| ==> CollisionFromRow(rows[k]) == Success(cs[k])
  {
    seq(|rows|, k requires 0 <= k < |rows| => CollisionFromRow(rows[k]).value)
  }

  lemma RecordsOfNext(rows: seq<seq<string>>, i: nat)
    requires i < |rows| && AllReadable(rows[..i]) && CollisionFromRow(rows[i]).Success?
    ensures AllReadable(rows[..i + 1])
    ensures RecordsOf(rows[..i + 1]) == RecordsOf(rows[..i]) + [CollisionFromRow(rows[i]).value]
  {
    assert rows[..i + 1] == rows[..i] + [rows[i]];
  }

  /** The registry after registering `cs` in order, starting from `before`. */
  function RegisterAll(before: map<string, CollisionRecord>, cs: seq<CollisionRecord>): map<string, CollisionRecord>
    decreases |cs|
  {
    if cs == [] then before
    else
      var last := cs[|cs| - 1];
      RegisterAll(before, cs[..|cs| - 1])[last.Id() := last]
  }

  lemma RegisterAllNext(before: map<string, CollisionRecord>, cs: seq<CollisionRecord>, c: CollisionRecord)
    ensures RegisterAll(before, cs + [c]) == RegisterAll(before, cs)[c.Id() := c]
  {
    assert (cs + [c])[..|cs|] == cs;
  }

  /** After registering `cs`, an id is registered exactly when it was before or
      some record has it; the last record with the id is the one registered,
      and an id no record has keeps what it held before. */
  lemma {:induction false} LaterRowReplaces(before: map<string, CollisionRecord>, cs: seq<CollisionRecord>, id: string)
    ensures id in RegisterAll(before, cs) <==> id in before || exists k :: 0 <= k < |cs| && cs[k].Id() == id
    ensures forall k :: 0 <= k < |cs| && cs[k].Id() == id && (forall j :: k < j < |cs| ==> cs[j].Id() != id) ==>
      id in RegisterAll(before, cs) && RegisterAll(before, cs)[id] == cs[k]
    ensures (forall k :: 0 <= k < |cs| ==> cs[k].Id() != id) && id in before ==>
      RegisterAll(before, cs)[id] == before[id]
    decreases |cs|
  {
    if cs != [] {
      var init, last := cs[..|cs| - 1], cs[|cs| - 1];
      LaterRowReplaces(before, init, id);
      assert forall k :: 0 <= k < |init| ==> init[k] == cs[k];
      if last.Id() == id {
        assert cs[|cs| - 1].Id() == id;
      }
    }
  }

  /** A party or a victim read from its row, on its way to its collision. */
  datatype Member = PartyMember(party: PartyRecord) | VictimMember(victim: VictimRecord)
  {
    /** The id of the collision it belongs to. */
    function CollisionId(): string
    {
      match this
      case PartyMember(p) => p.Get(PartyField.CollisionId)
      case VictimMember(v) => v.Get(VictimField.CollisionId)
    }
  }

  /** The collision with `m` appended to its parties or to its victims. */
  function Attach(c: CollisionRecord, m: Member): CollisionRecord
  {
    match m
    case PartyMember(p) => c.(parties := c.parties + [p])
    case VictimMember(v) => c.(victims := c.victims + [v])
  }

  /** The parties among `ms` that belong to collision `id`, in order. */
  function PartiesOf(ms: seq<Member>, id: string): seq<PartyRecord>
  {
    if ms == [] then []
    else
      var last := ms[|ms| - 1];
      PartiesOf(ms[..|ms| - 1], id) + (if last.PartyMember? && last.CollisionId() == id then [last.party] else [])
  }

  /** The victims among `ms` that belong to collision `id`, in order. */
  function VictimsOf(ms: seq<Member>, id: string): seq<VictimRecord>
  {
    if ms == [] then []
    else
      var last := ms[|ms| - 1];
      VictimsOf(ms[..|ms| - 1], id) + (if last.VictimMember? && last.CollisionId() == id then [last.victim] else [])
  }

  /** The registry after attaching `ms` in order to their collisions, or None
      when some member's collision is not registered. */
  function AttachAll(reg: map<string, CollisionRecord>, ms: seq<Member>): Option<map<string, CollisionRecord>>
  {
    if ms == [] then Some(reg)
    else
      match AttachAll(reg, ms[..|ms| - 1])
      case None => None
      case Some(m) =>
        var id := ms[|ms| - 1].CollisionId();
        if id in m then Some(m[id := Attach(m[id], ms[|ms| - 1])]) else None
  }

  /** Attaching succeeds exactly when every member's collision is registered;
      then the same ids are registered, and each collision has gained, after
      its earlier parties and victims, exactly the members with its id, in
      order. */
  lemma {:induction false} AttachAllMeaning(reg: map<string, CollisionRecord>, ms: seq<Member>)
    ensures AttachAll(reg, ms).Some? <==> forall k :: 0 <= k < |ms| ==> ms[k].CollisionId() in reg
    ensures AttachAll(reg, ms).Some? ==>
      && AttachAll(reg, ms).value.Keys == reg.Keys
      && forall id :: id in reg ==> AttachAll(reg, ms).value[id] == Attached(reg[id], ms, id)
    decreases |ms|
  {
    AttachAllSucceeds(reg, ms);
    if ms != [] {
      var init, last := ms[..|ms| - 1], ms[|ms| - 1];
      AttachAllMeaning(reg, init);
      if AttachAll(reg, ms).Some? {
        forall id | id in reg
          ensures AttachAll(reg, ms).value[id] == Attached(reg[id], ms, id)
        {
          AttachedStep(reg[id], ms, id);
        }
      }
    }
  }

  lemma {:induction false} AttachAllSucceeds(reg: map<string, CollisionRecord>, ms: seq<Member>)
    ensures AttachAll(reg, ms).Some? <==> forall k :: 0 <= k < |ms| ==> ms[k].CollisionId() in reg
    decreases |ms|
  {
    if ms != [] {
      var init, last := ms[..|ms| - 1], ms[|ms| - 1];
      AttachAllSucceeds(reg, init);
      AttachAllKeys(reg, init);
      if AttachAll(reg, init).None? {
        var k :| 0 <= k < |init| && init[k].CollisionId() !in reg;
        assert ms[k] == init[k];
      } else if last.CollisionId() in reg {
        forall k | 0 <= k < |ms| ensures ms[k].CollisionId() in reg {
          if k < |init| {
            assert ms[k] == init[k];
          }
        }
      } else {
        assert ms[|ms| - 1].CollisionId() !in reg;
      }
    }
  }

  lemma {:induction false} AttachAllKeys(reg: map<string, CollisionRecord>, ms: seq<Member>)
    ensures AttachAll(reg, ms).Some? ==> AttachAll(reg, ms).value.Keys == reg.Keys
    decreases |ms|
  {
    if ms != [] {
      AttachAllKeys(reg, ms[..|ms| - 1]);
    }
  }

  /** `c` with the parties and victims of `ms` that belong to collision `id`
      appended, in order. */
  function Attached(c: CollisionRecord, ms: seq<Member>, id: string): CollisionRecord
  {
    c.(parties := c.parties + PartiesOf(ms, id), victims := c.victims + VictimsOf(ms, id))
  }

  lemma AttachedStep(c: CollisionRecord, ms: seq<Member>, id: string)
    requires ms != []
    ensures Attached(c, ms, id) ==
      var before := Attached(c, ms[..|ms| - 1], id);
      if ms[|ms| - 1].CollisionId() == id then Attach(before, ms[|ms| - 1]) else before
  {
    var init := ms[..|ms| - 1];
    assert c.parties + PartiesOf(init, id) + [] == c.parties + PartiesOf(init, id);
    assert c.victims + VictimsOf(init, id) + [] == c.victims + VictimsOf(init, id);
    match ms[|ms| - 1]
    case PartyMember(p) =>
      assert c.parties + PartiesOf(init, id) + [p] == c.parties + (PartiesOf(init, id) + [p]);
    case VictimMember(v) =>
      assert c.victims + VictimsOf(init, id) + [v] == c.victims + (VictimsOf(init, id) + [v]);
  }

  lemma AttachAllStuck(reg: map<string, CollisionRecord>, ms: seq<Member>, n: nat, m: map<string, CollisionRecord>)
    requires n < |ms| && AttachAll(reg, ms[..n]) == Some(m) && ms[n].CollisionId() !in m
    ensures AttachAll(reg, ms) == None
  {
    AttachAllMeaning(reg, ms[..n]);
    AttachAllMeaning(reg, ms);
  }
}
