/** CollisionStatistics: the counts behind the page's bar charts, by victim
    sex, injury and age decade, and by collision year. Both revisions of the
    page share this code. */
module Statistics {
  import opened Sequences
  import opened Records

  /** The slot of victimSexes a victim is counted in: female, male, other. */
  function SexSlot(v: Victim): int
  {
    if IsFemale(v) then 0 else if IsMale(v) then 1 else 2
  }

  /** The slot of victimInjuries: the injury code itself. */
  function InjurySlot(v: Victim): int
  {
    v.injury
  }

  function Min(a: int, b: int): int
  {
    if a <= b then a else b
  }

  /** The slot of victimAges: the age decade, the last slot holding every age
      from 90 up; an age outside 0..149 (unrecorded) is counted nowhere, shown
      here as slot -1. */
  function AgeSlot(v: Victim): int
  {
    if v.age >= 0 && v.age < 150 then Min(v.age / 10, 9) else -1
  }

  /** `counts` after one victim classified into `slot`; a slot outside the
      counters changes nothing. */
  function Tally(counts: seq<nat>, slot: int): seq<nat>
  {
    if 0 <= slot < |counts| then counts[slot := counts[slot] + 1] else counts
  }

  /** The counters after classifying each victim of `vs` into one of `n` slots. */
  function Histogram(vs: seq<Victim>, slot: Victim -> int, n: nat): (h: seq<nat>)
    ensures |h| == n
  {
    if vs == [] then seq(n, _ => 0)
    else Tally(Histogram(vs[..|vs| - 1], slot, n), slot(vs[|vs| - 1]))
  }

  /** How many victims of `vs` are classified into slot `k`. */
  function InSlot(vs: seq<Victim>, slot: Victim -> int, k: int): nat
  {
    if vs == [] then 0
    else InSlot(vs[..|vs| - 1], slot, k) + (if slot(vs[|vs| - 1]) == k then 1 else 0)
  }

  /** How many victims of `vs` are classified into one of the slots 0..n-1. */
  function InSomeSlot(vs: seq<Victim>, slot: Victim -> int, n: nat): nat
  {
    if vs == [] then 0
    else InSomeSlot(vs[..|vs| - 1], slot, n) + (if 0 <= slot(vs[|vs| - 1]) < n then 1 else 0)
  }

  lemma HistogramAppend(vs: seq<Victim>, v: Victim, slot: Victim -> int, n: nat)
    ensures Histogram(vs + [v], slot, n) == Tally(Histogram(vs, slot, n), slot(v))
  {
    assert (vs + [v])[..|vs|] == vs;
  }

  /** Counter k holds the number of victims classified into slot k. */
  lemma {:induction false} HistogramCountsSlot(vs: seq<Victim>, slot: Victim -> int, n: nat, k: nat)
    requires k < n
    ensures Histogram(vs, slot, n)[k] == InSlot(vs, slot, k)
    decreases |vs|
  {
    if vs != [] {
      HistogramCountsSlot(vs[..|vs| - 1], slot, n, k);
    }
  }

  /** The counters add up to the number of victims that fall into some slot. */
  lemma {:induction false} HistogramSum(vs: seq<Victim>, slot: Victim -> int, n: nat)
    ensures Sum(Histogram(vs, slot, n)) == InSomeSlot(vs, slot, n)
    decreases |vs|
  {
    if vs == [] {
      SumOfZeros(n);
    } else {
      var p := vs[..|vs| - 1];
      HistogramSum(p, slot, n);
      var s := slot(vs[|vs| - 1]);
      if 0 <= s < n {
        SumIncrement(Histogram(p, slot, n), s);
      }
    }
  }

  /** At most every victim falls into some slot, and exactly every victim does
      iff none is classified outside 0..n-1. */
  lemma {:induction false} InSomeSlotBound(vs: seq<Victim>, slot: Victim -> int, n: nat)
    ensures InSomeSlot(vs, slot, n) <= |vs|
    ensures InSomeSlot(vs, slot, n) == |vs| <==> forall k :: 0 <= k < |vs| ==> 0 <= slot(vs[k]) < n
    decreases |vs|
  {
    if vs != [] {
      var m := |vs| - 1;
      var p := vs[..m];
      InSomeSlotBound(p, slot, n);
      if InSomeSlot(vs, slot, n) == |vs| {
        forall k | 0 <= k < |vs| ensures 0 <= slot(vs[k]) < n {
          if k < m {
            assert vs[k] == p[k];
          }
        }
      }
      if forall k :: 0 <= k < |vs| ==> 0 <= slot(vs[k]) < n {
        forall k | 0 <= k < m ensures 0 <= slot(p[k]) < n {
          assert p[k] == vs[k];
        }
      }
    }
  }

  /** Sum and bound together: the counters add up to at most the number of
      victims, and to exactly that number iff every victim has a slot. */
  lemma HistogramTotal(vs: seq<Victim>, slot: Victim -> int, n: nat)
    ensures Sum(Histogram(vs, slot, n)) <= |vs|
    ensures Sum(Histogram(vs, slot, n)) == |vs| <==> forall k :: 0 <= k < |vs| ==> 0 <= slot(vs[k]) < n
  {
    HistogramSum(vs, slot, n);
    InSomeSlotBound(vs, slot, n);
  }

  /** Every victim is counted in exactly one of the three sex slots. */
  lemma SexCountsAddUp(vs: seq<Victim>)
    ensures Sum(Histogram(vs, SexSlot, 3)) == |vs|
    ensures Histogram(vs, SexSlot, 3)[0] == InSlot(vs, SexSlot, 0)
    ensures Histogram(vs, SexSlot, 3)[1] == InSlot(vs, SexSlot, 1)
    ensures Histogram(vs, SexSlot, 3)[2] == InSlot(vs, SexSlot, 2)
  {
    HistogramTotal(vs, SexSlot, 3);
    HistogramCountsSlot(vs, SexSlot, 3, 0);
    HistogramCountsSlot(vs, SexSlot, 3, 1);
    HistogramCountsSlot(vs, SexSlot, 3, 2);
  }

  /** The injury counters add up to at most the number of victims, and to
      exactly that number iff every injury code is one of 0..4. */
  lemma InjuryCountsAddUp(vs: seq<Victim>)
    ensures Sum(Histogram(vs, InjurySlot, 5)) <= |vs|
    ensures Sum(Histogram(vs, InjurySlot, 5)) == |vs| <==>
      forall k :: 0 <= k < |vs| ==> 0 <= vs[k].injury < 5
  {
    HistogramTotal(vs, InjurySlot, 5);
  }

  /** Only recorded ages are counted: the age counters add up to at most the
      number of victims, and to exactly that number iff every age is in 0..149. */
  lemma AgeCountsAddUp(vs: seq<Victim>)
    ensures Sum(Histogram(vs, AgeSlot, 10)) <= |vs|
    ensures Sum(Histogram(vs, AgeSlot, 10)) == |vs| <==>
      forall k :: 0 <= k < |vs| ==> 0 <= vs[k].age < 150
  {
    HistogramTotal(vs, AgeSlot, 10);
    assert forall k :: 0 <= k < |vs| ==> (0 <= AgeSlot(vs[k]) < 10 <==> 0 <= vs[k].age < 150);
  }

  /** Slot k < 9 holds ages 10k..10k+9, slot 9 every recorded age from 90. */
  lemma AgeSlotMeaning(v: Victim, k: int)
    ensures 0 <= k < 9 ==> (AgeSlot(v) == k <==> 10 * k <= v.age < 10 * k + 10)
    ensures AgeSlot(v) == 9 <==> 90 <= v.age < 150
  {
  }

  function Years<D>(cs: seq<Collision<D>>): seq<int>
  {
    if cs == [] then [] else Years(cs[..|cs| - 1]) + [cs[|cs| - 1].year]
  }

  /** yearsSeen: every year once, in order of first appearance. */
  function YearsSeen<D>(cs: seq<Collision<D>>): seq<int>
  {
    Distinct(Years(cs))
  }

  /** collisionYears: the number of collisions per year. */
  function YearCounts<D>(cs: seq<Collision<D>>): map<int, nat>
  {
    if cs == [] then map[]
    else
      var counts := YearCounts(cs[..|cs| - 1]);
      var y := cs[|cs| - 1].year;
      counts[y := (if y in counts then counts[y] else 0) + 1]
  }

  /** How many collisions of `cs` happened in year `y`. */
  function InYear<D>(cs: seq<Collision<D>>, y: int): nat
  {
    if cs == [] then 0
    else InYear(cs[..|cs| - 1], y) + (if cs[|cs| - 1].year == y then 1 else 0)
  }

  lemma YearsAppend<D>(cs: seq<Collision<D>>, c: Collision<D>)
    ensures Years(cs + [c]) == Years(cs) + [c.year]
  {
    assert (cs + [c])[..|cs|] == cs;
  }

  lemma YearCountsAppend<D>(cs: seq<Collision<D>>, c: Collision<D>)
    ensures YearCounts(cs + [c]) ==
      YearCounts(cs)[c.year := (if c.year in YearCounts(cs) then YearCounts(cs)[c.year] else 0) + 1]
  {
    assert (cs + [c])[..|cs|] == cs;
  }

  lemma YearsSeenAppend<D>(cs: seq<Collision<D>>, c: Collision<D>)
    ensures c.year in YearsSeen(cs) <==> c.year in Years(cs)
    ensures c.year in YearsSeen(cs) ==> YearsSeen(cs + [c]) == YearsSeen(cs)
    ensures c.year !in YearsSeen(cs) ==> YearsSeen(cs + [c]) == YearsSeen(cs) + [c.year]
  {
    YearsAppend(cs, c);
    DistinctMember(Years(cs), c.year);
    DistinctAppend(Years(cs), c.year);
  }

  /** A year has a counter iff some collision happened in it, and the counter
      is the number of collisions of that year. */
  lemma {:induction false} YearCountOf<D>(cs: seq<Collision<D>>, y: int)
    ensures y in YearCounts(cs) <==> y in Years(cs)
    ensures y in YearCounts(cs) ==> YearCounts(cs)[y] == InYear(cs, y)
    ensures y !in YearCounts(cs) ==> InYear(cs, y) == 0
    decreases |cs|
  {
    if cs != [] {
      var m := |cs| - 1;
      YearCountOf(cs[..m], y);
      assert cs == cs[..m] + [cs[m]];
      YearsAppend(cs[..m], cs[m]);
      YearCountsAppend(cs[..m], cs[m]);
    }
  }

  /** What processCollision does to yearsSeen and collisionYears: a year not
      seen before is appended and its counter opened at zero; then its counter
      goes up by one. */
  lemma YearStep<D>(cs: seq<Collision<D>>, c: Collision<D>)
    ensures c.year in YearsSeen(cs) <==> c.year in YearCounts(cs)
    ensures c.year in YearsSeen(cs) ==>
      && YearsSeen(cs + [c]) == YearsSeen(cs)
      && YearCounts(cs + [c]) == YearCounts(cs)[c.year := YearCounts(cs)[c.year] + 1]
    ensures c.year !in YearsSeen(cs) ==>
      && YearsSeen(cs + [c]) == YearsSeen(cs) + [c.year]
      && YearCounts(cs + [c]) == YearCounts(cs)[c.year := 1]
  {
    YearsSeenAppend(cs, c);
    YearCountsAppend(cs, c);
    YearCountOf(cs, c.year);
  }

  /** The counters of the years in yearsSeen. */
  function CountsOfYears(years: seq<int>, counts: map<int, nat>): seq<nat>
    requires forall k :: 0 <= k < |years| ==> years[k] in counts
  {
    seq(|years|, k requires 0 <= k < |years| => counts[years[k]])
  }

  /** Counting one more collision in a year already listed adds one to the total. */
  lemma CountsOfSeenYear(years: seq<int>, counts: map<int, nat>, y: int)
    requires NoDuplicates(years)
    requires forall k :: 0 <= k < |years| ==> years[k] in counts
    requires y in years
    ensures y in counts
    ensures Sum(CountsOfYears(years, counts[y := counts[y] + 1])) == Sum(CountsOfYears(years, counts)) + 1
  {
    var at := FirstIndex(years, y);
    var sums := CountsOfYears(years, counts);
    var after := CountsOfYears(years, counts[y := counts[y] + 1]);
    forall k | 0 <= k < |years| ensures after[k] == sums[at := sums[at] + 1][k] {
      if k != at {
        assert years[k] != years[at];
      }
    }
    assert after == sums[at := sums[at] + 1];
    SumIncrement(sums, at);
  }

  /** Listing a new year with a count of one adds one to the total. */
  lemma CountsOfNewYear(years: seq<int>, counts: map<int, nat>, y: int)
    requires forall k :: 0 <= k < |years| ==> years[k] in counts
    requires y !in years
    ensures Sum(CountsOfYears(years + [y], counts[y := 1])) == Sum(CountsOfYears(years, counts)) + 1
  {
    var sums := CountsOfYears(years, counts);
    var after := CountsOfYears(years + [y], counts[y := 1]);
    forall k | 0 <= k < |years| ensures after[k] == sums[k] {
      assert years[k] in years;
    }
    assert after == sums + [1];
    assert after[..|sums|] == sums;
  }

  /** The per-year counters, read in yearsSeen order, add up to the number of
      collisions. */
  lemma SeenYearsCounted<D>(cs: seq<Collision<D>>)
    ensures forall k :: 0 <= k < |YearsSeen(cs)| ==> YearsSeen(cs)[k] in YearCounts(cs)
  {
    var seen := YearsSeen(cs);
    forall k | 0 <= k < |seen| ensures seen[k] in YearCounts(cs) {
      DistinctMember(Years(cs), seen[k]);
      YearCountOf(cs, seen[k]);
    }
  }

  lemma YearCountsAddUpStep<D>(p: seq<Collision<D>>, c: Collision<D>)
    requires forall k :: 0 <= k < |YearsSeen(p)| ==> YearsSeen(p)[k] in YearCounts(p)
    requires forall k :: 0 <= k < |YearsSeen(p + [c])| ==> YearsSeen(p + [c])[k] in YearCounts(p + [c])
    ensures Sum(CountsOfYears(YearsSeen(p + [c]), YearCounts(p + [c]))) ==
      Sum(CountsOfYears(YearsSeen(p), YearCounts(p))) + 1
  {
    YearStep(p, c);
    DistinctIsDeduplication(Years(p));
    if c.year in YearsSeen(p) {
      CountsOfSeenYear(YearsSeen(p), YearCounts(p), c.year);
    } else {
      CountsOfNewYear(YearsSeen(p), YearCounts(p), c.year);
    }
  }

  lemma {:induction false} YearCountsAddUp<D>(cs: seq<Collision<D>>)
    ensures forall k :: 0 <= k < |YearsSeen(cs)| ==> YearsSeen(cs)[k] in YearCounts(cs)
    ensures Sum(CountsOfYears(YearsSeen(cs), YearCounts(cs))) == |cs|
    decreases |cs|
  {
    SeenYearsCounted(cs);
    if cs == [] {
      assert CountsOfYears(YearsSeen(cs), YearCounts(cs)) == [];
    } else {
      var p := cs[..|cs| - 1];
      var c := cs[|cs| - 1];
      assert cs == p + [c];
      YearCountsAddUp(p);
      YearCountsAddUpStep(p, c);
    }
  }

  /** yearsSeen lists each year once, exactly the years that occur, in order of
      first appearance. */
  lemma YearsSeenInFirstSeenOrder<D>(cs: seq<Collision<D>>)
    ensures NoDuplicates(YearsSeen(cs))
    ensures forall y :: y in YearsSeen(cs) <==> y in Years(cs)
    ensures forall i, j :: 0 <= i < j < |YearsSeen(cs)| ==>
      YearsSeen(cs)[i] in Years(cs) && YearsSeen(cs)[j] in Years(cs) &&
      FirstIndex(Years(cs), YearsSeen(cs)[i]) < FirstIndex(Years(cs), YearsSeen(cs)[j])
  {
    DistinctIsDeduplication(Years(cs));
    DistinctKeepsFirstSeenOrder(Years(cs));
  }

  /** The collisions of the groups, group after group. */
  function Flatten<D>(groups: seq<seq<Collision<D>>>): seq<Collision<D>>
  {
    if groups == [] then [] else Flatten(groups[..|groups| - 1]) + groups[|groups| - 1]
  }

  /** The victims of the collisions, collision after collision. */
  function AllVictims<D>(cs: seq<Collision<D>>): seq<Victim>
  {
    if cs == [] then [] else AllVictims(cs[..|cs| - 1]) + cs[|cs| - 1].victims
  }

  lemma AllVictimsAppend<D>(cs: seq<Collision<D>>, c: Collision<D>)
    ensures AllVictims(cs + [c]) == AllVictims(cs) + c.victims
  {
    assert (cs + [c])[..|cs|] == cs;
  }

  class CollisionStatistics<D> {
    var victimInjuries: array<nat>
    var victimSexes: array<nat>
    var victimAges: array<nat>
    var collisionYears: map<int, nat>
    var yearsSeen: seq<int>
    /** The collisions and the victims processed so far. */
    ghost var collisions: seq<Collision<D>>
    ghost var victims: seq<Victim>

    ghost predicate Valid()
      reads this, victimInjuries, victimSexes, victimAges
    {
      CountsValid() && YearsValid()
    }

    /** The three victim counters are the histograms of the victims so far. */
    ghost predicate CountsValid()
      reads this, victimInjuries, victimSexes, victimAges
    {
      && victimInjuries.Length == 5
      && victimSexes.Length == 3
      && victimAges.Length == 10
      && victimSexes[..] == Histogram(victims, SexSlot, 3)
      && victimInjuries[..] == Histogram(victims, InjurySlot, 5)
      && victimAges[..] == Histogram(victims, AgeSlot, 10)
    }

    /** The year counters and yearsSeen describe the collisions so far. */
    ghost predicate YearsValid()
      reads this
    {
      && collisionYears == YearCounts(collisions)
      && yearsSeen == YearsSeen(collisions)
    }

    /** Processes every collision of every group, in order. */
    constructor (collisionGroups: seq<seq<Collision<D>>>)
      ensures Valid()
      ensures collisions == Flatten(collisionGroups)
      ensures victims == AllVictims(collisions)
      ensures fresh(victimInjuries) && fresh(victimSexes) && fresh(victimAges)
    {
      victimInjuries := new nat[5](_ => 0);
      victimSexes := new nat[3](_ => 0);
      victimAges := new nat[10](_ => 0);
      collisionYears := map[];
      yearsSeen := [];
      collisions := [];
      victims := [];
      new;
      assert victimSexes[..] == seq(3, _ => 0);
      assert victimInjuries[..] == seq(5, _ => 0);
      assert victimAges[..] == seq(10, _ => 0);
      var i := 0;
      while i < |collisionGroups|
        invariant 0 <= i <= |collisionGroups|
        invariant Valid()
        invariant fresh(victimInjuries) && fresh(victimSexes) && fresh(victimAges)
        invariant collisions == Flatten(collisionGroups[..i])
        invariant victims == AllVictims(collisions)
      {
        assert collisionGroups[..i + 1][..i] == collisionGroups[..i];
        ProcessGroup(collisionGroups[i]);
        i := i + 1;
      }
      assert collisionGroups[..i] == collisionGroups;
    }

    /** The inner loop of the constructor: the collisions of one group, in order. */
    method ProcessGroup(group: seq<Collision<D>>)
      requires Valid()
      requires victims == AllVictims(collisions)
      modifies this, victimInjuries, victimSexes, victimAges
      ensures Valid()
      ensures collisions == old(collisions) + group
      ensures victims == AllVictims(collisions)
      ensures victimInjuries == old(victimInjuries) && victimSexes == old(victimSexes) && victimAges == old(victimAges)
    {
      ghost var start := collisions;
      var j := 0;
      while j < |group|
        invariant 0 <= j <= |group|
        invariant Valid()
        invariant victimInjuries == old(victimInjuries) && victimSexes == old(victimSexes) && victimAges == old(victimAges)
        invariant collisions == start + group[..j]
        invariant victims == AllVictims(collisions)
      {
        PrefixStep(start, group, j);
        AllVictimsAppend(collisions, group[j]);
        ProcessCollision(group[j]);
        j := j + 1;
      }
      assert group[..j] == group;
    }

    /** processCollision: counts the collision under its year, then processes
        its victims in order. */
    method ProcessCollision(c: Collision<D>)
      requires Valid()
      modifies this, victimInjuries, victimSexes, victimAges
      ensures Valid()
      ensures collisions == old(collisions) + [c]
      ensures victims == old(victims) + c.victims
      ensures victimInjuries == old(victimInjuries) && victimSexes == old(victimSexes) && victimAges == old(victimAges)
    {
      CountYear(c);
      ghost var before := victims;
      var v := 0;
      while v < |c.victims|
        invariant 0 <= v <= |c.victims|
        invariant Valid()
        invariant collisions == old(collisions) + [c]
        invariant victims == before + c.victims[..v]
        invariant victimInjuries == old(victimInjuries) && victimSexes == old(victimSexes) && victimAges == old(victimAges)
      {
        PrefixStep(before, c.victims, v);
        ProcessVictim(c.victims[v]);
        v := v + 1;
      }
      assert c.victims[..v] == c.victims;
    }

    /** The year bookkeeping of processCollision: a year not seen before is
        appended to yearsSeen with its counter opened at zero; then the
        counter of the collision's year goes up by one. */
    method CountYear(c: Collision<D>)
      requires YearsValid()
      modifies this
      ensures YearsValid()
      ensures collisions == old(collisions) + [c]
      ensures victims == old(victims)
      ensures victimInjuries == old(victimInjuries) && victimSexes == old(victimSexes) && victimAges == old(victimAges)
    {
      yearsSeen, collisionYears := NextYear(yearsSeen, collisionYears, collisions, c);
      collisions := collisions + [c];
    }

    /** processVictim: one count in its sex slot, one in its injury slot, and
        one in its age slot when the age is recorded. An injury code outside
        0..4 lands in none of the five injury counters. */
    method ProcessVictim(v: Victim)
      requires Valid()
      modifies this, victimInjuries, victimSexes, victimAges
      ensures Valid()
      ensures victims == old(victims) + [v]
      ensures collisions == old(collisions)
      ensures victimInjuries == old(victimInjuries) && victimSexes == old(victimSexes) && victimAges == old(victimAges)
    {
      HistogramAppend(victims, v, SexSlot, 3);
      HistogramAppend(victims, v, InjurySlot, 5);
      HistogramAppend(victims, v, AgeSlot, 10);
      CountSex(v);
      Increment(victimInjuries, v.injury);
      CountAge(v);
      victims := victims + [v];
    }

    method CountSex(v: Victim)
      requires victimSexes.Length == 3
      modifies victimSexes
      ensures victimSexes[..] == Tally(old(victimSexes[..]), SexSlot(v))
    {
      if IsFemale(v) {
        victimSexes[0] := victimSexes[0] + 1;
      } else if IsMale(v) {
        victimSexes[1] := victimSexes[1] + 1;
      } else {
        victimSexes[2] := victimSexes[2] + 1;
      }
    }

    /** Ages outside 0..149 stand for an unrecorded age and are not counted. */
    method CountAge(v: Victim)
      requires victimAges.Length == 10
      modifies victimAges
      ensures victimAges[..] == Tally(old(victimAges[..]), AgeSlot(v))
    {
      if v.age >= 0 && v.age < 150 {
        var ageGroup := Min(v.age / 10, victimAges.Length - 1);
        victimAges[ageGroup] := victimAges[ageGroup] + 1;
      }
    }
  }

  /** The year bookkeeping of processCollision on the values of yearsSeen and
      collisionYears for the collisions `cs` processed before `c`. */
  method NextYear<D>(seen: seq<int>, counts: map<int, nat>, ghost cs: seq<Collision<D>>, c: Collision<D>)
    returns (seen': seq<int>, counts': map<int, nat>)
    requires seen == YearsSeen(cs) && counts == YearCounts(cs)
    ensures seen' == YearsSeen(cs + [c]) && counts' == YearCounts(cs + [c])
  {
    YearStep(cs, c);
    if c.year !in seen {
      // the counter is opened at zero and at once raised to one
      seen' := seen + [c.year];
      counts' := counts[c.year := 1];
      assert counts' == YearCounts(cs + [c]);
    } else {
      seen' := seen;
      counts' := counts[c.year := counts[c.year] + 1];
    }
  }

  /** `counts[slot]++`; a slot outside the counters leaves them as they are. */
  method Increment(counts: array<nat>, slot: int)
    modifies counts
    ensures counts[..] == Tally(old(counts[..]), slot)
  {
    if 0 <= slot < counts.Length {
      counts[slot] := counts[slot] + 1;
    }
  }
}
