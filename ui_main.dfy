/** The parts of the later page revision that are its own: building a
    collision from its JSON record, the victim's display strings, and the
    date order of a popup's collisions. */
module UiMain {
  import opened Wrappers
  import opened Decimal
  import opened Records
  import Statistics

  /** A collision as it appears in the page's JSON data; `time` is in seconds
      since the epoch. */
  datatype JsonCollision = JsonCollision(
    intersection: string,
    time: int,
    sex: string,
    collisionType: string,
    location: LatLng,
    victims: seq<Victim>)

  /** The record `new Collision(json)` builds: its date is the time in
      milliseconds, its year the calendar year of that date, which depends on
      the viewer's time zone and is given by `yearOf`. */
  function CollisionOf(j: JsonCollision, yearOf: int -> int): Collision<int>
  {
    Collision(j.intersection, j.time * 1000, yearOf(j.time * 1000), j.sex, j.collisionType, j.location, j.victims)
  }

  /** new Collision(json): copies the fields and builds the victims one by one,
      in the order of the JSON list. */
  method NewCollision(j: JsonCollision, yearOf: int -> int) returns (c: Collision<int>)
    ensures c == CollisionOf(j, yearOf)
    ensures c.date == 1000 * j.time && c.year == yearOf(c.date)
    ensures |c.victims| == |j.victims|
    ensures forall k :: 0 <= k < |c.victims| ==> c.victims[k] == j.victims[k]
  {
    var date := j.time * 1000;
    var victims: seq<Victim> := [];
    var v := 0;
    while v < |j.victims|
      invariant 0 <= v <= |j.victims|
      invariant victims == j.victims[..v]
    {
      var json := j.victims[v];
      victims := victims + [Victim(json.injury, json.age, json.sex)];
      v := v + 1;
    }
    assert j.victims[..v] == j.victims;
    c := Collision(j.intersection, date, yearOf(date), j.sex, j.collisionType, j.location, victims);
  }

  /** Victim.sexString: "male", "female", or empty for any other code. */
  function SexString(v: Victim): (r: string)
    ensures r == "male" <==> IsMale(v)
    ensures r == "female" <==> IsFemale(v)
    ensures r == "" <==> !IsMale(v) && !IsFemale(v)
  {
    if IsMale(v) then "male" else if IsFemale(v) then "female" else ""
  }

  /** The popup names a victim's sex exactly as the statistics count it. */
  lemma SexStringMatchesStatistics(v: Victim)
    ensures SexString(v) == "female" <==> Statistics.SexSlot(v) == 0
    ensures SexString(v) == "male" <==> Statistics.SexSlot(v) == 1
    ensures SexString(v) == "" <==> Statistics.SexSlot(v) == 2
  {
  }

  /** Victim.ageString: the age in shortest decimal form when below 150, and
      "N/A" for the large values that stand for an unrecorded age. */
  function AgeString(v: Victim): (r: string)
    ensures v.age < 150 ==> ParseInt(r) == Some(v.age) && Normalized(r) == r
    ensures r == "N/A" <==> v.age >= 150
  {
    if v.age < 150 then
      IntToStringRoundTrip(v.age);
      ParseIntNormalForm(IntToString(v.age));
      assert ParseInt("N/A") == None by {
        assert !IsDigit("N/A"[0]);
      }
      IntToString(v.age)
    else
      "N/A"
  }

  predicate SortedByDate(s: seq<Collision<int>>)
  {
    forall i, j :: 0 <= i < j < |s| ==> s[i].date <= s[j].date
  }

  /** The popup's `collisionGroup.sort(...)`: orders the group by date, in
      place. The engine's own sorting algorithm is not modelled; an insertion
      sort stands in, and the contract leaves the order of equal dates open. */
  method SortByDate(a: array<Collision<int>>)
    modifies a
    ensures SortedByDate(a[..])
    ensures multiset(a[..]) == multiset(old(a[..]))
  {
    var n := 0;
    while n < a.Length
      invariant 0 <= n <= a.Length
      invariant SortedByDate(a[..n])
      invariant multiset(a[..]) == multiset(old(a[..]))
    {
      InsertIntoSorted(a, n);
      n := n + 1;
    }
    assert a[..n] == a[..];
  }

  /** The state of the insertion of s[j] (initially at position n) into the
      sorted prefix: leaving position j aside, s[..n+1] is sorted, and
      everything after j is later than s[j]. */
  ghost predicate Inserting(s: seq<Collision<int>>, n: nat, j: nat)
  {
    && j <= n < |s|
    && (forall p, q :: 0 <= p < q <= n && p != j && q != j ==> s[p].date <= s[q].date)
    && (forall q :: j < q <= n ==> s[j].date < s[q].date)
    && (forall p, q :: 0 <= p < j < q <= n ==> s[p].date <= s[q].date)
  }

  lemma InsertingStart(s: seq<Collision<int>>, n: nat)
    requires n < |s| && SortedByDate(s[..n])
    ensures Inserting(s, n, n)
  {
    forall p, q | 0 <= p < q < n ensures s[p].date <= s[q].date {
      assert s[..n][p] == s[p] && s[..n][q] == s[q];
    }
  }

  lemma InsertingStep(s: seq<Collision<int>>, n: nat, j: nat)
    requires Inserting(s, n, j) && 0 < j && s[j - 1].date > s[j].date
    ensures Inserting(s[j - 1 := s[j]][j := s[j - 1]], n, j - 1)
  {
  }

  lemma InsertingDone(s: seq<Collision<int>>, n: nat, j: nat)
    requires Inserting(s, n, j) && (j == 0 || s[j - 1].date <= s[j].date)
    ensures SortedByDate(s[..n + 1])
  {
    forall p, q | 0 <= p < q <= n ensures s[p].date <= s[q].date {
      if p == j || q == j {
        if p < j && 0 < j {
          assert s[p].date <= s[j - 1].date || p == j - 1;
        }
      }
    }
  }

  /** Moves a[n] left past every later-dated collision of the sorted prefix
      a[..n], leaving a[..n+1] sorted. */
  method InsertIntoSorted(a: array<Collision<int>>, n: nat)
    requires n < a.Length
    requires SortedByDate(a[..n])
    modifies a
    ensures SortedByDate(a[..n + 1])
    ensures multiset(a[..]) == multiset(old(a[..]))
    ensures a[n + 1..] == old(a[n + 1..])
  {
    InsertingStart(a[..], n);
    var j := n;
    while j > 0 && a[j - 1].date > a[j].date
      invariant 0 <= j <= n
      invariant multiset(a[..]) == multiset(old(a[..]))
      invariant a[n + 1..] == old(a[n + 1..])
      invariant Inserting(a[..], n, j)
    {
      InsertingStep(a[..], n, j);
      Swap(a, j - 1, j);
      j := j - 1;
    }
    InsertingDone(a[..], n, j);
  }

  method Swap(a: array<Collision<int>>, i: nat, j: nat)
    requires i < a.Length && j < a.Length
    modifies a
    ensures a[..] == old(a[..])[i := old(a[j])][j := old(a[i])]
    ensures multiset(a[..]) == multiset(old(a[..]))
  {
    a[i], a[j] := a[j], a[i];
  }
}
