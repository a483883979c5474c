/** The parts of the earlier page revision that are its own: the
    Array.prototype.indexOf fallback it installs on browsers that lack one,
    building a collision from its JSON record, and the text of a collision
    shown in the click alert. */
module LegacyMain {
  import opened Wrappers
  import opened Sequences
  import opened Decimal
  import opened Records

  /** The `fromIndex` argument after `+fromIndex`: absent (undefined), not a
      number, an integral number, or an infinity. */
  datatype FromIndex = Absent | NotANumber | Number(n: int) | Infinite(negative: bool)

  /** Where the search starts: 0 when the argument is absent, not a number,
      zero or infinite; a negative index counts back from the end and stops at
      the first element. */
  function StartIndex(length: nat, fromIndex: FromIndex): (start: nat)
    ensures fromIndex.Number? && fromIndex.n >= 0 ==> start == fromIndex.n
    ensures fromIndex.Number? && fromIndex.n < 0 ==>
      (start == 0 <==> -fromIndex.n >= length) &&
      (start > 0 ==> length - start == -fromIndex.n)
    ensures !fromIndex.Number? ==> start == 0
  {
    match fromIndex
    case Number(n) =>
      if n < 0 then (if n + length < 0 then 0 else n + length) else n
    case _ => 0
  }

  /** Array.prototype.indexOf as the fallback defines it: a TypeError when
      called on null or undefined (a guard that a script not in strict mode
      never reaches, since `this` then becomes the global object), otherwise
      the first index at or after the start holding `x`, or -1. The array is
      only read. */
  method IndexOf<T(==)>(a: array?<T>, x: T, fromIndex: FromIndex) returns (r: Result<int>)
    ensures a == null <==> r.Failure?
    ensures a != null ==>
      var start := StartIndex(a.Length, fromIndex);
      && (r.value == -1 || (start <= r.value < a.Length && a[r.value] == x))
      && (r.value == -1 <==> forall i :: start <= i < a.Length ==> a[i] != x)
      && (forall i :: start <= i < r.value ==> a[i] != x)
    ensures a != null && fromIndex.Absent? ==> (r.value == -1 <==> x !in a[..])
  {
    if a == null {
      return Failure("TypeError");
    }
    var length := a.Length;
    var from: int;
    match fromIndex {
      case Absent => from := 0;
      case NotANumber => from := 0;
      case Number(n) => from := n;
      case Infinite(_) => from := 0;
    }
    if from < 0 {
      from := from + length;
      if from < 0 {
        from := 0;
      }
    }
    while from < length
      invariant from >= StartIndex(length, fromIndex)
      invariant forall i :: StartIndex(length, fromIndex) <= i < from && i < length ==> a[i] != x
    {
      if a[from] == x {
        return Success(from);
      }
      from := from + 1;
    }
    return Success(-1);
  }

  /** A collision as it appears in the earlier page's JSON data: the date is
      kept as given and the year is a field of its own. */
  datatype JsonCollision<D> = JsonCollision(
    intersection: string,
    date: D,
    year: int,
    sex: string,
    collisionType: string,
    victims: seq<Victim>,
    location: LatLng)

  /** new Collision(json): takes every field over unchanged; the victims list
      is shared with the JSON record rather than copied. */
  function CollisionOf<D>(j: JsonCollision<D>): (c: Collision<D>)
    ensures c.date == j.date && c.year == j.year && c.victims == j.victims
    ensures c.intersection == j.intersection && c.collisionType == j.collisionType
    ensures c.sex == j.sex && c.location == j.location
  {
    Collision(j.intersection, j.date, j.year, j.sex, j.collisionType, j.location, j.victims)
  }

  /** One victim line of the alert text: sex, age and injury code. */
  function VictimLine(v: Victim): string
  {
    v.sex + " " + IntToString(v.age) + " " + IntToString(v.injury)
  }

  /** The victim lines, each preceded by a line break, in victim order. */
  function VictimLines(vs: seq<Victim>): string
  {
    if vs == [] then "" else VictimLines(vs[..|vs| - 1]) + "\n" + VictimLine(vs[|vs| - 1])
  }

  lemma VictimLinesAppend(vs: seq<Victim>, v: Victim)
    ensures VictimLines(vs + [v]) == VictimLines(vs) + ("\n" + VictimLine(v))
  {
    assert (vs + [v])[..|vs|] == vs;
  }

  lemma VictimLinesStep(header: string, vs: seq<Victim>, v: nat)
    requires v < |vs|
    ensures header + VictimLines(vs[..v + 1]) == header + VictimLines(vs[..v]) + ("\n" + VictimLine(vs[v]))
  {
    assert vs[..v + 1] == vs[..v] + [vs[v]];
    VictimLinesAppend(vs[..v], vs[v]);
  }

  /** Collision.toString: the intersection and the date's text, then one line
      per victim. `dateText` is how the JSON date converts to text. */
  method ToString<D>(c: Collision<D>, dateText: D -> string) returns (result: string)
    ensures result == c.intersection + " " + dateText(c.date) + VictimLines(c.victims)
  {
    result := c.intersection + " " + dateText(c.date);
    ghost var header := result;
    var v := 0;
    while v < |c.victims|
      invariant 0 <= v <= |c.victims|
      invariant result == header + VictimLines(c.victims[..v])
    {
      var victim := c.victims[v];
      var line := "\n" + VictimLine(victim);
      VictimLinesStep(header, c.victims, v);
      result := result + line;
      v := v + 1;
    }
    assert c.victims[..v] == c.victims;
  }

  predicate IsLineBreak(ch: char)
  {
    ch == '\n'
  }

  function LineBreaks(s: string): nat
  {
    Count(s, IsLineBreak)
  }

  lemma {:induction false} LineBreaksAppend(s: string, t: string)
    ensures LineBreaks(s + t) == LineBreaks(s) + LineBreaks(t)
    decreases |t|
  {
    if t == [] {
      assert s + t == s;
    } else {
      var m := |t| - 1;
      LineBreaksAppend(s, t[..m]);
      assert s + t == (s + t[..m]) + [t[m]];
      assert t == t[..m] + [t[m]];
      CountAppend(s + t[..m], t[m], IsLineBreak);
      CountAppend(t[..m], t[m], IsLineBreak);
    }
  }

  lemma NoLineBreaksInNumber(i: int)
    ensures LineBreaks(IntToString(i)) == 0
  {
    IntToStringCharacters(i);
    CountPositiveIffSomePasses(IntToString(i), IsLineBreak);
  }

  /** When no victim's sex code holds a line break, the victim lines hold
      exactly one line break per victim. */
  lemma {:induction false} VictimLinesBreaks(vs: seq<Victim>)
    requires forall k :: 0 <= k < |vs| ==> LineBreaks(vs[k].sex) == 0
    ensures LineBreaks(VictimLines(vs)) == |vs|
    decreases |vs|
  {
    if vs != [] {
      var m := |vs| - 1;
      var v := vs[m];
      VictimLinesBreaks(vs[..m]);
      NoLineBreaksInNumber(v.age);
      NoLineBreaksInNumber(v.injury);
      LineBreaksAppend(v.sex, " ");
      LineBreaksAppend(v.sex + " ", IntToString(v.age));
      LineBreaksAppend(v.sex + " " + IntToString(v.age), " ");
      LineBreaksAppend(v.sex + " " + IntToString(v.age) + " ", IntToString(v.injury));
      LineBreaksAppend(VictimLines(vs[..m]), "\n");
      LineBreaksAppend(VictimLines(vs[..m]) + "\n", VictimLine(v));
    }
  }

  /** The alert text of a collision has one line per victim after its header
      line, provided the intersection, the date's text and the sex codes hold
      no line break of their own. */
  lemma ToStringLineCount<D>(c: Collision<D>, dateText: D -> string)
    requires LineBreaks(c.intersection) == 0 && LineBreaks(dateText(c.date)) == 0
    requires forall k :: 0 <= k < |c.victims| ==> LineBreaks(c.victims[k].sex) == 0
    ensures LineBreaks(c.intersection + " " + dateText(c.date) + VictimLines(c.victims)) == |c.victims|
  {
    VictimLinesBreaks(c.victims);
    LineBreaksAppend(c.intersection, " ");
    LineBreaksAppend(c.intersection + " ", dateText(c.date));
    LineBreaksAppend(c.intersection + " " + dateText(c.date), VictimLines(c.victims));
  }
}
