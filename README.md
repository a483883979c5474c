# Oakland bicycle and pedestrian collisions: a Dafny model

The repository draws the bicycle and pedestrian collisions of a city on a web
map. Python scripts read SWITRS rows (collisions, parties, victims) into
records and export the bicycle and pedestrian collisions as JSON. The page,
in two revisions (`main.js`, the earlier one, and `ui/main.js`), loads that
JSON and does several things with it:

- it filters the collisions by year, type and victim sex;
- it groups them by intersection;
- it colours and sizes one map marker per group by the worst injury in it;
- it counts victims by sex, injury and age decade, and collisions by year.

This project models that logic and proves what it promises. Modules:

- `Records`: the collision and victim records, the victim tests and counts,
  and the marker colour and size of a group. Both page revisions share this
  code; `ui/main.js` is cited below and `main.js` has the same code at
  main.js:47-63 and main.js:169-182.
- `Store`: the global store of loaded collisions (`Collision.addFromJSON`) and
  `filterData`, which filters and groups by intersection. Also at
  main.js:75-83 and main.js:129-162.
  - It is proved against reference functions. `Selected` is the filter.
    `GroupByIntersection` is one group per distinct intersection, in order of
    first appearance.
- `Statistics`: `CollisionStatistics`, a class whose count arrays and year
  dictionary are updated in place. Also at main.js:85-127.
  - It keeps the invariant that the three arrays are histograms of the victims
    processed so far.
  - It also keeps the invariant that `collisionYears` and `yearsSeen` are the
    year counts and the first-seen year list of the collisions processed.
  - Lemmas prove the conservation laws.
- `UiMain`: what only `ui/main.js` has.
  - The `Collision` constructor, with a millisecond date.
  - `sexString` and `ageString`.
  - The in-place date sort of a popup's group.
- `LegacyMain`: what only `main.js` has.
  - The `Array.prototype.indexOf` fallback.
  - The `Collision` constructor that takes the JSON fields over unchanged.
  - `toString`.
- `Switrs`: `switrs.py`.
  - The column of every attribute of `Collision`, `Party` and `Victim`.
  - The row-to-record constructors, with the IndexError of a short row.
  - The class-level registry of collisions by id, and the loops that fill it
    and attach parties and victims to their collisions.
  - `collision_with` and `__str__`.
- `ExportJson`: `json-for-collisions.py`.
  - The type and sex encoders and the bicycle/pedestrian selector.
  - The victim records and the "2500" time fix-up.
  - The marker list, with first-seen deduplication.
  - The per-year lists of the main loop.
- `Sequences`, `Decimal`, `Wrappers`: counting, sums, first-seen
  deduplication, decimal text of integers with Python's `int()` on it, and
  `Option`/`Result`.

Errors the source raises are modelled as `Failure` values:

- a JavaScript TypeError (an undefined store, an empty group);
- a Python IndexError (a short row), KeyError (an unknown collision code) or
  ValueError (a non-integer age or injury, an unparsable date or location).

The exporter gives collision type 0 to code 'B' (pedestrian) and 1 to code
'G' (bicycle) (`ExportJson.TypeNumberMatchesName`).

The JSON the exporter writes and the JSON either page revision reads do not
have the same fields. The page expects `type` as "bike"/"pedestrian", plus
`location` and, in `main.js`, `date` and `year`. The exporter writes numeric
`type`, `marker` and `time`. Victim sex is a number in the exporter (0 female,
1 male, 2 otherwise; json-for-collisions.py:50-55), but the page compares it
with "M" and "F" (ui/main.js:104-105, used at ui/main.js:130-136), so an exported victim never reads as
male or female there. The two sides are modelled each as written, and no
property relates them.

## Model

| member | source | states |
|---|---|---|
| Records.CountVictims | ui/main.js:43-51 | the result is the number of victims passing the test, hence at most the number of victims |
| Records.NumberOfFatalities | ui/main.js:53-55 | the result is the number of victims with injury code 1 |
| Records.NumberOfSevereInjuries | ui/main.js:57-59 | the result is the number of victims with injury code 2 |
| Records.FatalitiesMeaning | ui/main.js:106 | the fatality count is at most the number of victims and is positive iff some victim has injury code 1 |
| Records.SevereInjuriesMeaning | ui/main.js:107 | the severe-injury count is at most the number of victims and is positive iff some victim has injury code 2 |
| Records.MarkerColour | ui/main.js:302-311 | the colour loop ends with red if any collision is fatal, else purple if any has a severe injury, else gold |
| Records.ColourMeaning | ui/main.js:302-311 | red iff some victim of the group died; purple iff none died and some was severely injured; gold iff neither |
| Records.ColourIgnoresOrder | ui/main.js:302-311 | two groups with the same members in any order get the same colour |
| Records.MarkersFor | ui/main.js:299-313 | fails iff some group is empty; otherwise one marker per group at its first collision's location, coloured as above, radius 40 iff the group has more than one collision and 20 otherwise |
| Store.CollisionStore.constructor | ui/main.js:71 | the store starts undefined |
| Store.CollisionStore.AddFromJson | ui/main.js:70-78 | the store becomes defined and holds the earlier records unchanged followed by one record per input, in input order |
| Store.Selected | ui/main.js:213-231 | the kept collisions are no more than the store's, and every kept collision passes the year, type and victim-sex tests |
| Store.SelectedMember | ui/main.js:213-230 | a collision is kept iff it is in the store, its year and type are allowed and some victim's sex is allowed; a collision without victims is never kept |
| Store.FindVictimOfSex | ui/main.js:220-228 | the victim loop finds a victim iff some victim's sex is among the allowed sexes |
| Store.AddToResults | ui/main.js:204-211 | from the groups and index map of the collisions kept so far, gives the groups and index map of those collisions plus the new one |
| Store.GroupByAppendSeen | ui/main.js:205-210 | a collision at an intersection already seen is appended to that intersection's group, and all other groups stay as they were |
| Store.GroupByAppendNew | ui/main.js:205-210 | a collision at a new intersection opens a one-element group after all existing ones |
| Store.FilterData | ui/main.js:200-233 | an undefined store fails; otherwise the result is the kept collisions grouped by intersection |
| Store.GroupsAreNonEmptyAndHomogeneous | ui/main.js:204-211 | every group is non-empty, all its collisions share one intersection, and no two groups share one |
| Store.GroupsInFirstAppearanceOrder | ui/main.js:205-207 | groups are ordered by the first appearance of their intersection among the kept collisions |
| Store.EachCollisionInItsGroup | ui/main.js:210 | every kept collision is in the group of its intersection |
| Store.GroupSizesAddUp | ui/main.js:200-233 | the group sizes add up to the number of kept collisions, so each appears exactly once |
| Statistics.HistogramCountsSlot | ui/main.js:129-144 | counter k equals the number of victims classified into slot k |
| Statistics.HistogramTotal | ui/main.js:129-144 | the counters add up to at most the number of victims, and to exactly that number iff every victim has a slot |
| Statistics.SexCountsAddUp | ui/main.js:130-136 | the sex counters add up to the number of victims; female, male and other each count their own victims |
| Statistics.InjuryCountsAddUp | ui/main.js:138 | the injury counters add up to at most the number of victims, and to exactly that number iff every injury code is in 0..4 |
| Statistics.AgeCountsAddUp | ui/main.js:140-144 | the age counters add up to at most the number of victims, and to exactly that number iff every age is in 0..149 |
| Statistics.AgeSlotMeaning | ui/main.js:141-143 | slot k < 9 holds ages 10k..10k+9, and slot 9 holds ages 90..149 |
| Statistics.YearCountOf | ui/main.js:118-123 | a year has a counter iff some collision is of that year, and the counter is the number of collisions of that year |
| Statistics.YearStep | ui/main.js:119-123 | a new year is appended to yearsSeen and counted once; a seen year leaves yearsSeen alone and gains one count |
| Statistics.YearCountsAddUp | ui/main.js:118-123 | every year in yearsSeen has a counter, and the counters add up to the number of collisions |
| Statistics.YearsSeenInFirstSeenOrder | ui/main.js:119-121 | yearsSeen has no duplicates, holds exactly the years that occur, and lists them in order of first appearance |
| Statistics.CollisionStatistics.constructor | ui/main.js:110-152 | starts from zero counters, then processes all collisions of all groups in order; the arrays are the histograms of all their victims and the year data describe all the collisions |
| Statistics.CollisionStatistics.ProcessGroup | ui/main.js:148-150 | processes a group's collisions in order and keeps the invariant |
| Statistics.CollisionStatistics.ProcessCollision | ui/main.js:118-127 | counts the collision's year, then processes its victims in order, keeping the invariant |
| Statistics.CollisionStatistics.CountYear | ui/main.js:119-123 | the year data afterwards describe the collisions so far plus this one |
| Statistics.NextYear | ui/main.js:119-123 | the new yearsSeen and collisionYears are those of the earlier collisions plus this one |
| Statistics.CollisionStatistics.ProcessVictim | ui/main.js:129-145 | the three histograms take one more victim, in the same arrays |
| Statistics.CollisionStatistics.CountSex | ui/main.js:130-136 | the victim is counted in slot 0 if female, 1 if male, 2 otherwise |
| Statistics.CollisionStatistics.CountAge | ui/main.js:141-144 | a recorded age (0..149) is counted in slot min(age/10, 9); other ages are not counted |
| Statistics.Increment | ui/main.js:138 | the counter of the slot goes up by one; a slot outside the array changes no counter |
| UiMain.NewCollision | ui/main.js:29-41 | the date is the JSON time times 1000, the year is that date's year, and the victims are the JSON victims in order |
| UiMain.SexString | ui/main.js:86-94 | "male" iff the code is "M", "female" iff "F", the empty string iff neither |
| UiMain.SexStringMatchesStatistics | ui/main.js:130-136 | the popup's sex text and the statistics' sex slot classify every victim the same way |
| UiMain.AgeString | ui/main.js:96-102 | for an age below 150 the text is the shortest decimal form of that age (no '+', no leading zero, a '-' only for a negative age) and reads back as it; the text is "N/A" iff the age is 150 or more |
| UiMain.SortByDate | ui/main.js:239-245 | the group ends up ordered by date and holds the same collisions |
| UiMain.InsertIntoSorted | ui/main.js:239-245 | one insertion step: after a sorted prefix, the prefix one longer is sorted, with the same collisions, and everything after it is unchanged |
| LegacyMain.StartIndex | main.js:13-25 | a non-negative index is kept; a negative one counts back from the end and stops at 0; an absent, not-a-number or infinite one gives 0 |
| LegacyMain.IndexOf | main.js:7-35 | fails iff called on null (the guard as written); otherwise the first index at or after the start holding the element, or -1 iff there is none; with no fromIndex, -1 iff the element does not occur |
| LegacyMain.CollisionOf | main.js:37-45 | the collision keeps the JSON's date, year, intersection, type, sex, location and victims unchanged |
| LegacyMain.ToString | main.js:65-72 | the text is the intersection, a space and the date, then one line per victim in order |
| LegacyMain.VictimLinesBreaks | main.js:67-70 | the victim lines hold one line break per victim when no sex code holds one |
| LegacyMain.ToStringLineCount | main.js:65-72 | the text has one line per victim after the header line |
| Decimal.ParseInt | json-for-collisions.py:80 | int() succeeds exactly on an optional sign followed by one or more digits |
| Decimal.IntToStringRoundTrip | ui/main.js:98 | reading the decimal text of an integer back gives that integer |
| Decimal.ParseIntNormalForm | json-for-collisions.py:80 | the value int() reads, written back as text, is the text without a '+', without leading zeros, and without a sign on zero |
| Decimal.SameValueSameNormalForm | json-for-collisions.py:80 | two texts read as the same integer iff they have the same shortest form |
| Switrs.CollisionColumn | switrs.py:15-90 | every collision attribute reads a column below 76, and none reads column 68 |
| Switrs.PartyColumn | switrs.py:121-150 | every party attribute reads a column below 30 |
| Switrs.VictimColumn | switrs.py:155-164 | every victim attribute reads a column below 10 |
| Switrs.CollisionFromRow | switrs.py:10-90 | fails iff the row is shorter than 76 fields; otherwise the record holds a copy of the row, no parties, no victims, and each attribute is the row's value at its column |
| Switrs.PartyFromRow | switrs.py:119-150 | fails iff the row is shorter than 30 fields; otherwise each attribute is the row's value at its column |
| Switrs.VictimFromRow | switrs.py:153-164 | fails iff the row is shorter than 10 fields; otherwise each attribute is the row's value at its column |
| Switrs.PedestrianCountsShareColumn | switrs.py:81-82 | the pedestrian killed and injured counts both read column 66 |
| Switrs.BicyclistCountsSkipColumn | switrs.py:83-84 | the bicyclist counts read columns 67 and 69 |
| Switrs.Column68Unread | switrs.py:81-86 | changing column 68 of a row changes no attribute |
| Switrs.CollisionWith | switrs.py:94-108 | succeeds iff the code is in the table; 'B' names "pedestrian" and 'G' names "bicycle" |
| Switrs.CollisionWithNamesDistinct | switrs.py:95-107 | different codes have different names |
| Switrs.Describe | switrs.py:110-115 | fails iff collision_with fails; otherwise the two roads, the code's name and the location |
| Switrs.CollisionRegistry.constructor | switrs.py:9 | the registry starts empty |
| Switrs.CollisionRegistry.Register | switrs.py:10-92 | a short row fails and changes nothing; otherwise the new record is registered under its id, replacing any earlier one |
| Switrs.CollisionRegistry.RegisterRows | json-for-collisions.py:30-31 | fails iff some row is too short; on success every row's record is registered in order; on failure those of the rows before the first short row are |
| Switrs.CollisionRegistry.AttachMembers | json-for-collisions.py:32-35 | succeeds iff attaching every member in order finds its collision; on success the registry is that of attaching them all; on failure it is that of the members before the first with an unregistered collision id |
| Switrs.AttachAllMeaning | json-for-collisions.py:32-35 | attaching succeeds iff every member's collision id is registered; then the same ids stay registered and each collision's parties and victims are its earlier ones followed by the members with its id, in order |
| Switrs.LaterRowReplaces | switrs.py:92 | after registering records in order, an id is registered iff it was before or some record has it; the last record with the id wins, and an id no record has keeps its earlier record |
| ExportJson.CollisionTypeAsNumber | json-for-collisions.py:43-48 | 0 iff the code is 'B', 1 iff it is 'G', and 2 otherwise |
| ExportJson.TypeNumberMatchesName | json-for-collisions.py:44-47 | type 0 is exactly the code named "pedestrian", type 1 exactly the code named "bicycle" |
| ExportJson.VictimSexAsNumber | json-for-collisions.py:50-55 | 0 iff the sex is "F", 1 iff "M", and 2 otherwise |
| ExportJson.BikeAndPedestrian | json-for-collisions.py:38-41 | yields as many collisions as have code 'G' or 'B', each of them such a collision with a type number below 2 |
| ExportJson.BikeAndPedestrianMember | json-for-collisions.py:38-41 | a collision is yielded iff it is registered and its code is 'G' or 'B' |
| ExportJson.FixTime | json-for-collisions.py:86-87 | "2500" becomes "0000", and any other time is kept |
| ExportJson.ExportVictim | json-for-collisions.py:79-83 | succeeds iff age and injury are integers; the record holds them and the sex number |
| ExportJson.ExportVictims | json-for-collisions.py:77-83 | succeeds iff every victim exports; then one record per victim, in the same order |
| ExportJson.Markers.constructor | json-for-collisions.py:71 | the marker list starts empty |
| ExportJson.Markers.IndexFor | json-for-collisions.py:57-64 | a known location gives its first index and leaves the list unchanged; a new one is appended and gets the last index; the list only grows and stays free of duplicates |
| ExportJson.ByYearMeaning | json-for-collisions.py:72 | a year has a list iff some exported collision is of that year, and the list holds that year's collisions in export order |
| ExportJson.ExportCollision | json-for-collisions.py:77-97 | fails iff a victim, the date or the location cannot be read; otherwise the record has the date's year and time, the type number, the intersection text, a marker index pointing at its location, and the exported victims |
| ExportJson.ExportAll | json-for-collisions.py:76-97 | fails iff some selected collision cannot be exported; on success the per-year lists are those of the exported collisions, one per selected collision in order, each with the year and time of its date, its type number, its intersection text, its exported victims, and a marker index pointing at its location; the locations looked up are those of the selected collisions in order, so the marker list is their distinct locations in order of first use |

## Left out

- DOM, Leaflet, Raphael and d3 calls are not modelled. These are the filter
  dialog's checkboxes, the map, its circles and popups, the popup HTML, the
  alert, and `getDateString`/`getTimeString`. Only the decisions they display
  are modelled.
- The calendar year of a JavaScript `Date` depends on the viewer's time zone.
  It is the parameter `yearOf` of `UiMain.NewCollision`.
- In `main.js`, how the JSON date turns into text is the parameter `dateText`
  of `LegacyMain.ToString`.
- Ages, injury codes and times are integers in the model. JavaScript numbers
  that are fractional or NaN are not modelled, nor the `String()` of such
  numbers. `indexOf`'s `fromIndex` is integral, not a number, or infinite.
- `LegacyMain.IndexOf`: the null or undefined guard is modelled as written,
  as a failure on a null array. The script is not in strict mode, so `this`
  is never null or undefined there and the guard is never taken.
- `LegacyMain.IndexOf`: the `length >>> 0` wrap-around of lengths of 2^32 or
  more is not modelled, because an array's length is below 2^32.
- The fallback maps an infinite `fromIndex` to 0, so it searches the whole
  array. The model follows the fallback, which differs from the built-in
  method on +Infinity.
- `resultMap` in `filterData` is a plain object. An intersection name equal to
  an inherited property name (such as "constructor") is not modelled; the map
  holds only the names that were added.
- Statistics.CollisionStatistics.ProcessVictim: for an injury code outside
  0..4, `victimInjuries[victim.injury]++` adds an element holding NaN to the
  array, or a property to it. The model leaves the five counters unchanged
  then and does not model the extra element, so the proved sums count only
  codes 0..4.
- The engine's sort algorithm is not modelled. `UiMain.SortByDate` is an
  insertion sort with the same postcondition: sorted by date, same
  collisions.
- `UiMain.SortByDate`: since ES2019 `Array.prototype.sort` is stable, so
  collisions with equal dates keep their input order. The contract leaves
  that order open and does not state stability, though the insertion sort
  only swaps strictly later dates.
- Python's `int()` is modelled on an optional sign and ASCII decimal digits.
  Its surrounding whitespace, digit underscores and non-ASCII Unicode digits
  (which Python also accepts) are not modelled.
- `Decimal.ParseInt`: rejects text with non-ASCII digits, such as "٣", which
  `int()` reads as 3, because Unicode digit classes are not modelled.
- `Decimal.IntToString` is JavaScript's `String()` only for integers below
  1e21 in magnitude, and the number itself is exact only below 2^53. Larger
  numbers print in exponent notation or lose digits, which is not modelled.
- `Statistics.Increment`: an injury code outside 0..4 leaves the counters
  unchanged, while `victimInjuries[code]++` adds an element or property to
  the array; see `Statistics.CollisionStatistics.ProcessVictim` above.
- `float()` of the latitude and longitude is the parameter `locationOf` of
  the export; locations are compared as values of a type with equality.
- `strptime` and `timegm` together are the parameter `parseMoment`.
  `intersection_string()` is not defined in the files shown, so it is the
  parameter `intersectionString`.
- `read_all_data_from_database` is modelled by its loops over rows given as
  parameters: `CollisionRegistry.RegisterRows` for the collisions, and
  `CollisionRegistry.AttachMembers` for the parties and the victims, read
  beforehand with `PartyFromRow` and `VictimFromRow`. The SQLite connection
  and queries are I/O and are not modelled. Nor are the JSON file writes,
  which keep only the years 2008 to 2013, and the `markers.js` write.
- The registry is a Python dictionary iterated in insertion order; the model
  keeps it as a `map`. `ExportJson.ExportAll` takes the registered collisions
  as a sequence in that order.
- The main loop assigns `collision.time = "0000"` on the registered object.
  The model passes the fixed time on instead of mutating the record.
- `Party` and `Victim` keep the row object itself, and `Collision` a copy.
  Aliasing between a record and a caller's row is not modelled, because rows
  are values.
- `field_to_float` is not modelled, because nothing in the modelled core calls
  it. `collect-switr-data-into-sqlite.py` and `add-location-to-database.py`
  are not modelled: SQL, file, geocoder and sleep calls only.
