/** The static time-zone catalog of the time utilities (`getTimeZones`) and
    the case-insensitive location search over it (`findTimeZoneByLocation`). */
module TimeZoneCatalog {
  import opened Types
  import opened Text
  import opened TimeUtils

  datatype TimeZoneInfo = TimeZoneInfo(id: string, name: string, offset: string, location: string)

  /** `getTimeZones`: the fixed catalog, in its order. */
  function TimeZones(): seq<TimeZoneInfo> {
    [
      TimeZoneInfo("UTC+12:00", "ANAT", "UTC +12", "Anadyr"),
      TimeZoneInfo("UTC+11:00", "SBT", "UTC +11", "Honiara"),
      TimeZoneInfo("UTC+10:00", "AEST", "UTC +10", "Melbourne"),
      TimeZoneInfo("UTC+09:00", "JST", "UTC +9", "Tokyo"),
      TimeZoneInfo("UTC+08:00", "CST", "UTC +8", "Beijing"),
      TimeZoneInfo("UTC+07:00", "WIB", "UTC +7", "Jakarta"),
      TimeZoneInfo("UTC+06:00", "BST", "UTC +6", "Dhaka"),
      TimeZoneInfo("UTC+05:00", "UZT", "UTC +5", "Tashkent"),
      TimeZoneInfo("UTC+04:00", "GST", "UTC +4", "Dubai"),
      TimeZoneInfo("UTC+03:00", "MSK", "UTC +3", "Moscow"),
      TimeZoneInfo("UTC+02:00", "CEST", "UTC +2", "Brussels"),
      TimeZoneInfo("UTC+01:00", "BST", "UTC +1", "London"),
      TimeZoneInfo("UTC+00:00", "GMT", "UTC +0", "Accra"),
      TimeZoneInfo("UTC-01:00", "CVT", "UTC -1", "Praia"),
      TimeZoneInfo("UTC-02:00", "GST", "UTC -2", "King Edward Point"),
      TimeZoneInfo("UTC-03:00", "ART", "UTC -3", "Buenos Aires"),
      TimeZoneInfo("UTC-04:00", "EDT", "UTC -4", "New York"),
      TimeZoneInfo("UTC-05:00", "CDT", "UTC -5", "Chicago"),
      TimeZoneInfo("UTC-06:00", "CST", "UTC -6", "Mexico City"),
      TimeZoneInfo("UTC-07:00", "PDT", "UTC -7", "Los Angeles"),
      TimeZoneInfo("UTC-08:00", "AKDT", "UTC -8", "Anchorage"),
      TimeZoneInfo("UTC-09:00", "HDT", "UTC -9", "Adak"),
      TimeZoneInfo("UTC-10:00", "HST", "UTC -10", "Honolulu"),
      TimeZoneInfo("UTC-11:00", "NUT", "UTC -11", "Alofi"),
      TimeZoneInfo("UTC-12:00", "AoE", "UTC -12", "Baker Island"),
      // one-hour offsets beyond twelve
      TimeZoneInfo("UTC+14:00", "LINT", "UTC +14", "Kiritimati"),
      TimeZoneInfo("UTC+13:00", "TOT", "UTC +13", "Nuku'alofa"),
      // half-hour offsets
      TimeZoneInfo("UTC+10:30", "LHST", "UTC +10:30", "Lord Howe Island"),
      TimeZoneInfo("UTC+09:30", "ACST", "UTC +9:30", "Adelaide"),
      TimeZoneInfo("UTC+06:30", "MMT", "UTC +6:30", "Yangon"),
      TimeZoneInfo("UTC+05:30", "IST", "UTC +5:30", "New Delhi"),
      TimeZoneInfo("UTC+04:30", "AFT", "UTC +4:30", "Kabul"),
      TimeZoneInfo("UTC+03:30", "IRST", "UTC +3:30", "Tehran"),
      TimeZoneInfo("UTC-02:30", "NDT", "UTC -2:30", "St. John's"),
      TimeZoneInfo("UTC-09:30", "MART", "UTC -9:30", "Taiohae"),
      // quarter-hour offsets
      TimeZoneInfo("UTC+12:45", "CHAST", "UTC +12:45", "Chatham Islands"),
      TimeZoneInfo("UTC+08:45", "ACWST", "UTC +8:45", "Eucla"),
      TimeZoneInfo("UTC+05:45", "NPT", "UTC +5:45", "Kathmandu")
    ]
  }

  /** A canonical identifier with at most 14 hours and 59 minutes. */
  predicate WellFormedId(id: string) {
    Canonical(id) && Captures(id, 0).hours <= 14 && Captures(id, 0).minutes <= 59
  }

  // The catalog is checked ten entries at a time to keep each proof small.
  lemma CatalogIdsWellFormedFrom0()
    ensures forall i | 0 <= i < 10 :: WellFormedId(TimeZones()[i].id)
  {
  }

  lemma CatalogIdsWellFormedFrom10()
    ensures forall i | 10 <= i < 20 :: WellFormedId(TimeZones()[i].id)
  {
  }

  lemma CatalogIdsWellFormedFrom20()
    ensures forall i | 20 <= i < 30 :: WellFormedId(TimeZones()[i].id)
  {
  }

  lemma CatalogIdsWellFormedFrom30()
    ensures forall i | 30 <= i < 38 :: WellFormedId(TimeZones()[i].id)
  {
  }

  lemma CatalogIdsDistinctFrom0()
    ensures forall i, j | 0 <= i < 3 && i < j < 38 :: TimeZones()[i].id != TimeZones()[j].id
  {
  }

  lemma CatalogIdsDistinctFrom3()
    ensures forall i, j | 3 <= i < 6 && i < j < 38 :: TimeZones()[i].id != TimeZones()[j].id
  {
  }

  lemma CatalogIdsDistinctFrom6()
    ensures forall i, j | 6 <= i < 9 && i < j < 38 :: TimeZones()[i].id != TimeZones()[j].id
  {
  }

  lemma CatalogIdsDistinctFrom9()
    ensures forall i, j | 9 <= i < 12 && i < j < 38 :: TimeZones()[i].id != TimeZones()[j].id
  {
  }

  lemma CatalogIdsDistinctFrom12()
    ensures forall i, j | 12 <= i < 16 && i < j < 38 :: TimeZones()[i].id != TimeZones()[j].id
  {
  }

  lemma CatalogIdsDistinctFrom16()
    ensures forall i, j | 16 <= i < 20 && i < j < 38 :: TimeZones()[i].id != TimeZones()[j].id
  {
  }

  lemma CatalogIdsDistinctFrom20()
    ensures forall i, j | 20 <= i < 25 && i < j < 38 :: TimeZones()[i].id != TimeZones()[j].id
  {
  }

  lemma CatalogIdsDistinctFrom25()
    ensures forall i, j | 25 <= i < 38 && i < j < 38 :: TimeZones()[i].id != TimeZones()[j].id
  {
  }

  /** No identifier occurs twice in the catalog. */
  lemma CatalogIdsDistinct()
    ensures forall i, j | 0 <= i < j < |TimeZones()| :: TimeZones()[i].id != TimeZones()[j].id
  {
    assert |TimeZones()| == 38;
    CatalogIdsDistinctFrom0();
    CatalogIdsDistinctFrom3();
    CatalogIdsDistinctFrom6();
    CatalogIdsDistinctFrom9();
    CatalogIdsDistinctFrom12();
    CatalogIdsDistinctFrom16();
    CatalogIdsDistinctFrom20();
    CatalogIdsDistinctFrom25();
  }

  /** The catalog has 38 entries; every identifier is canonical, with at most
      14 hours and 59 minutes. */
  lemma CatalogWellFormed()
    ensures |TimeZones()| == 38
    ensures forall i | 0 <= i < |TimeZones()| :: WellFormedId(TimeZones()[i].id)
  {
    CatalogIdsWellFormedFrom0();
    CatalogIdsWellFormedFrom10();
    CatalogIdsWellFormedFrom20();
    CatalogIdsWellFormedFrom30();
  }

  /** The `.find` predicate: the lower-cased location contains the lower-cased query. */
  /** `tz.location.toLowerCase().includes(lowercaseLocation)`: the empty
      query matches every entry, and no query longer than the location does. */
  function LocationMatches(zone: TimeZoneInfo, query: string): (matches: bool)
    ensures query == [] ==> matches
    ensures matches ==> |query| <= |zone.location|
  {
    Contains(Lower(zone.location), Lower(query))
  }

  /** `zones.find(...)`, as an index: the first entry at or after `from` that matches. */
  function FindByLocation(zones: seq<TimeZoneInfo>, query: string, from: nat): (r: Option<nat>)
    ensures r.Some? ==> from <= r.value < |zones| && LocationMatches(zones[r.value], query)
    ensures r.Some? ==> forall j :: from <= j < r.value ==> !LocationMatches(zones[j], query)
    ensures r.None? ==> forall j :: from <= j < |zones| ==> !LocationMatches(zones[j], query)
    decreases |zones| - from
  {
    if from >= |zones| then None
    else if LocationMatches(zones[from], query) then Some(from)
    else FindByLocation(zones, query, from + 1)
  }

  /** `findTimeZoneByLocation`: the identifier of the first catalog entry whose
      location contains the query, ignoring ASCII case. */
  function FindTimeZoneByLocation(location: string): (r: Option<string>)
    ensures r.None? <==> forall i :: 0 <= i < |TimeZones()| ==> !LocationMatches(TimeZones()[i], location)
    ensures r.Some? ==> exists i :: 0 <= i < |TimeZones()| && r.value == TimeZones()[i].id
                          && LocationMatches(TimeZones()[i], location)
                          && forall j :: 0 <= j < i ==> !LocationMatches(TimeZones()[j], location)
  {
    match FindByLocation(TimeZones(), location, 0)
    case None => None
    case Some(i) => Some(TimeZones()[i].id)
  }

  /** Every location contains the empty string, so the first entry is returned. */
  lemma EmptyQueryFindsFirstEntry()
    ensures FindTimeZoneByLocation("") == Some("UTC+12:00")
  {
    assert OccursAt(Lower(TimeZones()[0].location), Lower(""), 0);
    assert LocationMatches(TimeZones()[0], "");
  }

  /** The query's letter case does not matter. */
  lemma FindIgnoresCase(location: string)
    ensures FindTimeZoneByLocation(Lower(location)) == FindTimeZoneByLocation(location)
  {
    LowerIdempotent(location);
    forall i | 0 <= i < |TimeZones()|
      ensures LocationMatches(TimeZones()[i], Lower(location)) == LocationMatches(TimeZones()[i], location)
    {
    }
  }
}
