/** The scheduler: every whole hour of the next 48 is tried, kept when every
    contact is awake at their local hour, scored by the preference windows,
    and the kept hours are ranked by score.

    Instants here are milliseconds on the host's wall clock (the UTC instant
    plus the host's fixed offset), so that `getHours()` is `HourOfDay`. The
    current instant `now` is a parameter. */
module TimeCalculator {
  import opened Types
  import opened TimeUtils

  // ---------------------------------------------------------------------------
  // isHourInRange
  // ---------------------------------------------------------------------------

  /** `isHourInRange`: the half-open range [start, end), wrapping past midnight
      when start > end. On hours of the day that is: the hour lies fewer hours
      after `start`, going round the clock, than `end` does. */
  function IsHourInRange(hour: int, start: int, end: int): (inRange: bool)
    ensures 0 <= hour < 24 && 0 <= start < 24 && 0 <= end < 24 ==>
              (inRange <==> ClockDistance(start, hour) < ClockDistance(start, end))
  {
    if start <= end then start <= hour < end else hour >= start || hour < end
  }

  /** How many hours the clock advances from `from` until it shows `to`. */
  function ClockDistance(from: int, to: int): (d: int)
    ensures 0 <= d < 24
  {
    (to - from) % 24
  }

  /** The overnight range from 22 to 6. */
  lemma OvernightExamples()
    ensures IsHourInRange(23, 22, 6) && IsHourInRange(5, 22, 6) && !IsHourInRange(12, 22, 6)
  {
  }

  /** A range whose two ends coincide holds no hour at all. */
  lemma EmptyRange(hour: int, bound: int)
    ensures !IsHourInRange(hour, bound, bound)
  {
  }

  /** Swapping the ends of a non-empty range gives exactly the other hours. */
  lemma RangeComplement(hour: int, start: int, end: int)
    requires start != end
    ensures IsHourInRange(hour, start, end) <==> !IsHourInRange(hour, end, start)
  {
  }

  /** The number of hours among 0 .. n-1 that lie in the range. */
  function CountInRange(start: int, end: int, n: nat): (count: nat)
    ensures count <= n
  {
    if n == 0 then 0
    else CountInRange(start, end, n - 1) + if IsHourInRange(n - 1, start, end) then 1 else 0
  }

  function Clamp(x: int, low: int, high: int): int
    requires low <= high
  {
    if x < low then low else if x > high then high else x
  }

  /** A range that does not wrap covers the hours from start up to end. */
  lemma {:induction false} CountStraight(start: int, end: int, n: nat)
    requires 0 <= start <= end
    ensures CountInRange(start, end, n) == Clamp(n, start, end) - start
  {
    if n > 0 {
      CountStraight(start, end, n - 1);
    }
  }

  lemma {:induction false} CountComplement(start: int, end: int, n: nat)
    requires start != end
    ensures CountInRange(start, end, n) + CountInRange(end, start, n) == n
  {
    if n > 0 {
      CountComplement(start, end, n - 1);
      RangeComplement(n - 1, start, end);
    }
  }

  /** On a 24-hour day a range from `start` to `end` holds (end - start) mod 24
      hours, whether or not it wraps past midnight. */
  lemma RangeLength(start: int, end: int)
    requires 0 <= start < 24 && 0 <= end < 24
    ensures CountInRange(start, end, 24) == (end - start) % 24
  {
    if start <= end {
      CountStraight(start, end, 24);
    } else {
      CountComplement(start, end, 24);
      CountStraight(end, start, 24);
    }
  }

  // ---------------------------------------------------------------------------
  // Scoring one candidate hour
  // ---------------------------------------------------------------------------

  predicate Awake(hour: int, pref: TimePreference) {
    IsHourInRange(hour, pref.awakeStart, pref.awakeEnd)
  }

  /** The score of one awake contact: 1, plus 2 in the priority morning
      window, plus 3 in the priority evening window. The score tells which
      bonuses were earned. */
  function HourScore(hour: int, pref: TimePreference): (score: int)
    ensures score in {1, 3, 4, 6}
    ensures IsHourInRange(hour, pref.priorityMorningStart, pref.priorityMorningEnd)
            <==> score == 3 || score == 6
    ensures IsHourInRange(hour, pref.priorityEveningStart, pref.priorityEveningEnd)
            <==> score >= 4
  {
    1
    + (if IsHourInRange(hour, pref.priorityMorningStart, pref.priorityMorningEnd) then 2 else 0)
    + (if IsHourInRange(hour, pref.priorityEveningStart, pref.priorityEveningEnd) then 3 else 0)
  }

  /** The contact's local hour at the instant `t` of the reference zone. */
  function ContactHour(t: int, reference: string, contact: Contact): (hour: int)
    ensures 0 <= hour < 24
  {
    HourOfDay(ConvertTime(t, reference, contact.timeZone))
  }

  /** The reference contact's own hour is the host's hour. */
  lemma ReferenceHour(t: int, contact: Contact)
    ensures ContactHour(t, contact.timeZone, contact) == HourOfDay(t)
  {
    ConvertToSelf(t, contact.timeZone);
  }

  predicate AllAwake(t: int, reference: string, contacts: seq<Contact>, pref: TimePreference) {
    forall i :: 0 <= i < |contacts| ==> Awake(ContactHour(t, reference, contacts[i]), pref)
  }

  /** The sum of the contacts' scores; between one and six points each. */
  function TotalScore(t: int, reference: string, contacts: seq<Contact>, pref: TimePreference): (score: int)
    ensures |contacts| <= score <= 6 * |contacts|
    decreases |contacts|
  {
    if contacts == [] then 0
    else
      TotalScore(t, reference, contacts[..|contacts| - 1], pref)
      + HourScore(ContactHour(t, reference, contacts[|contacts| - 1]), pref)
  }

  // ---------------------------------------------------------------------------
  // Candidate instants
  // ---------------------------------------------------------------------------

  /** `setHours(now.getHours() + hour, 0, 0, 0)`: the start of the host's
      current hour, `hour` hours later. */
  function Candidate(now: int, hour: int): (t: int)
    ensures t % HourMs == 0
    ensures t <= now + hour * HourMs < t + HourMs
  {
    var q := now / HourMs;
    MultipleMod(q + hour, HourMs);
    assert (q + hour) * HourMs == q * HourMs + hour * HourMs;
    (q + hour) * HourMs
  }

  lemma HourOfDayShift(t: int, k: int)
    ensures HourOfDay(t + k * HourMs) == (HourOfDay(t) + k) % 24
  {
    var q := t / HourMs;
    assert t + k * HourMs == (q + k) * HourMs + t % HourMs;
    assert (t + k * HourMs) / HourMs == q + k;
    var a, b := q / 24, q % 24;
    assert q + k == 24 * a + (b + k);
  }

  /** Candidates lie on whole hours, the first is the start of the current
      hour, each is one hour after the previous, and the host's hour advances
      with them. */
  lemma CandidateFacts(now: int, hour: int)
    ensures Candidate(now, hour) % HourMs == 0
    ensures Candidate(now, 0) <= now < Candidate(now, 0) + HourMs
    ensures Candidate(now, hour + 1) == Candidate(now, hour) + HourMs
    ensures HourOfDay(Candidate(now, hour)) == (HourOfDay(now) + hour) % 24
  {
    var q := now / HourMs;
    assert Candidate(now, hour) == q * HourMs + hour * HourMs;
    HourOfDayShift(q * HourMs, hour);
    assert HourOfDay(q * HourMs) == HourOfDay(now);
  }

  lemma CandidateMonotone(now: int, h: int, k: int)
    requires h < k
    ensures Candidate(now, h) < Candidate(now, k)
  {
    assert Candidate(now, k) - Candidate(now, h) == (k - h) * HourMs;
  }

  // ---------------------------------------------------------------------------
  // Kept candidates and their ranking
  // ---------------------------------------------------------------------------

  datatype TimeScore = TimeScore(time: int, score: int)

  /** The scored candidates among the first `n` hours at which every contact
      is awake, in the order they are tried. */
  function Kept(now: int, reference: string, contacts: seq<Contact>, pref: TimePreference, n: nat): (kept: seq<TimeScore>)
    ensures |kept| <= n
  {
    if n == 0 then [] else Kept(now, reference, contacts, pref, n - 1) + Entry(now, reference, contacts, pref, n - 1)
  }

  /** The entry hour `hour` contributes: its candidate and score when everyone is awake. */
  function Entry(now: int, reference: string, contacts: seq<Contact>, pref: TimePreference, hour: int): (entry: seq<TimeScore>)
    ensures |entry| <= 1
    ensures forall x | x in entry :: x.time == Candidate(now, hour)
  {
    var t := Candidate(now, hour);
    if AllAwake(t, reference, contacts, pref) then [TimeScore(t, TotalScore(t, reference, contacts, pref))] else []
  }

  lemma KeptStep(now: int, reference: string, contacts: seq<Contact>, pref: TimePreference, n: nat)
    ensures var t := Candidate(now, n);
            Kept(now, reference, contacts, pref, n + 1)
            == Kept(now, reference, contacts, pref, n)
               + if AllAwake(t, reference, contacts, pref) then [TimeScore(t, TotalScore(t, reference, contacts, pref))] else []
  {
  }

  /** Every kept entry is a candidate at which everyone is awake, with its score. */
  lemma {:induction false} KeptSound(now: int, reference: string, contacts: seq<Contact>, pref: TimePreference, n: nat)
    ensures forall x | x in Kept(now, reference, contacts, pref, n) ::
              exists h :: 0 <= h < n && x.time == Candidate(now, h)
                          && AllAwake(x.time, reference, contacts, pref)
                          && x.score == TotalScore(x.time, reference, contacts, pref)
  {
    if n > 0 {
      KeptSound(now, reference, contacts, pref, n - 1);
      var t := Candidate(now, n - 1);
      forall x | x in Kept(now, reference, contacts, pref, n)
        ensures exists h :: 0 <= h < n && x.time == Candidate(now, h)
                            && AllAwake(x.time, reference, contacts, pref)
                            && x.score == TotalScore(x.time, reference, contacts, pref)
      {
        if x !in Kept(now, reference, contacts, pref, n - 1) {
          assert x.time == Candidate(now, n - 1);
        }
      }
    }
  }

  /** Every candidate at which everyone is awake is kept, with its score. */
  lemma {:induction false} KeptComplete(now: int, reference: string, contacts: seq<Contact>, pref: TimePreference, n: nat)
    ensures forall h | 0 <= h < n && AllAwake(Candidate(now, h), reference, contacts, pref) ::
              TimeScore(Candidate(now, h), TotalScore(Candidate(now, h), reference, contacts, pref))
              in Kept(now, reference, contacts, pref, n)
  {
    if n > 0 {
      KeptComplete(now, reference, contacts, pref, n - 1);
    }
  }

  predicate TimesIncreasing(s: seq<TimeScore>) {
    forall i, j :: 0 <= i < j < |s| ==> s[i].time < s[j].time
  }

  predicate AllBefore(s: seq<TimeScore>, bound: int) {
    forall i :: 0 <= i < |s| ==> s[i].time < bound
  }

  /** Entries are kept in increasing time order, all before the next candidate. */
  lemma {:induction false} KeptIncreasing(now: int, reference: string, contacts: seq<Contact>, pref: TimePreference, n: nat)
    ensures TimesIncreasing(Kept(now, reference, contacts, pref, n))
    ensures AllBefore(Kept(now, reference, contacts, pref, n), Candidate(now, n))
  {
    if n > 0 {
      KeptIncreasing(now, reference, contacts, pref, n - 1);
      CandidateMonotone(now, n - 1, n);
      AppendLater(Kept(now, reference, contacts, pref, n - 1), Entry(now, reference, contacts, pref, n - 1),
                  Candidate(now, n - 1), Candidate(now, n));
    }
  }

  /** Appending at most one entry at time `t` to increasing entries all before
      `t` keeps them increasing, and all before any later `bound`. */
  lemma AppendLater(s: seq<TimeScore>, e: seq<TimeScore>, t: int, bound: int)
    requires TimesIncreasing(s) && AllBefore(s, t)
    requires |e| <= 1 && (forall x | x in e :: x.time == t) && t < bound
    ensures TimesIncreasing(s + e) && AllBefore(s + e, bound)
  {
    var r := s + e;
    forall i, j | 0 <= i < j < |r|
      ensures r[i].time < r[j].time
    {
      assert r[i] == s[i];
      if j < |s| {
        assert r[j] == s[j];
      } else {
        assert r[j] == e[0] && e[0] in e;
      }
    }
    forall i | 0 <= i < |r|
      ensures r[i].time < bound
    {
      if i < |s| {
        assert r[i] == s[i];
      } else {
        assert r[i] == e[0] && e[0] in e;
      }
    }
  }

  /** With an empty awake window nobody is ever awake and nothing is kept. */
  lemma {:induction false} NothingKeptWhenNeverAwake(now: int, reference: string, contacts: seq<Contact>, pref: TimePreference, n: nat)
    requires |contacts| > 0 && pref.awakeStart == pref.awakeEnd
    ensures Kept(now, reference, contacts, pref, n) == []
  {
    if n > 0 {
      NothingKeptWhenNeverAwake(now, reference, contacts, pref, n - 1);
      assert !Awake(ContactHour(Candidate(now, n - 1), reference, contacts[0]), pref);
    }
  }

  /** The order `sort((a, b) => b.score - a.score)` leaves behind on entries
      in increasing time order: higher score first, ties earliest first. */
  predicate Before(a: TimeScore, b: TimeScore) {
    a.score > b.score || (a.score == b.score && a.time < b.time)
  }

  predicate Ranks(s: seq<TimeScore>) {
    forall i, j :: 0 <= i < j < |s| ==> Before(s[i], s[j])
  }

  /** Inserts `x` after every entry scoring at least as much. */
  function Insert(x: TimeScore, r: seq<TimeScore>): (result: seq<TimeScore>)
    ensures |result| == |r| + 1
    ensures multiset(result) == multiset(r) + multiset{x}
    decreases |r|
  {
    if r == [] then [x]
    else if r[0].score < x.score then [x] + r
    else
      assert r == [r[0]] + r[1..];
      [r[0]] + Insert(x, r[1..])
  }

  /** The stable sort by descending score that `Array.prototype.sort` performs. */
  function SortByScore(s: seq<TimeScore>): (r: seq<TimeScore>)
    ensures |r| == |s|
    ensures multiset(r) == multiset(s)
    decreases |s|
  {
    if s == [] then []
    else
      assert s == s[..|s| - 1] + [s[|s| - 1]];
      Insert(s[|s| - 1], SortByScore(s[..|s| - 1]))
  }

  lemma {:induction false} InsertRanks(x: TimeScore, r: seq<TimeScore>)
    requires Ranks(r)
    requires forall y | y in r :: y.time < x.time
    ensures Ranks(Insert(x, r))
    decreases |r|
  {
    if r == [] {
    } else if r[0].score < x.score {
      forall y | y in r
        ensures Before(x, y)
      {
        var j :| 0 <= j < |r| && r[j] == y;
        assert j == 0 || Before(r[0], r[j]);
      }
      ConsRanks(x, r);
    } else {
      var rest := r[1..];
      assert Ranks(rest);
      InsertRanks(x, rest);
      var inserted := Insert(x, rest);
      forall y | y in inserted
        ensures Before(r[0], y)
      {
        assert y in multiset(inserted);
        if y != x {
          assert y in rest;
          var j :| 0 <= j < |rest| && rest[j] == y;
          assert r[j + 1] == y;
        }
      }
      ConsRanks(r[0], inserted);
    }
  }

  /** An entry that comes before everything in a ranked list can lead it. */
  lemma ConsRanks(a: TimeScore, s: seq<TimeScore>)
    requires Ranks(s)
    requires forall y | y in s :: Before(a, y)
    ensures Ranks([a] + s)
  {
    var result := [a] + s;
    forall i, j | 0 <= i < j < |result|
      ensures Before(result[i], result[j])
    {
      assert result[j] == s[j - 1];
      if i > 0 {
        assert result[i] == s[i - 1];
      }
    }
  }

  /** Sorting entries given in increasing time order ranks them: by score,
      highest first, and among equal scores earliest first. */
  lemma {:induction false} SortByScoreRanks(s: seq<TimeScore>)
    requires TimesIncreasing(s)
    ensures Ranks(SortByScore(s))
    decreases |s|
  {
    if s != [] {
      var init, last := s[..|s| - 1], s[|s| - 1];
      assert TimesIncreasing(init);
      SortByScoreRanks(init);
      var sorted := SortByScore(init);
      forall y | y in sorted
        ensures y.time < last.time
      {
        assert y in multiset(sorted);
        assert y in init;
      }
      InsertRanks(last, sorted);
    }
  }

  lemma {:induction false} InsertAmongTies(x: TimeScore, r: seq<TimeScore>)
    requires forall y | y in r :: y.score == x.score
    ensures Insert(x, r) == r + [x]
    decreases |r|
  {
    if r != [] {
      InsertAmongTies(x, r[1..]);
      assert r == [r[0]] + r[1..];
    }
  }

  /** When every score ties, sorting leaves the entries in the order given:
      the sort is stable. */
  lemma {:induction false} AllTiesKeepOrder(s: seq<TimeScore>, score: int)
    requires forall x | x in s :: x.score == score
    ensures SortByScore(s) == s
    decreases |s|
  {
    if s != [] {
      var init, last := s[..|s| - 1], s[|s| - 1];
      assert forall x | x in init :: x in s;
      AllTiesKeepOrder(init, score);
      InsertAmongTies(last, init);
      assert init + [last] == s;
    }
  }

  /** The ranked list of candidates `findOptimalTime` draws its answer from;
      the first contact's zone is the reference. */
  function Ranked(now: int, contacts: seq<Contact>, pref: TimePreference): (r: seq<TimeScore>)
    requires |contacts| > 0
    ensures |r| <= 48
  {
    SortByScore(Kept(now, contacts[0].timeZone, contacts, pref, 48))
  }

  /** The ranking is ordered, and holds exactly the candidates of the next 48
      hours at which everyone is awake, each with its score. */
  lemma RankedFacts(now: int, contacts: seq<Contact>, pref: TimePreference)
    requires |contacts| > 0
    ensures Ranks(Ranked(now, contacts, pref))
    ensures forall x | x in Ranked(now, contacts, pref) ::
              exists h :: 0 <= h < 48 && x.time == Candidate(now, h)
                          && AllAwake(x.time, contacts[0].timeZone, contacts, pref)
                          && x.score == TotalScore(x.time, contacts[0].timeZone, contacts, pref)
    ensures forall h | 0 <= h < 48 && AllAwake(Candidate(now, h), contacts[0].timeZone, contacts, pref) ::
              TimeScore(Candidate(now, h), TotalScore(Candidate(now, h), contacts[0].timeZone, contacts, pref))
              in Ranked(now, contacts, pref)
  {
    RankedSound(now, contacts, pref);
    RankedComplete(now, contacts, pref);
  }

  lemma RankedSound(now: int, contacts: seq<Contact>, pref: TimePreference)
    requires |contacts| > 0
    ensures Ranks(Ranked(now, contacts, pref))
    ensures forall x | x in Ranked(now, contacts, pref) ::
              exists h :: 0 <= h < 48 && x.time == Candidate(now, h)
                          && AllAwake(x.time, contacts[0].timeZone, contacts, pref)
                          && x.score == TotalScore(x.time, contacts[0].timeZone, contacts, pref)
  {
    var reference := contacts[0].timeZone;
    var kept := Kept(now, reference, contacts, pref, 48);
    KeptIncreasing(now, reference, contacts, pref, 48);
    SortByScoreRanks(kept);
    KeptSound(now, reference, contacts, pref, 48);
    forall x | x in Ranked(now, contacts, pref)
      ensures x in kept
    {
      assert x in multiset(Ranked(now, contacts, pref));
    }
  }

  lemma RankedComplete(now: int, contacts: seq<Contact>, pref: TimePreference)
    requires |contacts| > 0
    ensures forall h | 0 <= h < 48 && AllAwake(Candidate(now, h), contacts[0].timeZone, contacts, pref) ::
              TimeScore(Candidate(now, h), TotalScore(Candidate(now, h), contacts[0].timeZone, contacts, pref))
              in Ranked(now, contacts, pref)
  {
    var reference := contacts[0].timeZone;
    var kept := Kept(now, reference, contacts, pref, 48);
    KeptComplete(now, reference, contacts, pref, 48);
    forall x | x in kept
      ensures x in Ranked(now, contacts, pref)
    {
      assert x in multiset(kept);
    }
  }

  /** The best entry beats every workable candidate: no candidate scores more,
      and one scoring the same is not earlier. */
  lemma BestIsOptimal(now: int, contacts: seq<Contact>, pref: TimePreference, h: int)
    requires |contacts| > 0 && 0 <= h < 48
    requires AllAwake(Candidate(now, h), contacts[0].timeZone, contacts, pref)
    ensures var r := Ranked(now, contacts, pref);
            var score := TotalScore(Candidate(now, h), contacts[0].timeZone, contacts, pref);
            |r| > 0 && (score < r[0].score || (score == r[0].score && r[0].time <= Candidate(now, h)))
  {
    var reference := contacts[0].timeZone;
    var r := Ranked(now, contacts, pref);
    var x := TimeScore(Candidate(now, h), TotalScore(Candidate(now, h), reference, contacts, pref));
    RankedFacts(now, contacts, pref);
    assert x in r;
    var j :| 0 <= j < |r| && r[j] == x;
    if j > 0 {
      assert Before(r[0], r[j]);
    }
  }

  /** Every later entry, the alternatives among them, scores at most the best. */
  lemma BestOutranksRest(now: int, contacts: seq<Contact>, pref: TimePreference, i: int)
    requires |contacts| > 0
    requires 0 < i < |Ranked(now, contacts, pref)|
    ensures var r := Ranked(now, contacts, pref);
            r[i].score <= r[0].score && (r[i].score == r[0].score ==> r[0].time < r[i].time)
  {
    RankedFacts(now, contacts, pref);
  }

  /** There is a best entry exactly when some hour of the next 48 suits everyone. */
  lemma RankedEmptyIffNoWorkableHour(now: int, contacts: seq<Contact>, pref: TimePreference)
    requires |contacts| > 0
    ensures |Ranked(now, contacts, pref)| == 0
            <==> forall h :: 0 <= h < 48 ==> !AllAwake(Candidate(now, h), contacts[0].timeZone, contacts, pref)
  {
    var r := Ranked(now, contacts, pref);
    if |r| > 0 {
      RankedFacts(now, contacts, pref);
      assert r[0] in r;
    }
    forall h | 0 <= h < 48 && AllAwake(Candidate(now, h), contacts[0].timeZone, contacts, pref)
      ensures |r| > 0
    {
      BestIsOptimal(now, contacts, pref, h);
    }
  }

  // ---------------------------------------------------------------------------
  // findOptimalTime
  // ---------------------------------------------------------------------------

  function Times(s: seq<TimeScore>): (times: seq<int>)
    ensures |times| == |s| && forall i :: 0 <= i < |s| ==> times[i] == s[i].time
  {
    seq(|s|, i requires 0 <= i < |s| => s[i].time)
  }

  /** `s.slice(from, to)` for 0 <= from <= to: the indices below `to` from
      `from` on, clipped to the sequence. */
  function Slice(s: seq<TimeScore>, from: nat, to: nat): (r: seq<TimeScore>)
    requires from <= to
    ensures |r| <= to - from
    ensures r != [] ==> from + |r| <= |s|
    ensures forall i :: 0 <= i < |r| ==> r[i] == s[from + i]
    ensures from + |r| == to || from + |r| >= |s|
  {
    if from >= |s| then [] else if to >= |s| then s[from..] else s[from..to]
  }

  /** One more contact adds its score and its awake test to a prefix. */
  lemma PrefixStep(t: int, reference: string, contacts: seq<Contact>, pref: TimePreference, i: nat)
    requires i < |contacts|
    ensures TotalScore(t, reference, contacts[..i + 1], pref)
            == TotalScore(t, reference, contacts[..i], pref) + HourScore(ContactHour(t, reference, contacts[i]), pref)
    ensures AllAwake(t, reference, contacts[..i + 1], pref)
            <==> AllAwake(t, reference, contacts[..i], pref) && Awake(ContactHour(t, reference, contacts[i]), pref)
  {
    ScorePrefixStep(t, reference, contacts, pref, i);
    AwakePrefixStep(t, reference, contacts, pref, i);
  }

  lemma ScorePrefixStep(t: int, reference: string, contacts: seq<Contact>, pref: TimePreference, i: nat)
    requires i < |contacts|
    ensures TotalScore(t, reference, contacts[..i + 1], pref)
            == TotalScore(t, reference, contacts[..i], pref) + HourScore(ContactHour(t, reference, contacts[i]), pref)
  {
    var next := contacts[..i + 1];
    assert next[..|next| - 1] == contacts[..i] && next[|next| - 1] == contacts[i];
  }

  lemma AwakePrefixStep(t: int, reference: string, contacts: seq<Contact>, pref: TimePreference, i: nat)
    requires i < |contacts|
    ensures AllAwake(t, reference, contacts[..i + 1], pref)
            <==> AllAwake(t, reference, contacts[..i], pref) && Awake(ContactHour(t, reference, contacts[i]), pref)
  {
    var next := contacts[..i + 1];
    assert forall j :: 0 <= j < i ==> next[j] == contacts[..i][j];
    assert next[i] == contacts[i];
  }

  /** The inner loop of `findOptimalTime`: each contact's local hour at
      `checkTime` is tested against the awake window and scored, stopping at
      the first contact who is asleep. */
  method ScoreCandidate(checkTime: int, reference: string, contacts: seq<Contact>, pref: TimePreference)
    returns (allAwake: bool, score: int)
    ensures allAwake <==> AllAwake(checkTime, reference, contacts, pref)
    ensures allAwake ==> score == TotalScore(checkTime, reference, contacts, pref)
  {
    score := 0;
    allAwake := true;

    var i := 0;
    while i < |contacts|
      invariant 0 <= i <= |contacts|
      invariant allAwake
      invariant AllAwake(checkTime, reference, contacts[..i], pref)
      invariant score == TotalScore(checkTime, reference, contacts[..i], pref)
    {
      var contactHour := ContactHour(checkTime, reference, contacts[i]);
      PrefixStep(checkTime, reference, contacts, pref, i);
      ghost var before := score;
      if IsHourInRange(contactHour, pref.awakeStart, pref.awakeEnd) {
        score := score + 1;
        if IsHourInRange(contactHour, pref.priorityMorningStart, pref.priorityMorningEnd) {
          score := score + 2;
        }
        if IsHourInRange(contactHour, pref.priorityEveningStart, pref.priorityEveningEnd) {
          score := score + 3;
        }
        assert score == before + HourScore(contactHour, pref);
      } else {
        allAwake := false;
        break;
      }
      i := i + 1;
    }
    assert contacts[..|contacts|] == contacts;
  }

  /** `findOptimalTime`. With fewer than two contacts nothing is scheduled.
      Otherwise the best-ranked candidate is the answer and the next three
      are the alternatives. */
  method FindOptimalTime(contacts: seq<Contact>, pref: TimePreference, now: int)
    returns (bestTime: Option<int>, alternativeTimes: seq<int>)
    ensures |contacts| <= 1 ==> bestTime == None && alternativeTimes == []
    ensures |contacts| > 1 ==>
              var r := Ranked(now, contacts, pref);
              && bestTime == (if |r| == 0 then None else Some(r[0].time))
              && alternativeTimes == Times(Slice(r, 1, 4))
              && forall i :: 0 <= i < |alternativeTimes| ==> alternativeTimes[i] == r[i + 1].time
    ensures |contacts| > 1 ==>
              var k := |Ranked(now, contacts, pref)|;
              |alternativeTimes| == if k <= 1 then 0 else if k >= 4 then 3 else k - 1
    ensures bestTime == None ==> alternativeTimes == []
  {
    if |contacts| <= 1 {
      return None, [];
    }
    var timeScores: seq<TimeScore> := [];
    var reference := contacts[0].timeZone;

    var hour := 0;
    while hour < 48
      invariant 0 <= hour <= 48
      invariant timeScores == Kept(now, reference, contacts, pref, hour)
    {
      var checkTime := Candidate(now, hour);
      var allAwake, score := ScoreCandidate(checkTime, reference, contacts, pref);
      KeptStep(now, reference, contacts, pref, hour);

      if allAwake {
        timeScores := timeScores + [TimeScore(checkTime, score)];
      }
      hour := hour + 1;
    }

    timeScores := SortByScore(timeScores);
    bestTime := if |timeScores| > 0 then Some(timeScores[0].time) else None;
    alternativeTimes := Times(Slice(timeScores, 1, 4));
  }

  // ---------------------------------------------------------------------------
  // A worked scenario
  // ---------------------------------------------------------------------------

  /** Two contacts twelve hours apart, both awake from 8 to 22: an hour works
      exactly when the host's hour is 8, 9, 20 or 21. */
  lemma OppositeZones(t: int, contacts: seq<Contact>, pref: TimePreference)
    requires |contacts| == 2
    requires ParseOffset(contacts[0].timeZone).Some?
    requires ParseOffset(contacts[1].timeZone) == Some(ParseOffset(contacts[0].timeZone).value + 12 * 60)
    requires pref.awakeStart == 8 && pref.awakeEnd == 22
    ensures AllAwake(t, contacts[0].timeZone, contacts, pref) <==> HourOfDay(t) in {8, 9, 20, 21}
  {
    var reference := contacts[0].timeZone;
    ReferenceHour(t, contacts[0]);
    TwelveHoursAhead(t, reference, contacts[1].timeZone);
    PairAwake(t, reference, contacts, pref);
    OverlapOfDays(HourOfDay(t));
  }

  lemma TwelveHoursAhead(t: int, from: string, to: string)
    requires ParseOffset(from).Some?
    requires ParseOffset(to) == Some(ParseOffset(from).value + 12 * 60)
    ensures HourOfDay(ConvertTime(t, from, to)) == (HourOfDay(t) + 12) % 24
  {
    var d := ParseOffset(to).value - ParseOffset(from).value;
    assert ConvertTime(t, from, to) == t + d * MinuteMs;
    assert d * MinuteMs == 12 * HourMs;
    HourOfDayShift(t, 12);
  }

  lemma PairAwake(t: int, reference: string, contacts: seq<Contact>, pref: TimePreference)
    requires |contacts| == 2
    ensures AllAwake(t, reference, contacts, pref)
            <==> Awake(ContactHour(t, reference, contacts[0]), pref) && Awake(ContactHour(t, reference, contacts[1]), pref)
  {
  }

  /** Hours awake from 8 to 22 both here and twelve hours ahead. */
  lemma OverlapOfDays(h: int)
    requires 0 <= h < 24
    ensures IsHourInRange(h, 8, 22) && IsHourInRange((h + 12) % 24, 8, 22) <==> h in {8, 9, 20, 21}
  {
    WrapHour(h + 12);
  }

  lemma WrapHour(x: int)
    requires 0 <= x < 48
    ensures x % 24 == if x < 24 then x else x - 24
  {
  }

  /** For example "UTC+00:00" and "UTC+12:00". */
  lemma TwelveHoursApart()
    ensures ParseOffset("UTC+00:00") == Some(0)
    ensures ParseOffset("UTC+12:00") == Some(12 * 60)
  {
  }
}
