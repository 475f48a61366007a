/**
 * `statsForTeams` and `fullName`: per-team summaries (size, ages, a histogram
 * keyed by the raw gender string) and an attendee's display name.
 */
module TeamStats {
  import opened Attendees
  import opened JsText

  /** `{ count, avgAge, genders }` for one team; `ageSum` is the sum the mean is taken of. */
  datatype Stats = Stats(count: nat, ageSum: nat, avgAge: real, genders: map<string, nat>)

  /** `members.reduce((s, a) => s + (a.age || 0), 0)`. */
  function AgeSum(members: seq<Attendee>): nat {
    if members == [] then 0 else AgeSum(members[..|members| - 1]) + members[|members| - 1].age
  }

  /** `n ? sum / n : 0`, as an exact rational. */
  function AvgAge(members: seq<Attendee>): (avg: real)
    ensures |members| == 0 ==> avg == 0.0
    ensures |members| > 0 ==> avg * |members| as real == AgeSum(members) as real
  {
    if |members| == 0 then 0.0 else AgeSum(members) as real / |members| as real
  }

  /** `acc[a.gender] = (acc[a.gender] || 0) + 1`, folded left to right from `{}`. */
  function Histogram(members: seq<Attendee>): (r: map<string, nat>)
    ensures forall i :: 0 <= i < |members| ==> members[i].gender in r
    ensures forall g :: g in r ==> 1 <= r[g] <= |members|
  {
    if members == [] then map[]
    else
      var h := Histogram(members[..|members| - 1]);
      var g := members[|members| - 1].gender;
      h[g := (if g in h then h[g] else 0) + 1]
  }

  /** How many members carry exactly the gender string `g`. */
  function CountGender(members: seq<Attendee>, g: string): nat {
    if members == [] then 0
    else CountGender(members[..|members| - 1], g) + (if members[|members| - 1].gender == g then 1 else 0)
  }

  /** The histogram has a key for exactly the genders present, and each value counts that gender. */
  lemma {:induction false} HistogramCounts(members: seq<Attendee>, g: string)
    ensures g in Histogram(members) <==> CountGender(members, g) > 0
    ensures g in Histogram(members) ==> Histogram(members)[g] == CountGender(members, g)
  {
    if members != [] {
      HistogramCounts(members[..|members| - 1], g);
    }
  }

  /** The values of `m` at the keys `ks`, added up. */
  ghost function SumOver(m: map<string, nat>, ks: set<string>): nat
    requires ks <= m.Keys
  {
    if ks == {} then 0
    else
      var k :| k in ks;
      m[k] + SumOver(m, ks - {k})
  }

  /** The values of a histogram added up. */
  ghost function SumValues(m: map<string, nat>): nat {
    SumOver(m, m.Keys)
  }

  /** Any key may be taken out first. */
  lemma {:induction false} SumOverRemove(m: map<string, nat>, ks: set<string>, k: string)
    requires ks <= m.Keys && k in ks
    ensures SumOver(m, ks) == m[k] + SumOver(m, ks - {k})
    decreases ks
  {
    var j :| j in ks && SumOver(m, ks) == m[j] + SumOver(m, ks - {j});
    if j != k {
      SumOverRemove(m, ks - {j}, k);
      SumOverRemove(m, ks - {k}, j);
      assert ks - {j} - {k} == ks - {k} - {j};
    }
  }

  /** Maps that agree on `ks` sum to the same over `ks`. */
  lemma {:induction false} SumOverAgree(m1: map<string, nat>, m2: map<string, nat>, ks: set<string>)
    requires ks <= m1.Keys && ks <= m2.Keys
    requires forall x :: x in ks ==> m1[x] == m2[x]
    ensures SumOver(m1, ks) == SumOver(m2, ks)
    decreases ks
  {
    if ks != {} {
      var k :| k in ks && SumOver(m1, ks) == m1[k] + SumOver(m1, ks - {k});
      SumOverAgree(m1, m2, ks - {k});
      SumOverRemove(m2, ks, k);
    }
  }

  lemma SumValuesUpdate(m: map<string, nat>, k: string, v: nat)
    ensures SumValues(m[k := v]) == SumValues(m) - (if k in m then m[k] else 0) + v
  {
    var m' := m[k := v];
    SumOverRemove(m', m'.Keys, k);
    SumOverAgree(m', m, m'.Keys - {k});
    if k in m {
      SumOverRemove(m, m.Keys, k);
      assert m'.Keys - {k} == m.Keys - {k};
    } else {
      assert m'.Keys - {k} == m.Keys;
    }
  }

  /** The histogram's values add up to the team size. */
  lemma {:induction false} HistogramTotal(members: seq<Attendee>)
    ensures SumValues(Histogram(members)) == |members|
  {
    if members != [] {
      var h := Histogram(members[..|members| - 1]);
      var g := members[|members| - 1].gender;
      HistogramTotal(members[..|members| - 1]);
      SumValuesUpdate(h, g, (if g in h then h[g] else 0) + 1);
    }
  }

  /** One team's record; the histogram's counts add up to the team size. */
  function TeamStatsOf(members: seq<Attendee>): (s: Stats)
    ensures SumValues(s.genders) == |members|
  {
    HistogramTotal(members);
    Stats(|members|, AgeSum(members), AvgAge(members), Histogram(members))
  }

  /**
   * `teams.map(...)`: one entry per team, in team order. Each entry's count is
   * its team's size, its mean age is 0 for an empty team, and its gender
   * counts add up to its size.
   */
  function StatsForTeams(teams: seq<seq<Attendee>>): (r: seq<Stats>)
    ensures |r| == |teams|
    ensures forall t :: 0 <= t < |teams| ==> r[t] == TeamStatsOf(teams[t])
    ensures forall t :: 0 <= t < |teams| ==> r[t].count == |teams[t]|
    ensures forall t :: 0 <= t < |teams| && teams[t] == [] ==> r[t].avgAge == 0.0
    ensures forall t :: 0 <= t < |teams| ==> SumValues(r[t].genders) == r[t].count
  {
    seq(|teams|, t requires 0 <= t < |teams| => TeamStatsOf(teams[t]))
  }

  /**
   * Lines 11-13: first and last name joined by a space, outer whitespace
   * trimmed: a slice of the joined text with only whitespace cut from either end.
   */
  function FullName(a: Attendee): (r: string)
    ensures exists k :: SliceBetweenSpaces(a.firstName + " " + a.lastName, k, r)
    ensures r == [] || (!IsSpace(r[0]) && !IsSpace(r[|r| - 1]))
  {
    var joined := a.firstName + " " + a.lastName;
    Trim(joined)
  }

  /** Names without outer whitespace are joined by exactly one space. */
  lemma FullNameOfTrimmedNames(a: Attendee)
    requires a.firstName != [] && !IsSpace(a.firstName[0]) && !IsSpace(a.firstName[|a.firstName| - 1])
    requires a.lastName != [] && !IsSpace(a.lastName[0]) && !IsSpace(a.lastName[|a.lastName| - 1])
    ensures FullName(a) == a.firstName + " " + a.lastName
  {
    var s := a.firstName + " " + a.lastName;
    assert s[0] == a.firstName[0] && s[|s| - 1] == a.lastName[|a.lastName| - 1];
    TrimUnchanged(s);
  }

  /** A missing first name leaves no leading space: the name is the last name alone. */
  lemma FullNameWithoutFirstName(a: Attendee)
    requires a.firstName == []
    requires a.lastName == [] || (!IsSpace(a.lastName[0]) && !IsSpace(a.lastName[|a.lastName| - 1]))
    ensures FullName(a) == a.lastName
  {
    assert a.firstName + " " + a.lastName == [' '] + a.lastName;
    TrimAfterSpace(' ', a.lastName);
    TrimUnchanged(a.lastName);
  }

  /** A missing last name leaves no trailing space: the name is the first name alone. */
  lemma FullNameWithoutLastName(a: Attendee)
    requires a.lastName == []
    requires a.firstName == [] || (!IsSpace(a.firstName[0]) && !IsSpace(a.firstName[|a.firstName| - 1]))
    ensures FullName(a) == a.firstName
  {
    if a.firstName == [] {
      FullNameWithoutFirstName(a);
    } else {
      assert a.firstName + " " + a.lastName == a.firstName + [' '];
      TrimBeforeSpace(a.firstName, ' ');
    }
  }
}
