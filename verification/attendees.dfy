/**
 * Attendees as the team generator sees them, and the per-gender ordering it
 * applies before assigning anyone: bucketing by gender, a stable sort by age
 * and the "lowest, highest, next-lowest, ..." interleaving.
 */
module Attendees {

  /**
   * A registered non-leader attendee. A missing name is the empty string; a
   * missing age is 0 (the generator reads `a.age || 0`).
   */
  datatype Attendee = Attendee(id: string, firstName: string, lastName: string, gender: string, age: nat)

  /** The three gender buckets: exactly "Male", exactly "Female", and everything else. */
  datatype Bucket = Male | Female | Other

  function BucketOf(a: Attendee): Bucket {
    if a.gender == "Female" then Female
    else if a.gender == "Male" then Male
    else Other
  }

  /** The attendees of `s` that fall into bucket `b`, in their order in `s`. */
  function InBucket(s: seq<Attendee>, b: Bucket): (r: seq<Attendee>)
    ensures forall i :: 0 <= i < |r| ==> BucketOf(r[i]) == b
    ensures |r| <= |s|
  {
    if s == [] then []
    else InBucket(s[..|s| - 1], b) + (if BucketOf(s[|s| - 1]) == b then [s[|s| - 1]] else [])
  }

  lemma {:induction false} InBucketAppend(s: seq<Attendee>, t: seq<Attendee>, b: Bucket)
    ensures InBucket(s + t, b) == InBucket(s, b) + InBucket(t, b)
  {
    if t != [] {
      assert (s + t)[..|s + t| - 1] == s + t[..|t| - 1];
      InBucketAppend(s, t[..|t| - 1], b);
    } else {
      assert s + t == s;
    }
  }

  /** `x` alone, if it belongs to bucket `b`. */
  function OnlyIn(x: Attendee, b: Bucket): multiset<Attendee> {
    if BucketOf(x) == b then multiset{x} else multiset{}
  }

  lemma InBucketSnoc(s: seq<Attendee>, b: Bucket)
    requires s != []
    ensures multiset(InBucket(s, b)) == multiset(InBucket(s[..|s| - 1], b)) + OnlyIn(s[|s| - 1], b)
  {
  }

  lemma ExactlyOneBucket(x: Attendee)
    ensures OnlyIn(x, Male) + OnlyIn(x, Female) + OnlyIn(x, Other) == multiset{x}
  {
  }

  lemma RegroupSums<T>(a: multiset<T>, b: multiset<T>, c: multiset<T>, x: multiset<T>, y: multiset<T>, z: multiset<T>)
    ensures (a + x) + (b + y) + (c + z) == (a + b + c) + (x + y + z)
  {
  }

  /** The three buckets split `s`: each attendee lands in exactly one of them. */
  lemma {:induction false} BucketsPartition(s: seq<Attendee>)
    ensures multiset(InBucket(s, Male)) + multiset(InBucket(s, Female)) + multiset(InBucket(s, Other)) == multiset(s)
  {
    if s != [] {
      var init, last := s[..|s| - 1], s[|s| - 1];
      BucketsPartition(init);
      assert s == init + [last];
      InBucketSnoc(s, Male);
      InBucketSnoc(s, Female);
      InBucketSnoc(s, Other);
      ExactlyOneBucket(last);
      RegroupSums(multiset(InBucket(init, Male)), multiset(InBucket(init, Female)), multiset(InBucket(init, Other)),
        OnlyIn(last, Male), OnlyIn(last, Female), OnlyIn(last, Other));
    }
  }

  /** A bucket keeps every attendee of its own gender class and nothing else. */
  lemma {:induction false} InBucketOfUniform(s: seq<Attendee>, b: Bucket, c: Bucket)
    requires forall i :: 0 <= i < |s| ==> BucketOf(s[i]) == b
    ensures InBucket(s, c) == if b == c then s else []
  {
    if s != [] {
      InBucketOfUniform(s[..|s| - 1], b, c);
      assert s == s[..|s| - 1] + [s[|s| - 1]];
      if b == c {
        SnocKept(s[..|s| - 1], s[|s| - 1], c);
      } else {
        SnocDropped(s[..|s| - 1], s[|s| - 1], c);
      }
    }
  }

  lemma SnocKept(init: seq<Attendee>, last: Attendee, c: Bucket)
    requires InBucket(init, c) == init && BucketOf(last) == c
    ensures InBucket(init + [last], c) == init + [last]
  {
    assert (init + [last])[..|init|] == init;
  }

  lemma SnocDropped(init: seq<Attendee>, last: Attendee, c: Bucket)
    requires InBucket(init, c) == [] && BucketOf(last) != c
    ensures InBucket(init + [last], c) == []
  {
    assert (init + [last])[..|init|] == init;
  }

  /** `nonLeaders.forEach(a => genders[g].push(a))`: one pass that appends each attendee to its bucket. */
  method BucketByGender(roster: seq<Attendee>) returns (male: seq<Attendee>, female: seq<Attendee>, other: seq<Attendee>)
    ensures male == InBucket(roster, Male)
    ensures female == InBucket(roster, Female)
    ensures other == InBucket(roster, Other)
  {
    male, female, other := [], [], [];
    for i := 0 to |roster|
      invariant male == InBucket(roster[..i], Male)
      invariant female == InBucket(roster[..i], Female)
      invariant other == InBucket(roster[..i], Other)
    {
      var a := roster[i];
      assert roster[..i + 1][..i] == roster[..i];
      if a.gender == "Female" {
        female := female + [a];
      } else if a.gender == "Male" {
        male := male + [a];
      } else {
        other := other + [a];
      }
    }
    assert roster[..|roster|] == roster;
  }

  /** Ascending by age (ties in any order). */
  ghost predicate SortedByAge(s: seq<Attendee>) {
    forall i, j :: 0 <= i < j < |s| ==> s[i].age <= s[j].age
  }

  /** The attendees of `s` whose age is exactly `k`, in their order in `s`. */
  function WithAge(s: seq<Attendee>, k: nat): seq<Attendee> {
    if s == [] then [] else (if s[0].age == k then [s[0]] else []) + WithAge(s[1..], k)
  }

  lemma SortedCons(a: Attendee, s: seq<Attendee>)
    requires SortedByAge(s)
    requires forall i :: 0 <= i < |s| ==> a.age <= s[i].age
    ensures SortedByAge([a] + s)
  {
    var r := [a] + s;
    forall i, j | 0 <= i < j < |r| ensures r[i].age <= r[j].age {
      assert r[j] == s[j - 1];
      if i > 0 { assert r[i] == s[i - 1]; }
    }
  }

  /** Inserts `x` in front of the first attendee who is at least as old. */
  function InsertByAge(x: Attendee, s: seq<Attendee>): (r: seq<Attendee>)
    ensures multiset(r) == multiset(s) + multiset{x}
  {
    if s == [] || x.age <= s[0].age then [x] + s
    else
      assert s == [s[0]] + s[1..];
      [s[0]] + InsertByAge(x, s[1..])
  }

  /** Inserting into an age-sorted list keeps it sorted. */
  lemma {:induction false} InsertByAgeSorted(x: Attendee, s: seq<Attendee>)
    requires SortedByAge(s)
    ensures SortedByAge(InsertByAge(x, s))
  {
    if s == [] || x.age <= s[0].age {
      SortedCons(x, s);
    } else {
      InsertByAgeSorted(x, s[1..]);
      var rest := InsertByAge(x, s[1..]);
      forall i | 0 <= i < |rest| ensures s[0].age <= rest[i].age {
        assert rest[i] in multiset(rest);
        assert rest[i] == x || rest[i] in s[1..];
      }
      SortedCons(s[0], rest);
    }
  }

  /**
   * The `sort((x, y) => (x.age || 0) - (y.age || 0))` the generator applies:
   * JavaScript's sort is stable, and so is this insertion sort.
   */
  function SortByAge(s: seq<Attendee>): (r: seq<Attendee>)
    ensures SortedByAge(r)
    ensures multiset(r) == multiset(s)
  {
    if s == [] then []
    else
      assert s == [s[0]] + s[1..];
      InsertByAgeSorted(s[0], SortByAge(s[1..]));
      InsertByAge(s[0], SortByAge(s[1..]))
  }

  lemma {:induction false} InsertByAgeWithAge(x: Attendee, s: seq<Attendee>, k: nat)
    ensures WithAge(InsertByAge(x, s), k) == (if x.age == k then [x] else []) + WithAge(s, k)
  {
    if s == [] || x.age <= s[0].age {
      assert ([x] + s)[1..] == s;
    } else {
      InsertByAgeWithAge(x, s[1..], k);
      assert ([s[0]] + InsertByAge(x, s[1..]))[1..] == InsertByAge(x, s[1..]);
    }
  }

  /** The sort is stable: attendees of equal age keep their relative order. */
  lemma {:induction false} SortByAgeStable(s: seq<Attendee>, k: nat)
    ensures WithAge(SortByAge(s), k) == WithAge(s, k)
  {
    if s != [] {
      SortByAgeStable(s[1..], k);
      InsertByAgeWithAge(s[0], SortByAge(s[1..]), k);
    }
  }

  /** The order `interleaveAges` produces: first, last, second, second-to-last, ... */
  function Interleaved(s: seq<Attendee>): (r: seq<Attendee>)
    ensures |r| == |s|
  {
    if |s| <= 1 then s else [s[0], s[|s| - 1]] + Interleaved(s[1..|s| - 1])
  }

  /** Interleaving loses and adds nobody. */
  lemma {:induction false} InterleavedPermutation(s: seq<Attendee>)
    ensures multiset(Interleaved(s)) == multiset(s)
  {
    if |s| > 1 {
      var n := |s|;
      var mid := s[1..n - 1];
      InterleavedPermutation(mid);
      SplitEnds(s);
      EndsFirstSamePeople(s[0], s[n - 1], mid, Interleaved(mid));
    }
  }

  /** A sequence of two or more is its first element, its middle and its last element. */
  lemma SplitEnds<T>(s: seq<T>)
    requires |s| > 1
    ensures s == [s[0]] + s[1..|s| - 1] + [s[|s| - 1]]
  {
    var n := |s|;
    assert s == s[..n - 1] + [s[n - 1]];
    assert s[..n - 1] == [s[0]] + s[1..n - 1];
  }

  /** Moving the last attendee next to the first keeps the same people. */
  lemma EndsFirstSamePeople(a: Attendee, b: Attendee, mid: seq<Attendee>, x: seq<Attendee>)
    requires multiset(x) == multiset(mid)
    ensures multiset([a, b] + x) == multiset([a] + mid + [b])
  {
    assert multiset([a, b] + x) == multiset{a, b} + multiset(x);
    assert multiset([a] + mid + [b]) == multiset{a} + multiset(mid) + multiset{b};
  }

  /** Position `2k` holds the `k`-th youngest and position `2k + 1` the `k`-th oldest. */
  lemma {:induction false} InterleavedAt(s: seq<Attendee>, k: nat)
    ensures 2 * k < |s| ==> Interleaved(s)[2 * k] == s[k]
    ensures 2 * k + 1 < |s| ==> Interleaved(s)[2 * k + 1] == s[|s| - 1 - k]
  {
    if |s| > 1 && k > 0 {
      var mid := s[1..|s| - 1];
      InterleavedAt(mid, k - 1);
      var r := Interleaved(s);
      assert r == [s[0], s[|s| - 1]] + Interleaved(mid);
      if 2 * k < |s| {
        assert r[2 * k] == Interleaved(mid)[2 * (k - 1)];
      }
      if 2 * k + 1 < |s| {
        assert r[2 * k + 1] == Interleaved(mid)[2 * (k - 1) + 1];
      }
    }
  }

  lemma InterleavedSlice(arr: seq<Attendee>, i: nat, j: nat)
    requires i < j < |arr|
    ensures Interleaved(arr[i..j + 1]) == [arr[i], arr[j]] + Interleaved(arr[i + 1..j])
  {
    var m := arr[i..j + 1];
    assert |m| == j + 1 - i && m[0] == arr[i] && m[|m| - 1] == arr[j];
    var inner := m[1..|m| - 1];
    assert forall k :: 0 <= k < |inner| ==> inner[k] == arr[i + 1 + k];
    assert inner == arr[i + 1..j];
  }

  /** Pushing the two ends of the unvisited slice keeps the loop's promise. */
  lemma InterleaveEnds(arr: seq<Attendee>, res: seq<Attendee>, i: nat, j: nat)
    requires i < j < |arr| && res + Interleaved(arr[i..j + 1]) == Interleaved(arr)
    ensures res + [arr[i]] + [arr[j]] + Interleaved(arr[i + 1..j]) == Interleaved(arr)
  {
    InterleavedSlice(arr, i, j);
    PushTwo(res, arr[i], arr[j], Interleaved(arr[i + 1..j]));
  }

  lemma PushTwo<T>(r: seq<T>, a: T, b: T, x: seq<T>)
    ensures r + [a] + [b] + x == r + ([a, b] + x)
  {
    assert [a] + [b] == [a, b];
  }

  /** Pushing the single middle entry completes the interleaving. */
  lemma InterleaveMiddle(arr: seq<Attendee>, res: seq<Attendee>, i: nat)
    requires i < |arr| && res + Interleaved(arr[i..i + 1]) == Interleaved(arr)
    ensures res + [arr[i]] == Interleaved(arr)
  {
    assert arr[i..i + 1] == [arr[i]];
  }

  /** `interleaveAges`: a two-index loop walking inwards from both ends. */
  method Interleave(arr: seq<Attendee>) returns (res: seq<Attendee>)
    ensures res == Interleaved(arr)
  {
    res := [];
    var i, j := 0, |arr| - 1;
    assert arr[i..j + 1] == arr;
    while i <= j
      invariant 0 <= i <= j + 2 && i + j == |arr| - 1
      invariant i <= j + 1 ==> res + Interleaved(arr[i..j + 1]) == Interleaved(arr)
      invariant i == j + 2 ==> res == Interleaved(arr)
    {
      if i == j {
        InterleaveMiddle(arr, res, i);
        res := res + [arr[i]];
      } else {
        InterleaveEnds(arr, res, i, j);
        res := res + [arr[i]];
        res := res + [arr[j]];
      }
      i, j := i + 1, j - 1;
    }
    if i == j + 1 {
      assert arr[i..j + 1] == [];
    }
  }
}
