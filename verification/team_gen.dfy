/**
 * `generateTeams`: splits non-leader attendees into `N` teams. The teams are
 * an array of member lists that the steps below fill, sort and rebalance in
 * place, in the order the generator runs them.
 */
module TeamGen {
  import opened Wrappers
  import opened Attendees

  /** The `opts` argument: omitted (the default `{ parity: 'strict' }` applies), `null`, or an object whose `parity` may be missing. */
  datatype Opts = Omitted | Null | Given(parity: Option<string>)

  /** `opts && opts.parity === 'strict'`. */
  predicate StrictParity(opts: Opts) {
    opts.Omitted? || (opts.Given? && opts.parity == Some("strict"))
  }

  /** `Math.max(0, Math.floor(teamCount))`, for a finite `teamCount`. */
  function TeamCount(teamCount: real): (n: nat)
    ensures n == 0 <==> teamCount < 1.0
    ensures n > 0 ==> n as real <= teamCount < n as real + 1.0
  {
    if teamCount.Floor < 0 then 0 else teamCount.Floor
  }

  function Min(a: int, b: int): int {
    if a <= b then a else b
  }

  // ---------------------------------------------------------------------------
  // Sums, shares and quotas

  function Sum(q: seq<nat>): nat {
    if q == [] then 0 else Sum(q[..|q| - 1]) + q[|q| - 1]
  }

  lemma SumPrefixStep(q: seq<nat>, t: nat)
    requires t < |q|
    ensures Sum(q[..t + 1]) == Sum(q[..t]) + q[t]
  {
    assert q[..t + 1][..t] == q[..t];
  }

  /** Team `t`'s share of `count` items over `n` teams: `floor(count / n)`, one more for the first `count % n` teams. */
  function Share(count: nat, n: nat, t: nat): nat
    requires n > 0
  {
    count / n + (if t < count % n then 1 else 0)
  }

  /** The list of shares for teams `0 .. n-1`. */
  function Quotas(count: nat, n: nat): (q: seq<nat>)
    requires n > 0
    ensures |q| == n
    ensures forall t :: 0 <= t < n ==> q[t] == Share(count, n, t)
  {
    seq(n, t requires 0 <= t < n => Share(count, n, t))
  }

  /** A list of `base`s with one more on the first `extras` entries has its first `t` entries summing to `t * base` plus the extras among them. */
  lemma {:induction false} BasePlusExtrasPrefix(q: seq<nat>, base: nat, extras: nat, t: nat)
    requires t <= |q|
    requires forall i :: 0 <= i < |q| ==> q[i] == base + (if i < extras then 1 else 0)
    ensures Sum(q[..t]) == t * base + Min(t, extras)
  {
    if t > 0 {
      BasePlusExtrasPrefix(q, base, extras, t - 1);
      SumPrefixStep(q, t - 1);
      assert q[t - 1] == base + (if t - 1 < extras then 1 else 0);
      MulStep(t, base);
    }
  }

  lemma MulStep(t: nat, base: nat)
    requires t > 0
    ensures t * base == (t - 1) * base + base
  {
  }

  /** The first `t` quotas hold `t * floor(count / n)` items plus one per extra team among them. */
  lemma QuotasPrefix(count: nat, n: nat, t: nat)
    requires 0 < n && t <= n
    ensures Sum(Quotas(count, n)[..t]) == t * (count / n) + Min(t, count % n)
  {
    BasePlusExtrasPrefix(Quotas(count, n), count / n, count % n, t);
  }

  /** The quotas add up to the count they split. */
  lemma QuotasSum(count: nat, n: nat)
    requires n > 0
    ensures Sum(Quotas(count, n)) == count
  {
    QuotasPrefix(count, n, n);
    assert Quotas(count, n)[..n] == Quotas(count, n);
  }

  /** Every quota is `floor(count / n)` or one more, and exactly the first `count % n` teams get one more. */
  lemma QuotasShape(count: nat, n: nat, t: nat)
    requires 0 < n && t < n
    ensures Quotas(count, n)[t] == count / n || Quotas(count, n)[t] == count / n + 1
    ensures Quotas(count, n)[t] == count / n + 1 <==> t < count % n
  {
  }

  /** `quotasFor(count)`: every team gets `base`, then the first `extras` teams get one more. */
  method QuotasFor(count: nat, n: nat) returns (q: seq<nat>)
    requires n > 0
    ensures q == Quotas(count, n)
  {
    var base := count / n;
    var extras := count % n;
    q := RaiseFirst(n, base, extras);
    RaisedFirst(q, count, n, base, extras);
  }

  /** Lines 62-64: an array of `n` copies of `base`, then `q[i % n]++` for each `i < extras`. */
  method RaiseFirst(n: nat, base: nat, extras: nat) returns (q: seq<nat>)
    requires extras < n
    ensures |q| == n
    ensures forall t :: 0 <= t < n ==> q[t] == if t < extras then base + 1 else base
  {
    var a := new nat[n](_ => base);
    for i := 0 to extras
      invariant forall t :: 0 <= t < n ==> a[t] == if t < i then base + 1 else base
    {
      ModBelow(i, n);
      a[i % n] := a[i % n] + 1;
    }
    q := a[..];
  }

  lemma ModBelow(i: nat, n: nat)
    requires i < n
    ensures i % n == i
  {
  }

  /** `base` everywhere, one more on the first `extras` entries: the quotas, when `base` and `extras` are quotient and remainder. */
  lemma RaisedFirst(q: seq<nat>, count: nat, n: nat, base: nat, extras: nat)
    requires n > 0 && base == count / n && extras == count % n && |q| == n
    requires forall t :: 0 <= t < n ==> q[t] == if t < extras then base + 1 else base
    ensures q == Quotas(count, n)
  {
  }

  // ---------------------------------------------------------------------------
  // Teams as a whole

  /** All members of all teams, team 0 first. */
  function Flatten(ts: seq<seq<Attendee>>): seq<Attendee> {
    if ts == [] then [] else Flatten(ts[..|ts| - 1]) + ts[|ts| - 1]
  }

  /** Replacing one team's members changes the pooled members by exactly that difference. */
  lemma {:induction false} FlattenUpdate(ts: seq<seq<Attendee>>, i: nat, a: seq<Attendee>)
    requires i < |ts|
    ensures multiset(Flatten(ts[i := a])) + multiset(ts[i]) == multiset(Flatten(ts)) + multiset(a)
  {
    var n := |ts| - 1;
    var last := ts[n];
    if i < n {
      assert ts[i := a][..n] == ts[..n][i := a];
      assert ts[i := a][n] == last;
      FlattenUpdate(ts[..n], i, a);
      AddBothSides(multiset(Flatten(ts[..n][i := a])), multiset(ts[i]), multiset(Flatten(ts[..n])), multiset(a), multiset(last));
    } else {
      assert ts[i := a][..n] == ts[..n];
    }
  }

  lemma AddBothSides<T>(x: multiset<T>, y: multiset<T>, z: multiset<T>, w: multiset<T>, e: multiset<T>)
    requires x + y == z + w
    ensures (x + e) + y == (z + e) + w
  {
    forall v ensures ((x + e) + y)[v] == ((z + e) + w)[v] {
      assert (x + y)[v] == (z + w)[v];
    }
  }

  /** From `x + a == y + (a + t)` and `q == t + r` it follows that `x + r == y + q`. */
  lemma MovedOut<T>(x: multiset<T>, y: multiset<T>, a: multiset<T>, t: multiset<T>, q: multiset<T>, r: multiset<T>)
    requires x + a == y + (a + t) && q == t + r
    ensures x + r == y + q
  {
    forall v ensures (x + r)[v] == (y + q)[v] {
      assert (x + a)[v] == (y + (a + t))[v];
    }
  }

  function Lengths(ts: seq<seq<Attendee>>): (lens: seq<nat>)
    ensures |lens| == |ts|
    ensures forall i :: 0 <= i < |ts| ==> lens[i] == |ts[i]|
  {
    seq(|ts|, i requires 0 <= i < |ts| => |ts[i]|)
  }

  /** The team sizes add up to the number of pooled members. */
  lemma {:induction false} SumLengths(ts: seq<seq<Attendee>>)
    ensures Sum(Lengths(ts)) == |Flatten(ts)|
  {
    if ts != [] {
      var n := |ts| - 1;
      SumLengths(ts[..n]);
      assert Lengths(ts)[..n] == Lengths(ts[..n]);
    }
  }

  // ---------------------------------------------------------------------------
  // Strict mode: quota fill from FIFO queues

  /** What is left of queue `s` after `k` shifts (shifting an empty queue yields nothing). */
  function Drop(s: seq<Attendee>, k: nat): seq<Attendee> {
    s[Min(k, |s|)..]
  }

  /** What `k` shifts of queue `s` yield. */
  function Take(s: seq<Attendee>, k: nat): seq<Attendee> {
    s[..Min(k, |s|)]
  }

  /** Queue entries `a` up to (excluding) `b`, clipped to the queue's length. */
  function Slice(s: seq<Attendee>, a: nat, b: nat): seq<Attendee>
    requires a <= b
  {
    s[Min(a, |s|)..Min(b, |s|)]
  }

  /** Team `t` after the strict fill: its Male quota from the Male queue, then its Female quota, then its Other quota. */
  function StrictTeam(m: seq<Attendee>, f: seq<Attendee>, o: seq<Attendee>, mq: seq<nat>, fq: seq<nat>, oq: seq<nat>, t: nat): seq<Attendee>
    requires t < |mq| && t < |fq| && t < |oq|
  {
    SumPrefixStep(mq, t);
    SumPrefixStep(fq, t);
    SumPrefixStep(oq, t);
    Slice(m, Sum(mq[..t]), Sum(mq[..t + 1])) + Slice(f, Sum(fq[..t]), Sum(fq[..t + 1])) + Slice(o, Sum(oq[..t]), Sum(oq[..t + 1]))
  }

  /** `for (k < count) { const x = queue.shift(); if (x) teams[t].push(x); }` */
  method MoveFromQueue(teams: array<seq<Attendee>>, t: nat, queue: seq<Attendee>, count: nat) returns (rest: seq<Attendee>)
    requires t < teams.Length
    modifies teams
    ensures rest == Drop(queue, count)
    ensures teams[..] == old(teams[..])[t := old(teams[t]) + Take(queue, count)]
    ensures multiset(Flatten(teams[..])) + multiset(rest) == multiset(Flatten(old(teams[..]))) + multiset(queue)
  {
    rest := queue;
    ghost var ts := teams[..];
    for k := 0 to count
      invariant rest == Drop(queue, k)
      invariant teams[t] == ts[t] + Take(queue, k)
      invariant forall u :: 0 <= u < teams.Length && u != t ==> teams[u] == ts[u]
    {
      if |rest| > 0 {
        var x := rest[0];
        rest := rest[1..];
        assert Take(queue, k + 1) == Take(queue, k) + [x];
        teams[t] := teams[t] + [x];
      }
    }
    assert teams[..] == old(teams[..])[t := teams[t]];
    FlattenUpdate(old(teams[..]), t, teams[t]);
    assert queue == Take(queue, count) + rest;
    MovedOut(multiset(Flatten(teams[..])), multiset(Flatten(old(teams[..]))), multiset(old(teams[t])),
      multiset(Take(queue, count)), multiset(queue), multiset(rest));
  }

  /** Teams before `t` hold their strict-fill members, the later ones are still empty,
      and the three queues have lost exactly what the earlier teams took. */
  ghost predicate StrictProgress(ts: seq<seq<Attendee>>, m: seq<Attendee>, f: seq<Attendee>, o: seq<Attendee>,
                                 mq: seq<nat>, fq: seq<nat>, oq: seq<nat>, t: nat,
                                 mRest: seq<Attendee>, fRest: seq<Attendee>, oRest: seq<Attendee>)
  {
    |mq| == |ts| && |fq| == |ts| && |oq| == |ts| && t <= |ts|
    && mRest == Drop(m, Sum(mq[..t])) && fRest == Drop(f, Sum(fq[..t])) && oRest == Drop(o, Sum(oq[..t]))
    && (forall u :: 0 <= u < t ==> ts[u] == StrictTeam(m, f, o, mq, fq, oq, u))
    && (forall u :: t <= u < |ts| ==> ts[u] == [])
  }

  /** Lines 73-86: team by team, its Male, Female and Other quotas are shifted off the three queues. */
  method FillStrict(teams: array<seq<Attendee>>, m: seq<Attendee>, f: seq<Attendee>, o: seq<Attendee>, mq: seq<nat>, fq: seq<nat>, oq: seq<nat>)
    returns (leftovers: seq<Attendee>)
    requires |mq| == teams.Length && |fq| == teams.Length && |oq| == teams.Length
    requires forall t :: 0 <= t < teams.Length ==> teams[t] == []
    modifies teams
    ensures forall t :: 0 <= t < teams.Length ==> teams[t] == StrictTeam(m, f, o, mq, fq, oq, t)
    ensures leftovers == Drop(m, Sum(mq)) + Drop(f, Sum(fq)) + Drop(o, Sum(oq))
    ensures multiset(Flatten(teams[..])) + multiset(leftovers) == multiset(m) + multiset(f) + multiset(o)
  {
    var n := teams.Length;
    var mRest, fRest, oRest := m, f, o;
    assert mq[..0] == [] && fq[..0] == [] && oq[..0] == [];
    EmptyTeamsFlatten(teams[..]);
    for t := 0 to n
      invariant StrictProgress(teams[..], m, f, o, mq, fq, oq, t, mRest, fRest, oRest)
      invariant Conserved(teams[..], mRest + fRest + oRest, m + f + o)
    {
      mRest, fRest, oRest := FillNext(teams, m, f, o, mq, fq, oq, t, mRest, fRest, oRest);
    }
    leftovers := mRest + fRest + oRest;
    assert multiset(m + f + o) == multiset(m) + multiset(f) + multiset(o);
    assert mq[..n] == mq && fq[..n] == fq && oq[..n] == oq;
  }

  /** One pass of the team loop of lines 73-86, for team `t`. */
  method FillNext(teams: array<seq<Attendee>>, m: seq<Attendee>, f: seq<Attendee>, o: seq<Attendee>,
                  mq: seq<nat>, fq: seq<nat>, oq: seq<nat>, t: nat,
                  mRest: seq<Attendee>, fRest: seq<Attendee>, oRest: seq<Attendee>)
    returns (mRest': seq<Attendee>, fRest': seq<Attendee>, oRest': seq<Attendee>)
    requires t < teams.Length
    requires StrictProgress(teams[..], m, f, o, mq, fq, oq, t, mRest, fRest, oRest)
    requires Conserved(teams[..], mRest + fRest + oRest, m + f + o)
    modifies teams
    ensures StrictProgress(teams[..], m, f, o, mq, fq, oq, t + 1, mRest', fRest', oRest')
    ensures Conserved(teams[..], mRest' + fRest' + oRest', m + f + o)
  {
    ghost var before := teams[..];
    mRest', fRest', oRest' := FillTeam(teams, t, mRest, fRest, oRest, mq[t], fq[t], oq[t]);
    ProgressStep(before, teams[..], m, f, o, mq, fq, oq, t, mRest, fRest, oRest);
    ConservedStep(before, teams[..], mRest, fRest, oRest, mRest', fRest', oRest', m + f + o);
  }

  /** Putting team `t`'s quotas into the empty slot `t` advances the fill by one team. */
  lemma ProgressStep(before: seq<seq<Attendee>>, after: seq<seq<Attendee>>, m: seq<Attendee>, f: seq<Attendee>, o: seq<Attendee>,
                     mq: seq<nat>, fq: seq<nat>, oq: seq<nat>, t: nat,
                     mRest: seq<Attendee>, fRest: seq<Attendee>, oRest: seq<Attendee>)
    requires t < |before| && StrictProgress(before, m, f, o, mq, fq, oq, t, mRest, fRest, oRest)
    requires after == before[t := before[t] + Take(mRest, mq[t]) + Take(fRest, fq[t]) + Take(oRest, oq[t])]
    ensures StrictProgress(after, m, f, o, mq, fq, oq, t + 1, Drop(mRest, mq[t]), Drop(fRest, fq[t]), Drop(oRest, oq[t]))
  {
    StrictTeamFromQueues(m, f, o, mq, fq, oq, t);
    var team := Take(mRest, mq[t]) + Take(fRest, fq[t]) + Take(oRest, oq[t]);
    assert before[t] == [];
    OntoEmpty(before[t], Take(mRest, mq[t]), Take(fRest, fq[t]), Take(oRest, oq[t]));
    assert after[t] == team;
    forall u | 0 <= u < t + 1
      ensures after[u] == StrictTeam(m, f, o, mq, fq, oq, u)
    {
      if u < t {
        assert after[u] == before[u];
      }
    }
    forall u | t + 1 <= u < |after|
      ensures after[u] == []
    {
      assert after[u] == before[u];
    }
    DropSlice(m, Sum(mq[..t]), mq[t]);
    DropSlice(f, Sum(fq[..t]), fq[t]);
    DropSlice(o, Sum(oq[..t]), oq[t]);
  }

  /** Appending three runs to an empty team makes the team their concatenation. */
  lemma OntoEmpty(e: seq<Attendee>, a: seq<Attendee>, b: seq<Attendee>, c: seq<Attendee>)
    requires e == []
    ensures e + a + b + c == a + b + c
  {
    assert e + a == a;
  }

  /** What one team's fill takes off the queues it adds to the teams. */
  lemma ConservedStep(before: seq<seq<Attendee>>, after: seq<seq<Attendee>>,
                      m: seq<Attendee>, f: seq<Attendee>, o: seq<Attendee>,
                      m': seq<Attendee>, f': seq<Attendee>, o': seq<Attendee>, all: seq<Attendee>)
    requires Conserved(before, m + f + o, all)
    requires multiset(Flatten(after)) + (multiset(m') + multiset(f') + multiset(o'))
          == multiset(Flatten(before)) + (multiset(m) + multiset(f) + multiset(o))
    ensures Conserved(after, m' + f' + o', all)
  {
    assert multiset(m + f + o) == multiset(m) + multiset(f) + multiset(o);
    assert multiset(m' + f' + o') == multiset(m') + multiset(f') + multiset(o');
  }

  /** The members placed in teams `ts` together with those still queued in `rest` are exactly the members of `all`. */
  ghost predicate Conserved(ts: seq<seq<Attendee>>, rest: seq<Attendee>, all: seq<Attendee>) {
    multiset(Flatten(ts)) + multiset(rest) == multiset(all)
  }

  /** One iteration of the team loop: the three inner `for` loops of lines 74-85. */
  method FillTeam(teams: array<seq<Attendee>>, t: nat, m: seq<Attendee>, f: seq<Attendee>, o: seq<Attendee>, mc: nat, fc: nat, oc: nat)
    returns (mRest: seq<Attendee>, fRest: seq<Attendee>, oRest: seq<Attendee>)
    requires t < teams.Length
    modifies teams
    ensures mRest == Drop(m, mc) && fRest == Drop(f, fc) && oRest == Drop(o, oc)
    ensures teams[..] == old(teams[..])[t := old(teams[t]) + Take(m, mc) + Take(f, fc) + Take(o, oc)]
    ensures multiset(Flatten(teams[..])) + (multiset(mRest) + multiset(fRest) + multiset(oRest))
         == multiset(Flatten(old(teams[..]))) + (multiset(m) + multiset(f) + multiset(o))
  {
    ghost var ts0 := teams[..];
    mRest := MoveFromQueue(teams, t, m, mc);
    ghost var ts1 := teams[..];
    fRest := MoveFromQueue(teams, t, f, fc);
    ghost var ts2 := teams[..];
    oRest := MoveFromQueue(teams, t, o, oc);
    ThreeAppends(ts0, ts1, ts2, teams[..], t, Take(m, mc), Take(f, fc), Take(o, oc));
    ChainThree(multiset(Flatten(ts0)), multiset(Flatten(ts1)), multiset(Flatten(ts2)), multiset(Flatten(teams[..])),
      multiset(m), multiset(f), multiset(o), multiset(mRest), multiset(fRest), multiset(oRest));
  }

  /** Three appends to slot `t`, one after the other, append their concatenation. */
  lemma ThreeAppends(ts0: seq<seq<Attendee>>, ts1: seq<seq<Attendee>>, ts2: seq<seq<Attendee>>, ts3: seq<seq<Attendee>>,
                     t: nat, a: seq<Attendee>, b: seq<Attendee>, c: seq<Attendee>)
    requires t < |ts0|
    requires ts1 == ts0[t := ts0[t] + a] && ts2 == ts1[t := ts1[t] + b] && ts3 == ts2[t := ts2[t] + c]
    ensures ts3 == ts0[t := ts0[t] + a + b + c]
  {
  }

  lemma ChainThree<T>(p0: multiset<T>, p1: multiset<T>, p2: multiset<T>, p3: multiset<T>,
                      m: multiset<T>, f: multiset<T>, o: multiset<T>, m': multiset<T>, f': multiset<T>, o': multiset<T>)
    requires p1 + m' == p0 + m && p2 + f' == p1 + f && p3 + o' == p2 + o
    ensures p3 + (m' + f' + o') == p0 + (m + f + o)
  {
    forall v ensures (p3 + (m' + f' + o'))[v] == (p0 + (m + f + o))[v] {
      assert (p1 + m')[v] == (p0 + m)[v];
      assert (p2 + f')[v] == (p1 + f)[v];
      assert (p3 + o')[v] == (p2 + o)[v];
    }
  }

  lemma {:induction false} EmptyTeamsFlatten(ts: seq<seq<Attendee>>)
    requires forall i :: 0 <= i < |ts| ==> ts[i] == []
    ensures Flatten(ts) == []
  {
    if ts != [] {
      EmptyTeamsFlatten(ts[..|ts| - 1]);
    }
  }

  /** Team `t` of the strict fill is what the three queues yield once the earlier teams took theirs. */
  lemma StrictTeamFromQueues(m: seq<Attendee>, f: seq<Attendee>, o: seq<Attendee>, mq: seq<nat>, fq: seq<nat>, oq: seq<nat>, t: nat)
    requires t < |mq| && t < |fq| && t < |oq|
    ensures StrictTeam(m, f, o, mq, fq, oq, t)
         == Take(Drop(m, Sum(mq[..t])), mq[t]) + Take(Drop(f, Sum(fq[..t])), fq[t]) + Take(Drop(o, Sum(oq[..t])), oq[t])
    ensures Sum(mq[..t + 1]) == Sum(mq[..t]) + mq[t]
    ensures Sum(fq[..t + 1]) == Sum(fq[..t]) + fq[t]
    ensures Sum(oq[..t + 1]) == Sum(oq[..t]) + oq[t]
  {
    SumPrefixStep(mq, t);
    SumPrefixStep(fq, t);
    SumPrefixStep(oq, t);
    DropSlice(m, Sum(mq[..t]), mq[t]);
    DropSlice(f, Sum(fq[..t]), fq[t]);
    DropSlice(o, Sum(oq[..t]), oq[t]);
  }

  /** Shifting `k` more entries off what is left after `a` shifts yields the slice `a .. a + k`. */
  lemma DropSlice(s: seq<Attendee>, a: nat, k: nat)
    ensures Take(Drop(s, a), k) == Slice(s, a, a + k)
    ensures Drop(Drop(s, a), k) == Drop(s, a + k)
  {
  }

  lemma {:induction false} SumPrefixBelow(q: seq<nat>, k: nat)
    requires k <= |q|
    ensures Sum(q[..k]) <= Sum(q)
  {
    if k < |q| {
      SumPrefixBelow(q[..|q| - 1], k);
      assert q[..|q| - 1][..k] == q[..k];
    } else {
      assert q[..k] == q;
    }
  }

  /** With quotas from the queue's length, team `t`'s run of the queue is exactly its quota long. */
  lemma StrictRunLength(s: seq<Attendee>, n: nat, t: nat)
    requires t < n
    ensures var q := Quotas(|s|, n); |Slice(s, Sum(q[..t]), Sum(q[..t]) + q[t])| == q[t]
  {
    var q := Quotas(|s|, n);
    QuotasSum(|s|, n);
    SumPrefixBelow(q, t + 1);
    SumPrefixStep(q, t);
  }

  /**
   * Strict team `t` holds the Male run, the Female run and the Other run of the
   * three queues and nothing else: its bucket `b` is what that bucket's queue
   * yields for `t` once the earlier teams took theirs.
   */
  lemma StrictTeamBuckets(m: seq<Attendee>, f: seq<Attendee>, o: seq<Attendee>, mq: seq<nat>, fq: seq<nat>, oq: seq<nat>, t: nat, b: Bucket)
    requires t < |mq| && t < |fq| && t < |oq|
    requires forall i :: 0 <= i < |m| ==> BucketOf(m[i]) == Male
    requires forall i :: 0 <= i < |f| ==> BucketOf(f[i]) == Female
    requires forall i :: 0 <= i < |o| ==> BucketOf(o[i]) == Other
    ensures InBucket(StrictTeam(m, f, o, mq, fq, oq, t), b)
         == Pick(Take(Drop(m, Sum(mq[..t])), mq[t]), Take(Drop(f, Sum(fq[..t])), fq[t]), Take(Drop(o, Sum(oq[..t])), oq[t]), b)
  {
    StrictTeamFromQueues(m, f, o, mq, fq, oq, t);
    TakeDropUniform(m, Sum(mq[..t]), mq[t], Male);
    TakeDropUniform(f, Sum(fq[..t]), fq[t], Female);
    TakeDropUniform(o, Sum(oq[..t]), oq[t], Other);
    ThreeRunsInBucket(Take(Drop(m, Sum(mq[..t])), mq[t]), Take(Drop(f, Sum(fq[..t])), fq[t]), Take(Drop(o, Sum(oq[..t])), oq[t]), b);
  }

  /** A run shifted off a queue of one bucket stays in that bucket. */
  lemma TakeDropUniform(s: seq<Attendee>, a: nat, k: nat, b: Bucket)
    requires forall i :: 0 <= i < |s| ==> BucketOf(s[i]) == b
    ensures forall i :: 0 <= i < |Take(Drop(s, a), k)| ==> BucketOf(Take(Drop(s, a), k)[i]) == b
  {
    var r := Take(Drop(s, a), k);
    assert forall i :: 0 <= i < |r| ==> r[i] == s[Min(a, |s|) + i];
  }

  /** With quotas that add up to the queue lengths, the strict fill uses up every queue. */
  lemma StrictFillLeavesNothing(m: seq<Attendee>, f: seq<Attendee>, o: seq<Attendee>, n: nat)
    requires n > 0
    ensures Drop(m, Sum(Quotas(|m|, n))) + Drop(f, Sum(Quotas(|f|, n))) + Drop(o, Sum(Quotas(|o|, n))) == []
  {
    QuotasSum(|m|, n);
    QuotasSum(|f|, n);
    QuotasSum(|o|, n);
  }

  // ---------------------------------------------------------------------------
  // Round-robin dealing

  /** The items of `s` that a round-robin deal over `n` teams gives team `t`: those at positions `i` with `i % n == t`. */
  function Dealt(s: seq<Attendee>, n: nat, t: nat): seq<Attendee>
    requires n > 0
  {
    if s == [] then []
    else Dealt(s[..|s| - 1], n, t) + (if (|s| - 1) % n == t then [s[|s| - 1]] else [])
  }

  /** Appending one item to the deal gives it to team `|s| % n` and to nobody else. */
  lemma DealtSnoc(s: seq<Attendee>, x: Attendee, n: nat, t: nat)
    requires n > 0
    ensures Dealt(s + [x], n, t) == Dealt(s, n, t) + (if |s| % n == t then [x] else [])
  {
    assert (s + [x])[..|s|] == s;
  }

  /** Quotient and remainder are the only `q`, `r` with `c == n * q + r` and `0 <= r < n`. */
  lemma DivModUnique(c: int, n: int, q: int, r: int)
    requires n > 0 && 0 <= r < n && c == n * q + r
    ensures c / n == q && c % n == r
  {
    var q', r' := c / n, c % n;
    assert n * (q - q') == r' - r;
    if q' < q {
      MulAtLeast(n, q - q');
    } else if q < q' {
      MulAtLeast(n, q' - q);
    }
  }

  lemma MulAtLeast(n: int, k: int)
    requires n > 0 && k >= 1
    ensures n * k >= n
  {
    assert n * k == n * (k - 1) + n;
  }

  /** Dealing `c + 1` items instead of `c` adds one item exactly to the share of team `c % n`. */
  lemma ShareStep(c: nat, n: nat, t: nat)
    requires n > 0 && t < n
    ensures Share(c + 1, n, t) == Share(c, n, t) + (if c % n == t then 1 else 0)
  {
    var q, r := c / n, c % n;
    if r == n - 1 {
      DivModUnique(c + 1, n, q + 1, 0);
    } else {
      DivModUnique(c + 1, n, q, r + 1);
    }
  }

  /** A round-robin deal gives team `t` exactly its share of the items. */
  lemma {:induction false} DealtLength(s: seq<Attendee>, n: nat, t: nat)
    requires n > 0 && t < n
    ensures |Dealt(s, n, t)| == Share(|s|, n, t)
  {
    if s != [] {
      DealtLength(s[..|s| - 1], n, t);
      ShareStep(|s| - 1, n, t);
    }
  }

  /** Teams dealt from the same items hold all of them between them. */
  lemma {:induction false} DealtPermutation(s: seq<Attendee>, n: nat)
    requires n > 0
    ensures multiset(Flatten(seq(n, t requires 0 <= t < n => Dealt(s, n, t)))) == multiset(s)
  {
    var ts := seq(n, t requires 0 <= t < n => Dealt(s, n, t));
    if s == [] {
      EmptyTeamsFlatten(ts);
    } else {
      var init, x := s[..|s| - 1], s[|s| - 1];
      var ts0 := seq(n, t requires 0 <= t < n => Dealt(init, n, t));
      DealtPermutation(init, n);
      var w := |init| % n;
      assert s == init + [x];
      forall t | 0 <= t < n ensures ts[t] == ts0[w := ts0[w] + [x]][t] {
        DealtSnoc(init, x, n, t);
      }
      assert ts == ts0[w := ts0[w] + [x]];
      FlattenUpdate(ts0, w, ts0[w] + [x]);
      assert multiset(ts0[w] + [x]) == multiset(ts0[w]) + multiset{x};
      MultisetCancel(multiset(Flatten(ts)), multiset(ts0[w]), multiset(init), multiset{x});
    }
  }

  lemma MultisetCancel<T>(a: multiset<T>, b: multiset<T>, c: multiset<T>, x: multiset<T>)
    requires a + b == c + (b + x)
    ensures a == c + x
  {
    forall v ensures a[v] == (c + x)[v] {
      assert (a + b)[v] == (c + (b + x))[v];
    }
  }

  /**
   * Lines 88-95 and 112-116: item `i` of `items` is pushed onto team `i % n`.
   * Both the strict-mode leftovers and the loose-mode merged list are dealt this way.
   */
  method DealRoundRobin(teams: array<seq<Attendee>>, items: seq<Attendee>)
    requires teams.Length > 0
    modifies teams
    ensures forall t :: 0 <= t < teams.Length ==> teams[t] == old(teams[t]) + Dealt(items, teams.Length, t)
  {
    var n := teams.Length;
    ghost var ts := teams[..];
    for i := 0 to |items|
      invariant forall t :: 0 <= t < n ==> teams[t] == ts[t] + Dealt(items[..i], n, t)
    {
      assert items[..i + 1] == items[..i] + [items[i]];
      forall t | 0 <= t < n {
        DealtSnoc(items[..i], items[i], n, t);
      }
      teams[i % n] := teams[i % n] + [items[i]];
    }
    assert items[..|items|] == items;
  }

  // ---------------------------------------------------------------------------
  // Loose mode: merged round-robin over the three ordered buckets

  /** `list.shift()` on a non-empty list yields its head; an empty list yields nothing. */
  function Head(s: seq<Attendee>): seq<Attendee> {
    if |s| == 0 then [] else [s[0]]
  }

  function Tail(s: seq<Attendee>): seq<Attendee> {
    if |s| == 0 then [] else s[1..]
  }

  /** Rounds of "one Male, one Female, one Other", skipping exhausted lists, until all three are exhausted. */
  function MergeRounds(m: seq<Attendee>, f: seq<Attendee>, o: seq<Attendee>): (r: seq<Attendee>)
    ensures |r| == |m| + |f| + |o|
    decreases |m| + |f| + |o|
  {
    if |m| + |f| + |o| == 0 then []
    else Head(m) + Head(f) + Head(o) + MergeRounds(Tail(m), Tail(f), Tail(o))
  }

  lemma HeadTail(s: seq<Attendee>)
    ensures Head(s) + Tail(s) == s
  {
  }

  /** The merge loses and adds nobody. */
  lemma {:induction false} MergeRoundsPermutation(m: seq<Attendee>, f: seq<Attendee>, o: seq<Attendee>)
    ensures multiset(MergeRounds(m, f, o)) == multiset(m) + multiset(f) + multiset(o)
    decreases |m| + |f| + |o|
  {
    if !(|m| + |f| + |o| == 0) {
      MergeRoundsPermutation(Tail(m), Tail(f), Tail(o));
      HeadTail(m);
      HeadTail(f);
      HeadTail(o);
      assert multiset(m) == multiset(Head(m)) + multiset(Tail(m));
      assert multiset(f) == multiset(Head(f)) + multiset(Tail(f));
      assert multiset(o) == multiset(Head(o)) + multiset(Tail(o));
    }
  }

  /** The list the merge draws from for bucket `b`. */
  function Pick(m: seq<Attendee>, f: seq<Attendee>, o: seq<Attendee>, b: Bucket): seq<Attendee> {
    match b
    case Male => m
    case Female => f
    case Other => o
  }

  /** One round of the merge, when some list still has members. */
  lemma MergeRoundsStep(m: seq<Attendee>, f: seq<Attendee>, o: seq<Attendee>)
    requires !(|m| + |f| + |o| == 0)
    ensures MergeRounds(m, f, o) == Head(m) + Head(f) + Head(o) + MergeRounds(Tail(m), Tail(f), Tail(o))
  {
  }

  lemma Associative<T>(a: seq<T>, b: seq<T>, c: seq<T>)
    ensures (a + b) + c == a + (b + c)
  {
  }

  /** Each bucket's attendees appear in the merge in the bucket's own order. */
  lemma {:induction false} MergeRoundsKeepsOrder(m: seq<Attendee>, f: seq<Attendee>, o: seq<Attendee>, b: Bucket)
    requires forall i :: 0 <= i < |m| ==> BucketOf(m[i]) == Male
    requires forall i :: 0 <= i < |f| ==> BucketOf(f[i]) == Female
    requires forall i :: 0 <= i < |o| ==> BucketOf(o[i]) == Other
    ensures InBucket(MergeRounds(m, f, o), b) == Pick(m, f, o, b)
    decreases |m| + |f| + |o|
  {
    if !(|m| + |f| + |o| == 0) {
      var rest := MergeRounds(Tail(m), Tail(f), Tail(o));
      var round := Head(m) + Head(f) + Head(o);
      MergeRoundsStep(m, f, o);
      TailUniform(m, Male);
      TailUniform(f, Female);
      TailUniform(o, Other);
      MergeRoundsKeepsOrder(Tail(m), Tail(f), Tail(o), b);
      RoundInBucket(m, f, o, b);
      InBucketAppend(round, rest, b);
      assert Pick(Tail(m), Tail(f), Tail(o), b) == Tail(Pick(m, f, o, b));
      HeadTail(Pick(m, f, o, b));
    }
  }

  lemma TailUniform(s: seq<Attendee>, b: Bucket)
    requires forall i :: 0 <= i < |s| ==> BucketOf(s[i]) == b
    ensures forall i :: 0 <= i < |Tail(s)| ==> BucketOf(Tail(s)[i]) == b
  {
  }

  /** Bucket `b` sees exactly the head of its own list in one round. */
  lemma RoundInBucket(m: seq<Attendee>, f: seq<Attendee>, o: seq<Attendee>, b: Bucket)
    requires forall i :: 0 <= i < |m| ==> BucketOf(m[i]) == Male
    requires forall i :: 0 <= i < |f| ==> BucketOf(f[i]) == Female
    requires forall i :: 0 <= i < |o| ==> BucketOf(o[i]) == Other
    ensures InBucket(Head(m) + Head(f) + Head(o), b) == Head(Pick(m, f, o, b))
  {
    ThreeRunsInBucket(Head(m), Head(f), Head(o), b);
  }

  /** Bucket `b` of a Male run, a Female run and an Other run, one after the other, is the run of bucket `b`. */
  lemma ThreeRunsInBucket(x: seq<Attendee>, y: seq<Attendee>, z: seq<Attendee>, b: Bucket)
    requires forall i :: 0 <= i < |x| ==> BucketOf(x[i]) == Male
    requires forall i :: 0 <= i < |y| ==> BucketOf(y[i]) == Female
    requires forall i :: 0 <= i < |z| ==> BucketOf(z[i]) == Other
    ensures InBucket(x + y + z, b) == Pick(x, y, z, b)
  {
    InBucketAppend(x, y, b);
    InBucketAppend(x + y, z, b);
    InBucketOfUniform(x, Male, b);
    InBucketOfUniform(y, Female, b);
    InBucketOfUniform(z, Other, b);
    PickOfRuns(x, y, z, InBucket(x, b), InBucket(y, b), InBucket(z, b), b);
  }

  /** Keeping only the run of bucket `b` picks that run. */
  lemma PickOfRuns(x: seq<Attendee>, y: seq<Attendee>, z: seq<Attendee>, x': seq<Attendee>, y': seq<Attendee>, z': seq<Attendee>, b: Bucket)
    requires x' == (if Male == b then x else [])
    requires y' == (if Female == b then y else [])
    requires z' == (if Other == b then z else [])
    ensures x' + y' + z' == Pick(x, y, z, b)
  {
    match b {
      case Male => assert x + [] + [] == x;
      case Female => assert [] + y + [] == y;
      case Other => assert [] + [] + z == z;
    }
  }

  /** One pass of the merge loop keeps `merged + MergeRounds(lists)` unchanged. */
  lemma MergeLoopStep(merged: seq<Attendee>, m: seq<Attendee>, f: seq<Attendee>, o: seq<Attendee>)
    ensures merged + Head(m) + Head(f) + Head(o) + MergeRounds(Tail(m), Tail(f), Tail(o)) == merged + MergeRounds(m, f, o)
  {
    var round := Head(m) + Head(f) + Head(o);
    if |m| + |f| + |o| == 0 {
      assert round == [] && MergeRounds(Tail(m), Tail(f), Tail(o)) == [];
    } else {
      MergeRoundsStep(m, f, o);
      Associative(merged, round, MergeRounds(Tail(m), Tail(f), Tail(o)));
    }
  }

  /** The body of `for (let g of genderOrder)`: shift list `g` onto `merged` if it has members, and report whether members remain. */
  method ShiftOnto(merged: seq<Attendee>, list: seq<Attendee>) returns (merged': seq<Attendee>, list': seq<Attendee>, more: bool)
    ensures merged' == merged + Head(list) && list' == Tail(list)
    ensures more <==> |list'| > 0
  {
    merged', list', more := merged, list, false;
    if |list| > 0 {
      merged' := merged + [list[0]];
      list' := list[1..];
      more := |list'| > 0;
    }
  }

  /**
   * Lines 97-111: `while (remaining)`, one pass over Male, Female, Other shifting
   * each non-empty list; `remaining` records whether some list still has members.
   */
  method MergeRoundRobin(m: seq<Attendee>, f: seq<Attendee>, o: seq<Attendee>) returns (merged: seq<Attendee>)
    ensures merged == MergeRounds(m, f, o)
  {
    merged := [];
    var lm, lf, lo := m, f, o;
    var remaining := true;
    while remaining
      invariant merged + MergeRounds(lm, lf, lo) == MergeRounds(m, f, o)
      invariant !remaining ==> |lm| + |lf| + |lo| == 0
      decreases |lm| + |lf| + |lo| + (if remaining then 1 else 0)
    {
      ghost var m0, f0, o0, merged0 := lm, lf, lo, merged;
      remaining := false;
      var more;
      merged, lm, more := ShiftOnto(merged, lm);
      remaining := remaining || more;
      merged, lf, more := ShiftOnto(merged, lf);
      remaining := remaining || more;
      merged, lo, more := ShiftOnto(merged, lo);
      remaining := remaining || more;
      MergeLoopStep(merged0, m0, f0, o0);
    }
  }

  // ---------------------------------------------------------------------------
  // Sorting each team

  /** Teams with the same members team by team pool the same members. */
  lemma {:induction false} FlattenPointwise(ts: seq<seq<Attendee>>, us: seq<seq<Attendee>>)
    requires |ts| == |us|
    requires forall i :: 0 <= i < |ts| ==> multiset(ts[i]) == multiset(us[i])
    ensures multiset(Flatten(ts)) == multiset(Flatten(us))
  {
    if ts != [] {
      var n := |ts| - 1;
      FlattenPointwise(ts[..n], us[..n]);
    }
  }

  /** Lines 120-122: each team is sorted by age in place. */
  method SortEachTeam(teams: array<seq<Attendee>>)
    modifies teams
    ensures forall t :: 0 <= t < teams.Length ==> teams[t] == SortByAge(old(teams[t]))
  {
    ghost var ts := teams[..];
    for t := 0 to teams.Length
      invariant forall u :: 0 <= u < t ==> teams[u] == SortByAge(ts[u])
      invariant forall u :: t <= u < teams.Length ==> teams[u] == ts[u]
    {
      teams[t] := SortByAge(teams[t]);
    }
  }

  // ---------------------------------------------------------------------------
  // Rebalancing

  /** How far a team of `len` members is above its target. */
  function Over(len: nat, target: nat): nat {
    if len > target then len - target else 0
  }

  /** The members above target, summed over all teams. */
  function Excess(lens: seq<nat>, target: seq<nat>): nat
    requires |lens| == |target|
  {
    if lens == [] then 0
    else Excess(lens[..|lens| - 1], target[..|lens| - 1]) + Over(lens[|lens| - 1], target[|lens| - 1])
  }

  /** Changing one team's size changes the excess by the change in that team's overshoot. */
  lemma {:induction false} ExcessUpdate(lens: seq<nat>, target: seq<nat>, i: nat, v: nat)
    requires |lens| == |target| && i < |lens|
    ensures Excess(lens[i := v], target) + Over(lens[i], target[i]) == Excess(lens, target) + Over(v, target[i])
  {
    var n := |lens| - 1;
    if i < n {
      assert lens[i := v][..n] == lens[..n][i := v];
      ExcessUpdate(lens[..n], target[..n], i, v);
    } else {
      assert lens[i := v][..n] == lens[..n];
    }
  }

  /** Moving one member from a team above target to a team below target lowers the excess by one. */
  lemma MoveLowersExcess(lens: seq<nat>, target: seq<nat>, i: nat, j: nat)
    requires |lens| == |target| && i < |lens| && j < |lens|
    requires lens[i] > target[i] && lens[j] < target[j]
    ensures Excess(lens[i := lens[i] - 1][j := lens[j] + 1], target) + 1 == Excess(lens, target)
  {
    ExcessUpdate(lens, target, i, lens[i] - 1);
    ExcessUpdate(lens[i := lens[i] - 1], target, j, lens[j] + 1);
  }

  /** `teams.findIndex((tm, idx) => tm.length < target[idx])`: the first team below its target, or -1. */
  function FirstUnder(lens: seq<nat>, target: seq<nat>): (j: int)
    requires |lens| == |target|
    ensures -1 <= j < |lens|
    ensures j == -1 <==> forall k :: 0 <= k < |lens| ==> lens[k] >= target[k]
    ensures j >= 0 ==> lens[j] < target[j] && forall k :: 0 <= k < j ==> lens[k] >= target[k]
  {
    if lens == [] then -1
    else if lens[0] < target[0] then 0
    else
      var r := FirstUnder(lens[1..], target[1..]);
      if r == -1 then -1 else r + 1
  }

  /**
   * Team sizes from which the rebalancing loop moves nobody: no team is above
   * its target, or no team is below it.
   */
  predicate Settled(lens: seq<nat>, target: seq<nat>) {
    |lens| == |target|
    && ((forall k :: 0 <= k < |lens| ==> lens[k] <= target[k]) || (forall k :: 0 <= k < |lens| ==> lens[k] >= target[k]))
  }

  lemma {:induction false} SumBelow(a: seq<nat>, b: seq<nat>)
    requires |a| == |b| && forall k :: 0 <= k < |a| ==> a[k] <= b[k]
    ensures Sum(a) <= Sum(b)
    ensures Sum(a) == Sum(b) ==> a == b
  {
    if a != [] {
      var n := |a| - 1;
      SumBelow(a[..n], b[..n]);
      if Sum(a) == Sum(b) {
        SameInitAndLast(a, b);
      }
    }
  }

  /** Two sequences that agree up to their last elements and on those are equal. */
  lemma SameInitAndLast(a: seq<nat>, b: seq<nat>)
    requires |a| == |b| > 0 && a[..|a| - 1] == b[..|b| - 1] && a[|a| - 1] == b[|b| - 1]
    ensures a == b
  {
    var n := |a| - 1;
    forall k | 0 <= k < n
      ensures a[k] == b[k]
    {
      assert a[k] == a[..n][k];
    }
  }

  /** Settled sizes whose total is the targets' total are exactly the targets. */
  lemma SettledAtTarget(lens: seq<nat>, target: seq<nat>)
    requires Settled(lens, target) && Sum(lens) == Sum(target)
    ensures lens == target
  {
    if forall k :: 0 <= k < |lens| ==> lens[k] <= target[k] {
      SumBelow(lens, target);
    } else {
      SumBelow(target, lens);
    }
  }

  lemma LengthsUpdate(ts: seq<seq<Attendee>>, i: nat, a: seq<Attendee>)
    requires i < |ts|
    ensures Lengths(ts[i := a]) == Lengths(ts)[i := |a|]
  {
  }

  /** Moving the last member of a team above target to a team below target lowers the excess. */
  lemma MoveLastLowersExcess(ts: seq<seq<Attendee>>, target: seq<nat>, i: nat, j: nat)
    requires |target| == |ts| && i < |ts| && j < |ts|
    requires |ts[i]| > target[i] && |ts[j]| < target[j]
    ensures Excess(Lengths(ts[i := ts[i][..|ts[i]| - 1]][j := ts[j] + [ts[i][|ts[i]| - 1]]]), target) < Excess(Lengths(ts), target)
  {
    var lens := Lengths(ts);
    var popped := ts[i][..|ts[i]| - 1];
    LengthsUpdate(ts, i, popped);
    LengthsUpdate(ts[i := popped], j, ts[j] + [ts[i][|ts[i]| - 1]]);
    assert Lengths(ts[i := popped][j := ts[j] + [ts[i][|ts[i]| - 1]]]) == lens[i := lens[i] - 1][j := lens[j] + 1];
    MoveLowersExcess(lens, target, i, j);
  }

  /** Lines 141-142: `teams[j].push(teams[i].pop())`. */
  method MoveLast(teams: array<seq<Attendee>>, i: nat, j: nat)
    requires i < teams.Length && j < teams.Length && i != j && |teams[i]| > 0
    modifies teams
    ensures teams[..] == old(teams[..])[i := old(teams[i])[..|old(teams[i])| - 1]][j := old(teams[j]) + [old(teams[i])[|old(teams[i])| - 1]]]
    ensures multiset(Flatten(teams[..])) == multiset(Flatten(old(teams[..])))
  {
    ghost var ts0 := teams[..];
    var src := teams[i];
    var m := src[|src| - 1];
    teams[i] := src[..|src| - 1];
    ghost var ts1 := teams[..];
    assert ts1 == ts0[i := src[..|src| - 1]];
    teams[j] := teams[j] + [m];
    assert teams[..] == ts1[j := ts0[j] + [m]];
    MoveLastKeepsMembers(ts0, i, j);
  }

  /** Popping the last member of team `i` and pushing it onto team `j` keeps the pooled members. */
  lemma MoveLastKeepsMembers(ts: seq<seq<Attendee>>, i: nat, j: nat)
    requires i < |ts| && j < |ts| && i != j && |ts[i]| > 0
    ensures multiset(Flatten(ts[i := ts[i][..|ts[i]| - 1]][j := ts[j] + [ts[i][|ts[i]| - 1]]])) == multiset(Flatten(ts))
  {
    var src := ts[i];
    var m := src[|src| - 1];
    var ts1 := ts[i := src[..|src| - 1]];
    FlattenUpdate(ts, i, src[..|src| - 1]);
    assert ts1[j] == ts[j];
    FlattenUpdate(ts1, j, ts[j] + [m]);
    PopMultiset(src);
    PushMultiset(ts[j], m);
    MovedAcross(multiset(Flatten(ts)), multiset(Flatten(ts1)), multiset(Flatten(ts1[j := ts[j] + [m]])),
      multiset(src[..|src| - 1]), multiset(ts[j]), multiset{m});
  }

  lemma PopMultiset(s: seq<Attendee>)
    requires s != []
    ensures multiset(s) == multiset(s[..|s| - 1]) + multiset{s[|s| - 1]}
  {
    assert s == s[..|s| - 1] + [s[|s| - 1]];
  }

  lemma PushMultiset(s: seq<Attendee>, x: Attendee)
    ensures multiset(s + [x]) == multiset(s) + multiset{x}
  {
  }

  lemma MovedAcross<T>(p0: multiset<T>, p1: multiset<T>, p2: multiset<T>, rest: multiset<T>, dst: multiset<T>, x: multiset<T>)
    requires p1 + (rest + x) == p0 + rest
    requires p2 + dst == p1 + (dst + x)
    ensures p2 == p0
  {
    forall v ensures p2[v] == p0[v] {
      assert (p1 + (rest + x))[v] == (p0 + rest)[v];
      assert (p2 + dst)[v] == (p1 + (dst + x))[v];
    }
  }

  /**
   * Lines 133-147: while some pass moved a member, pass over the teams; a team
   * above its target gives its last member to the first team below its target.
   */
  method Rebalance(teams: array<seq<Attendee>>, target: seq<nat>)
    requires |target| == teams.Length
    modifies teams
    ensures multiset(Flatten(teams[..])) == multiset(Flatten(old(teams[..])))
    ensures Settled(Lengths(teams[..]), target)
    ensures Settled(Lengths(old(teams[..])), target) ==> teams[..] == old(teams[..])
  {
    ghost var ts0 := teams[..];
    var changed := true;
    while changed
      invariant multiset(Flatten(teams[..])) == multiset(Flatten(ts0))
      invariant !changed ==> Settled(Lengths(teams[..]), target)
      invariant Settled(Lengths(ts0), target) ==> teams[..] == ts0
      decreases Excess(Lengths(teams[..]), target) + (if changed then 1 else 0)
    {
      changed := RebalancePass(teams, target);
    }
  }

  /** One pass of the `for (let i = 0; i < N; i++)` loop of lines 136-146; reports whether it moved anyone. */
  method RebalancePass(teams: array<seq<Attendee>>, target: seq<nat>) returns (changed: bool)
    requires |target| == teams.Length
    modifies teams
    ensures multiset(Flatten(teams[..])) == multiset(Flatten(old(teams[..])))
    ensures changed ==> Excess(Lengths(teams[..]), target) < Excess(Lengths(old(teams[..])), target)
    ensures !changed ==> teams[..] == old(teams[..]) && Settled(Lengths(teams[..]), target)
    ensures Settled(Lengths(old(teams[..])), target) ==> !changed
  {
    ghost var start := teams[..];
    var n := teams.Length;
    changed := false;
    for i := 0 to n
      invariant multiset(Flatten(teams[..])) == multiset(Flatten(start))
      invariant changed ==> Excess(Lengths(teams[..]), target) < Excess(Lengths(start), target)
      invariant !changed ==> teams[..] == start && QuietSoFar(start, target, i)
      invariant Settled(Lengths(start), target) ==> !changed
    {
      var moved := RebalanceStep(teams, target, i);
      if !changed && !moved {
        QuietStep(start, target, i);
      }
      changed := changed || moved;
    }
    if !changed {
      QuietPassSettled(start, target);
    }
  }

  /**
   * After the first `i` steps of a pass that moved nobody: either no team is
   * below its target, or none of the first `i` teams is above it.
   */
  ghost predicate QuietSoFar(ts: seq<seq<Attendee>>, target: seq<nat>, i: nat) {
    |target| == |ts| && i <= |ts|
    && ((forall k :: 0 <= k < |ts| ==> |ts[k]| >= target[k]) || (forall k :: 0 <= k < i ==> |ts[k]| <= target[k]))
  }

  lemma QuietStep(ts: seq<seq<Attendee>>, target: seq<nat>, i: nat)
    requires QuietSoFar(ts, target, i) && i < |ts|
    requires |ts[i]| <= target[i] || forall k :: 0 <= k < |ts| ==> |ts[k]| >= target[k]
    ensures QuietSoFar(ts, target, i + 1)
  {
  }

  lemma QuietPassSettled(ts: seq<seq<Attendee>>, target: seq<nat>)
    requires QuietSoFar(ts, target, |ts|)
    ensures Settled(Lengths(ts), target)
  {
  }

  /** The body of lines 137-145 for team `i`: if it is above target and some team is below, move its last member there. */
  method RebalanceStep(teams: array<seq<Attendee>>, target: seq<nat>, i: nat) returns (moved: bool)
    requires |target| == teams.Length && i < teams.Length
    modifies teams
    ensures multiset(Flatten(teams[..])) == multiset(Flatten(old(teams[..])))
    ensures moved ==> Excess(Lengths(teams[..]), target) < Excess(Lengths(old(teams[..])), target)
    ensures !moved ==> teams[..] == old(teams[..])
    ensures !moved ==> |teams[i]| <= target[i] || forall k :: 0 <= k < teams.Length ==> |teams[k]| >= target[k]
    ensures Settled(Lengths(old(teams[..])), target) ==> !moved
    ensures moved <==> |old(teams[i])| > target[i] && FirstUnder(Lengths(old(teams[..])), target) != -1
    ensures moved ==>
      var j := FirstUnder(Lengths(old(teams[..])), target);
      0 <= j < teams.Length && j != i
      && teams[..] == old(teams[..])[i := old(teams[i])[..|old(teams[i])| - 1]][j := old(teams[j]) + [old(teams[i])[|old(teams[i])| - 1]]]
  {
    moved := false;
    ghost var ts := teams[..];
    if |teams[i]| > target[i] {
      var j := FirstUnder(Lengths(teams[..]), target);
      if j != -1 {
        ghost var after := ts[i := ts[i][..|ts[i]| - 1]][j := ts[j] + [ts[i][|ts[i]| - 1]]];
        MoveLastLowersExcess(ts, target, i, j);
        MoveLast(teams, i, j);
        assert teams[..] == after;
        moved := true;
      }
    }
  }

  // ---------------------------------------------------------------------------
  // Rebalancing targets

  /**
   * Lines 125-130 as written: `target[i]` starts at `base + 1` for every team as
   * soon as `extras > 0`, so the first `extras` teams are not the only ones raised.
   */
  function UniformTargets(total: nat, n: nat): (q: seq<nat>)
    requires n > 0
    ensures |q| == n
  {
    seq(n, _ => if total % n > 0 then total / n + 1 else total / n)
  }

  /** Lines 126-130 as written. */
  method TargetsAsWritten(total: nat, n: nat) returns (target: seq<nat>)
    requires n > 0
    ensures target == UniformTargets(total, n)
  {
    var base := total / n;
    var extras := total % n;
    var a := new nat[n](_ => if extras > 0 then base + 1 else base);
    for i := 0 to extras
      invariant a[..] == UniformTargets(total, n)
    {
      a[i] := base + 1;
    }
    target := a[..];
  }

  lemma {:induction false} SumConstant(q: seq<nat>, c: nat)
    requires forall k :: 0 <= k < |q| ==> q[k] == c
    ensures Sum(q) == |q| * c
  {
    if q != [] {
      SumConstant(q[..|q| - 1], c);
    }
  }

  /**
   * The targets as written add up to more than the member total whenever the
   * total is not a multiple of the team count; otherwise they are the quotas.
   */
  lemma UniformTargetsOvershoot(total: nat, n: nat)
    requires n > 0
    ensures total % n > 0 ==> Sum(UniformTargets(total, n)) == total + (n - total % n)
    ensures total % n == 0 ==> UniformTargets(total, n) == Quotas(total, n)
  {
    var base, extras := total / n, total % n;
    if extras > 0 {
      SumConstant(UniformTargets(total, n), base + 1);
      OneMoreEach(total, n, base, extras);
    }
  }

  /** Raising each of `n` shares of `base` by one adds `n` to the sum. */
  lemma OneMoreEach(total: int, n: int, base: int, extras: int)
    requires total == n * base + extras
    ensures n * (base + 1) == total + (n - extras)
  {
    assert n * (base + 1) == n * base + n;
  }

  /**
   * Two Male and two Female attendees over three strict-parity teams: the quota
   * fill gives sizes [2, 2, 0]. Against the targets as written ([2, 2, 2]) these
   * are settled, so nobody moves and two teams differ by two; against the
   * quotas ([2, 1, 1]) they are not.
   */
  lemma AsWrittenLeavesGap()
    ensures Quotas(2, 3) == [1, 1, 0] && Quotas(0, 3) == [0, 0, 0]
    ensures UniformTargets(4, 3) == [2, 2, 2] && Quotas(4, 3) == [2, 1, 1]
    ensures Settled([2, 2, 0], UniformTargets(4, 3))
    ensures !Settled([2, 2, 0], Quotas(4, 3))
  {
    assert Quotas(2, 3)[2] == 0;
    assert !Settled([2, 2, 0], Quotas(4, 3)) by {
      assert [2, 2, 0][1] > Quotas(4, 3)[1];
      assert [2, 2, 0][2] < Quotas(4, 3)[2];
    }
  }

  /** In strict mode team `t` receives exactly its Male, Female and Other quotas. */
  lemma StrictTeamsLengths(m: seq<Attendee>, f: seq<Attendee>, o: seq<Attendee>, n: nat)
    requires n > 0
    ensures forall t :: 0 <= t < n ==>
      |StrictTeams(m, f, o, n)[t]| == Quotas(|m|, n)[t] + Quotas(|f|, n)[t] + Quotas(|o|, n)[t]
  {
    forall t | 0 <= t < n
      ensures |StrictTeams(m, f, o, n)[t]| == Quotas(|m|, n)[t] + Quotas(|f|, n)[t] + Quotas(|o|, n)[t]
    {
      StrictTeamLength(m, f, o, n, t);
    }
  }

  lemma StrictTeamLength(m: seq<Attendee>, f: seq<Attendee>, o: seq<Attendee>, n: nat, t: nat)
    requires t < n
    ensures var mq, fq, oq := Quotas(|m|, n), Quotas(|f|, n), Quotas(|o|, n);
      |StrictTeam(m, f, o, mq, fq, oq, t)| == mq[t] + fq[t] + oq[t]
  {
    QuotaRunLength(m, n, t);
    QuotaRunLength(f, n, t);
    QuotaRunLength(o, n, t);
  }

  /** Team `t`'s run of a queue, between the running sums of its quotas, is its quota long. */
  lemma QuotaRunLength(s: seq<Attendee>, n: nat, t: nat)
    requires t < n
    ensures var q := Quotas(|s|, n); Sum(q[..t]) <= Sum(q[..t + 1]) && |Slice(s, Sum(q[..t]), Sum(q[..t + 1]))| == q[t]
  {
    SumPrefixStep(Quotas(|s|, n), t);
    StrictRunLength(s, n, t);
  }

  /**
   * The repository's test roster, 6 Male, 8 Female and 1 Other over 3 teams:
   * the per-bucket quotas are [2, 2, 2], [3, 3, 2] and [1, 0, 0], so the strict
   * fill gives sizes [6, 5, 4]; rebalancing brings them to [5, 5, 5], which is
   * both the quotas of 15 and the targets as written.
   */
  lemma TestScriptSizes(m: seq<Attendee>, f: seq<Attendee>, o: seq<Attendee>)
    requires |m| == 6 && |f| == 8 && |o| == 1
    ensures Quotas(|m|, 3) == [2, 2, 2] && Quotas(|f|, 3) == [3, 3, 2] && Quotas(|o|, 3) == [1, 0, 0]
    ensures Lengths(StrictTeams(m, f, o, 3)) == [6, 5, 4]
    ensures Quotas(|m| + |f| + |o|, 3) == [5, 5, 5] && UniformTargets(|m| + |f| + |o|, 3) == [5, 5, 5]
  {
    TestRosterQuotas();
    StrictTeamsLengths(m, f, o, 3);
    var lens := Lengths(StrictTeams(m, f, o, 3));
    assert lens[0] == 6 && lens[1] == 5 && lens[2] == 4;
  }

  /** The quotas of the test roster's buckets and of its total over three teams. */
  lemma TestRosterQuotas()
    ensures Quotas(6, 3) == [2, 2, 2] && Quotas(8, 3) == [3, 3, 2] && Quotas(1, 3) == [1, 0, 0]
    ensures Quotas(15, 3) == [5, 5, 5] && UniformTargets(15, 3) == [5, 5, 5]
  {
    assert Quotas(1, 3)[1] == 0 && Quotas(1, 3)[2] == 0;
  }

  /** The strict fill of two Male and two Female attendees into three teams has sizes [2, 2, 0]. */
  lemma StrictFillTwoAndTwo(m: seq<Attendee>, f: seq<Attendee>)
    requires |m| == 2 && |f| == 2
    ensures Lengths(StrictTeams(m, f, [], 3)) == [2, 2, 0]
  {
    var ts := StrictTeams(m, f, [], 3);
    TwoOverThreeSums(m);
    TwoOverThreeSums(f);
    NoneOverThreeSums([]);
    assert ts[0] == Slice(m, 0, 1) + Slice(f, 0, 1) + Slice([], 0, 0);
    assert ts[1] == Slice(m, 1, 2) + Slice(f, 1, 2) + Slice([], 0, 0);
    assert ts[2] == Slice(m, 2, 2) + Slice(f, 2, 2) + Slice([], 0, 0);
  }

  /** The running sums of the quotas of two over three teams. */
  lemma TwoOverThreeSums(s: seq<Attendee>)
    requires |s| == 2
    ensures Sum(Quotas(|s|, 3)[..0]) == 0 && Sum(Quotas(|s|, 3)[..1]) == 1
    ensures Sum(Quotas(|s|, 3)[..2]) == 2 && Sum(Quotas(|s|, 3)[..3]) == 2
  {
    AsWrittenLeavesGap();
    var q := Quotas(|s|, 3);
    assert q[..0] == [] && q[..1] == [1] && q[..2] == [1, 1] && q[..3] == [1, 1, 0];
    assert Sum([1, 1]) == 2 && Sum([1, 1, 0]) == 2;
  }

  /** The running sums of the quotas of nobody over three teams. */
  lemma NoneOverThreeSums(s: seq<Attendee>)
    requires s == []
    ensures Sum(Quotas(|s|, 3)[..0]) == 0 && Sum(Quotas(|s|, 3)[..1]) == 0
    ensures Sum(Quotas(|s|, 3)[..2]) == 0 && Sum(Quotas(|s|, 3)[..3]) == 0
  {
    AsWrittenLeavesGap();
    var q := Quotas(0, 3);
    assert q[..0] == [] && q[..1] == [0] && q[..2] == [0, 0] && q[..3] == [0, 0, 0];
    assert Sum([0, 0]) == 0 && Sum([0, 0, 0]) == 0;
  }

  // ---------------------------------------------------------------------------
  // The whole generator

  /** Bucket `b` of `s`, sorted by age and interleaved (lines 50-54). */
  function Ordered(s: seq<Attendee>, b: Bucket): seq<Attendee> {
    Interleaved(SortByAge(InBucket(s, b)))
  }

  /** All `n` teams of the strict fill, with quotas from the three list lengths. */
  function StrictTeams(m: seq<Attendee>, f: seq<Attendee>, o: seq<Attendee>, n: nat): (ts: seq<seq<Attendee>>)
    requires n > 0
    ensures |ts| == n
  {
    seq(n, t requires 0 <= t < n => StrictTeam(m, f, o, Quotas(|m|, n), Quotas(|f|, n), Quotas(|o|, n), t))
  }

  /** All `n` teams of the loose mode: the merged list dealt round-robin. */
  function LooseTeams(m: seq<Attendee>, f: seq<Attendee>, o: seq<Attendee>, n: nat): (ts: seq<seq<Attendee>>)
    requires n > 0
    ensures |ts| == n
  {
    seq(n, t requires 0 <= t < n => Dealt(MergeRounds(m, f, o), n, t))
  }

  /** The teams as the chosen mode places them. */
  function Placed(m: seq<Attendee>, f: seq<Attendee>, o: seq<Attendee>, n: nat, strict: bool): (ts: seq<seq<Attendee>>)
    requires n > 0
    ensures |ts| == n
  {
    if strict then StrictTeams(m, f, o, n) else LooseTeams(m, f, o, n)
  }

  /** Every team sorted by age. */
  function SortedTeams(ts: seq<seq<Attendee>>): (r: seq<seq<Attendee>>)
    ensures |r| == |ts|
  {
    seq(|ts|, t requires 0 <= t < |ts| => SortByAge(ts[t]))
  }

  /** The teams just before rebalancing: placed by the chosen mode, then each sorted by age. */
  function Assigned(nonLeaders: seq<Attendee>, n: nat, strict: bool): (ts: seq<seq<Attendee>>)
    requires n > 0
    ensures |ts| == n
  {
    SortedTeams(Placed(Ordered(nonLeaders, Male), Ordered(nonLeaders, Female), Ordered(nonLeaders, Other), n, strict))
  }

  /** Lines 43-54: the three gender buckets, each sorted by age and interleaved. */
  method OrderBuckets(nonLeaders: seq<Attendee>) returns (m: seq<Attendee>, f: seq<Attendee>, o: seq<Attendee>)
    ensures m == Ordered(nonLeaders, Male) && f == Ordered(nonLeaders, Female) && o == Ordered(nonLeaders, Other)
    ensures multiset(m) + multiset(f) + multiset(o) == multiset(nonLeaders)
  {
    var male, female, other := BucketByGender(nonLeaders);
    m := Interleave(SortByAge(male));
    f := Interleave(SortByAge(female));
    o := Interleave(SortByAge(other));
    OrderedPartition(nonLeaders);
  }

  /** The three ordered buckets hold every attendee exactly once. */
  lemma OrderedPartition(s: seq<Attendee>)
    ensures multiset(Ordered(s, Male)) + multiset(Ordered(s, Female)) + multiset(Ordered(s, Other)) == multiset(s)
  {
    InterleavedPermutation(SortByAge(InBucket(s, Male)));
    InterleavedPermutation(SortByAge(InBucket(s, Female)));
    InterleavedPermutation(SortByAge(InBucket(s, Other)));
    BucketsPartition(s);
  }

  /** Sorting each team keeps every team's size. */
  lemma SortedTeamsLengths(ts: seq<seq<Attendee>>)
    ensures Lengths(SortedTeams(ts)) == Lengths(ts)
  {
    forall t | 0 <= t < |ts|
      ensures |SortedTeams(ts)[t]| == |ts[t]|
    {
      assert |multiset(SortByAge(ts[t]))| == |multiset(ts[t])|;
    }
  }

  /** Dealing a list round-robin gives team `t` its share of the list. */
  lemma LooseTeamsLengths(m: seq<Attendee>, f: seq<Attendee>, o: seq<Attendee>, n: nat)
    requires n > 0
    ensures Lengths(LooseTeams(m, f, o, n)) == Quotas(|MergeRounds(m, f, o)|, n)
  {
    forall t | 0 <= t < n
      ensures |LooseTeams(m, f, o, n)[t]| == Share(|MergeRounds(m, f, o)|, n, t)
    {
      DealtLength(MergeRounds(m, f, o), n, t);
    }
  }

  /** In loose mode the teams before rebalancing already have the balanced sizes. */
  lemma LoosePlacedAtQuotas(m: seq<Attendee>, f: seq<Attendee>, o: seq<Attendee>, n: nat, count: nat)
    requires n > 0 && count == |m| + |f| + |o|
    ensures Lengths(SortedTeams(Placed(m, f, o, n, false))) == Quotas(count, n)
  {
    var loose := LooseTeams(m, f, o, n);
    assert Placed(m, f, o, n, false) == loose;
    SortedTeamsLengths(loose);
    LooseTeamsLengths(m, f, o, n);
  }

  /** The buckets of a roster together are as long as the roster. */
  lemma PartitionSize(m: seq<Attendee>, f: seq<Attendee>, o: seq<Attendee>, s: seq<Attendee>)
    requires multiset(m) + multiset(f) + multiset(o) == multiset(s)
    ensures |m| + |f| + |o| == |s|
  {
    assert |multiset(m) + multiset(f) + multiset(o)| == |multiset(s)|;
  }

  /** Any two quotas of one count differ by at most one. */
  lemma QuotasSpread(count: nat, n: nat, a: nat, b: nat)
    requires a < n && b < n
    ensures Quotas(count, n)[a] <= Quotas(count, n)[b] + 1
  {
  }

  /**
   * `generateTeams(nonLeaders, teamCount, opts)`: `N` teams holding every
   * attendee once, sized by the quotas of the total (`floor(total / N)`, one
   * more for the first `total % N` teams; see `UniformTargets` for the targets
   * as written). Teams whose sizes the rebalancing leaves alone are the
   * assigned teams unchanged, which always holds in loose mode.
   */
  method GenerateTeams(nonLeaders: seq<Attendee>, teamCount: real, opts: Opts) returns (teams: seq<seq<Attendee>>)
    ensures |teams| == TeamCount(teamCount)
    ensures |teams| > 0 ==> multiset(Flatten(teams)) == multiset(nonLeaders)
    ensures |teams| > 0 ==> Lengths(teams) == Quotas(|nonLeaders|, |teams|)
    ensures |teams| > 0 && Settled(Lengths(Assigned(nonLeaders, |teams|, StrictParity(opts))), Quotas(|nonLeaders|, |teams|))
            ==> teams == Assigned(nonLeaders, |teams|, StrictParity(opts))
    ensures |teams| > 0 && !StrictParity(opts) ==> teams == Assigned(nonLeaders, |teams|, false)
  {
    var n := TeamCount(teamCount);
    if n == 0 {
      return [];
    }
    var strict := StrictParity(opts);
    var m, f, o := OrderBuckets(nonLeaders);
    PartitionSize(m, f, o, nonLeaders);
    var count := |nonLeaders|;
    teams := BuildTeams(m, f, o, n, strict, count);
  }

  /**
   * Lines 39-147 once the three queues are ordered: the teams are assigned,
   * then rebalanced; `count` is the number of queued attendees.
   */
  method BuildTeams(m: seq<Attendee>, f: seq<Attendee>, o: seq<Attendee>, n: nat, strict: bool, count: nat) returns (teams: seq<seq<Attendee>>)
    requires n > 0 && count == |m| + |f| + |o|
    ensures |teams| == n
    ensures multiset(Flatten(teams)) == multiset(m) + multiset(f) + multiset(o)
    ensures Lengths(teams) == Quotas(count, n)
    ensures Settled(Lengths(SortedTeams(Placed(m, f, o, n, strict))), Quotas(count, n))
            ==> teams == SortedTeams(Placed(m, f, o, n, strict))
    ensures !strict ==> teams == SortedTeams(Placed(m, f, o, n, false))
  {
    var arr := AssignTeams(m, f, o, n, strict);
    SumOfParts(arr[..], m, f, o);
    if !strict {
      LoosePlacedAtQuotas(m, f, o, n, count);
      SettledAtQuotas(Quotas(count, n));
    }
    RebalanceToQuotas(arr, count, n);
    teams := arr[..];
  }

  /**
   * Lines 39-147 as written: the teams are assigned, then rebalanced against
   * the targets of lines 125-130 (`UniformTargets`), not against the quotas.
   * The members are kept and the sizes end settled against those targets only.
   */
  method BuildTeamsAsWritten(m: seq<Attendee>, f: seq<Attendee>, o: seq<Attendee>, n: nat, strict: bool, count: nat) returns (teams: seq<seq<Attendee>>)
    requires n > 0 && count == |m| + |f| + |o|
    ensures |teams| == n
    ensures multiset(Flatten(teams)) == multiset(m) + multiset(f) + multiset(o)
    ensures Settled(Lengths(teams), UniformTargets(count, n))
    ensures Settled(Lengths(SortedTeams(Placed(m, f, o, n, strict))), UniformTargets(count, n))
            ==> teams == SortedTeams(Placed(m, f, o, n, strict))
  {
    var arr := AssignTeams(m, f, o, n, strict);
    var target := TargetsAsWritten(count, n);
    Rebalance(arr, target);
    teams := arr[..];
  }

  /**
   * Two Male and two Female attendees over three strict-parity teams: as
   * written the generator returns sizes [2, 2, 0]; with the quotas as targets
   * it returns [2, 1, 1].
   */
  method AsWrittenTwoAndTwo(m: seq<Attendee>, f: seq<Attendee>) returns (asWritten: seq<seq<Attendee>>, corrected: seq<seq<Attendee>>)
    requires |m| == 2 && |f| == 2
    ensures Lengths(asWritten) == [2, 2, 0]
    ensures Lengths(corrected) == [2, 1, 1]
  {
    StrictFillTwoAndTwo(m, f);
    SortedTeamsLengths(StrictTeams(m, f, [], 3));
    AsWrittenLeavesGap();
    asWritten := BuildTeamsAsWritten(m, f, [], 3, true, 4);
    corrected := BuildTeams(m, f, [], 3, true, 4);
  }

  /** Teams holding the three queues' members have sizes summing to the queues' lengths. */
  lemma SumOfParts(ts: seq<seq<Attendee>>, m: seq<Attendee>, f: seq<Attendee>, o: seq<Attendee>)
    requires multiset(Flatten(ts)) == multiset(m) + multiset(f) + multiset(o)
    ensures Sum(Lengths(ts)) == |m| + |f| + |o|
  {
    SumLengths(ts);
    assert |multiset(Flatten(ts))| == |multiset(m) + multiset(f) + multiset(o)|;
  }

  /** Lengths equal to their targets are settled. */
  lemma SettledAtQuotas(q: seq<nat>)
    ensures Settled(q, q)
  {
  }

  /**
   * Lines 125-147 with the quotas of the total as targets: afterwards every
   * team has exactly its quota, and teams the loop would not touch stay as they were.
   */
  method RebalanceToQuotas(teams: array<seq<Attendee>>, total: nat, n: nat)
    requires n == teams.Length && n > 0 && Sum(Lengths(teams[..])) == total
    modifies teams
    ensures multiset(Flatten(teams[..])) == multiset(Flatten(old(teams[..])))
    ensures Lengths(teams[..]) == Quotas(total, n)
    ensures Settled(Lengths(old(teams[..])), Quotas(total, n)) ==> teams[..] == old(teams[..])
  {
    ghost var before := teams[..];
    var target := QuotasFor(total, n);
    Rebalance(teams, target);
    SumLengths(before);
    SumLengths(teams[..]);
    assert |multiset(Flatten(teams[..]))| == |multiset(Flatten(before))|;
    QuotasSum(total, n);
    SettledAtTarget(Lengths(teams[..]), target);
  }

  /** Lines 39-122: `N` empty teams, filled by the chosen mode, then each sorted by age. */
  method AssignTeams(m: seq<Attendee>, f: seq<Attendee>, o: seq<Attendee>, n: nat, strict: bool) returns (arr: array<seq<Attendee>>)
    requires n > 0
    ensures fresh(arr) && arr.Length == n
    ensures arr[..] == SortedTeams(Placed(m, f, o, n, strict))
    ensures multiset(Flatten(arr[..])) == multiset(m) + multiset(f) + multiset(o)
  {
    arr := new seq<Attendee>[n](_ => []);
    Place(arr, m, f, o, strict);
    ghost var placed := arr[..];
    SortEachTeam(arr);
    FlattenPointwise(arr[..], placed);
  }

  /** Lines 56-117: fill the empty teams by quota (strict) or by the merged round-robin (loose). */
  method Place(teams: array<seq<Attendee>>, m: seq<Attendee>, f: seq<Attendee>, o: seq<Attendee>, strict: bool)
    requires teams.Length > 0
    requires forall t :: 0 <= t < teams.Length ==> teams[t] == []
    modifies teams
    ensures teams[..] == Placed(m, f, o, teams.Length, strict)
    ensures multiset(Flatten(teams[..])) == multiset(m) + multiset(f) + multiset(o)
  {
    if strict {
      PlaceStrict(teams, m, f, o);
    } else {
      PlaceLoose(teams, m, f, o);
    }
  }

  /** Lines 57-95: the quota fill, then the (empty) leftovers dealt round-robin. */
  method PlaceStrict(teams: array<seq<Attendee>>, m: seq<Attendee>, f: seq<Attendee>, o: seq<Attendee>)
    requires teams.Length > 0
    requires forall t :: 0 <= t < teams.Length ==> teams[t] == []
    modifies teams
    ensures teams[..] == StrictTeams(m, f, o, teams.Length)
    ensures multiset(Flatten(teams[..])) == multiset(m) + multiset(f) + multiset(o)
  {
    var n := teams.Length;
    var mq := QuotasFor(|m|, n);
    var fq := QuotasFor(|f|, n);
    var oq := QuotasFor(|o|, n);
    var leftovers := FillStrict(teams, m, f, o, mq, fq, oq);
    StrictFillLeavesNothing(m, f, o, n);
    assert teams[..] == StrictTeams(m, f, o, n);
    assert leftovers == [];
    ghost var filled := teams[..];
    DealRoundRobin(teams, leftovers);
    forall t | 0 <= t < n
      ensures teams[t] == filled[t]
    {
      assert Dealt(leftovers, n, t) == [];
    }
    assert teams[..] == filled;
  }

  /** Lines 97-116: the merged round-robin list dealt over the teams. */
  method PlaceLoose(teams: array<seq<Attendee>>, m: seq<Attendee>, f: seq<Attendee>, o: seq<Attendee>)
    requires teams.Length > 0
    requires forall t :: 0 <= t < teams.Length ==> teams[t] == []
    modifies teams
    ensures teams[..] == LooseTeams(m, f, o, teams.Length)
    ensures multiset(Flatten(teams[..])) == multiset(m) + multiset(f) + multiset(o)
  {
    var n := teams.Length;
    var merged := MergeRoundRobin(m, f, o);
    ghost var empty := teams[..];
    DealRoundRobin(teams, merged);
    forall t | 0 <= t < n
      ensures teams[t] == LooseTeams(m, f, o, n)[t]
    {
      assert empty[t] == [];
    }
    assert teams[..] == LooseTeams(m, f, o, n);
    DealtPermutation(merged, n);
    MergeRoundsPermutation(m, f, o);
  }
}
