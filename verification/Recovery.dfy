/** Recovery verdicts over sample traces (`scripts/qualification.py`, `recovery`,
    `longest_outage` and `cluster_healthy`). Times are real numbers. */
module Recovery {
  import opened Results

  /** One sample of either signal: when, and whether it was healthy. */
  datatype Reading = Reading(t: real, healthy: bool)

  datatype ClusterSample = ClusterSample(t: real, failed: bool, pods: int, ready: int, digests: set<string>)

  /** `cluster_healthy`: no accepted digests means any will do. */
  predicate ClusterHealthy(s: ClusterSample, replicas: int, accepted: set<string>) {
    !s.failed && s.pods == replicas && s.ready == replicas && (accepted == {} || s.digests <= accepted)
  }

  function ReadingsOf(samples: seq<ClusterSample>, replicas: int, accepted: set<string>): (r: seq<Reading>)
    ensures |r| == |samples|
  {
    seq(|samples|, i requires 0 <= i < |samples| =>
      Reading(samples[i].t, ClusterHealthy(samples[i], replicas, accepted)))
  }

  /** The samples from `t` on. */
  function From(samples: seq<Reading>, t: real): (r: seq<Reading>)
    ensures forall s :: s in r <==> s in samples && s.t >= t
  {
    if samples == [] then []
    else (if samples[0].t >= t then [samples[0]] else []) + From(samples[1..], t)
  }

  /** The times of the unhealthy samples. */
  function BadTimes(samples: seq<Reading>): (r: seq<real>)
    ensures forall t :: t in r <==> exists s :: s in samples && !s.healthy && s.t == t
  {
    if samples == [] then []
    else
      var rest := BadTimes(samples[1..]);
      if samples[0].healthy then rest else [samples[0].t] + rest
  }

  function Least(times: seq<real>): (r: real)
    requires times != []
    ensures r in times && forall t <- times :: r <= t
  {
    if |times| == 1 then times[0]
    else
      assert forall t <- times :: t == times[0] || t in times[1..];
      var rest := Least(times[1..]);
      if times[0] <= rest then times[0] else rest
  }

  function Greatest(times: seq<real>): (r: real)
    requires times != []
    ensures r in times && forall t <- times :: t <= r
  {
    if |times| == 1 then times[0]
    else
      assert forall t <- times :: t == times[0] || t in times[1..];
      var rest := Greatest(times[1..]);
      if times[0] >= rest then times[0] else rest
  }

  function Later(a: real, b: real): real { if a >= b then a else b }

  /** `settled`: in the window and after the last unhealthy sample. */
  function Settled(samples: seq<Reading>, windowStart: real, lastBad: Option<real>): (r: seq<Reading>)
    ensures forall s :: s in r <==> s in samples && s.t >= windowStart && (lastBad.Some? ==> s.t > lastBad.value)
    ensures |r| <= |samples|
  {
    if samples == [] then []
    else
      (if samples[0].t >= windowStart && (lastBad.None? || samples[0].t > lastBad.value) then [samples[0]] else [])
      + Settled(samples[1..], windowStart, lastBad)
  }

  /** A sample of `samples` after `t`. */
  ghost predicate SomeAfter(samples: seq<Reading>, t: real) {
    exists s :: s in samples && s.t > t
  }

  /** The time of the first sample after `t`. */
  function FirstAfter(samples: seq<Reading>, t: real): (r: real)
    requires SomeAfter(samples, t)
    ensures r > t && exists s :: s in samples && s.t == r
  {
    if samples[0].t > t then samples[0].t else FirstAfter(samples[1..], t)
  }

  datatype Verdict = Verdict(firstUnhealthy: Option<real>, recovered: real)

  datatype Drill = Drill(faultAt: real, readyAt: real, stable: real, expectDisruption: bool)

  /** `recovery`, over the two signals' readings. */
  function Recovered(traffic: seq<Reading>, cluster: seq<Reading>, drill: Drill, now: real): Option<Verdict> {
    var afterTraffic, afterCluster := From(traffic, drill.faultAt), From(cluster, drill.faultAt);
    Judge(afterTraffic, afterCluster, BadTimes(afterTraffic) + BadTimes(afterCluster), drill, now)
  }

  function Judge(
    afterTraffic: seq<Reading>, afterCluster: seq<Reading>, unhealthy: seq<real>, drill: Drill,
        now: real): Option<Verdict>
  {
    if drill.expectDisruption && unhealthy == [] then None
    else
      var lastBad := if unhealthy == [] then None else Some(Greatest(unhealthy));
      var windowStart := if unhealthy == [] then drill.readyAt else Later(drill.readyAt, Greatest(unhealthy));
      var goodTraffic, goodCluster :=
        Settled(afterTraffic, windowStart, lastBad), Settled(afterCluster, windowStart, lastBad);
      if now - windowStart < drill.stable || |goodTraffic| < 3 || |goodCluster| < 3 then None
      else if unhealthy == [] then Some(Verdict(None, drill.faultAt))
      else
        assert goodTraffic[0] in goodTraffic && goodCluster[0] in goodCluster;
        Some(Verdict(
          Some(Least(unhealthy)),
          Later(FirstAfter(afterTraffic, lastBad.value), FirstAfter(afterCluster, lastBad.value))))
  }

  /** What a verdict after a disruption is made of. */
  lemma JudgeDisrupted(a: seq<Reading>, b: seq<Reading>, unhealthy: seq<real>, drill: Drill, now: real)
    requires Judge(a, b, unhealthy, drill, now).Some? && unhealthy != []
    ensures var lastBad := Greatest(unhealthy);
            && SomeAfter(a, lastBad) && SomeAfter(b, lastBad)
            && now - Later(drill.readyAt, lastBad) >= drill.stable
            && Judge(a, b, unhealthy, drill, now)
               == Some(Verdict(Some(Least(unhealthy)), Later(FirstAfter(a, lastBad), FirstAfter(b, lastBad))))
  {
    hide Least, Greatest, FirstAfter;
    var lastBad := Greatest(unhealthy);
    var windowStart := Later(drill.readyAt, lastBad);
    var goodA, goodB := Settled(a, windowStart, Some(lastBad)), Settled(b, windowStart, Some(lastBad));
    assert goodA[0] in goodA && goodB[0] in goodB;
  }

  // What a verdict says.

  /** Some sample of either signal from the fault on is unhealthy at `t`. */
  ghost predicate BadAt(traffic: seq<Reading>, cluster: seq<Reading>, faultAt: real, t: real) {
    exists s :: (s in traffic || s in cluster) && s.t == t && t >= faultAt && !s.healthy
  }

  ghost predicate SomeBad(traffic: seq<Reading>, cluster: seq<Reading>, faultAt: real) {
    exists t :: BadAt(traffic, cluster, faultAt, t)
  }

  predicate InOrder(samples: seq<Reading>) {
    forall i, j :: 0 <= i < j < |samples| ==> samples[i].t <= samples[j].t
  }

  /** A healthy sample, from the fault on, after `t` and no later than `until`. */
  ghost predicate HealthyBetween(samples: seq<Reading>, faultAt: real, t: real, until: real) {
    exists s :: s in samples && s.healthy && s.t >= faultAt && t < s.t <= until
  }

  lemma UnhealthyTimes(traffic: seq<Reading>, cluster: seq<Reading>, faultAt: real, t: real)
    ensures t in BadTimes(From(traffic, faultAt)) + BadTimes(From(cluster, faultAt)) <==>
        BadAt(traffic, cluster, faultAt, t)
  {
    hide From, BadTimes;
    var a, b := BadTimes(From(traffic, faultAt)), BadTimes(From(cluster, faultAt));
    assert t in a + b <==> t in a || t in b;
    if t in a {
      var s :| s in From(traffic, faultAt) && !s.healthy && s.t == t;
    }
    if t in b {
      var s :| s in From(cluster, faultAt) && !s.healthy && s.t == t;
    }
    if BadAt(traffic, cluster, faultAt, t) {
      var s :| (s in traffic || s in cluster) && s.t == t && t >= faultAt && !s.healthy;
      assert s in From(traffic, faultAt) || s in From(cluster, faultAt);
    }
  }

  lemma {:induction false} FilterInOrder(samples: seq<Reading>, t: real)
    requires InOrder(samples)
    ensures InOrder(From(samples, t))
  {
    if samples != [] {
      FilterInOrder(samples[1..], t);
      var rest := From(samples[1..], t);
      forall s | s in rest ensures samples[0].t <= s.t {
        var i :| 0 <= i < |samples[1..]| && samples[1..][i] == s;
        assert samples[i + 1] == s;
      }
      assert forall i :: 0 <= i < |rest| ==> rest[i] in rest;
    }
  }

  /** In time order, the first sample after `t` is the earliest. */
  lemma {:induction false} FirstAfterIsEarliest(samples: seq<Reading>, t: real)
    requires InOrder(samples) && SomeAfter(samples, t)
    ensures forall s <- samples :: s.t > t ==> FirstAfter(samples, t) <= s.t
  {
    if samples[0].t <= t {
      var s :| s in samples && s.t > t;
      assert s in samples[1..];
      FirstAfterIsEarliest(samples[1..], t);
    } else {
      forall s | s in samples ensures samples[0].t <= s.t {
        var i :| 0 <= i < |samples| && samples[i] == s;
      }
    }
  }

  /** Without a disruption: the fault itself is the recovery moment, the window
      since the command returned was long enough and quiet, and none was expected. */
  lemma QuietVerdict(traffic: seq<Reading>, cluster: seq<Reading>, drill: Drill, now: real)
    requires Recovered(traffic, cluster, drill, now).Some? && !SomeBad(traffic, cluster, drill.faultAt)
    ensures Recovered(traffic, cluster, drill, now).value == Verdict(None, drill.faultAt)
    ensures !drill.expectDisruption && now - drill.readyAt >= drill.stable
  {
    hide From, BadTimes, Settled, FirstAfter, Least, Greatest;
    var unhealthy := BadTimes(From(traffic, drill.faultAt)) + BadTimes(From(cluster, drill.faultAt));
    if unhealthy != [] {
      UnhealthyTimes(traffic, cluster, drill.faultAt, unhealthy[0]);
    }
  }

  /** The sorted unhealthy times run from the first to the last bad sample. */
  lemma UnhealthyBounds(traffic: seq<Reading>, cluster: seq<Reading>, faultAt: real)
    requires SomeBad(traffic, cluster, faultAt)
    ensures var unhealthy := BadTimes(From(traffic, faultAt)) + BadTimes(From(cluster, faultAt));
            && unhealthy != []
            && BadAt(traffic, cluster, faultAt, Least(unhealthy)) &&
                BadAt(traffic, cluster, faultAt, Greatest(unhealthy))
            && forall t :: BadAt(traffic, cluster, faultAt, t) ==> Least(unhealthy) <= t <= Greatest(unhealthy)
  {
    hide From, BadTimes, Least, Greatest, BadAt;
    var unhealthy := BadTimes(From(traffic, faultAt)) + BadTimes(From(cluster, faultAt));
    forall t ensures t in unhealthy <==> BadAt(traffic, cluster, faultAt, t) {
      UnhealthyTimes(traffic, cluster, faultAt, t);
    }
    var bad :| BadAt(traffic, cluster, faultAt, bad);
    assert bad in unhealthy;
  }

  /** A verdict after a disruption whose last unhealthy sample was at `lastBad`:
      it names the first unhealthy sample, comes after the last, the quiet window
      after that was long enough, and both signals had been healthy again. */
  ghost predicate IsSound(
    v: Verdict, lastBad: real, traffic: seq<Reading>, cluster: seq<Reading>, drill: Drill, now: real)
  {
    && BadAt(traffic, cluster, drill.faultAt, lastBad) && lastBad < v.recovered
    && v.firstUnhealthy.Some? && BadAt(traffic, cluster, drill.faultAt, v.firstUnhealthy.value)
    && (forall t :: BadAt(traffic, cluster, drill.faultAt, t) ==> v.firstUnhealthy.value <= t <= lastBad)
    && now - Later(drill.readyAt, lastBad) >= drill.stable
    && BothHealthy(traffic, cluster, drill.faultAt, lastBad, v.recovered)
  }

  /** No earlier moment than the verdict's had seen both signals healthy again. */
  ghost predicate IsEarliest(v: Verdict, lastBad: real, traffic: seq<Reading>, cluster: seq<Reading>, drill: Drill) {
    forall until :: BothHealthy(traffic, cluster, drill.faultAt, lastBad, until) ==> v.recovered <= until
  }

  /** A verdict after a disruption is sound and, over samples in time order, the earliest. */
  lemma DisruptedVerdict(traffic: seq<Reading>, cluster: seq<Reading>, drill: Drill, now: real) returns (lastBad: real)
    requires Recovered(traffic, cluster, drill, now).Some? && SomeBad(traffic, cluster, drill.faultAt)
    ensures IsSound(Recovered(traffic, cluster, drill, now).value, lastBad, traffic, cluster, drill, now)
    ensures InOrder(traffic) && InOrder(cluster) ==>
              IsEarliest(Recovered(traffic, cluster, drill, now).value, lastBad, traffic, cluster, drill)
  {
    hide *;
    var a, b := From(traffic, drill.faultAt), From(cluster, drill.faultAt);
    var unhealthy := BadTimes(a) + BadTimes(b);
    RecoveredIsJudge(traffic, cluster, drill, now);
    UnhealthyBounds(traffic, cluster, drill.faultAt);
    lastBad := Greatest(unhealthy);
    JudgeDisrupted(a, b, unhealthy, drill, now);
    HealthyAfter(traffic, cluster, drill.faultAt, lastBad, traffic);
    HealthyAfter(traffic, cluster, drill.faultAt, lastBad, cluster);
    FirstAgain(traffic, drill.faultAt, lastBad);
    FirstAgain(cluster, drill.faultAt, lastBad);
    LaterIsSound(Least(unhealthy), lastBad, FirstAfter(a, lastBad), FirstAfter(b, lastBad), traffic, cluster,
        drill, now);
  }

  lemma RecoveredIsJudge(traffic: seq<Reading>, cluster: seq<Reading>, drill: Drill, now: real)
    ensures var a, b := From(traffic, drill.faultAt), From(cluster, drill.faultAt);
            Recovered(traffic, cluster, drill, now) == Judge(a, b, BadTimes(a) + BadTimes(b), drill, now)
  {
  }

  /** `first` is when a signal had been healthy again, and in time order the
      earliest such moment. */
  ghost predicate IsFirstAgain(samples: seq<Reading>, faultAt: real, lastBad: real, first: real) {
    && first > lastBad
    && (forall until :: until >= first ==> HealthyBetween(samples, faultAt, lastBad, until))
    && (InOrder(samples) ==> forall until :: HealthyBetween(samples, faultAt, lastBad, until) ==> first <= until)
  }

  /** The later of the two signals' moments is the verdict's. */
  lemma LaterIsSound(
    first: real, lastBad: real, againA: real, againB: real, traffic: seq<Reading>, cluster: seq<Reading>,
    drill: Drill, now: real)
    requires BadAt(traffic, cluster, drill.faultAt, first) && BadAt(traffic, cluster, drill.faultAt, lastBad)
    requires forall t :: BadAt(traffic, cluster, drill.faultAt, t) ==> first <= t <= lastBad
    requires now - Later(drill.readyAt, lastBad) >= drill.stable
    requires IsFirstAgain(traffic, drill.faultAt, lastBad, againA) &&
        IsFirstAgain(cluster, drill.faultAt, lastBad, againB)
    ensures var v := Verdict(Some(first), Later(againA, againB));
            && IsSound(v, lastBad, traffic, cluster, drill, now)
            && (InOrder(traffic) && InOrder(cluster) ==> IsEarliest(v, lastBad, traffic, cluster, drill))
  {
    hide BadAt, HealthyBetween, InOrder;
  }

  /** By `until`, both signals had been healthy again since `lastBad`. */
  ghost predicate BothHealthy(traffic: seq<Reading>, cluster: seq<Reading>, faultAt: real, lastBad: real, until: real) {
    HealthyBetween(traffic, faultAt, lastBad, until) && HealthyBetween(cluster, faultAt, lastBad, until)
  }

  lemma HealthyAfter(traffic: seq<Reading>, cluster: seq<Reading>, faultAt: real, lastBad: real, samples: seq<Reading>)
    requires samples == traffic || samples == cluster
    requires forall t :: BadAt(traffic, cluster, faultAt, t) ==> t <= lastBad
    ensures forall s <- samples :: s.t >= faultAt && s.t > lastBad ==> s.healthy
  {
    forall s | s in samples && s.t >= faultAt && s.t > lastBad ensures s.healthy {
      if !s.healthy {
        assert BadAt(traffic, cluster, faultAt, s.t);
      }
    }
  }

  /** A signal has been healthy again from its first sample after the last unhealthy one. */
  lemma FirstAgain(samples: seq<Reading>, faultAt: real, lastBad: real)
    requires SomeAfter(From(samples, faultAt), lastBad)
    requires forall s <- samples :: s.t >= faultAt && s.t > lastBad ==> s.healthy
    ensures IsFirstAgain(samples, faultAt, lastBad, FirstAfter(From(samples, faultAt), lastBad))
  {
    hide From, FirstAfter;
    var after := From(samples, faultAt);
    var first := FirstAfter(after, lastBad);
    var s :| s in after && s.t == first;
    assert s in samples && s.healthy;
    if InOrder(samples) {
      FilterInOrder(samples, faultAt);
      FirstAfterIsEarliest(after, lastBad);
      forall until | HealthyBetween(samples, faultAt, lastBad, until) ensures first <= until {
        var h :| h in samples && h.healthy && h.t >= faultAt && lastBad < h.t <= until;
        assert h in after;
      }
    }
  }

  /** No sample of a signal, from the fault on, lies strictly between `a` and `b`. */
  ghost predicate NoneBetween(samples: seq<Reading>, faultAt: real, a: real, b: real) {
    forall s <- samples :: s.t >= faultAt ==> !(a < s.t < b)
  }

  /** The last moment either signal was unhealthy, if any was. */
  ghost predicate IsLastBad(traffic: seq<Reading>, cluster: seq<Reading>, faultAt: real, lastBad: Option<real>) {
    && (lastBad.None? ==> !SomeBad(traffic, cluster, faultAt))
    && (lastBad.Some? ==>
          && BadAt(traffic, cluster, faultAt, lastBad.value)
          && forall t :: BadAt(traffic, cluster, faultAt, t) ==> t <= lastBad.value)
  }

  /** When the quiet window opens: once the command has returned and the last
      unhealthy sample is past. */
  function WindowStart(drill: Drill, lastBad: Option<real>): real {
    if lastBad.None? then drill.readyAt else Later(drill.readyAt, lastBad.value)
  }

  /** How many samples of a signal fall in the quiet window. */
  function CountQuiet(samples: seq<Reading>, drill: Drill, lastBad: Option<real>): nat {
    if samples == [] then 0
    else
      var t := samples[0].t;
      var inside := t >= drill.faultAt && t >= WindowStart(drill, lastBad) && (lastBad.Some? ==> t > lastBad.value);
      (if inside then 1 else 0) + CountQuiet(samples[1..], drill, lastBad)
  }

  lemma {:induction false} SettledIsCounted(samples: seq<Reading>, drill: Drill, lastBad: Option<real>)
    ensures |Settled(From(samples, drill.faultAt), WindowStart(drill, lastBad), lastBad)| ==
        CountQuiet(samples, drill, lastBad)
  {
    if samples != [] {
      SettledIsCounted(samples[1..], drill, lastBad);
      var kept := if samples[0].t >= drill.faultAt then [samples[0]] else [];
      SettledConcat(kept, From(samples[1..], drill.faultAt), WindowStart(drill, lastBad), lastBad);
    }
  }

  /** There is a verdict exactly when the expected disruption was seen, the quiet
      window has lasted, and it holds three samples of each signal. */
  lemma RecoveredExactly(traffic: seq<Reading>, cluster: seq<Reading>, drill: Drill, now: real, lastBad: Option<real>)
    requires IsLastBad(traffic, cluster, drill.faultAt, lastBad)
    ensures Recovered(traffic, cluster, drill, now).Some? <==>
            && (drill.expectDisruption ==> lastBad.Some?)
            && now - WindowStart(drill, lastBad) >= drill.stable
            && CountQuiet(traffic, drill, lastBad) >= 3 && CountQuiet(cluster, drill, lastBad) >= 3
  {
    hide From, BadTimes, Settled, FirstAfter, Least, Greatest, CountQuiet, BadAt;
    var unhealthy := BadTimes(From(traffic, drill.faultAt)) + BadTimes(From(cluster, drill.faultAt));
    if lastBad.Some? {
      UnhealthyBounds(traffic, cluster, drill.faultAt);
    } else if unhealthy != [] {
      UnhealthyTimes(traffic, cluster, drill.faultAt, unhealthy[0]);
    }
    SettledIsCounted(traffic, drill, lastBad);
    SettledIsCounted(cluster, drill, lastBad);
  }

  // A sound verdict is the earliest exactly when one of the signals has no sample
  // between the last unhealthy one and it.
  lemma EarliestIffNoneBetween(
    v: Verdict, lastBad: real, traffic: seq<Reading>, cluster: seq<Reading>, drill: Drill, now: real)
    requires IsSound(v, lastBad, traffic, cluster, drill, now)
    ensures IsEarliest(v, lastBad, traffic, cluster, drill) <==>
            || NoneBetween(traffic, drill.faultAt, lastBad, v.recovered)
            || NoneBetween(cluster, drill.faultAt, lastBad, v.recovered)
  {
    HealthyAfter(traffic, cluster, drill.faultAt, lastBad, traffic);
    HealthyAfter(traffic, cluster, drill.faultAt, lastBad, cluster);
    if !NoneBetween(traffic, drill.faultAt, lastBad, v.recovered) &&
        !NoneBetween(cluster, drill.faultAt, lastBad, v.recovered) {
      var s :| s in traffic && s.t >= drill.faultAt && lastBad < s.t < v.recovered;
      var c :| c in cluster && c.t >= drill.faultAt && lastBad < c.t < v.recovered;
      var until := Later(s.t, c.t);
      assert HealthyBetween(traffic, drill.faultAt, lastBad, until) &&
          HealthyBetween(cluster, drill.faultAt, lastBad, until);
      assert BothHealthy(traffic, cluster, drill.faultAt, lastBad, until);
    }
  }

  // When the verdict is the earliest moment.

  /** The first listed sample of a signal after `t` is the earliest of them. */
  ghost predicate ListsEarliestFirst(samples: seq<Reading>, faultAt: real, t: real) {
    SomeAfter(From(samples, faultAt), t) ==> NoneBetween(samples, faultAt, t, FirstAfter(From(samples, faultAt), t))
  }

  /** When a signal is first seen again after `t`, as the samples are listed. */
  ghost function SeenAgain(samples: seq<Reading>, faultAt: real, t: real): real {
    if SomeAfter(From(samples, faultAt), t) then FirstAfter(From(samples, faultAt), t) else t
  }

  /** The verdict is the earliest moment exactly when the signal that is seen again
      last lists the earliest of its samples after the last unhealthy one first. */
  lemma EarliestExactly(traffic: seq<Reading>, cluster: seq<Reading>, drill: Drill, now: real, lastBad: real)
    requires Recovered(traffic, cluster, drill, now).Some?
    requires IsLastBad(traffic, cluster, drill.faultAt, Some(lastBad))
    ensures var again, clusterAgain := SeenAgain(traffic, drill.faultAt, lastBad), SeenAgain(cluster,
        drill.faultAt, lastBad);
            && Recovered(traffic, cluster, drill, now).value.recovered == Later(again, clusterAgain)
            && (IsEarliest(Recovered(traffic, cluster, drill, now).value, lastBad, traffic, cluster, drill) <==>
                  || (again >= clusterAgain && ListsEarliestFirst(traffic, drill.faultAt, lastBad))
                  || (clusterAgain >= again && ListsEarliestFirst(cluster, drill.faultAt, lastBad)))
  {
    hide Recovered, Judge, From, BadTimes, FirstAfter, Least, Greatest, BadAt, HealthyBetween, SomeAfter, InOrder,
        NoneBetween;
    var a, b := From(traffic, drill.faultAt), From(cluster, drill.faultAt);
    UnhealthyBounds(traffic, cluster, drill.faultAt);
    var last := DisruptedVerdict(traffic, cluster, drill, now);
    RecoveredIsJudge(traffic, cluster, drill, now);
    JudgeDisrupted(a, b, BadTimes(a) + BadTimes(b), drill, now);
    EarliestIffNoneBetween(Recovered(traffic, cluster, drill, now).value, lastBad, traffic, cluster, drill, now);
    SameMoment(traffic, drill.faultAt, lastBad);
    SameMoment(cluster, drill.faultAt, lastBad);
  }

  lemma SameMoment(samples: seq<Reading>, faultAt: real, lastBad: real)
    requires SomeAfter(From(samples, faultAt), lastBad)
    ensures var first := FirstAfter(From(samples, faultAt), lastBad);
            forall later :: later > first ==> !NoneBetween(samples, faultAt, lastBad, later)
  {
    hide From, FirstAfter;
    var after := From(samples, faultAt);
    var s :| s in after && s.t == FirstAfter(after, lastBad);
    assert s in samples;
  }

  /** Samples listed out of time order can make the verdict late: both signals were
      healthy again at 5, and it says 9. */
  lemma OutOfOrderIsLate()
    ensures Recovered(LATE_TRAFFIC, LATE_CLUSTER, LATE_DRILL, 20.0).Some?
    ensures var v := Recovered(LATE_TRAFFIC, LATE_CLUSTER, LATE_DRILL, 20.0).value;
            && v.recovered == 9.0
            && BothHealthy(LATE_TRAFFIC, LATE_CLUSTER, LATE_DRILL.faultAt, 1.0, 5.0)
            && !IsEarliest(v, 1.0, LATE_TRAFFIC, LATE_CLUSTER, LATE_DRILL)
  {
    hide Recovered, Judge, From, CountQuiet, IsLastBad, SeenAgain, ListsEarliestFirst, FirstAfter, SomeAfter;
    LateBad();
    LateCounts();
    RecoveredExactly(LATE_TRAFFIC, LATE_CLUSTER, LATE_DRILL, 20.0, Some(1.0));
    EarliestExactly(LATE_TRAFFIC, LATE_CLUSTER, LATE_DRILL, 20.0, 1.0);
    LateAgain();
    assert LATE_TRAFFIC[2] in LATE_TRAFFIC && LATE_CLUSTER[1] in LATE_CLUSTER;
  }

  const LATE_TRAFFIC: seq<Reading> := [Reading(1.0, false), Reading(9.0, true), Reading(5.0, true), Reading(6.0, true)]
  const LATE_CLUSTER: seq<Reading> := [Reading(9.0, true), Reading(5.0, true), Reading(6.0, true)]
  const LATE_DRILL: Drill := Drill(0.0, 0.0, 1.0, true)

  lemma LateBad()
    ensures IsLastBad(LATE_TRAFFIC, LATE_CLUSTER, 0.0, Some(1.0))
  {
    assert LATE_TRAFFIC[0] in LATE_TRAFFIC;
  }

  lemma LateCounts()
    ensures CountQuiet(LATE_TRAFFIC, LATE_DRILL, Some(1.0)) == 3 && CountQuiet(LATE_CLUSTER, LATE_DRILL, Some(1.0)) == 3
  {
    assert LATE_TRAFFIC[1..] == LATE_CLUSTER;
    assert LATE_CLUSTER[1..] == [Reading(5.0, true), Reading(6.0, true)];
    assert LATE_CLUSTER[1..][1..] == [Reading(6.0, true)];
    assert LATE_CLUSTER[1..][1..][1..] == [];
  }

  lemma LateAgain()
    ensures SeenAgain(LATE_TRAFFIC, 0.0, 1.0) == SeenAgain(LATE_CLUSTER, 0.0, 1.0) == 9.0
  {
    FromAll(LATE_TRAFFIC, 0.0);
    FromAll(LATE_CLUSTER, 0.0);
    hide From;
    assert LATE_TRAFFIC[1] in LATE_TRAFFIC && LATE_CLUSTER[0] in LATE_CLUSTER;
    FirstAfterUnfolds(LATE_TRAFFIC, 1.0);
    FirstAfterUnfolds(LATE_CLUSTER, 1.0);
    hide FirstAfter;
    assert LATE_TRAFFIC[1..] == LATE_CLUSTER;
  }

  lemma FirstAfterUnfolds(samples: seq<Reading>, t: real)
    requires SomeAfter(samples, t)
    ensures samples[0].t <= t ==> SomeAfter(samples[1..], t)
    ensures FirstAfter(samples, t) == if samples[0].t > t then samples[0].t else FirstAfter(samples[1..], t)
  {
    var s :| s in samples && s.t > t;
    assert s == samples[0] || s in samples[1..];
  }

  lemma {:induction false} FromAll(samples: seq<Reading>, t: real)
    requires forall s <- samples :: s.t >= t
    ensures From(samples, t) == samples
  {
    if samples != [] {
      FromAll(samples[1..], t);
      assert samples == [samples[0]] + samples[1..] && samples[0] in samples;
    }
  }

  /** `recovery`, over traffic readings and cluster samples. */
  function RecoveredCluster(
    traffic: seq<Reading>, samples: seq<ClusterSample>, replicas: int, accepted: set<string>, drill: Drill, now: real)
    : Option<Verdict>
  {
    Recovered(traffic, ReadingsOf(samples, replicas, accepted), drill, now)
  }

  /** Once a disruption is over, every cluster sample has all its replicas ready
      and runs only accepted digests, if any were named. */
  lemma ClusterAfterVerdict(
    traffic: seq<Reading>, samples: seq<ClusterSample>, replicas: int, accepted: set<string>, drill: Drill, now: real)
    returns (lastBad: real)
    requires RecoveredCluster(traffic, samples, replicas, accepted, drill, now).Some?
    requires SomeBad(traffic, ReadingsOf(samples, replicas, accepted), drill.faultAt)
    ensures lastBad < RecoveredCluster(traffic, samples, replicas, accepted, drill, now).value.recovered
    ensures forall s <- samples :: s.t >= drill.faultAt && s.t > lastBad ==>
              !s.failed && s.pods == replicas && s.ready == replicas && (accepted != {} ==> s.digests <= accepted)
  {
    hide Recovered;
    var cluster := ReadingsOf(samples, replicas, accepted);
    lastBad := DisruptedVerdict(traffic, cluster, drill, now);
    HealthyAfter(traffic, cluster, drill.faultAt, lastBad, cluster);
    forall s | s in samples && s.t >= drill.faultAt && s.t > lastBad ensures ClusterHealthy(s, replicas, accepted) {
      var i :| 0 <= i < |samples| && samples[i] == s;
      assert cluster[i] in cluster;
    }
  }

  /** What makes a sample of the cluster unhealthy. */
  ghost predicate IsBadSample(s: ClusterSample, replicas: int, accepted: set<string>) {
    || s.failed || s.pods != replicas || s.ready != replicas
    || (accepted != {} && exists digest <- s.digests :: digest !in accepted)
  }

  /** The unhealthy readings are those of the bad samples, at their times. */
  lemma BadReadings(samples: seq<ClusterSample>, replicas: int, accepted: set<string>, t: real)
    ensures Reading(t, false) in ReadingsOf(samples, replicas, accepted) <==>
            exists s <- samples :: s.t == t && IsBadSample(s, replicas, accepted)
    ensures Reading(t, true) in ReadingsOf(samples, replicas, accepted) <==>
            exists s <- samples :: s.t == t && !IsBadSample(s, replicas, accepted)
  {
    var readings := ReadingsOf(samples, replicas, accepted);
    forall i | 0 <= i < |samples|
      ensures readings[i] == Reading(samples[i].t, !IsBadSample(samples[i], replicas, accepted))
    {
    }
    forall s | s in samples ensures Reading(s.t, !IsBadSample(s, replicas, accepted)) in readings {
      var i :| 0 <= i < |samples| && samples[i] == s;
      assert readings[i] in readings;
    }
  }

  // Later healthy samples do not change a verdict.

  predicate AllHealthy(samples: seq<Reading>) { forall s <- samples :: s.healthy }

  lemma {:induction false} FromConcat(a: seq<Reading>, b: seq<Reading>, t: real)
    ensures From(a + b, t) == From(a, t) + From(b, t)
  {
    if a == [] {
      assert a + b == b;
    } else {
      assert (a + b)[1..] == a[1..] + b;
      FromConcat(a[1..], b, t);
    }
  }

  lemma {:induction false} SettledConcat(a: seq<Reading>, b: seq<Reading>, windowStart: real, lastBad: Option<real>)
    ensures Settled(a + b, windowStart, lastBad) == Settled(a, windowStart, lastBad) + Settled(b, windowStart, lastBad)
  {
    if a == [] {
      assert a + b == b;
    } else {
      assert (a + b)[1..] == a[1..] + b;
      SettledConcat(a[1..], b, windowStart, lastBad);
    }
  }

  lemma {:induction false} HealthyAddsNoBadTime(a: seq<Reading>, b: seq<Reading>)
    requires AllHealthy(b)
    ensures BadTimes(a + b) == BadTimes(a)
    decreases |a|, |b|
  {
    if a == [] {
      assert a + b == b;
      if b != [] {
        assert b[0] in b && AllHealthy(b[1..]);
        HealthyAddsNoBadTime([], b[1..]);
        assert [] + b[1..] == b[1..];
      }
    } else {
      assert (a + b)[1..] == a[1..] + b;
      HealthyAddsNoBadTime(a[1..], b);
    }
  }

  lemma {:induction false} FirstAfterStays(a: seq<Reading>, b: seq<Reading>, t: real)
    requires SomeAfter(a, t)
    ensures SomeAfter(a + b, t)
    ensures FirstAfter(a + b, t) == FirstAfter(a, t)
  {
    var s :| s in a && s.t > t;
    assert s in a + b;
    if a[0].t <= t {
      assert s in a[1..] && (a + b)[1..] == a[1..] + b;
      FirstAfterStays(a[1..], b, t);
    }
  }

  /** The samples of one signal that a verdict looks at, extended by healthy ones. */
  lemma ExtendedSignal(samples: seq<Reading>, more: seq<Reading>, faultAt: real)
    requires AllHealthy(more)
    ensures From(samples + more, faultAt) == From(samples, faultAt) + From(more, faultAt)
    ensures BadTimes(From(samples + more, faultAt)) == BadTimes(From(samples, faultAt))
  {
    hide From, BadTimes;
    FromConcat(samples, more, faultAt);
    assert AllHealthy(From(more, faultAt));
    HealthyAddsNoBadTime(From(samples, faultAt), From(more, faultAt));
  }

  /** A verdict is stable: any healthy samples that arrive later, of either
      signal, leave it exactly as it was. */
  lemma VerdictIsStable(
    traffic: seq<Reading>, cluster: seq<Reading>, moreTraffic: seq<Reading>, moreCluster: seq<Reading>,
    drill: Drill, now: real, later: real)
    requires Recovered(traffic, cluster, drill, now).Some? && later >= now
    requires AllHealthy(moreTraffic) && AllHealthy(moreCluster)
    ensures Recovered(traffic + moreTraffic, cluster + moreCluster, drill, later) ==
        Recovered(traffic, cluster, drill, now)
  {
    ExtendedSignal(traffic, moreTraffic, drill.faultAt);
    ExtendedSignal(cluster, moreCluster, drill.faultAt);
    var a, b := From(traffic, drill.faultAt), From(cluster, drill.faultAt);
    hide From, BadTimes, Judge, AllHealthy;
    JudgeIsStable(a, b, From(moreTraffic, drill.faultAt), From(moreCluster, drill.faultAt),
                  BadTimes(a) + BadTimes(b), drill, now, later);
  }

  lemma JudgeIsStable(
    a: seq<Reading>, b: seq<Reading>, moreA: seq<Reading>, moreB: seq<Reading>, unhealthy: seq<real>,
    drill: Drill, now: real, later: real)
    requires Judge(a, b, unhealthy, drill, now).Some? && later >= now
    ensures Judge(a + moreA, b + moreB, unhealthy, drill, later) == Judge(a, b, unhealthy, drill, now)
  {
    hide FirstAfter, Least, Greatest, Settled;
    var lastBad := if unhealthy == [] then None else Some(Greatest(unhealthy));
    var windowStart := if unhealthy == [] then drill.readyAt else Later(drill.readyAt, Greatest(unhealthy));
    SettledConcat(a, moreA, windowStart, lastBad);
    SettledConcat(b, moreB, windowStart, lastBad);
    if unhealthy != [] {
      JudgeDisrupted(a, b, unhealthy, drill, now);
      FirstAfterStays(a, moreA, lastBad.value);
      FirstAfterStays(b, moreB, lastBad.value);
    }
  }

  // The longest outage.

  /** A whole outage: from the first unhealthy sample of a run to the healthy
      sample that ends it, or to the last sample. */
  predicate IsOutage(samples: seq<Reading>, i: int, j: int) {
    && 0 <= i <= j < |samples| && !samples[i].healthy && (i == 0 || samples[i - 1].healthy)
    && (forall k :: i <= k < j ==> !samples[k].healthy)
    && (samples[j].healthy || j == |samples| - 1)
  }

  function Duration(samples: seq<Reading>, i: int, j: int): real
    requires 0 <= i < |samples| && 0 <= j < |samples|
  {
    samples[j].t - samples[i].t
  }

  /** Python's `round(x, 3)`: the nearest thousandth, the even one on a tie. */
  function RoundMillis(x: real): (r: real)
    ensures x - 0.0005 <= r <= x + 0.0005
  {
    Thousandths(x) as real / 1000.0
  }

  function Thousandths(x: real): (n: int)
    ensures 1000.0 * x - 0.5 <= n as real <= 1000.0 * x + 0.5
    ensures n as real == 1000.0 * x - 0.5 || n as real == 1000.0 * x + 0.5 ==> n % 2 == 0
  {
    var below := (1000.0 * x).Floor;
    var part := 1000.0 * x - below as real;
    if part < 0.5 || (part == 0.5 && below % 2 == 0) then below else below + 1
  }

  lemma RoundMonotone(x: real, y: real)
    requires x <= y
    ensures RoundMillis(x) <= RoundMillis(y)
  {
    hide Thousandths;
    if x < y {
      Below(Thousandths(x), Thousandths(y), x, y);
    }
  }

  lemma Below(m: int, n: int, x: real, y: real)
    requires x < y && m as real <= 1000.0 * x + 0.5 && 1000.0 * y - 0.5 <= n as real
    ensures m <= n
  {
    assert m as real < (n + 1) as real;
  }

  /** `longest_outage`: the longest time an outage lasted, rounded to a millisecond,
      and zero without one. */
  method LongestOutage(samples: seq<Reading>) returns (r: real)
    ensures r >= 0.0
    ensures forall i, j :: IsOutage(samples, i, j) ==> RoundMillis(Duration(samples, i, j)) <= r
    ensures r == 0.0 || exists i, j :: IsOutage(samples, i, j) && RoundMillis(Duration(samples, i, j)) == r
  {
    hide RoundMillis;
    var longest := LongestRun(samples);
    r := RoundMillis(longest);
    RoundMonotone(0.0, longest);
    RoundZero();
    forall i, j | IsOutage(samples, i, j) ensures RoundMillis(Duration(samples, i, j)) <= r {
      RoundMonotone(Duration(samples, i, j), longest);
    }
  }

  lemma RoundZero()
    ensures RoundMillis(0.0) == 0.0
  {
  }

  /** The loop of `longest_outage`, before rounding. */
  method LongestRun(samples: seq<Reading>) returns (longest: real)
    ensures longest >= 0.0
    ensures forall i, j :: IsOutage(samples, i, j) ==> Duration(samples, i, j) <= longest
    ensures longest == 0.0 || exists i, j :: IsOutage(samples, i, j) && Duration(samples, i, j) == longest
  {
    longest := 0.0;
    var started: Option<real> := None;
    ghost var start := 0;
    for n := 0 to |samples|
      invariant longest >= 0.0
      invariant started.Some? ==>
                  && 0 <= start < n && started.value == samples[start].t && (start == 0 || samples[start - 1].healthy)
                  && forall k :: start <= k < n ==> !samples[k].healthy
      invariant started.None? ==> n == 0 || samples[n - 1].healthy
      invariant forall i, j :: IsOutage(samples, i, j) && j < n ==>
                  Duration(samples, i, j) <= longest || (started.Some? && i == start && j == |samples| - 1)
      invariant longest == 0.0 || exists i, j :: IsOutage(samples, i, j) && Duration(samples, i, j) == longest
    {
      var sample := samples[n];
      ghost var before := longest;
      if !sample.healthy && started.None? {
        started, start := Some(sample.t), n;
      } else if sample.healthy && started.Some? {
        assert IsOutage(samples, start, n);
        longest, started := Later(longest, sample.t - started.value), None;
        assert longest == before || longest == Duration(samples, start, n);
      }
    }
    if started.Some? && samples != [] {
      var last := |samples| - 1;
      assert IsOutage(samples, start, last);
      ghost var before := longest;
      longest := Later(longest, samples[last].t - started.value);
      assert longest == before || longest == Duration(samples, start, last);
    }
  }
}
