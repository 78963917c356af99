/** What the trace of a run says of the directory: whatever the steps' fates and
    the acts of others, who changed what. */
module BackupTrace {
  import opened Results
  import opened BackupWorld

  /** Others never act on this name. */
  ghost predicate KeepOff(course: seq<Turn>, name: Name) {
    forall turn <- course :: ActsKeepOff(turn.others, name)
  }

  predicate ActsKeepOff(acts: seq<Act>, name: Name) { forall act <- acts :: act.name != name }

  /** Others put something there at some step. */
  ghost predicate Puts(course: seq<Turn>, name: Name) {
    exists turn <- course :: SomePut(turn.others, name)
  }

  predicate SomePut(acts: seq<Act>, name: Name) { exists act <- acts :: act.Put? && act.name == name }

  /** Nothing of anyone else's changes, and an output that exists is left as it is. */
  ghost predicate Respects(s: Step) {
    IsRespectful(s) && (Output in s.met ==> LeavesOutput(s))
  }

  lemma {:induction false} ActedAt(files: Files, acts: seq<Act>, owned: set<Name>, name: Name)
    ensures ActsKeepOff(acts, name) ==> At(Acted(files, acts, owned), name) == At(files, name)
    ensures name in Acted(files, acts, owned) && name !in files ==> SomePut(acts, name)
    decreases |acts|
  {
    if acts != [] {
      var n := |acts| - 1;
      ActedAt(files, acts[..n], owned, name);
      assert acts[n] in acts && forall act <- acts[..n] :: act in acts;
    }
  }

  lemma TurnIn(course: seq<Turn>, i: nat, name: Name)
    ensures KeepOff(course, name) ==> ActsKeepOff(TurnAt(course, i).others, name)
    ensures SomePut(TurnAt(course, i).others, name) ==> Puts(course, name)
  {
    assert i < |course| ==> course[i] in course;
  }

  lemma StepRespects(s: Step)
    requires IsStep(s) && forall name <- s.owned :: name.Hidden?
    ensures Respects(s)
  {
    hide Acted;
  }

  /** In every run, every step changes nothing but this process's own names and adds
      nothing but hidden names and, where there is none, the output. */
  lemma {:induction false} EveryStepRespects(
    steps: seq<Step>, course: seq<Turn>, start: Files, files: Files, owned: set<Name>)
    requires IsTrace(steps, course, start, files, owned)
    ensures forall name <- owned :: name.Hidden?
    ensures forall i :: 0 <= i < |steps| ==> Respects(steps[i])
    decreases |steps|
  {
    if steps != [] {
      var n := |steps| - 1;
      EveryStepRespects(steps[..n], course, start, steps[n].before, steps[n].owned);
      StepRespects(steps[n]);
      hide Respects, Acted, Effect;
      forall i | 0 <= i < |steps| ensures Respects(steps[i]) {
        if i < n {
          assert steps[..n][i] == steps[i];
        }
      }
    }
  }

  /** A stop is that of a step. */
  lemma {:induction false} StopIsAStep(steps: seq<Step>)
    ensures LastStop(steps).Some? ==> exists s <- steps :: StopOf(s) == LastStop(steps)
    decreases |steps|
  {
    hide StopOf;
    if steps != [] {
      var n := |steps| - 1;
      StopIsAStep(steps[..n]);
      assert steps[n] in steps && forall s <- steps[..n] :: s in steps;
    }
  }

  lemma {:induction false} FailedRemovalsAre(steps: seq<Step>, name: Name)
    ensures name in FailedRemovals(steps) <==> exists s <- steps :: FailsToRemove(s, name)
    decreases |steps|
  {
    if steps != [] {
      var n := |steps| - 1;
      FailedRemovalsAre(steps[..n], name);
      assert forall s :: s in steps <==> s in steps[..n] || s == steps[n];
      assert FailsToRemove(steps[n], name) ==> steps[n] in steps;
    }
  }

  /** From step `k` on only others can change the output, unless a step links it. */
  lemma {:induction false} OutputSince(
    steps: seq<Step>, course: seq<Turn>, start: Files, files: Files, owned: set<Name>, k: nat)
    requires IsTrace(steps, course, start, files, owned) && k <= |steps|
    requires forall i :: k <= i < |steps| ==> LeavesOutput(steps[i])
    ensures KeepOff(course, Output) ==>
              At(files, Output) == if k == 0 then At(start, Output) else At(steps[k - 1].after, Output)
    ensures k == 0 && Output in files ==> Output in start || Puts(course, Output)
    decreases |steps|
  {
    if k < |steps| {
      var n := |steps| - 1;
      var last := steps[n];
      OutputSince(steps[..n], course, start, last.before, last.owned, k);
      ActedAt(last.before, last.turn.others, last.owned, Output);
      TurnIn(course, n, Output);
      assert LeavesOutput(last);
    }
  }

  /** Where no step links the output, one that stops the run was there at the start
      or was put there by others. */
  lemma {:induction false} SeenOutputWasThere(
    steps: seq<Step>, course: seq<Turn>, start: Files, files: Files, owned: set<Name>)
    requires IsTrace(steps, course, start, files, owned) && Quietly([], steps)
    requires LastStop(steps) == Some(OutputSeen)
    ensures Output in start || Puts(course, Output)
    decreases |steps|
  {
    var n := |steps| - 1;
    var last := steps[n];
    if StopOf(last).Some? {
      OutputSince(steps[..n], course, start, last.before, last.owned, 0);
      ActedAt(last.before, last.turn.others, last.owned, Output);
      TurnIn(course, n, Output);
    } else {
      SeenOutputWasThere(steps[..n], course, start, last.before, last.owned);
    }
  }

  /** What a step does to a hidden name: only creating one that is absent, or an own
      one, changes it, and it is absent again once it is no longer owned. */
  lemma HiddenStep(s: Step, name: Name)
    requires IsStep(s) && name.Hidden? && forall n <- s.owned :: n.Hidden?
    ensures var owned := Owns(s.kind, s.turn.fate, s.met, s.owned);
            && (name !in s.owned && name !in owned ==> At(s.after, name) == At(s.met, name))
            && (name !in s.owned && name in owned ==> name !in s.met)
            && (name in s.owned && name !in owned ==> name !in s.after)
  {
    hide Acted;
  }

  /** If others leave the hidden names alone, every hidden name this process does not
      still own is as it was at the start, and those it owns were absent then. */
  lemma {:induction false} HiddenNamesRestored(
    steps: seq<Step>, course: seq<Turn>, start: Files, files: Files, owned: set<Name>, name: Name)
    requires IsTrace(steps, course, start, files, owned) && KeepOff(course, name) && name.Hidden?
    ensures if name in owned then name !in start else At(files, name) == At(start, name)
    decreases |steps|
  {
    if steps != [] {
      var n := |steps| - 1;
      var last := steps[n];
      HiddenNamesRestored(steps[..n], course, start, last.before, last.owned, name);
      EveryStepRespects(steps[..n], course, start, last.before, last.owned);
      ActedAt(last.before, last.turn.others, last.owned, name);
      TurnIn(course, n, name);
      HiddenStep(last, name);
    }
  }
}
